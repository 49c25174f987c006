/** Finding a file by its path (fs/ext2.c:56-111, 179-280, core/syscall.c:49-58). */
module PathLookup {
  import opened Bits
  import opened Wrappers
  import opened Disk
  import opened Strings
  import opened Directory

  const SLASH: byte := 47
  const ROOT_INO := 2
  const S_IFDIR := 0x4000
  const ENOTDIR := 20
  const GROUP_DESC_SIZE := 32
  const INODE_SIZE := 128
  const WRAP := 0x1_0000_0000

  // Inodes on disk.

  /** What the reader uses of the superblock. */
  datatype Fs = Fs(inodesCount: U32, inodesPerGroup: U32, firstDataBlock: U32, inodeSize: nat)

  predicate FsOk(fs: Fs) {
    fs.inodesPerGroup > 0 && fs.inodeSize < 65536
  }

  /** The fields of an ext2_inode in memory. */
  function ParseInode(s: seq<byte>): (r: Inode)
    requires |s| == INODE_SIZE
    ensures IsInode(r)
  {
    Inode(Field(s, 0, 2), U32At(s, 4), seq(15, i requires 0 <= i < 15 => U32At(s, 40 + 4 * i)))
  }

  function GroupOf(fs: Fs, n: U32): nat
    requires FsOk(fs) && n > 0
  {
    (n - 1) / fs.inodesPerGroup
  }

  /** Where inode n is in its group's table. */
  function OffsetOf(fs: Fs, n: U32): nat
    requires FsOk(fs) && n > 0
  {
    (n - 1) % fs.inodesPerGroup * fs.inodeSize
  }

  /** ext2_get_inode, in 32-bit arithmetic. */
  function GetInode(fs: Fs, d: Disk, n: U32): (r: Result<Inode>)
    requires FsOk(fs)
    ensures r.Ok? ==> IsInode(r.value) && r.value.mode != 0
    ensures r.Err? ==> r.code == -1 || r.code == -3 || r.code == -5
  {
    if n == 0 || n > fs.inodesCount then Err(-1)
    else
      var group := GroupOf(fs, n);
      var descPerBlock := BLOCK_SIZE / GROUP_DESC_SIZE;
      var descBlock := ((fs.firstDataBlock + 1) % WRAP + group / descPerBlock) % WRAP;
      var table := U32At(ReadBlock(d, descBlock), group % descPerBlock * GROUP_DESC_SIZE + 8);
      ReadInode(d, table, OffsetOf(fs, n) % WRAP)
  }

  function ReadInode(d: Disk, table: U32, inodeOffset: U32): (r: Result<Inode>)
    ensures r.Ok? ==> IsInode(r.value) && r.value.mode != 0
    ensures r.Err? ==> r.code == -3 || r.code == -5
  {
    var blockOffset := (table + inodeOffset / BLOCK_SIZE) % WRAP;
    var intra := inodeOffset % BLOCK_SIZE;
    if intra + INODE_SIZE > BLOCK_SIZE then Err(-3)
    else
      var ino := ParseInode(ReadBlock(d, blockOffset)[intra..intra + INODE_SIZE]);
      if ino.mode == 0 then Err(-5) else Ok(ino)
  }

  /** n bytes from offset `at` of an array of records that starts at block `start`. */
  function Span(d: Disk, start: nat, at: nat, n: nat): (r: seq<byte>)
    ensures |r| == n
  {
    seq(n, i requires 0 <= i => d(start + (at + i) / BLOCK_SIZE, (at + i) % BLOCK_SIZE))
  }

  lemma SpanInBlock(d: Disk, start: nat, at: nat, n: nat)
    requires at % BLOCK_SIZE + n <= BLOCK_SIZE
    ensures Span(d, start, at, n) == ReadBlock(d, start + at / BLOCK_SIZE)[at % BLOCK_SIZE..at % BLOCK_SIZE + n]
  {
    var r, b := Span(d, start, at, n), ReadBlock(d, start + at / BLOCK_SIZE);
    forall i | 0 <= i < n ensures r[i] == b[at % BLOCK_SIZE + i] {
      SameBlock(at, i);
    }
  }

  /** The start of the inode table of a group: field bg_inode_table of the group's record in the
      descriptor array, which follows the superblock's block. */
  function InodeTable(fs: Fs, d: Disk, group: nat): U32 {
    U32At(Span(d, fs.firstDataBlock + 1, group * GROUP_DESC_SIZE, GROUP_DESC_SIZE), 8)
  }

  /** The group and index arithmetic stays within 32 bits. */
  predicate NoWrap(fs: Fs, d: Disk, n: U32)
    requires FsOk(fs) && n > 0
  {
    && fs.firstDataBlock + 1 + GroupOf(fs, n) / 32 < WRAP && OffsetOf(fs, n) < WRAP
    && InodeTable(fs, d, GroupOf(fs, n)) + OffsetOf(fs, n) / BLOCK_SIZE < WRAP
  }

  /** The inode whose record begins at this offset of a table. */
  function RecordAt(d: Disk, table: U32, at: nat): Result<Inode> {
    var ino := ParseInode(Span(d, table, at, INODE_SIZE));
    if at % BLOCK_SIZE > BLOCK_SIZE - INODE_SIZE then Err(-3) else if ino.mode == 0 then Err(-5) else Ok(ino)
  }

  /** ext2_get_inode reads the record at the inode's place in its group's table, unless there is no such
      inode or the record straddles two blocks. */
  lemma GetInodeReads(fs: Fs, d: Disk, n: U32)
    requires FsOk(fs) && (n > 0 ==> NoWrap(fs, d, n))
    ensures GetInode(fs, d, n) ==
              if n == 0 || n > fs.inodesCount then Err(-1)
              else RecordAt(d, InodeTable(fs, d, GroupOf(fs, n)), OffsetOf(fs, n))
  {
    hide Span;
    hide ReadBlock;
    hide U32At;
    hide GroupOf;
    hide OffsetOf;
    hide RecordAt;
    hide ReadInode;
    hide InodeTable;
    if 0 < n <= fs.inodesCount {
      DescriptorAt(fs, d, GroupOf(fs, n));
      ReadInodeIs(d, InodeTable(fs, d, GroupOf(fs, n)), OffsetOf(fs, n));
    }
  }

  lemma ReadInodeIs(d: Disk, table: U32, at: nat)
    requires at < WRAP && table + at / BLOCK_SIZE < WRAP
    ensures ReadInode(d, table, at) == RecordAt(d, table, at)
  {
    hide ParseInode;
    hide Span;
    hide ReadBlock;
    if at % BLOCK_SIZE <= BLOCK_SIZE - INODE_SIZE {
      SpanInBlock(d, table, at, INODE_SIZE);
    }
  }

  lemma DescriptorAt(fs: Fs, d: Disk, group: nat)
    ensures group % 32 * 32 + 12 <= BLOCK_SIZE
    ensures InodeTable(fs, d, group) == U32At(ReadBlock(d, fs.firstDataBlock + 1 + group / 32), group % 32 * 32 + 8)
  {
    var at := group * 32;
    assert at / BLOCK_SIZE == group / 32 && at % BLOCK_SIZE == group % 32 * 32;
    SpanInBlock(d, fs.firstDataBlock + 1, at, 32);
    var b := ReadBlock(d, fs.firstDataBlock + 1 + group / 32);
    assert b[at % BLOCK_SIZE..at % BLOCK_SIZE + 32][8..12] == b[at % BLOCK_SIZE + 8..at % BLOCK_SIZE + 12];
  }

  lemma Quotient(g: nat, k: nat, m: nat)
    requires k < m
    ensures (g * m + k) / m == g && (g * m + k) % m == k
  {
    var q, r := (g * m + k) / m, (g * m + k) % m;
    assert g * m + k == q * m + r && 0 <= r < m;
    assert (g - q) * m == r - k;
    if q < g {
      AtLeast(g - q, m);
    } else if q > g {
      AtLeast(q - g, m);
    }
  }

  lemma AtLeast(n: nat, m: nat)
    requires n > 0
    ensures n * m >= m
  {
  }

  /** The fields of an inode, byte by byte, from offset o of block b. */
  ghost predicate InodeIs(d: Disk, b: nat, o: nat, ino: Inode) {
    && ino.mode == Le2(d(b, o), d(b, o + 1)) && ino.size == Word(d, b, o + 4)
    && |ino.block| == 15 && forall i | 0 <= i < 15 :: ino.block[i] == Word(d, b, o + 40 + 4 * i)
  }

  lemma ParsedInode(d: Disk, b: nat, o: nat)
    requires o + 128 <= 1024
    ensures InodeIs(d, b, o, ParseInode(ReadBlock(d, b)[o..o + 128]))
  {
    hide Field;
    hide U32At;
    hide Le4;
    hide Le2;
    var s := ReadBlock(d, b)[o..o + 128];
    FieldOf2(s, 0);
    FieldOf4(s, 4);
    forall i | 0 <= i < 15 ensures U32At(s, 40 + 4 * i) == Word(d, b, o + 40 + 4 * i) {
      FieldOf4(s, 40 + 4 * i);
    }
  }

  /** ext2_get_inode, from the bytes on disk and in 32-bit arithmetic: record k of group g is inode
      g * s_inodes_per_group + k + 1. The group's 32-byte descriptor, counted from the block behind the superblock's,
      names in its bytes 8 to 11 the block where the table begins; the record is k records into the table. */
  lemma InodeBytes(fs: Fs, d: Disk, g: nat, k: nat, n: U32)
    requires FsOk(fs) && k < fs.inodesPerGroup && n == g * fs.inodesPerGroup + k + 1 <= fs.inodesCount
    ensures var table := Word(d, (fs.firstDataBlock + 1 + 32 * g / 1024) % 0x1_0000_0000, 32 * g % 1024 + 8);
            var at := k * fs.inodeSize % 0x1_0000_0000;
            var b, o := (table + at / 1024) % 0x1_0000_0000, at % 1024;
            var r := GetInode(fs, d, n);
            if o + 128 > 1024 then r == Err(-3)
            else if Le2(d(b, o), d(b, o + 1)) == 0 then r == Err(-5)
            else r.Ok? && InodeIs(d, b, o, r.value)
  {
    hide ParseInode;
    hide InodeIs;
    hide U32At;
    hide Le4;
    hide Le2;
    Quotient(g, k, fs.inodesPerGroup);
    assert GroupOf(fs, n) == g && OffsetOf(fs, n) == k * fs.inodeSize;
    DescriptorPlace(fs.firstDataBlock + 1, g);
    var descBlock := (fs.firstDataBlock + 1 + g / 32) % 0x1_0000_0000;
    FieldOf4(ReadBlock(d, descBlock), g % 32 * 32 + 8);
    var table := Word(d, descBlock, g % 32 * 32 + 8);
    var at := k * fs.inodeSize % 0x1_0000_0000;
    var b, o := (table + at / 1024) % 0x1_0000_0000, at % 1024;
    if o + 128 <= 1024 {
      ParsedInode(d, b, o);
      InodeMode(d, b, o, ParseInode(ReadBlock(d, b)[o..o + 128]));
    }
  }

  lemma DescriptorPlace(first: nat, g: nat)
    ensures 32 * g / 1024 == g / 32 && 32 * g % 1024 == g % 32 * 32
    ensures (first % WRAP + g / 32) % WRAP == (first + g / 32) % 0x1_0000_0000
  {
  }

  lemma InodeMode(d: Disk, b: nat, o: nat, ino: Inode)
    requires InodeIs(d, b, o, ino)
    ensures ino.mode == Le2(d(b, o), d(b, o + 1))
  {
  }

  /** With a record size that divides the block, no inode straddles two blocks. */
  lemma NeverStraddles(fs: Fs, d: Disk, n: U32)
    requires FsOk(fs) && fs.inodeSize in {128, 256, 512, 1024}
    ensures GetInode(fs, d, n) != Err(-3)
  {
    if 1 <= n <= fs.inodesCount {
      Aligned((n - 1) % fs.inodesPerGroup, fs.inodeSize);
    }
  }

  lemma Aligned(index: nat, size: nat)
    requires size in {128, 256, 512, 1024}
    ensures index * size % WRAP % BLOCK_SIZE + 128 <= BLOCK_SIZE
  {
    if size == 128 {
      Multiple(index);
    } else if size == 256 {
      Multiple(2 * index);
    } else if size == 512 {
      Multiple(4 * index);
    } else {
      Multiple(8 * index);
    }
  }

  lemma Multiple(index: nat)
    ensures index * 128 % WRAP % BLOCK_SIZE + 128 <= BLOCK_SIZE
  {
    assert index * 128 % WRAP == index % 0x200_0000 * 128;
    var r := index % 0x200_0000;
    assert r * 128 % BLOCK_SIZE == r % 8 * 128;
  }

  // Paths as lists of names.

  function FirstSlash(s: seq<byte>): (k: nat)
    ensures k <= |s| && SLASH !in s[..k] && (k < |s| ==> s[k] == SLASH)
  {
    if s == [] || s[0] == SLASH then 0 else 1 + FirstSlash(s[1..])
  }

  /** The non-empty stretches between slashes. */
  function Components(s: seq<byte>): seq<seq<byte>> {
    if s == [] then []
    else if s[0] == SLASH then Components(s[1..])
    else [s[..FirstSlash(s)]] + Components(s[FirstSlash(s)..])
  }

  /** A component longer than a name can be is taken in pieces. */
  function Chunks(c: seq<byte>): seq<seq<byte>> {
    if |c| <= NAME_LEN then [c] else [c[..NAME_LEN]] + Chunks(c[NAME_LEN..])
  }

  function Flatten(cs: seq<seq<byte>>): seq<seq<byte>> {
    if cs == [] then [] else Chunks(cs[0]) + Flatten(cs[1..])
  }

  /** The names a path is looked up by. */
  function Tokens(s: seq<byte>): seq<seq<byte>> {
    Flatten(Components(s))
  }

  lemma {:induction false} FlattenCat(a: seq<seq<byte>>, b: seq<seq<byte>>)
    ensures Flatten(a + b) == Flatten(a) + Flatten(b)
  {
    if a == [] {
      assert a + b == b;
    } else {
      FlattenCat(a[1..], b);
      assert (a + b)[1..] == a[1..] + b;
      assert Chunks(a[0]) + (Flatten(a[1..]) + Flatten(b)) == (Chunks(a[0]) + Flatten(a[1..])) + Flatten(b);
    }
  }

  lemma {:induction false} FirstSlashIs(s: seq<byte>, k: nat)
    requires k <= |s| && SLASH !in s[..k] && (k < |s| ==> s[k] == SLASH)
    ensures FirstSlash(s) == k
  {
    if k > 0 {
      assert s[0] in s[..k];
      assert s[1..][..k - 1] == s[..k][1..];
      FirstSlashIs(s[1..], k - 1);
    }
  }

  lemma {:induction false} FirstSlashBeyond(s: seq<byte>, len: nat)
    requires len <= |s| && SLASH !in s[..len]
    ensures FirstSlash(s) >= len
  {
    if len > 0 {
      assert s[0] in s[..len];
      assert s[1..][..len - 1] == s[..len][1..];
      FirstSlashBeyond(s[1..], len - 1);
    }
  }

  lemma {:induction false} ComponentsCat(p: seq<byte>, q: seq<byte>)
    ensures Components(p + [SLASH] + q) == Components(p) + Components(q)
    decreases |p|
  {
    var s := p + [SLASH] + q;
    if p == [] {
      assert s[1..] == q;
    } else if p[0] == SLASH {
      assert s[1..] == p[1..] + [SLASH] + q;
      ComponentsCat(p[1..], q);
    } else {
      var k := FirstSlash(p);
      assert s[..k] == p[..k];
      FirstSlashIs(s, k);
      assert s[k..] == p[k..] + [SLASH] + q;
      ComponentsCat(p[k..], q);
    }
  }

  /** Tokenising is a homomorphism from paths joined by a slash to lists joined end to end. */
  lemma TokensCat(p: seq<byte>, q: seq<byte>)
    ensures Tokens(p + [SLASH] + q) == Tokens(p) + Tokens(q)
  {
    ComponentsCat(p, q);
    FlattenCat(Components(p), Components(q));
  }

  /** A piece of a longer stretch leaves the stretch's rest. */
  lemma NextPiece(s: seq<byte>, k: nat)
    requires k == FirstSlash(s) && 255 < k
    ensures Components(s[255..]) == [s[..k][255..]] + Components(s[k..])
  {
    var t := s[255..];
    assert t[0] == s[..k][255];
    assert t[..k - 255] == s[..k][255..];
    FirstSlashIs(t, k - 255);
    assert t[k - 255..] == s[k..];
  }

  /** Taking a name off the front: up to a slash, the end, or 255 characters. */
  lemma NextToken(s: seq<byte>, len: nat)
    requires 0 < len <= |s| && len <= 255 && 47 !in s[..len]
    requires len == |s| || s[len] == 47 || len == 255
    ensures Tokens(s) == [s[..len]] + Tokens(s[len..])
  {
    hide FirstSlash;
    var k := FirstSlash(s);
    FirstSlashBeyond(s, len);
    assert s[0] in s[..len];
    if k > len {
      Reaches255(s, len, k);
      NextPiece(s, k);
      PieceFlattens(s[..k], Components(s[k..]));
      assert s[..k][..255] == s[..255];
    } else {
      WholeFlattens(s[..len], Components(s[len..]));
    }
  }

  lemma Reaches255(s: seq<byte>, len: nat, k: nat)
    requires len < k <= |s| && 47 !in s[..k] && (s[len] == 47 || len == 255)
    ensures len == 255
  {
    assert s[len] in s[..k];
  }

  lemma PieceFlattens(c: seq<byte>, rest: seq<seq<byte>>)
    requires |c| > 255
    ensures Flatten([c] + rest) == [c[..255]] + Flatten([c[255..]] + rest)
  {
    assert ([c] + rest)[1..] == rest && ([c[255..]] + rest)[1..] == rest;
  }

  lemma WholeFlattens(c: seq<byte>, rest: seq<seq<byte>>)
    requires |c| <= 255
    ensures Flatten([c] + rest) == [c] + Flatten(rest)
  {
    assert ([c] + rest)[1..] == rest;
  }

  lemma TokensSkip(s: seq<byte>)
    requires s != [] && s[0] == SLASH
    ensures Tokens(s) == Tokens(s[1..])
  {
  }

  lemma TokensNone()
    ensures Tokens([]) == []
  {
  }

  /** A character of a string whose NUL follows it. */
  function CharAt(path: seq<byte>, p: nat): byte
    requires p <= |path|
  {
    if p < |path| then path[p] else 0
  }

  /** parse_path_component: the next name of the path, NUL-terminated, and where the rest begins. */
  method ParsePathComponent(path: seq<byte>, at: nat, name: array<byte>) returns (next: nat, len: nat)
    requires 0 !in path && at <= |path| && name.Length == NAME_LEN + 1
    modifies name
    ensures at <= next <= |path| && len <= NAME_LEN && 0 !in name[..len] && name[len] == 0
    ensures len == 0 ==> next == |path| && Tokens(path[at..]) == []
    ensures len > 0 ==> next > at && Tokens(path[at..]) == [name[..len]] + Tokens(path[next..])
  {
    hide Tokens;
    assert forall i | 0 <= i < |path| :: path[i] != 0;
    var p := at;
    while CharAt(path, p) == SLASH
      invariant at <= p <= |path| && Tokens(path[at..]) == Tokens(path[p..])
      decreases |path| - p
    {
      TokensSkip(path[p..]);
      assert path[p..][1..] == path[p + 1..];
      p := p + 1;
    }
    ghost var start := p;
    len := 0;
    while CharAt(path, p) != 0 && CharAt(path, p) != SLASH && len < NAME_LEN
      invariant p == start + len <= |path| && len <= NAME_LEN
      invariant name[..len] == path[start..p] && SLASH !in path[start..p]
      decreases |path| - p
    {
      name[len] := path[p];
      len, p := len + 1, p + 1;
    }
    name[len] := 0;
    next := p;
    assert name[..len] == path[start..][..len];
    if len > 0 {
      NextToken(path[start..], len);
      assert path[start..][len..] == path[next..];
    } else {
      assert path[start..] == [];
      TokensNone();
    }
  }

  // Lookup.

  predicate IsDir(ino: Inode) {
    And(ino.mode, S_IFDIR) != 0
  }

  /** The directory test looks at one bit of the mode. */
  lemma IsDirBit(ino: Inode)
    ensures IsDir(ino) <==> ino.mode / 0x4000 % 2 == 1
  {
    hide And;
    var m := ino.mode;
    AndField(m, 14, 1);
    assert Ones(1) == 1;
    Shl14(1);
    ShrDiv14(m);
    LowOne(Shr(m, 14));
    Shl14(m / 0x4000 % 2);
  }

  lemma LowOne(x: nat)
    ensures Low(x, 1) == x % 2
  {
    assert Low(x / 2, 0) == 0;
  }

  /** The file type is the mode's top four bits, and 4 is a directory. The test agrees with the type
      exactly when the type is none of 5, 6 (block device), 7, 12 (socket) and 13 to 15. */
  lemma IsDirExactly(ino: Inode)
    requires ino.mode < 0x1_0000
    ensures var kind := ino.mode / 0x1000;
            (IsDir(ino) <==> kind == 4) <==> kind !in {5, 6, 7, 12, 13, 14, 15}
  {
    hide IsDir;
    IsDirBit(ino);
    var kind := ino.mode / 0x1000;
    assert ino.mode / 0x4000 == kind / 4;
  }

  /** A block device passes for a directory. */
  lemma BlockDeviceIsDir(ino: Inode)
    requires ino.mode / 0x1000 == 6
    ensures IsDir(ino)
  {
    hide IsDir;
    IsDirBit(ino);
    assert ino.mode / 0x4000 == ino.mode / 0x1000 / 4;
  }

  /** A directory in which the search for this name comes to an end, or no directory, or an error. */
  ghost predicate Usable(d: Disk, r: Result<Inode>, name: seq<byte>) {
    r.Ok? ==> IsInode(r.value) && (IsDir(r.value) ==> SearchableDir(d, r.value.block, name))
  }

  /** One name further down; errors stay. */
  ghost function Descend(fs: Fs, d: Disk, r: Result<Inode>, name: seq<byte>): (r': Result<Inode>)
    requires FsOk(fs) && Usable(d, r, name)
    ensures r'.Ok? ==> IsInode(r'.value)
  {
    if r.Err? then r
    else if !IsDir(r.value) then Err(-ENOTDIR)
    else match SearchDir(d, r.value.block, name)
      case None => Err(-1)
      case Some(n) => GetInode(fs, d, n)
  }

  /** On the way down these names every search comes to an end. Nothing is asked of other directories,
      nor of what a directory holds behind the name. */
  ghost predicate Walks(fs: Fs, d: Disk, r: Result<Inode>, names: seq<seq<byte>>)
    decreases |names|
  {
    && FsOk(fs)
    && (names == [] || (Usable(d, r, names[0]) && Walks(fs, d, Descend(fs, d, r, names[0]), names[1..])))
  }

  ghost function Walk(fs: Fs, d: Disk, r: Result<Inode>, names: seq<seq<byte>>): (r': Result<Inode>)
    requires Walks(fs, d, r, names)
    decreases |names|
  {
    if names == [] then r else Walk(fs, d, Descend(fs, d, r, names[0]), names[1..])
  }

  ghost predicate Resolvable(fs: Fs, d: Disk, path: seq<byte>) {
    FsOk(fs) && Walks(fs, d, GetInode(fs, d, ROOT_INO), Tokens(path))
  }

  /** Every directory is laid out as the format asks: its blocks can be walked. */
  ghost predicate Tidy(fs: Fs, d: Disk) {
    FsOk(fs) && forall n: U32 :: TidyInode(d, GetInode(fs, d, n))
  }

  ghost predicate TidyInode(d: Disk, r: Result<Inode>) {
    r.Ok? && IsDir(r.value) ==> IsInode(r.value) && Readable(d, r.value.block)
  }

  /** On such a file system every path can be looked up. */
  lemma {:induction false} TidyWalks(fs: Fs, d: Disk, r: Result<Inode>, names: seq<seq<byte>>)
    requires Tidy(fs, d) && TidyInode(d, r) && (r.Ok? ==> IsInode(r.value))
    ensures Walks(fs, d, r, names)
    decreases |names|
  {
    hide IsDir;
    hide GetInode;
    if names != [] {
      if r.Ok? && IsDir(r.value) { SearchDirFinds(d, r.value.block, names[0]); }
      TidyWalks(fs, d, Descend(fs, d, r, names[0]), names[1..]);
    }
  }

  // What a walk comes to, said by listings alone.

  /** Entry k is the first of this name. */
  ghost predicate FirstNamed(es: seq<DirEntry>, name: seq<byte>, k: nat) {
    k < |es| && CStr(es[k].name) == name && forall j | 0 <= j < k :: CStr(es[j].name) != name
  }

  /** A record whose mode has the directory bit, in whose listing the first entry of this name has the inode that
      is read next. */
  ghost predicate StepsTo(fs: Fs, d: Disk, r: Result<Inode>, name: seq<byte>, next: Result<Inode>) {
    && FsOk(fs) && r.Ok? && |r.value.block| == 15 && r.value.mode / 0x4000 % 2 == 1 && Readable(d, r.value.block)
    && exists k: nat :: FirstNamed(Listing(d, r.value.block), name, k)
                   && next == GetInode(fs, d, Listing(d, r.value.block)[k].inode)
  }

  /** Name by name from one record to another. */
  ghost predicate Leads(fs: Fs, d: Disk, r: Result<Inode>, names: seq<seq<byte>>, x: Inode)
    decreases |names|
  {
    if names == [] then r == Ok(x) else exists next :: StepsTo(fs, d, r, names[0], next) && Leads(fs, d, next, names[1..], x)
  }

  /** No entry of a directory has this name. */
  ghost predicate NoSuchName(d: Disk, ino: Inode, name: seq<byte>) {
    && |ino.block| == 15 && Readable(d, ino.block)
    && forall k | 0 <= k < |Listing(d, ino.block)| :: CStr(Listing(d, ino.block)[k].name) != name
  }

  /** The way ends with this code: the code of an inode that cannot be read, -20 at a record with a name to come but
      without the directory bit, -1 at a directory without the name. */
  ghost predicate Stops(fs: Fs, d: Disk, r: Result<Inode>, names: seq<seq<byte>>, c: int)
    decreases |names|
  {
    || r == Err(c)
    || (names != [] && r.Ok?
        && if r.value.mode / 0x4000 % 2 == 0 then c == -20
           else || (c == -1 && NoSuchName(d, r.value, names[0]))
                || exists next :: StepsTo(fs, d, r, names[0], next) && Stops(fs, d, next, names[1..], c))
  }

  /** The search goes where the listing says. */
  lemma StepIsDescend(fs: Fs, d: Disk, r: Result<Inode>, name: seq<byte>, next: Result<Inode>)
    requires FsOk(fs) && r.Ok? && IsInode(r.value) && StepsTo(fs, d, r, name, next)
    ensures Usable(d, r, name) && Descend(fs, d, r, name) == next && !NoSuchName(d, r.value, name)
  {
    hide GetInode;
    hide IsDir;
    hide Readable;
    hide Listing;
    IsDirBit(r.value);
    SearchDirFinds(d, r.value.block, name);
    var es := Listing(d, r.value.block);
    var k: nat :| FirstNamed(es, name, k) && next == GetInode(fs, d, es[k].inode);
    FindNameMeans(es, name);
    assert FindName(es, name) == Some(es[k].inode);
  }

  lemma NoStep(fs: Fs, d: Disk, r: Result<Inode>, name: seq<byte>)
    requires FsOk(fs) && r.Ok? && IsInode(r.value) && IsDir(r.value) && NoSuchName(d, r.value, name)
    ensures Usable(d, r, name) && Descend(fs, d, r, name) == Err(-1)
  {
    hide GetInode;
    hide IsDir;
    hide Readable;
    hide Listing;
    SearchDirFinds(d, r.value.block, name);
    FindNameMeans(Listing(d, r.value.block), name);
  }

  lemma SomeStep(fs: Fs, d: Disk, r: Result<Inode>, name: seq<byte>) returns (next: Result<Inode>)
    requires FsOk(fs) && r.Ok? && IsInode(r.value) && IsDir(r.value) && Readable(d, r.value.block)
    requires !NoSuchName(d, r.value, name)
    ensures StepsTo(fs, d, r, name, next)
  {
    hide GetInode;
    hide IsDir;
    hide Readable;
    hide Listing;
    IsDirBit(r.value);
    var es := Listing(d, r.value.block);
    var k := FirstOf(es, name);
    next := GetInode(fs, d, es[k].inode);
    assert FirstNamed(es, name, k);
  }

  /** One name, on a directory that can be listed. */
  lemma DescendMeans(fs: Fs, d: Disk, r: Result<Inode>, name: seq<byte>)
    requires FsOk(fs) && r.Ok? && IsInode(r.value) && IsDir(r.value) && Readable(d, r.value.block)
    ensures Usable(d, r, name)
    ensures if NoSuchName(d, r.value, name)
            then Descend(fs, d, r, name) == Err(-1) && forall next :: !StepsTo(fs, d, r, name, next)
            else forall next :: StepsTo(fs, d, r, name, next) <==> next == Descend(fs, d, r, name)
  {
    hide IsDir;
    hide Readable;
    hide StepsTo;
    hide NoSuchName;
    hide Usable;
    hide Descend;
    forall next | StepsTo(fs, d, r, name, next)
      ensures Usable(d, r, name) && Descend(fs, d, r, name) == next && !NoSuchName(d, r.value, name)
    {
      StepIsDescend(fs, d, r, name, next);
    }
    if NoSuchName(d, r.value, name) {
      NoStep(fs, d, r, name);
    } else {
      var next := SomeStep(fs, d, r, name);
    }
  }

  lemma {:induction false} FirstOf(es: seq<DirEntry>, name: seq<byte>) returns (k: nat)
    requires exists j :: 0 <= j < |es| && CStr(es[j].name) == name
    ensures FirstNamed(es, name, k)
  {
    k := 0;
    while CStr(es[k].name) != name
      invariant k < |es| && forall j | 0 <= j < k :: CStr(es[j].name) != name
      decreases |es| - k
    {
      k := k + 1;
    }
  }

  /** On a file system laid out as the format asks, a walk comes to a record exactly when the names lead there, and
      to an error exactly when the way ends with it. */
  lemma {:induction false} WalkMeans(fs: Fs, d: Disk, r: Result<Inode>, names: seq<seq<byte>>)
    requires Tidy(fs, d) && TidyInode(d, r) && (r.Ok? ==> IsInode(r.value))
    ensures Walks(fs, d, r, names)
    ensures forall x :: Walk(fs, d, r, names) == Ok(x) <==> Leads(fs, d, r, names, x)
    ensures forall c :: Walk(fs, d, r, names) == Err(c) <==> Stops(fs, d, r, names, c)
    decreases |names|
  {
    hide GetInode;
    hide IsDir;
    hide Readable;
    hide Listing;
    hide Descend;
    hide NoSuchName;
    hide StepsTo;
    TidyWalks(fs, d, r, names);
    if names != [] {
      var next := Descend(fs, d, r, names[0]);
      if r.Err? {
        ErrStays(fs, d, r, names);
        WalkErr(fs, d, r, names);
      } else {
        IsDirBit(r.value);
        if !IsDir(r.value) {
          NotADirectory(fs, d, r, names[0]);
          WalkErr(fs, d, next, names[1..]);
        } else {
          DescendMeans(fs, d, r, names[0]);
          DescendTidy(fs, d, r, names[0]);
          WalkMeans(fs, d, next, names[1..]);
          if NoSuchName(d, r.value, names[0]) {
            WalkErr(fs, d, next, names[1..]);
          }
        }
      }
    }
  }

  lemma ErrStays(fs: Fs, d: Disk, r: Result<Inode>, names: seq<seq<byte>>)
    requires r.Err? && names != []
    ensures forall next :: !StepsTo(fs, d, r, names[0], next)
  {
  }

  lemma NotADirectory(fs: Fs, d: Disk, r: Result<Inode>, name: seq<byte>)
    requires FsOk(fs) && r.Ok? && IsInode(r.value) && !IsDir(r.value)
    ensures Usable(d, r, name) && Descend(fs, d, r, name) == Err(-20)
    ensures forall next :: !StepsTo(fs, d, r, name, next)
  {
    hide IsDir;
    IsDirBit(r.value);
  }

  lemma DescendTidy(fs: Fs, d: Disk, r: Result<Inode>, name: seq<byte>)
    requires Tidy(fs, d) && Usable(d, r, name) && TidyInode(d, r)
    ensures TidyInode(d, Descend(fs, d, r, name))
  {
    hide IsDir;
    hide GetInode;
    hide Readable;
  }

  /** What a path denotes: the walk from the root over its names. */
  ghost function Lookup(fs: Fs, d: Disk, path: seq<byte>): Result<Inode>
    requires Resolvable(fs, d, path)
  {
    Walk(fs, d, GetInode(fs, d, ROOT_INO), Tokens(path))
  }

  lemma {:induction false} WalkErr(fs: Fs, d: Disk, r: Result<Inode>, names: seq<seq<byte>>)
    requires FsOk(fs) && r.Err?
    ensures Walks(fs, d, r, names) && Walk(fs, d, r, names) == r
    decreases |names|
  {
    if names != [] { WalkErr(fs, d, r, names[1..]); }
  }

  /** Walking over two lists of names is walking over the first and then over the second. */
  lemma {:induction false} WalkCat(fs: Fs, d: Disk, r: Result<Inode>, a: seq<seq<byte>>, b: seq<seq<byte>>)
    ensures Walks(fs, d, r, a + b) <==> Walks(fs, d, r, a) && Walks(fs, d, Walk(fs, d, r, a), b)
    ensures Walks(fs, d, r, a + b) ==> Walk(fs, d, r, a + b) == Walk(fs, d, Walk(fs, d, r, a), b)
    decreases |a|
  {
    if a == [] {
      assert a + b == b;
    } else {
      assert (a + b)[0] == a[0] && (a + b)[1..] == a[1..] + b;
      if FsOk(fs) && Usable(d, r, a[0]) {
        WalkCat(fs, d, Descend(fs, d, r, a[0]), a[1..], b);
      }
    }
  }

  /** ext2_path_lookup. */
  method PathLookup(fs: Fs, d: Disk, path: seq<byte>) returns (r: Result<Inode>)
    requires Resolvable(fs, d, path) && 0 !in path
    ensures r == Lookup(fs, d, path)
    ensures Tidy(fs, d) ==> forall x :: r == Ok(x) <==> Leads(fs, d, GetInode(fs, d, 2), Tokens(path), x)
    ensures Tidy(fs, d) ==> forall c :: r == Err(c) <==> Stops(fs, d, GetInode(fs, d, 2), Tokens(path), c)
  {
    hide Tidy;
    hide Leads;
    hide Stops;
    LookupMeans(fs, d, path);
    hide Usable;
    hide Tokens;
    hide GetInode;
    var component := new byte[NAME_LEN + 1];
    r := GetInode(fs, d, ROOT_INO);
    if r.Err? {
      WalkErr(fs, d, r, Tokens(path));
      return;
    }
    if path == [] {
      TokensNone();
      return;
    }
    var current := r.value;
    var p := 0;
    assert path[0..] == path;
    while p < |path|
      invariant p <= |path| && IsInode(current) && Walks(fs, d, Ok(current), Tokens(path[p..]))
      invariant Lookup(fs, d, path) == Walk(fs, d, Ok(current), Tokens(path[p..]))
      decreases |path| - p
    {
      var len;
      ghost var names := Tokens(path[p..]);
      p, len := ParsePathComponent(path, p, component);
      if len == 0 {
        assert path[p..] == [];
        TokensNone();
        continue;
      }
      ghost var name := component[..len];
      assert names[0] == name && names[1..] == Tokens(path[p..]);
      if And(current.mode, S_IFDIR) == 0 {
        WalkErr(fs, d, Err(-ENOTDIR), names[1..]);
        return Err(-ENOTDIR);
      }
      CStrIs(component[..], len);
      assert component[..][..len] == name;
      DirUsable(d, current, name);
      var ret, nextIno := FindDirEntry(d, current, component[..]);
      if ret != 0 {
        WalkErr(fs, d, Err(-1), names[1..]);
        return Err(ret);
      }
      r := GetInode(fs, d, nextIno);
      if r.Err? {
        WalkErr(fs, d, r, names[1..]);
        return;
      }
      current := r.value;
    }
    assert path[p..] == [];
    TokensNone();
    r := Ok(current);
  }

  lemma LookupMeans(fs: Fs, d: Disk, path: seq<byte>)
    ensures Tidy(fs, d) ==>
              && Resolvable(fs, d, path)
              && (forall x :: Lookup(fs, d, path) == Ok(x) <==> Leads(fs, d, GetInode(fs, d, 2), Tokens(path), x))
              && (forall c :: Lookup(fs, d, path) == Err(c) <==> Stops(fs, d, GetInode(fs, d, 2), Tokens(path), c))
  {
    hide GetInode;
    hide Leads;
    hide Stops;
    hide Tokens;
    hide TidyInode;
    if Tidy(fs, d) {
      assert TidyInode(d, GetInode(fs, d, ROOT_INO));
      WalkMeans(fs, d, GetInode(fs, d, ROOT_INO), Tokens(path));
    }
  }

  lemma DirUsable(d: Disk, ino: Inode, name: seq<byte>)
    requires Usable(d, Ok(ino), name) && IsDir(ino)
    ensures IsInode(ino) && SearchableDir(d, ino.block, name)
  {
  }

  /** Looking up p/q is looking up p and going on from there with the names of q. */
  lemma LookupCat(fs: Fs, d: Disk, p: seq<byte>, q: seq<byte>)
    ensures Resolvable(fs, d, p + [SLASH] + q) <==> Resolvable(fs, d, p) && Walks(fs, d, Lookup(fs, d, p), Tokens(q))
    ensures Resolvable(fs, d, p + [SLASH] + q) ==>
              Lookup(fs, d, p + [SLASH] + q) == Walk(fs, d, Lookup(fs, d, p), Tokens(q))
  {
    hide Walks;
    hide Walk;
    hide Tokens;
    hide GetInode;
    if FsOk(fs) {
      TokensCat(p, q);
      WalkCat(fs, d, GetInode(fs, d, ROOT_INO), Tokens(p), Tokens(q));
    }
  }

  /** Two paths that are looked up alike. */
  ghost predicate SameLookup(fs: Fs, d: Disk, p: seq<byte>, q: seq<byte>) {
    && (Resolvable(fs, d, p) <==> Resolvable(fs, d, q))
    && (Resolvable(fs, d, p) ==> Lookup(fs, d, p) == Lookup(fs, d, q))
  }

  /** Leading, trailing and repeated slashes make no difference. */
  lemma SlashesIgnored(fs: Fs, d: Disk, p: seq<byte>, q: seq<byte>)
    ensures SameLookup(fs, d, [SLASH] + p, p) && SameLookup(fs, d, p + [SLASH], p)
    ensures SameLookup(fs, d, p + [SLASH] + [SLASH] + q, p + [SLASH] + q)
  {
    var none: seq<byte> := [];
    TokensCat(none, p);
    assert none + [SLASH] + p == [SLASH] + p;
    assert Tokens(none) + Tokens(p) == Tokens(p);
    TokensCat(p, none);
    assert p + [SLASH] + none == p + [SLASH];
    assert Tokens(p) + Tokens(none) == Tokens(p);
    TokensCat(p + [SLASH], q);
    TokensCat(p, q);
  }

  // Relative paths.

  /** get_path: the path itself when it is absolute, otherwise the working directory joined to it. The
      source checks no bounds, so the buffer has to be large enough. */
  method GetPath(cwd: seq<byte>, refPath: seq<byte>, buf: array<byte>)
    requires 0 in cwd && 0 in refPath && |CStr(cwd)| + 1 + |CStr(refPath)| < buf.Length
    modifies buf
    ensures 0 in buf[..] && CStr(buf[..]) == Joined(CStr(cwd), CStr(refPath))
    ensures refPath[0] == 47 ==> CStr(buf[..]) == CStr(refPath)
    ensures refPath[0] != 47 ==>
              CStr(buf[..]) == CStr(cwd) + (if CStr(cwd) == [47] then [] else [47]) + CStr(refPath)
  {
    hide Cut;
    hide CStr;
    hide Joined;
    FirstChar(refPath);
    JoinedMeans(CStr(cwd), CStr(refPath));
    if refPath[0] != SLASH {
      var end := StrCpy(buf, 0, cwd);
      Copied(buf[..], end, CStr(cwd));
      var root := [SLASH, 0];
      CStrIs(root, 1);
      CutShort(CStr(cwd), CStr(root));
      var c := StrCmp(cwd, root);
      if c != 0 {
        StrCat(buf, root);
      }
      StrCat(buf, refPath);
    } else {
      var end := StrCpy(buf, 0, refPath);
      Copied(buf[..], end, CStr(refPath));
    }
  }

  /** An absolute path stands for itself; a relative one goes behind the working directory, with a slash between
      them unless that is the root. */
  lemma JoinedMeans(cwd: seq<byte>, path: seq<byte>)
    ensures path != [] && path[0] == 47 ==> Joined(cwd, path) == path
    ensures path == [] || path[0] != 47 ==> Joined(cwd, path) == cwd + (if cwd == [47] then [] else [47]) + path
  {
  }

  lemma FirstChar(s: seq<byte>)
    requires 0 in s
    ensures s[0] == SLASH <==> CStr(s) != [] && CStr(s)[0] == SLASH
  {
  }

  lemma Copied(buf: seq<byte>, end: nat, s: seq<byte>)
    requires end < |buf| && buf[end] == 0 && buf[0..end] == s && 0 !in s
    ensures 0 in buf && CStr(buf) == s
  {
    assert buf[..end] == s;
    CStrIs(buf, end);
  }

  function Joined(cwd: seq<byte>, path: seq<byte>): seq<byte> {
    if path != [] && path[0] == SLASH then path
    else if cwd == [SLASH] then cwd + path
    else cwd + [SLASH] + path
  }

  /** Resolving a relative path is going on from the working directory; an absolute one starts at the
      root. */
  lemma RelativeContinues(fs: Fs, d: Disk, cwd: seq<byte>, path: seq<byte>)
    requires path == [] || path[0] != SLASH
    ensures Resolvable(fs, d, Joined(cwd, path)) <==>
              Resolvable(fs, d, cwd) && Walks(fs, d, Lookup(fs, d, cwd), Tokens(path))
    ensures Resolvable(fs, d, Joined(cwd, path)) ==>
              Lookup(fs, d, Joined(cwd, path)) == Walk(fs, d, Lookup(fs, d, cwd), Tokens(path))
  {
    hide Resolvable;
    hide Lookup;
    hide Walks;
    hide Walk;
    hide Tokens;
    if cwd == [SLASH] {
      var none: seq<byte> := [];
      LookupCat(fs, d, none, path);
      assert none + [SLASH] + path == cwd + path;
      SlashesIgnored(fs, d, none, none);
      assert [SLASH] + none == cwd;
    } else {
      LookupCat(fs, d, cwd, path);
    }
  }
}
