/** From a position in a file to a byte on disk: the tree of block pointers of an inode, and reading a
    file through it (fs/ext2.c:296-382). */
module BlockTree {
  import opened Bits
  import opened Disk
  import opened Strings

  const NDIR_BLOCKS := 12
  const PTRS_SQUARED := 65536
  const PTRS_CUBED := 16777216
  const MAX_BLOCKS := 16843020            // 12 and the leaves of trees of one, two and three levels

  // Index paths: the place in i_block, then the index into each pointer block on the way down.

  predicate Digits(p: seq<nat>) {
    forall i | 0 <= i < |p| :: p[i] < PTRS_PER_BLOCK
  }

  predicate IsPath(p: seq<nat>) {
    || (|p| == 1 && p[0] < NDIR_BLOCKS)
    || (2 <= |p| <= 4 && p[0] == NDIR_BLOCKS + |p| - 2 && Digits(p[1..]))
  }

  function Capacity(depth: nat): (r: nat)
    ensures r > 0
  {
    if depth == 0 then 1 else PTRS_PER_BLOCK * Capacity(depth - 1)
  }

  function Times(n: nat, c: nat): nat {
    n * c
  }

  /** The number written in base 256 by these digits. */
  function Place(p: seq<nat>): nat {
    if p == [] then 0 else Times(p[0], Capacity(|p| - 1)) + Place(p[1..])
  }

  /** The logical block a path leads to: trees are laid end to end after the direct blocks. */
  function LogicalOf(p: seq<nat>): nat
    requires IsPath(p)
  {
    match |p|
    case 1 => p[0]
    case 2 => NDIR_BLOCKS + Place(p[1..])
    case 3 => NDIR_BLOCKS + Capacity(1) + Place(p[1..])
    case _ => NDIR_BLOCKS + Capacity(1) + Capacity(2) + Place(p[1..])
  }

  /** The path the code takes. */
  function PathOf(l: nat): seq<nat> {
    if l < NDIR_BLOCKS then [l]
    else
      var l1 := l - NDIR_BLOCKS;
      if l1 < PTRS_PER_BLOCK then [12, l1]
      else
        var l2 := l1 - PTRS_PER_BLOCK;
        if l2 < PTRS_SQUARED then [13, l2 / PTRS_PER_BLOCK, l2 % PTRS_PER_BLOCK]
        else
          var l3 := l2 - PTRS_SQUARED;
          [14, l3 / PTRS_SQUARED, (l3 / PTRS_PER_BLOCK) % PTRS_PER_BLOCK, l3 % PTRS_PER_BLOCK]
  }

  lemma Capacities()
    ensures Capacity(0) == 1 && Capacity(1) == PTRS_PER_BLOCK && Capacity(2) == PTRS_SQUARED && Capacity(3) == PTRS_CUBED
  {
    assert Capacity(1) == PTRS_PER_BLOCK * Capacity(0);
    assert Capacity(2) == PTRS_PER_BLOCK * Capacity(1);
    assert Capacity(3) == PTRS_PER_BLOCK * Capacity(2);
  }

  lemma Place1(a: nat)
    ensures Place([a]) == a
  {
    assert [a][1..] == [];
    Capacities();
  }

  lemma Place2(a: nat, b: nat)
    ensures Place([a, b]) == a * PTRS_PER_BLOCK + b
  {
    assert [a, b][1..] == [b];
    Capacities();
    Place1(b);
  }

  lemma Place3(a: nat, b: nat, c: nat)
    ensures Place([a, b, c]) == a * PTRS_SQUARED + b * PTRS_PER_BLOCK + c
  {
    assert [a, b, c][1..] == [b, c];
    Capacities();
    Place2(b, c);
  }

  /** LogicalOf case by case. */
  lemma LogicalIs(p: seq<nat>)
    requires IsPath(p)
    ensures |p| == 2 ==> LogicalOf(p) == 12 + p[1]
    ensures |p| == 3 ==> LogicalOf(p) == 268 + (p[1] * 256 + p[2])
    ensures |p| == 4 ==> LogicalOf(p) == 65804 + (p[1] * 65536 + p[2] * 256 + p[3])
  {
    hide Capacity;
    hide Place;
    Capacities();
    if |p| == 2 {
      assert p[1..] == [p[1]];
      Place1(p[1]);
    } else if |p| == 3 {
      assert p[1..] == [p[1], p[2]];
      Place2(p[1], p[2]);
    } else if |p| == 4 {
      assert p[1..] == [p[1], p[2], p[3]];
      Place3(p[1], p[2], p[3]);
    }
  }

  lemma Split2(l: nat)
    requires l < 65536
    ensures l / 256 < 256 && l % 256 < 256 && l / 256 * 256 + l % 256 == l
  {
  }

  lemma Split3(l: nat)
    requires l < 16777216
    ensures l / 65536 < 256 && l / 256 % 256 < 256 && l % 256 < 256
    ensures l / 65536 * 65536 + l / 256 % 256 * 256 + l % 256 == l
  {
    Split2(l / 256);
    assert l / 256 / 256 == l / 65536;
  }

  lemma Join2(a: nat, b: nat)
    requires b < 256
    ensures (a * 256 + b) / 256 == a && (a * 256 + b) % 256 == b
  {
  }

  lemma Join3(a: nat, b: nat, c: nat)
    requires b < 256 && c < 256
    ensures var l := a * 65536 + b * 256 + c; l / 65536 == a && l / 256 % 256 == b && l % 256 == c
  {
    var l := a * 65536 + b * 256 + c;
    Join2(a * 256 + b, c);
    Join2(a, b);
    assert l == (a * 256 + b) * 256 + c;
    assert l / 65536 == l / 256 / 256;
  }

  /** Every addressable block has a path with indices inside the pointer blocks, and it leads there. */
  lemma PathRoundTrip(l: nat)
    requires l < MAX_BLOCKS
    ensures IsPath(PathOf(l)) && LogicalOf(PathOf(l)) == l
  {
    hide LogicalOf;
    var p := PathOf(l);
    if |p| == 1 {
      assert LogicalOf(p) == l by { Direct(p); }
    } else if |p| == 2 {
      assert Digits(p[1..]);
      LogicalIs(p);
    } else if |p| == 3 {
      Split2(l - 268);
      assert Digits(p[1..]);
      LogicalIs(p);
    } else {
      Split3(l - 65804);
      assert Digits(p[1..]);
      LogicalIs(p);
    }
  }

  lemma Direct(p: seq<nat>)
    requires |p| == 1 && p[0] < NDIR_BLOCKS
    ensures LogicalOf(p) == p[0]
  {
  }

  /** And no two paths lead to the same block. */
  lemma PathUnique(p: seq<nat>)
    requires IsPath(p)
    ensures LogicalOf(p) < MAX_BLOCKS && PathOf(LogicalOf(p)) == p
  {
    hide LogicalOf;
    LogicalIs(p);
    if |p| == 1 {
      Direct(p);
    } else if |p| == 2 {
      assert p[1] == p[1..][0];
    } else if |p| == 3 {
      assert p[1] == p[1..][0] && p[2] == p[1..][1];
      Join2(p[1], p[2]);
    } else {
      assert p[1] == p[1..][0] && p[2] == p[1..][1] && p[3] == p[1..][2];
      Join3(p[1], p[2], p[3]);
    }
  }

  // The blocks of a file in order.

  /** The data blocks below block b, whose tree is `depth` levels of pointers deep. */
  ghost function Leaves(d: Disk, b: U32, depth: nat): seq<U32>
    decreases depth, PTRS_PER_BLOCK + 1
  {
    if depth == 0 then [b] else LeavesFrom(d, b, depth, 0)
  }

  ghost function LeavesFrom(d: Disk, b: U32, depth: nat, i: nat): seq<U32>
    requires depth > 0 && i <= PTRS_PER_BLOCK
    decreases depth, PTRS_PER_BLOCK - i
  {
    if i == PTRS_PER_BLOCK then [] else Leaves(d, PointerAt(d, b, i), depth - 1) + LeavesFrom(d, b, depth, i + 1)
  }

  lemma {:induction false} LeavesLength(d: Disk, b: U32, depth: nat)
    ensures |Leaves(d, b, depth)| == Capacity(depth)
    decreases depth, PTRS_PER_BLOCK + 1
  {
    if depth > 0 { LeavesFromLength(d, b, depth, 0); }
  }

  lemma {:induction false} LeavesFromLength(d: Disk, b: U32, depth: nat, i: nat)
    requires depth > 0 && i <= PTRS_PER_BLOCK
    ensures |LeavesFrom(d, b, depth, i)| == Times(PTRS_PER_BLOCK - i, Capacity(depth - 1))
    decreases depth, PTRS_PER_BLOCK - i
  {
    hide Leaves;
    hide Capacity;
    hide PointerAt;
    hide Times;
    if i < PTRS_PER_BLOCK {
      LeavesLength(d, PointerAt(d, b, i), depth - 1);
      LeavesFromLength(d, b, depth, i + 1);
      OneMore(PTRS_PER_BLOCK - i - 1, Capacity(depth - 1));
    } else {
      NoTimes(Capacity(depth - 1));
    }
  }

  lemma OneMore(n: nat, c: nat)
    ensures Times(n + 1, c) == Times(n, c) + c
  {
  }

  lemma NoTimes(c: nat)
    ensures Times(0, c) == 0
  {
  }

  /** The blocks of a file: twelve direct ones, then the trees of one, two and three levels. */
  ghost function BlockList(d: Disk, block: seq<U32>): (r: seq<U32>)
    requires |block| == 15
    ensures |r| == MAX_BLOCKS
  {
    Capacities();
    LeavesLength(d, block[12], 1);
    LeavesLength(d, block[13], 2);
    LeavesLength(d, block[14], 3);
    block[..NDIR_BLOCKS] + Leaves(d, block[12], 1) + Leaves(d, block[13], 2) + Leaves(d, block[14], 3)
  }

  /** Going down from block b along a path of indices. */
  function Follow(d: Disk, b: U32, p: seq<nat>): U32
    requires Digits(p)
    decreases |p|
  {
    if p == [] then b else Follow(d, PointerAt(d, b, p[0]), p[1..])
  }

  /** A sequence has v at position i. */
  predicate Sits(s: seq<U32>, i: nat, v: U32) {
    i < |s| && s[i] == v
  }

  lemma SitsLater(s: seq<U32>, t: seq<U32>, i: nat, v: U32)
    requires Sits(t, i, v)
    ensures Sits(s + t, |s| + i, v)
  {
  }

  lemma SitsFirst(s: seq<U32>, t: seq<U32>, i: nat, v: U32)
    requires Sits(s, i, v)
    ensures Sits(s + t, i, v)
  {
  }

  lemma {:induction false} LeavesFromAt(d: Disk, b: U32, depth: nat, i: nat, j: nat, k: nat, v: U32)
    requires depth > 0 && i <= j < PTRS_PER_BLOCK && Sits(Leaves(d, PointerAt(d, b, j), depth - 1), k, v)
    ensures Sits(LeavesFrom(d, b, depth, i), Times(j - i, Capacity(depth - 1)) + k, v)
    decreases j - i
  {
    hide Leaves;
    hide Capacity;
    hide PointerAt;
    hide Sits;
    hide Times;
    var c := Capacity(depth - 1);
    var first, rest := Leaves(d, PointerAt(d, b, i), depth - 1), LeavesFrom(d, b, depth, i + 1);
    LeavesLength(d, PointerAt(d, b, i), depth - 1);
    if i < j {
      LeavesFromAt(d, b, depth, i + 1, j, k, v);
      OneMore(j - i - 1, c);
      SitsLater(first, rest, Times(j - i - 1, c) + k, v);
    } else {
      NoTimes(c);
      SitsFirst(first, rest, k, v);
    }
  }

  /** The block at the end of a path is the one at the path's place in the list of leaves. */
  lemma {:induction false} LeavesAt(d: Disk, b: U32, p: seq<nat>)
    requires Digits(p)
    ensures Sits(Leaves(d, b, |p|), Place(p), Follow(d, b, p))
    decreases |p|
  {
    if p != [] {
      LeavesAt(d, PointerAt(d, b, p[0]), p[1..]);
      LeavesFromAt(d, b, |p|, 0, p[0], Place(p[1..]), Follow(d, b, p));
    }
  }

  /** The file's list of blocks has, at the place a path leads to, the block the path ends in. */
  lemma ListedAt(d: Disk, block: seq<U32>, p: seq<nat>, b: U32, rest: seq<nat>)
    requires |block| == 15 && IsPath(p) && rest == p[1..] && Digits(rest) && p[0] < 15 && b == block[p[0]]
    ensures Sits(BlockList(d, block), LogicalOf(p), Follow(d, b, rest))
  {
    hide Leaves;
    hide Capacity;
    hide Place;
    Capacities();
    if |p| > 1 {
      LeavesAt(d, b, rest);
      LeavesLength(d, block[12], 1);
      LeavesLength(d, block[13], 2);
      LeavesLength(d, block[14], 3);
    }
  }

  /** The block at a place of a file, from the bytes on disk: a direct one, or four bytes of a pointer block found at
      the first, second or third place behind those. */
  ghost function PhysicalAt(d: Disk, block: seq<U32>, l: nat): U32
    requires |block| == 15
  {
    if l < 12 then block[l]
    else if l < 268 then Word(d, block[12], 4 * (l - 12))
    else if l < 65804 then Word(d, Word(d, block[13], 4 * ((l - 268) / 256)), 4 * ((l - 268) % 256))
    else
      var n := l - 65804;
      Word(d, Word(d, Word(d, block[14], 4 * (n / 65536)), 4 * (n / 256 % 256)), 4 * (n % 256))
  }

  /** That is what the list of blocks has there. */
  lemma ListedBytes(d: Disk, block: seq<U32>, l: nat)
    requires |block| == 15 && l < MAX_BLOCKS
    ensures BlockList(d, block)[l] == PhysicalAt(d, block, l)
  {
    hide BlockList;
    hide LogicalOf;
    hide PointerAt;
    hide Word;
    PathRoundTrip(l);
    var p := PathOf(l);
    var rest := p[1..];
    ListedAt(d, block, p, block[p[0]], rest);
    if |rest| == 0 {
      FollowEnd(d, block[l], rest);
    } else if |rest| == 1 {
      FollowOne(d, block[12], rest);
      PointerBytes(d, block[12], rest[0]);
    } else if |rest| == 2 {
      FollowTwo(d, block[13], rest);
      PointerBytes(d, block[13], rest[0]);
      PointerBytes(d, PointerAt(d, block[13], rest[0]), rest[1]);
    } else {
      FollowThree(d, block[14], rest);
      PointerBytes(d, block[14], rest[0]);
      PointerBytes(d, PointerAt(d, block[14], rest[0]), rest[1]);
      PointerBytes(d, PointerAt(d, PointerAt(d, block[14], rest[0]), rest[1]), rest[2]);
    }
  }

  /** get_physical_block: the block of the file at this place in its list of blocks. */
  method GetPhysicalBlock(d: Disk, ino: Inode, logicalBlock: U32) returns (r: U32)
    requires IsInode(ino) && logicalBlock < MAX_BLOCKS
    ensures r == BlockList(d, ino.block)[logicalBlock]
    ensures r == PhysicalAt(d, ino.block, logicalBlock)
  {
    hide BlockList;
    hide LogicalOf;
    hide PointerAt;
    hide PhysicalAt;
    ListedBytes(d, ino.block, logicalBlock);
    PathRoundTrip(logicalBlock);
    ghost var path := PathOf(logicalBlock);
    ListedAt(d, ino.block, path, ino.block[path[0]], path[1..]);
    var l: U32 := logicalBlock;
    if l < NDIR_BLOCKS {
      FollowEnd(d, ino.block[l], path[1..]);
      return ino.block[l];
    }
    l := l - NDIR_BLOCKS;
    if l < PTRS_PER_BLOCK {
      r := PointerAt(d, ino.block[12], l);
      FollowOne(d, ino.block[12], path[1..]);
      return;
    }
    l := l - PTRS_PER_BLOCK;
    if l < PTRS_SQUARED {
      var idx1, idx2 := l / PTRS_PER_BLOCK, l % PTRS_PER_BLOCK;
      Split2(l);
      var firstLevel := PointerAt(d, ino.block[13], idx1);
      r := PointerAt(d, firstLevel, idx2);
      FollowTwo(d, ino.block[13], path[1..]);
      return;
    }
    l := l - PTRS_SQUARED;
    var idx1, idx2, idx3 := l / PTRS_SQUARED, (l / PTRS_PER_BLOCK) % PTRS_PER_BLOCK, l % PTRS_PER_BLOCK;
    Split3(l);
    var firstLevel := PointerAt(d, ino.block[14], idx1);
    var secondLevel := PointerAt(d, firstLevel, idx2);
    r := PointerAt(d, secondLevel, idx3);
    FollowThree(d, ino.block[14], path[1..]);
  }

  lemma FollowEnd(d: Disk, b: U32, p: seq<nat>)
    requires p == []
    ensures Follow(d, b, p) == b
  {
  }

  lemma FollowOne(d: Disk, b: U32, p: seq<nat>)
    requires Digits(p) && |p| == 1
    ensures Follow(d, b, p) == PointerAt(d, b, p[0])
  {
  }

  lemma FollowTwo(d: Disk, b: U32, p: seq<nat>)
    requires Digits(p) && |p| == 2
    ensures Follow(d, b, p) == PointerAt(d, PointerAt(d, b, p[0]), p[1])
  {
    FollowOne(d, PointerAt(d, b, p[0]), p[1..]);
  }

  lemma FollowThree(d: Disk, b: U32, p: seq<nat>)
    requires Digits(p) && |p| == 3
    ensures Follow(d, b, p) == PointerAt(d, PointerAt(d, PointerAt(d, b, p[0]), p[1]), p[2])
  {
    FollowTwo(d, PointerAt(d, b, p[0]), p[1..]);
  }

  // Holes. A zero pointer at any level stands for a run of absent blocks.

  /** What the format says is at the end of a path: nothing, once a pointer on the way is zero. */
  function SparseFollow(d: Disk, b: U32, p: seq<nat>): U32
    requires Digits(p)
    decreases |p|
  {
    if b == 0 then 0 else if p == [] then b else SparseFollow(d, PointerAt(d, b, p[0]), p[1..])
  }

  /** The block the format gives a file at logical block l: none where a pointer is missing. */
  ghost function SparseBlock(d: Disk, block: seq<U32>, l: nat): U32
    requires |block| == 15 && l < MAX_BLOCKS
  {
    PathRoundTrip(l);
    SparseFollow(d, block[PathOf(l)[0]], PathOf(l)[1..])
  }

  /** The code finds the right block, or hole, everywhere in this file. */
  ghost predicate BlocksRight(d: Disk, block: seq<U32>)
    requires |block| == 15
  {
    forall l: nat | l < MAX_BLOCKS :: BlockList(d, block)[l] == SparseBlock(d, block, l)
  }

  ghost predicate BlockZeroBlank(d: Disk) {
    forall i | 0 <= i < PTRS_PER_BLOCK :: PointerAt(d, 0, i) == 0
  }

  lemma {:induction false} BlankFollow(d: Disk, b: U32, p: seq<nat>)
    requires BlockZeroBlank(d) && Digits(p)
    ensures Follow(d, b, p) == SparseFollow(d, b, p)
    ensures b == 0 ==> Follow(d, b, p) == 0
    decreases |p|
  {
    if p != [] { BlankFollow(d, PointerAt(d, b, p[0]), p[1..]); }
  }

  /** The code reads block 0 where an indirect pointer is missing. So it is right for every file exactly
      when block 0 holds nothing but zero pointers. */
  lemma HolesExactly(d: Disk)
    ensures (forall block: seq<U32> | |block| == 15 :: BlocksRight(d, block)) <==> BlockZeroBlank(d)
  {
    hide BlocksRight;
    if BlockZeroBlank(d) {
      forall block: seq<U32> | |block| == 15 ensures BlocksRight(d, block) {
        BlankRight(d, block);
      }
    }
    if forall block: seq<U32> | |block| == 15 :: BlocksRight(d, block) {
      var none: seq<U32> := seq(15, _ => 0);
      assert BlocksRight(d, none);
      RightBlank(d, none);
    }
  }

  lemma BlankRight(d: Disk, block: seq<U32>)
    requires BlockZeroBlank(d) && |block| == 15
    ensures BlocksRight(d, block)
  {
    hide BlockZeroBlank;
    hide BlockList;
    hide LogicalOf;
    hide PathOf;
    forall l: nat | l < MAX_BLOCKS ensures BlockList(d, block)[l] == SparseBlock(d, block, l) {
      PathRoundTrip(l);
      var p := PathOf(l);
      ListedAt(d, block, p, block[p[0]], p[1..]);
      BlankFollow(d, block[p[0]], p[1..]);
    }
  }

  lemma RightBlank(d: Disk, none: seq<U32>)
    requires |none| == 15 && none[12] == 0 && BlocksRight(d, none)
    ensures BlockZeroBlank(d)
  {
    hide BlockList;
    hide LogicalOf;
    hide PointerAt;
    forall i | 0 <= i < PTRS_PER_BLOCK ensures PointerAt(d, 0, i) == 0 {
      var l := NDIR_BLOCKS + i;
      PathRoundTrip(l);
      assert PathOf(l)[1..] == [i];
      ListedAt(d, none, PathOf(l), 0, [i]);
      FollowOne(d, 0, [i]);
      assert BlockList(d, none)[l] == SparseBlock(d, none, l);
    }
  }

  /** No pointer to a pointer block is missing on this path. */
  ghost predicate NoneMissing(d: Disk, b: U32, p: seq<nat>)
    requires Digits(p)
    decreases |p|
  {
    p == [] || (b != 0 && NoneMissing(d, PointerAt(d, b, p[0]), p[1..]))
  }

  lemma {:induction false} PresentFollow(d: Disk, b: U32, p: seq<nat>)
    requires Digits(p) && NoneMissing(d, b, p)
    ensures Follow(d, b, p) == SparseFollow(d, b, p)
    decreases |p|
  {
    if p != [] { PresentFollow(d, PointerAt(d, b, p[0]), p[1..]); }
  }

  /** The pointer blocks on the way to logical block l are all there. */
  ghost predicate BlockReachable(d: Disk, block: seq<U32>, l: nat)
    requires |block| == 15 && l < MAX_BLOCKS
  {
    PathRoundTrip(l);
    NoneMissing(d, block[PathOf(l)[0]], PathOf(l)[1..])
  }

  /** Whatever block 0 holds, the code is right about every block of a file up to i_size whose pointer
      blocks are there, hole or not; direct blocks need none. */
  lemma FileHolesRight(d: Disk, ino: Inode, l: nat)
    requires IsInode(ino) && l < MAX_BLOCKS
    ensures BlockReachable(d, ino.block, l) ==> BlockList(d, ino.block)[l] == SparseBlock(d, ino.block, l)
    ensures l < NDIR_BLOCKS ==> BlockReachable(d, ino.block, l)
  {
    hide BlockList;
    hide LogicalOf;
    PathRoundTrip(l);
    var p := PathOf(l);
    if l < NDIR_BLOCKS {
      assert p[1..] == [];
    }
    ListedAt(d, ino.block, p, ino.block[p[0]], p[1..]);
    if BlockReachable(d, ino.block, l) {
      PresentFollow(d, ino.block[p[0]], p[1..]);
    }
  }

  /** Byte j of a file as the format has it. */
  ghost function SparseByte(d: Disk, ino: Inode, j: nat): byte
    requires IsInode(ino) && j / BLOCK_SIZE < MAX_BLOCKS
  {
    var b := SparseBlock(d, ino.block, j / BLOCK_SIZE);
    if b == 0 then 0 else d(b, j % BLOCK_SIZE)
  }

  /** So a file without a missing pointer block below its size reads as the format has it. */
  lemma FileReadsRight(d: Disk, ino: Inode)
    requires IsInode(ino)
    requires forall l: nat | l < MAX_BLOCKS && l * BLOCK_SIZE < ino.size :: BlockReachable(d, ino.block, l)
    ensures forall j: nat | j < ino.size :: FileByte(d, ino, j) == SparseByte(d, ino, j)
  {
    hide BlockList;
    hide BlockReachable;
    hide SparseBlock;
    forall j: nat | j < ino.size ensures FileByte(d, ino, j) == SparseByte(d, ino, j) {
      var l := j / BLOCK_SIZE;
      assert l * BLOCK_SIZE <= j;
      FileHolesRight(d, ino, l);
    }
  }

  // Reading a file.

  /** Byte j of a file; blocks that are absent read as zeros. */
  ghost function FileByte(d: Disk, ino: Inode, j: nat): byte
    requires IsInode(ino) && j / BLOCK_SIZE < MAX_BLOCKS
  {
    var b := BlockList(d, ino.block)[j / BLOCK_SIZE];
    if b == 0 then 0 else d(b, j % BLOCK_SIZE)
  }

  /** It is the byte at its place in its block, or zero in a block that is absent. */
  lemma FileBytes(d: Disk, ino: Inode, j: nat)
    requires IsInode(ino) && j / 1024 < MAX_BLOCKS
    ensures var b := PhysicalAt(d, ino.block, j / 1024);
            FileByte(d, ino, j) == if b == 0 then 0 else d(b, j % 1024)
  {
    hide BlockList;
    ListedBytes(d, ino.block, j / 1024);
  }

  ghost predicate ReadSoFar(d: Disk, ino: Inode, bytes: seq<byte>, n: nat)
    requires IsInode(ino) && n < 0x1_0000_0000
  {
    n <= |bytes| && forall j | 0 <= j < n :: bytes[j] == FileByte(d, ino, j)
  }

  lemma ReadMore(d: Disk, ino: Inode, before: seq<byte>, after: seq<byte>, n: nat, chunk: seq<byte>)
    requires IsInode(ino) && n + |chunk| < 0x1_0000_0000 && n + |chunk| <= |before|
    requires ReadSoFar(d, ino, before, n) && n % BLOCK_SIZE + |chunk| <= BLOCK_SIZE
    requires forall i | 0 <= i < |chunk| ::
               var b := BlockList(d, ino.block)[n / BLOCK_SIZE];
               chunk[i] == if b == 0 then 0 else d(b, n % BLOCK_SIZE + i)
    requires after == before[..n] + chunk + before[n + |chunk|..]
    ensures ReadSoFar(d, ino, after, n + |chunk|) && after[n + |chunk|..] == before[n + |chunk|..]
  {
    hide BlockList;
    forall j | 0 <= j < n + |chunk| ensures after[j] == FileByte(d, ino, j) {
      if j < n {
        assert after[j] == before[j];
      } else {
        SameBlock(n, j - n);
        assert after[j] == chunk[j - n];
      }
    }
  }

  /** The part of one block that is wanted: the block's bytes, or zeros for a hole. */
  method ReadPart(d: Disk, ino: Inode, buf: array<byte>, bytesRead: U32, blockOffset: U32, bytesToCopy: U32, physBlock: U32)
    requires IsInode(ino) && bytesRead + bytesToCopy < 0x1_0000_0000 && bytesRead + bytesToCopy <= buf.Length
    requires blockOffset == bytesRead % BLOCK_SIZE && blockOffset + bytesToCopy <= BLOCK_SIZE
    requires physBlock == BlockList(d, ino.block)[bytesRead / BLOCK_SIZE] && ReadSoFar(d, ino, buf[..], bytesRead)
    modifies buf
    ensures ReadSoFar(d, ino, buf[..], bytesRead + bytesToCopy)
    ensures buf[bytesRead + bytesToCopy..] == old(buf[bytesRead + bytesToCopy..])
  {
    hide BlockList;
    hide ReadSoFar;
    hide FileByte;
    ghost var before := buf[..];
    if physBlock == 0 {
      MemSet(buf, bytesRead, 0, bytesToCopy);
      ReadMore(d, ino, before, buf[..], bytesRead, seq(bytesToCopy, _ => 0));
    } else {
      var blockData := ReadBlock(d, physBlock);
      var chunk := blockData[blockOffset..blockOffset + bytesToCopy];
      MemCpy(buf, bytesRead, chunk);
      ReadMore(d, ino, before, buf[..], bytesRead, chunk);
    }
    assert buf[..][bytesRead + bytesToCopy..] == buf[bytesRead + bytesToCopy..];
  }

  /** ext2_fread: as many bytes as asked for and the file has, each the file's byte, and not one more
      is written. All counters stay within 32 bits, and every block asked for can be addressed. */
  method Fread(d: Disk, ino: Inode, buf: array<byte>, count: U32) returns (size: U32)
    requires IsInode(ino)
    requires buf.Length >= count || buf.Length >= ino.size
    modifies buf
    ensures size == if count < ino.size then count else ino.size
    ensures forall j | 0 <= j < size :: buf[j] == FileByte(d, ino, j)
    ensures forall j | 0 <= j < size ::
              var b := PhysicalAt(d, ino.block, j / 1024); buf[j] == if b == 0 then 0 else d(b, j % 1024)
    ensures buf[size..] == old(buf[size..])
  {
    hide BlockList;
    hide ReadSoFar;
    hide FileByte;
    hide PhysicalAt;
    var startOffset: U32 := 0;
    var maxRead := if startOffset > ino.size then 0 else ino.size - startOffset;
    var want: U32 := if count < maxRead then count else maxRead;
    var bytesRead: U32 := 0;
    NothingRead(d, ino, buf[..]);
    while bytesRead < want
      invariant bytesRead <= want
      invariant ReadSoFar(d, ino, buf[..], bytesRead)
      invariant buf[bytesRead..] == old(buf[bytesRead..])
    {
      var currentBlock: U32 := (startOffset + bytesRead) / BLOCK_SIZE;
      var blockOffset: U32 := (startOffset + bytesRead) % BLOCK_SIZE;
      var bytesInBlock: U32 := BLOCK_SIZE - blockOffset;
      var bytesNeeded: U32 := want - bytesRead;
      var bytesToCopy: U32 := if bytesInBlock < bytesNeeded then bytesInBlock else bytesNeeded;
      var physBlock := GetPhysicalBlock(d, ino, currentBlock);
      ghost var before := buf[..];
      ReadPart(d, ino, buf, bytesRead, blockOffset, bytesToCopy, physBlock);
      Untouched(before, buf[..], old(buf[..]), bytesRead, bytesRead + bytesToCopy);
      bytesRead := bytesRead + bytesToCopy;
    }
    size := bytesRead;
    AllRead(d, ino, buf[..], size);
  }

  lemma NothingRead(d: Disk, ino: Inode, bytes: seq<byte>)
    requires IsInode(ino)
    ensures ReadSoFar(d, ino, bytes, 0)
  {
  }

  lemma AllRead(d: Disk, ino: Inode, bytes: seq<byte>, n: U32)
    requires IsInode(ino) && ReadSoFar(d, ino, bytes, n)
    ensures n <= |bytes| && forall j | 0 <= j < n :: bytes[j] == FileByte(d, ino, j)
    ensures forall j | 0 <= j < n ::
              var b := PhysicalAt(d, ino.block, j / 1024); bytes[j] == if b == 0 then 0 else d(b, j % 1024)
  {
    hide PhysicalAt;
    hide BlockList;
    hide FileByte;
    forall j | 0 <= j < n
      ensures var b := PhysicalAt(d, ino.block, j / 1024); bytes[j] == if b == 0 then 0 else d(b, j % 1024)
    {
      FileBytes(d, ino, j);
    }
  }

  lemma Untouched(before: seq<byte>, after: seq<byte>, first: seq<byte>, n: nat, m: nat)
    requires |before| == |after| == |first| && n <= m <= |first|
    requires before[n..] == first[n..] && after[m..] == before[m..]
    ensures after[m..] == first[m..]
  {
    assert before[m..] == before[n..][m - n..] == first[n..][m - n..] == first[m..];
  }
}
