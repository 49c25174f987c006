/** Searching a directory (fs/ext2.c:199-236, include/ext2.h:134-140). */
module Directory {
  import opened Bits
  import opened Wrappers
  import opened Disk
  import opened Strings

  const NAME_LEN := 255
  const ENTRY_HEADER := 8

  datatype DirEntry = DirEntry(inode: U32, name: seq<byte>)

  // The entry at an offset of a block.

  function RecLen(block: seq<byte>, off: nat): nat
    requires off + ENTRY_HEADER <= |block|
  {
    Field(block, off + 4, 2)
  }

  function NameLen(block: seq<byte>, off: nat): (n: nat)
    requires off + ENTRY_HEADER <= |block|
    ensures n <= NAME_LEN
  {
    block[off + 6]
  }

  /** An entry that names something. */
  predicate Live(block: seq<byte>, off: nat)
    requires off + ENTRY_HEADER <= |block|
  {
    U32At(block, off) != 0 && NameLen(block, off) != 0
  }

  /** The search can walk the chain of entries from here: each makes progress, and what it reads of it
      lies inside the block. */
  ghost predicate Walkable(block: seq<byte>, off: nat)
    decreases |block| - off
  {
    off >= |block|
    || (&& off + ENTRY_HEADER <= |block| && RecLen(block, off) > 0
        && (Live(block, off) ==> off + ENTRY_HEADER + NameLen(block, off) <= |block|)
        && Walkable(block, off + RecLen(block, off)))
  }

  /** What the format asks: entries tile the block, each long enough for its name. */
  ghost predicate Tiled(block: seq<byte>, off: nat)
    decreases |block| - off
  {
    off == |block|
    || (&& off + ENTRY_HEADER <= |block| && off + ENTRY_HEADER + NameLen(block, off) <= off + RecLen(block, off) <= |block|
        && Tiled(block, off + RecLen(block, off)))
  }

  lemma {:induction false} TiledWalks(block: seq<byte>, off: nat)
    requires Tiled(block, off)
    ensures Walkable(block, off)
    decreases |block| - off
  {
    if off < |block| { TiledWalks(block, off + RecLen(block, off)); }
  }

  /** The live entries of a block in order. */
  ghost function Entries(block: seq<byte>, off: nat): seq<DirEntry>
    requires Walkable(block, off)
    decreases |block| - off
  {
    if off >= |block| then []
    else
      var rest := Entries(block, off + RecLen(block, off));
      if !Live(block, off) then rest
      else [DirEntry(U32At(block, off), block[off + ENTRY_HEADER..off + ENTRY_HEADER + NameLen(block, off)])] + rest
  }

  /** Where the fields of an entry are: its inode in four bytes, its length in two, its name's length in one. */
  lemma EntryFields(block: seq<byte>, off: nat)
    requires off + 8 <= |block|
    ensures U32At(block, off) == Le4(block[off], block[off + 1], block[off + 2], block[off + 3])
    ensures RecLen(block, off) == Le2(block[off + 4], block[off + 5]) && NameLen(block, off) == block[off + 6]
    ensures Live(block, off) <==> Le4(block[off], block[off + 1], block[off + 2], block[off + 3]) != 0 && block[off + 6] != 0
  {
    FieldOf4(block, off);
    FieldOf2(block, off + 4);
  }

  /** The entries of a block, byte by byte: the one here, unless its inode or its name is empty, its name behind
      eight bytes, and the others from its length on. */
  lemma EntriesBytes(block: seq<byte>, off: nat)
    requires Walkable(block, off)
    ensures off >= |block| ==> Entries(block, off) == []
    ensures off < |block| ==>
              && off + 8 <= |block|
              && var ino := Le4(block[off], block[off + 1], block[off + 2], block[off + 3]);
                 var len, n := Le2(block[off + 4], block[off + 5]), block[off + 6];
                 && len > 0 && Walkable(block, off + len)
                 && (if ino == 0 || n == 0 then Entries(block, off) == Entries(block, off + len)
                     else off + 8 + n <= |block|
                          && Entries(block, off) == [DirEntry(ino, block[off + 8..off + 8 + n])] + Entries(block, off + len))
  {
    if off < |block| { EntryFields(block, off); }
  }

  /** The directory's direct blocks up to the first zero pointer can be walked. */
  ghost predicate Readable(d: Disk, block: seq<U32>, i: nat := 0)
    requires |block| == 15
    decreases 12 - i
  {
    i >= 12 || block[i] == 0 || (Walkable(ReadBlock(d, block[i]), 0) && Readable(d, block, i + 1))
  }

  /** The live entries of a directory in order. */
  ghost function Listing(d: Disk, block: seq<U32>, i: nat := 0): seq<DirEntry>
    requires |block| == 15 && Readable(d, block, i)
    decreases 12 - i
  {
    if i >= 12 || block[i] == 0 then [] else Entries(ReadBlock(d, block[i]), 0) + Listing(d, block, i + 1)
  }

  /** Block i is one of the twelve direct ones and no pointer up to it is zero. */
  ghost predicate DirectBlock(block: seq<U32>, from: nat, i: nat)
    requires |block| == 15
  {
    from <= i < 12 && forall j | from <= j <= i :: block[j] != 0
  }

  /** A listing has exactly the entries of these blocks. */
  lemma {:induction false} ListingHas(d: Disk, block: seq<U32>, e: DirEntry, from: nat := 0)
    requires |block| == 15 && Readable(d, block, from)
    ensures e in Listing(d, block, from) <==>
              exists i: nat :: DirectBlock(block, from, i) && Walkable(ReadBlock(d, block[i]), 0)
                          && e in Entries(ReadBlock(d, block[i]), 0)
    decreases 12 - from
  {
    hide Walkable;
    hide Entries;
    if from < 12 && block[from] != 0 {
      ListingHas(d, block, e, from + 1);
      assert DirectBlock(block, from, from);
      forall i: nat ensures DirectBlock(block, from + 1, i) <==> DirectBlock(block, from, i) && i > from {
      }
    }
  }

  /** The inode of the first entry called `name`. Names are compared as strings. */
  ghost function FindName(es: seq<DirEntry>, name: seq<byte>): Option<U32> {
    if es == [] then None
    else if CStr(es[0].name) == name then Some(es[0].inode)
    else FindName(es[1..], name)
  }

  /** FindName finds the first entry with that name, and finds nothing exactly when there is none. */
  lemma {:induction false} FindNameMeans(es: seq<DirEntry>, name: seq<byte>)
    ensures FindName(es, name).None? <==> forall j | 0 <= j < |es| :: CStr(es[j].name) != name
    ensures forall k | 0 <= k < |es| && CStr(es[k].name) == name && (forall j | 0 <= j < k :: CStr(es[j].name) != name) ::
              FindName(es, name) == Some(es[k].inode)
  {
    if es != [] && CStr(es[0].name) != name {
      FindNameMeans(es[1..], name);
      forall k | 0 <= k < |es| && CStr(es[k].name) == name && (forall j | 0 <= j < k :: CStr(es[j].name) != name)
        ensures FindName(es, name) == Some(es[k].inode)
      {
        assert es[1..][k - 1] == es[k];
        forall j | 0 <= j < k - 1 ensures CStr(es[1..][j].name) != name {
          assert es[1..][j] == es[j + 1];
        }
      }
      if forall j | 0 <= j < |es[1..]| :: CStr(es[1..][j].name) != name {
        forall j | 0 <= j < |es| ensures CStr(es[j].name) != name {
          if j > 0 { assert es[j] == es[1..][j - 1]; }
        }
      } else {
        var j :| 0 <= j < |es[1..]| && CStr(es[1..][j].name) == name;
        assert es[j + 1] == es[1..][j];
      }
    }
  }

  lemma {:induction false} FindNameCat(a: seq<DirEntry>, b: seq<DirEntry>, name: seq<byte>)
    ensures FindName(a + b, name) == if FindName(a, name).Some? then FindName(a, name) else FindName(b, name)
  {
    if a == [] {
      assert a + b == b;
    } else if CStr(a[0].name) != name {
      FindNameCat(a[1..], b, name);
      assert (a + b)[1..] == a[1..] + b;
    }
  }

  // The search. It stops at the first hit, so it asks nothing of what comes after.

  function NameAt(block: seq<byte>, off: nat): seq<byte>
    requires off + ENTRY_HEADER <= |block| && off + ENTRY_HEADER + NameLen(block, off) <= |block|
  {
    block[off + ENTRY_HEADER..off + ENTRY_HEADER + NameLen(block, off)]
  }

  /** What the search reads of the entry at an offset lies inside the block. */
  predicate EntryInside(block: seq<byte>, off: nat) {
    && off + ENTRY_HEADER <= |block|
    && (Live(block, off) ==> off + ENTRY_HEADER + NameLen(block, off) <= |block|)
  }

  predicate Hit(block: seq<byte>, off: nat, name: seq<byte>)
    requires EntryInside(block, off)
  {
    Live(block, off) && CStr(NameAt(block, off)) == name
  }

  /** The search for a name from here stays inside the block and comes to an end. */
  ghost predicate Searchable(block: seq<byte>, off: nat, name: seq<byte>)
    decreases |block| - off
  {
    off >= |block|
    || (&& EntryInside(block, off)
        && (Hit(block, off, name) || (RecLen(block, off) > 0 && Searchable(block, off + RecLen(block, off), name))))
  }

  ghost function Search(block: seq<byte>, off: nat, name: seq<byte>): Option<U32>
    requires Searchable(block, off, name)
    decreases |block| - off
  {
    if off >= |block| then None
    else if Hit(block, off, name) then Some(U32At(block, off))
    else Search(block, off + RecLen(block, off), name)
  }

  ghost predicate SearchableDir(d: Disk, block: seq<U32>, name: seq<byte>, i: nat := 0)
    requires |block| == 15
    decreases 12 - i
  {
    i >= 12 || block[i] == 0
    || (&& Searchable(ReadBlock(d, block[i]), 0, name)
        && (Search(ReadBlock(d, block[i]), 0, name).Some? || SearchableDir(d, block, name, i + 1)))
  }

  ghost function SearchDir(d: Disk, block: seq<U32>, name: seq<byte>, i: nat := 0): Option<U32>
    requires |block| == 15 && SearchableDir(d, block, name, i)
    decreases 12 - i
  {
    if i >= 12 || block[i] == 0 then None
    else
      var found := Search(ReadBlock(d, block[i]), 0, name);
      if found.Some? then found else SearchDir(d, block, name, i + 1)
  }

  /** In a block that can be walked to its end, the search finds the first entry of that name. */
  lemma {:induction false} SearchFinds(block: seq<byte>, off: nat, name: seq<byte>)
    requires Walkable(block, off)
    ensures Searchable(block, off, name) && Search(block, off, name) == FindName(Entries(block, off), name)
    decreases |block| - off
  {
    if off < |block| {
      SearchFinds(block, off + RecLen(block, off), name);
      if Live(block, off) {
        var es := Entries(block, off);
        assert es[0] == DirEntry(U32At(block, off), NameAt(block, off));
        assert es[1..] == Entries(block, off + RecLen(block, off));
      }
    }
  }

  /** In a directory whose blocks can be walked, it finds the first entry of that name. */
  lemma {:induction false} SearchDirFinds(d: Disk, block: seq<U32>, name: seq<byte>, i: nat := 0)
    requires |block| == 15 && Readable(d, block, i)
    ensures SearchableDir(d, block, name, i) && SearchDir(d, block, name, i) == FindName(Listing(d, block, i), name)
    decreases 12 - i
  {
    if i < 12 && block[i] != 0 {
      var b := ReadBlock(d, block[i]);
      SearchFinds(b, 0, name);
      SearchDirFinds(d, block, name, i + 1);
      FindNameCat(Entries(b, 0), Listing(d, block, i + 1), name);
    }
  }

  /** The search inside one block. */
  method FindInBlock(block: seq<byte>, name: seq<byte>) returns (found: bool, ino: U32)
    requires |block| == BLOCK_SIZE && 0 in name && Searchable(block, 0, CStr(name))
    ensures Search(block, 0, CStr(name)) == if found then Some(ino) else None
  {
    hide Cut;
    var de := 0;
    while de < |block|
      invariant Searchable(block, de, CStr(name))
      invariant Search(block, 0, CStr(name)) == Search(block, de, CStr(name))
      decreases |block| - de
    {
      if U32At(block, de) == 0 || NameLen(block, de) == 0 {
        de := de + RecLen(block, de);
        continue;
      }
      var deName := NameAt(block, de) + [0];
      var c := StrCmp(deName, name);
      EntryName(deName, deName[..|deName| - 1]);
      CutShort(CStr(name), CStr(deName));
      if c == 0 {
        return true, U32At(block, de);
      }
      de := de + RecLen(block, de);
    }
    return false, 0;
  }

  lemma {:induction false} EntryName(z: seq<byte>, name: seq<byte>)
    requires z == name + [0]
    ensures CStr(z) == CStr(name) && |CStr(z)| <= |name|
    decreases |name|
  {
    if name != [] && name[0] != 0 {
      EntryName(z[1..], name[1..]);
    }
  }

  /** find_dir_entry: 0 and the inode of the first live entry of that name in the direct blocks before
      the first zero pointer, -1 when there is none. */
  method FindDirEntry(d: Disk, dir: Inode, name: seq<byte>) returns (r: int, ino: U32)
    requires IsInode(dir) && 0 in name && SearchableDir(d, dir.block, CStr(name))
    ensures r == 0 || r == -1
    ensures SearchDir(d, dir.block, CStr(name)) == if r == 0 then Some(ino) else None
  {
    var i := 0;
    while i < 12
      invariant 0 <= i <= 12 && SearchableDir(d, dir.block, CStr(name), i)
      invariant SearchDir(d, dir.block, CStr(name)) == SearchDir(d, dir.block, CStr(name), i)
    {
      if dir.block[i] == 0 { break; }
      var block := ReadBlock(d, dir.block[i]);
      var found, n := FindInBlock(block, name);
      if found { return 0, n; }
      i := i + 1;
    }
    return -1, 0;
  }
}
