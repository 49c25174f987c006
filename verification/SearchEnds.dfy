/** When the searches of a directory and of a path come to an end (fs/ext2.c:199-280). The entry loop follows
    record lengths read from disk, so an entry of length zero in front of the name keeps it for ever. */
module SearchEnds {
  import opened Bits
  import opened Wrappers
  import opened Strings
  import opened Disk
  import opened BlockTree
  import opened Directory
  import opened PathLookup

  // The entry loop, iteration by iteration.

  /** The loop stands at an offset, has ended, or has read what lies behind the block. */
  datatype Turn = At(off: nat) | Ended | Outside

  function OneTurn(block: seq<byte>, off: nat, name: seq<byte>): Turn {
    if off >= |block| then Ended
    else if !EntryInside(block, off) then Outside
    else if Hit(block, off, name) then Ended
    else At(off + RecLen(block, off))
  }

  /** Where n iterations from t lead. */
  function Turns(block: seq<byte>, name: seq<byte>, t: Turn, n: nat): Turn
    decreases n
  {
    if n == 0 || !t.At? then t else Turns(block, name, OneTurn(block, t.off, name), n - 1)
  }

  lemma {:induction false} TurnsThen(block: seq<byte>, name: seq<byte>, t: Turn, n: nat, m: nat)
    ensures Turns(block, name, Turns(block, name, t, n), m) == Turns(block, name, t, n + m)
    decreases n
  {
    if n > 0 && t.At? { TurnsThen(block, name, OneTurn(block, t.off, name), n - 1, m); }
  }

  /** The loop gets from one offset to the other. */
  ghost predicate Visits(block: seq<byte>, off: nat, name: seq<byte>, at: nat) {
    exists n: nat :: Turns(block, name, At(off), n) == At(at)
  }

  /** An offset the loop does not leave, or only by reading behind the block. */
  predicate Stuck(block: seq<byte>, at: nat, name: seq<byte>) {
    at < |block| && (!EntryInside(block, at) || (!Hit(block, at, name) && RecLen(block, at) == 0))
  }

  lemma VisitsOn(block: seq<byte>, off: nat, name: seq<byte>, at: nat)
    requires OneTurn(block, off, name).At? && Visits(block, OneTurn(block, off, name).off, name, at)
    ensures Visits(block, off, name, at)
  {
    var n: nat :| Turns(block, name, OneTurn(block, off, name), n) == At(at);
    assert Turns(block, name, At(off), n + 1) == At(at);
  }

  /** A search that is not to be had visits a stuck offset. */
  lemma {:induction false} StuckAhead(block: seq<byte>, off: nat, name: seq<byte>) returns (at: nat)
    requires !Searchable(block, off, name)
    ensures Visits(block, off, name, at) && Stuck(block, at, name)
    decreases |block| - off
  {
    if Stuck(block, off, name) {
      at := off;
      assert Turns(block, name, At(off), 0) == At(at);
    } else {
      at := StuckAhead(block, off + RecLen(block, off), name);
      VisitsOn(block, off, name, at);
    }
  }

  /** While the search can be had, so it can from every offset the loop gets to. */
  lemma {:induction false} StaysSearchable(block: seq<byte>, off: nat, name: seq<byte>, n: nat)
    requires Searchable(block, off, name)
    ensures var t := Turns(block, name, At(off), n); t.Ended? || (t.At? && Searchable(block, t.off, name))
    decreases n
  {
    if n > 0 && OneTurn(block, off, name).At? {
      StaysSearchable(block, off + RecLen(block, off), name, n - 1);
    }
  }

  lemma {:induction false} SearchEnds(block: seq<byte>, off: nat, name: seq<byte>) returns (n: nat)
    requires Searchable(block, off, name)
    ensures Turns(block, name, At(off), n).Ended?
    decreases |block| - off
  {
    n := 1;
    if OneTurn(block, off, name).At? {
      var m := SearchEnds(block, off + RecLen(block, off), name);
      n := m + 1;
    }
  }

  lemma {:induction false} EndedMeans(block: seq<byte>, off: nat, name: seq<byte>, n: nat)
    requires Turns(block, name, At(off), n).Ended?
    ensures Searchable(block, off, name)
    decreases n
  {
    var t := OneTurn(block, off, name);
    if t.At? {
      EndedMeans(block, t.off, name, n - 1);
      if t.off == off {
        NoExit(block, off, name, n);
      }
    }
  }

  /** At an entry of length zero every iteration ends where it began. */
  lemma {:induction false} NoExit(block: seq<byte>, off: nat, name: seq<byte>, n: nat)
    requires OneTurn(block, off, name) == At(off)
    ensures Turns(block, name, At(off), n) == At(off)
    decreases n
  {
    if n > 0 { NoExit(block, off, name, n - 1); }
  }

  /** The search of a block ends inside it exactly when the loop's iterations do, and exactly when no offset the
      loop visits holds an entry that reaches out of the block or has length zero without being a hit. */
  lemma SearchableExactly(block: seq<byte>, off: nat, name: seq<byte>)
    ensures Searchable(block, off, name) <==> exists n: nat :: Turns(block, name, At(off), n).Ended?
    ensures Searchable(block, off, name) <==> forall at: nat | Visits(block, off, name, at) :: !Stuck(block, at, name)
  {
    if Searchable(block, off, name) {
      var n := SearchEnds(block, off, name);
      forall at: nat | Visits(block, off, name, at) ensures !Stuck(block, at, name) {
        var m: nat :| Turns(block, name, At(off), m) == At(at);
        StaysSearchable(block, off, name, m);
      }
    } else {
      var at := StuckAhead(block, off, name);
      if n: nat :| Turns(block, name, At(off), n).Ended? {
        EndedMeans(block, off, name, n);
      }
    }
  }

  /** The entry here is passed by, but the loop stands where it stood. */
  predicate Loops(block: seq<byte>, at: nat, name: seq<byte>) {
    OneTurn(block, at, name) == At(at)
  }

  /** No iteration is the last. */
  ghost predicate Endless(block: seq<byte>, off: nat, name: seq<byte>) {
    forall n: nat :: Turns(block, name, At(off), n).At?
  }

  lemma EndlessVisits(block: seq<byte>, off: nat, name: seq<byte>) returns (at: nat)
    requires Endless(block, off, name)
    ensures Visits(block, off, name, at) && Loops(block, at, name)
  {
    if Searchable(block, off, name) {
      var _ := SearchEnds(block, off, name);
    }
    at := StuckAhead(block, off, name);
    var n: nat :| Turns(block, name, At(off), n) == At(at);
    TurnsThen(block, name, At(off), n, 1);
    assert Turns(block, name, At(off), n + 1) == Turns(block, name, OneTurn(block, at, name), 0);
    assert Turns(block, name, At(off), n + 1).At?;
  }

  lemma VisitIsEndless(block: seq<byte>, off: nat, name: seq<byte>, at: nat)
    requires Visits(block, off, name, at) && Loops(block, at, name)
    ensures Endless(block, off, name)
  {
    var m: nat :| Turns(block, name, At(off), m) == At(at);
    forall n: nat ensures Turns(block, name, At(off), n).At? {
      if n >= m {
        TurnsThen(block, name, At(off), m, n - m);
        NoExit(block, at, name, n - m);
      } else {
        TurnsThen(block, name, At(off), n, m - n);
      }
    }
  }

  /** The loop never stops exactly when it visits an entry of length zero, inside the block and no hit. */
  lemma EndlessExactly(block: seq<byte>, off: nat, name: seq<byte>)
    ensures Endless(block, off, name) <==> exists at: nat :: Visits(block, off, name, at) && Loops(block, at, name)
  {
    hide Loops;
    hide Endless;
    hide Visits;
    if Endless(block, off, name) {
      var at := EndlessVisits(block, off, name);
    }
    if exists at: nat :: Visits(block, off, name, at) && Loops(block, at, name) {
      var at: nat :| Visits(block, off, name, at) && Loops(block, at, name);
      VisitIsEndless(block, off, name, at);
    }
  }

  /** One such block: an unused first entry of length zero. Whatever the name, the loop stays there for ever. */
  lemma BlankBlockLoops(block: seq<byte>, name: seq<byte>)
    requires |block| >= ENTRY_HEADER && U32At(block, 0) == 0 && RecLen(block, 0) == 0
    ensures !Searchable(block, 0, name) && Endless(block, 0, name)
  {
    assert Turns(block, name, At(0), 0) == At(0);
    VisitIsEndless(block, 0, name, 0);
  }

  // What it finds.

  predicate HitAt(block: seq<byte>, at: nat, name: seq<byte>) {
    at < |block| && EntryInside(block, at) && Hit(block, at, name)
  }

  /** The loop gets to an offset at once or from the next one on. */
  lemma VisitsNext(block: seq<byte>, off: nat, name: seq<byte>, at: nat)
    ensures Visits(block, off, name, at) <==>
              at == off || (OneTurn(block, off, name).At? && Visits(block, OneTurn(block, off, name).off, name, at))
  {
    assert Turns(block, name, At(off), 0) == At(off);
    if Visits(block, off, name, at) && at != off {
      var n: nat :| Turns(block, name, At(off), n) == At(at);
      assert Turns(block, name, OneTurn(block, off, name), n - 1) == At(at);
      if !OneTurn(block, off, name).At? { assert false; }
      assert Turns(block, name, At(OneTurn(block, off, name).off), n - 1) == At(at);
    }
    if OneTurn(block, off, name).At? && Visits(block, OneTurn(block, off, name).off, name, at) {
      VisitsOn(block, off, name, at);
    }
  }

  /** A search that ends finds something exactly when the loop comes to a hit, and then that hit's inode. */
  lemma {:induction false} SearchIs(block: seq<byte>, off: nat, name: seq<byte>)
    requires Searchable(block, off, name)
    ensures Search(block, off, name).Some? <==> exists at: nat :: Visits(block, off, name, at) && HitAt(block, at, name)
    ensures forall at: nat | Visits(block, off, name, at) && HitAt(block, at, name) ::
              Search(block, off, name) == Some(U32At(block, at))
    decreases |block| - off
  {
    hide Visits;
    VisitsNext(block, off, name, off);
    forall at: nat ensures Visits(block, off, name, at) <==>
                             at == off || (OneTurn(block, off, name).At? && Visits(block, OneTurn(block, off, name).off, name, at))
    {
      VisitsNext(block, off, name, at);
    }
    if OneTurn(block, off, name).At? {
      SearchIs(block, off + RecLen(block, off), name);
    } else {
      assert off < |block| ==> HitAt(block, off, name);
    }
  }

  // The search of a directory.

  /** The search has ended in this block without a hit. */
  ghost predicate Passed(block: seq<byte>, name: seq<byte>) {
    Searchable(block, 0, name) && Search(block, 0, name).None?
  }

  /** The search, begun at direct block i, comes to block j. */
  ghost predicate Reaches(d: Disk, block: seq<U32>, name: seq<byte>, i: nat, j: nat)
    requires |block| == 15
  {
    i <= j < 12 && block[j] != 0 && forall k | i <= k < j :: block[k] != 0 && Passed(ReadBlock(d, block[k]), name)
  }

  /** Nothing the search looks at is stuck. */
  ghost predicate NeverStuck(d: Disk, block: seq<U32>, name: seq<byte>, i: nat := 0)
    requires |block| == 15
  {
    forall j: nat, at: nat | Reaches(d, block, name, i, j) && Visits(ReadBlock(d, block[j]), 0, name, at) ::
      !Stuck(ReadBlock(d, block[j]), at, name)
  }

  /** The search of a directory ends exactly when no entry it comes to is stuck. */
  lemma {:induction false} SearchableDirExactly(d: Disk, block: seq<U32>, name: seq<byte>, i: nat := 0)
    requires |block| == 15
    ensures SearchableDir(d, block, name, i) <==> NeverStuck(d, block, name, i)
    decreases 12 - i
  {
    hide Stuck;
    hide Visits;
    hide Searchable;
    hide ReadBlock;
    if i < 12 && block[i] != 0 {
      var b := ReadBlock(d, block[i]);
      SearchableExactly(b, 0, name);
      assert Reaches(d, block, name, i, i);
      if Passed(b, name) {
        SearchableDirExactly(d, block, name, i + 1);
        forall j | i < j < 12 ensures Reaches(d, block, name, i, j) <==> Reaches(d, block, name, i + 1, j) {
        }
      } else {
        forall j | Reaches(d, block, name, i, j) ensures j == i {
        }
      }
    }
  }

  /** A search that ends with nothing has seen every entry: the directory can be listed, and no entry in it has the
      name. */
  lemma {:induction false} NothingInBlock(block: seq<byte>, off: nat, name: seq<byte>)
    requires Searchable(block, off, name) && Search(block, off, name).None?
    ensures Walkable(block, off)
    decreases |block| - off
  {
    if off < |block| { NothingInBlock(block, off + RecLen(block, off), name); }
  }

  lemma {:induction false} NothingInDir(d: Disk, block: seq<U32>, name: seq<byte>, i: nat := 0)
    requires |block| == 15 && SearchableDir(d, block, name, i) && SearchDir(d, block, name, i).None?
    ensures Readable(d, block, i)
    decreases 12 - i
  {
    if i < 12 && block[i] != 0 {
      NothingInBlock(ReadBlock(d, block[i]), 0, name);
      NothingInDir(d, block, name, i + 1);
    }
  }

  /** So -1 says that there is no such entry, on every directory whose search ends; and on one that can be listed
      it comes exactly then. */
  lemma NothingMissed(d: Disk, block: seq<U32>, name: seq<byte>)
    requires |block| == 15 && SearchableDir(d, block, name)
    ensures SearchDir(d, block, name).None? <==>
              Readable(d, block) && forall k | 0 <= k < |Listing(d, block)| :: CStr(Listing(d, block)[k].name) != name
  {
    hide Readable;
    hide Listing;
    hide SearchDir;
    hide SearchableDir;
    if SearchDir(d, block, name).None? {
      NothingInDir(d, block, name);
    }
    if Readable(d, block) {
      SearchDirFinds(d, block, name);
      FindNameMeans(Listing(d, block), name);
    }
  }

  // The lookup of a path.

  /** The walk gets past k names, and stands at a directory to be searched for the next. */
  ghost predicate Searches(fs: Fs, d: Disk, r: Result<Inode>, names: seq<seq<byte>>, k: nat)
    requires k < |names|
  {
    && Walks(fs, d, r, names[..k])
    && var at := Walk(fs, d, r, names[..k]); at.Ok? && IsInode(at.value) && IsDir(at.value)
  }

  /** A search there, if there is one, comes to no stuck entry. */
  ghost predicate ClearAt(fs: Fs, d: Disk, r: Result<Inode>, names: seq<seq<byte>>, k: nat)
    requires k < |names|
  {
    Searches(fs, d, r, names, k) ==> NeverStuck(d, Walk(fs, d, r, names[..k]).value.block, names[k])
  }

  /** Nor does any search on the way. */
  ghost predicate ClearWay(fs: Fs, d: Disk, r: Result<Inode>, names: seq<seq<byte>>) {
    forall k: nat | k < |names| :: ClearAt(fs, d, r, names, k)
  }

  /** One name further, the rest of the way is the same. */
  lemma ClearOn(fs: Fs, d: Disk, r: Result<Inode>, names: seq<seq<byte>>, k: nat)
    requires 0 < k < |names| && FsOk(fs) && Usable(d, r, names[0])
    ensures ClearAt(fs, d, r, names, k) <==> ClearAt(fs, d, Descend(fs, d, r, names[0]), names[1..], k - 1)
  {
    hide Usable;
    hide Descend;
    hide IsDir;
    hide NeverStuck;
    assert names[..k][0] == names[0] && names[..k][1..] == names[1..][..k - 1];
    assert names[1..][k - 1] == names[k];
  }

  /** The first search of a walk. */
  lemma FirstSearch(fs: Fs, d: Disk, r: Result<Inode>, names: seq<seq<byte>>)
    requires FsOk(fs) && names != [] && (r.Ok? ==> IsInode(r.value))
    ensures ClearAt(fs, d, r, names, 0) <==> Usable(d, r, names[0])
  {
    hide IsDir;
    hide NeverStuck;
    hide SearchableDir;
    if r.Ok? { SearchableDirExactly(d, r.value.block, names[0]); }
    assert names[..0] == [];
  }

  /** A walk can be made to its end exactly when no search on the way comes to a stuck entry. */
  lemma {:induction false} WalksExactly(fs: Fs, d: Disk, r: Result<Inode>, names: seq<seq<byte>>)
    requires FsOk(fs) && (r.Ok? ==> IsInode(r.value))
    ensures Walks(fs, d, r, names) <==> ClearWay(fs, d, r, names)
    decreases |names|
  {
    hide FsOk;
    hide ClearAt;
    hide Usable;
    hide Descend;
    if names != [] {
      FirstSearch(fs, d, r, names);
      if Usable(d, r, names[0]) {
        var r', rest := Descend(fs, d, r, names[0]), names[1..];
        WalksExactly(fs, d, r', rest);
        forall k: nat | 0 < k < |names| ensures ClearAt(fs, d, r, names, k) <==> ClearAt(fs, d, r', rest, k - 1) {
          ClearOn(fs, d, r, names, k);
        }
        if ClearWay(fs, d, r, names) {
          forall k: nat | k < |rest| ensures ClearAt(fs, d, r', rest, k) {
            assert ClearAt(fs, d, r, names, k + 1);
          }
        }
      }
    }
  }

  /** Looking up a path comes to an end exactly when no search on its way comes to an entry that reaches out of its
      block, or has length zero without being the hit. */
  lemma ResolvableExactly(fs: Fs, d: Disk, path: seq<byte>)
    requires FsOk(fs)
    ensures Resolvable(fs, d, path) <==> ClearWay(fs, d, GetInode(fs, d, ROOT_INO), Tokens(path))
  {
    hide GetInode;
    hide Tokens;
    hide FsOk;
    WalksExactly(fs, d, GetInode(fs, d, ROOT_INO), Tokens(path));
  }

  /** With such an entry first in the root directory no path with a name in it can be looked up. */
  lemma BlankRootLoops(fs: Fs, d: Disk, path: seq<byte>)
    requires FsOk(fs) && GetInode(fs, d, ROOT_INO).Ok? && Tokens(path) != []
    requires var root := GetInode(fs, d, ROOT_INO).value; IsInode(root) && IsDir(root) && root.block[0] != 0
                                                          && U32At(ReadBlock(d, root.block[0]), 0) == 0
                                                          && RecLen(ReadBlock(d, root.block[0]), 0) == 0
    ensures !Resolvable(fs, d, path)
  {
    hide GetInode;
    hide Tokens;
    hide FsOk;
    hide IsDir;
    hide ReadBlock;
    var root := GetInode(fs, d, ROOT_INO).value;
    BlankBlockLoops(ReadBlock(d, root.block[0]), Tokens(path)[0]);
  }
}
