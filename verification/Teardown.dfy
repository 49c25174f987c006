/** The pages a page table reaches, and what freeing them does to the page memory. */
module Teardown {
  import opened Mmu
  import opened PageTable
  import opened AddressSpace

  /** x is p or a table page found below p by following non-zero entries. */
  ghost predicate Reach(mem: Memory, p: nat, level: nat, x: nat)
    decreases level
  {
    x == p || (level > 0 && exists i | 0 <= i < ENTRIES :: Child(mem, p, i) != 0 && Reach(mem, Child(mem, p, i), level - 1, x))
  }

  /** The table below p is intact: every entry leads to a table of the same process that knows its place. */
  ghost predicate Subtree(mem: Memory, owner: Owners, id: nat, p: nat, level: nat)
    decreases level
  {
    && TableAt(mem, p) && p in owner && owner[p].Dir? && owner[p].id == id && owner[p].level == level
    && (level > 0 ==>
          forall i | 0 <= i < ENTRIES && Child(mem, p, i) != 0 ::
            && Child(mem, p, i) in owner && owner[Child(mem, p, i)] == Dir(id, level - 1, p, i)
            && Subtree(mem, owner, id, Child(mem, p, i), level - 1))
  }

  /** The page k steps above x in the tree. */
  ghost function Above(owner: Owners, x: nat, k: nat): nat
    decreases k
  {
    if k == 0 || x !in owner || !owner[x].Dir? then x else Above(owner, owner[x].up, k - 1)
  }

  lemma {:induction false} AboveStep(owner: Owners, x: nat, k: nat)
    requires Above(owner, x, k) in owner && owner[Above(owner, x, k)].Dir?
    ensures Above(owner, x, k + 1) == owner[Above(owner, x, k)].up
    decreases k
  {
    if k > 0 && x in owner && owner[x].Dir? {
      AboveStep(owner, owner[x].up, k - 1);
    }
  }

  /** Everything reached from p is a table of its process, and climbing from it leads back to p. */
  lemma {:induction false} ReachClimbs(mem: Memory, owner: Owners, id: nat, p: nat, level: nat, x: nat)
    requires Subtree(mem, owner, id, p, level) && Reach(mem, p, level, x)
    ensures x in owner && owner[x].Dir? && owner[x].id == id && owner[x].level <= level && TableAt(mem, x)
    ensures Above(owner, x, level - owner[x].level) == p
    decreases level
  {
    if x != p {
      var i :| 0 <= i < ENTRIES && Child(mem, p, i) != 0 && Reach(mem, Child(mem, p, i), level - 1, x);
      ReachClimbs(mem, owner, id, Child(mem, p, i), level - 1, x);
      AboveStep(owner, x, level - 1 - owner[x].level);
    }
  }

  /** Subtrees below different entries share no page, and none contains the parent. */
  lemma ReachDisjoint(mem: Memory, owner: Owners, id: nat, p: nat, level: nat, i: nat, j: nat, x: nat)
    requires Subtree(mem, owner, id, p, level) && level > 0 && i < ENTRIES && j < ENTRIES
    requires Child(mem, p, i) != 0 && Reach(mem, Child(mem, p, i), level - 1, x)
    requires Child(mem, p, j) != 0 && Reach(mem, Child(mem, p, j), level - 1, x)
    ensures i == j && x != p
  {
    ReachClimbs(mem, owner, id, Child(mem, p, i), level - 1, x);
    ReachClimbs(mem, owner, id, Child(mem, p, j), level - 1, x);
  }

  ghost predicate SameReach(mem: Memory, mem': Memory, p: nat, level: nat) {
    forall x :: Reach(mem', p, level, x) <==> Reach(mem, p, level, x)
  }

  /** Reach and Subtree depend only on the pages reached. */
  lemma {:induction false} SubtreeFrame(mem: Memory, owner: Owners, mem': Memory, owner': Owners, id: nat, p: nat, level: nat)
    requires Subtree(mem, owner, id, p, level)
    requires forall x | Reach(mem, p, level, x) ::
               x in mem && x in owner && x in mem' && mem'[x] == mem[x] && x in owner' && owner'[x] == owner[x]
    ensures Subtree(mem', owner', id, p, level)
    ensures SameReach(mem, mem', p, level)
    decreases level
  {
    assert Reach(mem, p, level, p);
    if level > 0 {
      forall i | 0 <= i < ENTRIES && Child(mem, p, i) != 0
        ensures Child(mem, p, i) in owner' && owner'[Child(mem, p, i)] == Dir(id, level - 1, p, i)
        ensures Subtree(mem', owner', id, Child(mem, p, i), level - 1)
        ensures SameReach(mem, mem', Child(mem, p, i), level - 1)
      {
        var c := Child(mem, p, i);
        assert Reach(mem, c, level - 1, c);
        assert Reach(mem, p, level, c);
        forall x | Reach(mem, c, level - 1, x)
          ensures x in mem && x in owner && x in mem' && mem'[x] == mem[x] && x in owner' && owner'[x] == owner[x]
        {
          assert Reach(mem, p, level, x);
        }
        SubtreeFrame(mem, owner, mem', owner', id, c, level - 1);
      }
      assert forall i | 0 <= i < ENTRIES :: Child(mem', p, i) == Child(mem, p, i);
    }
  }

  /** The pages below entries [0, n) of table p. */
  ghost predicate ReachBelow(mem: Memory, p: nat, level: nat, n: nat, x: nat)
    requires level > 0
  {
    exists i | 0 <= i < n && i < ENTRIES :: Child(mem, p, i) != 0 && Reach(mem, Child(mem, p, i), level - 1, x)
  }

  ghost function ReachSet(mem: Memory, p: nat, level: nat): set<nat> {
    set x | x in mem && Reach(mem, p, level, x)
  }

  ghost function BelowSet(mem: Memory, p: nat, level: nat, n: nat): set<nat>
    requires level > 0
  {
    set x | x in mem && ReachBelow(mem, p, level, n, x)
  }

  /** Exactly the pages in s became free; every other page kept its owner and its contents. */
  ghost predicate Released(s: set<nat>, mem: Memory, owner: Owners, mem': Memory, owner': Owners) {
    && owner.Keys == mem.Keys && mem'.Keys == mem.Keys && owner'.Keys == owner.Keys && s <= mem.Keys
    && (forall x | x in owner :: if x in s then owner'[x].Free? else owner'[x] == owner[x] && mem'[x] == mem[x])
  }

  lemma ReleasedThen(s: set<nat>, t: set<nat>, a: Memory, ao: Owners, b: Memory, bo: Owners, c: Memory, co: Owners)
    requires Released(s, a, ao, b, bo) && Released(t, b, bo, c, co)
    ensures Released(s + t, a, ao, c, co)
  {
    forall x | x in ao ensures if x in s + t then co[x].Free? else co[x] == ao[x] && c[x] == a[x] {
    }
  }

  lemma ReleasedOne(p: nat, l: nat, mem: Memory, owner: Owners)
    requires p in mem && owner.Keys == mem.Keys
    ensures Released({p}, mem, owner, mem[p := Link(l)], owner[p := Free])
  {
  }

  /** With the subtrees below entries [0, n) freed, table p and the subtree below entry n are intact. */
  lemma NextIntact(mem: Memory, owner: Owners, mem': Memory, owner': Owners, id: nat, p: nat, level: nat, n: nat)
    requires Subtree(mem, owner, id, p, level) && level > 0 && n < ENTRIES
    requires Released(BelowSet(mem, p, level, n), mem, owner, mem', owner')
    ensures p in owner' && owner'[p] == owner[p] && p in mem && mem'[p] == mem[p] && TableAt(mem', p)
    ensures mem'[p].pte[n] == Child(mem, p, n)
    ensures Child(mem, p, n) != 0 ==>
              && Subtree(mem', owner', id, Child(mem, p, n), level - 1)
              && ReachSet(mem', Child(mem, p, n), level - 1) == ReachSet(mem, Child(mem, p, n), level - 1)
  {
    assert p !in BelowSet(mem, p, level, n) by {
      if ReachBelow(mem, p, level, n, p) {
        var i :| 0 <= i < n && i < ENTRIES && Child(mem, p, i) != 0 && Reach(mem, Child(mem, p, i), level - 1, p);
        ReachDisjoint(mem, owner, id, p, level, i, i, p);
      }
    }
    var c := Child(mem, p, n);
    if c != 0 {
      forall x | Reach(mem, c, level - 1, x)
        ensures x in mem && x in owner && x in mem' && mem'[x] == mem[x] && x in owner' && owner'[x] == owner[x]
      {
        ReachClimbs(mem, owner, id, c, level - 1, x);
        if ReachBelow(mem, p, level, n, x) {
          var i :| 0 <= i < n && i < ENTRIES && Child(mem, p, i) != 0 && Reach(mem, Child(mem, p, i), level - 1, x);
          ReachDisjoint(mem, owner, id, p, level, i, n, x);
        }
        assert x !in BelowSet(mem, p, level, n);
      }
      SubtreeFrame(mem, owner, mem', owner', id, c, level - 1);
    }
  }

  lemma BelowMore(mem: Memory, p: nat, level: nat, n: nat)
    requires level > 0 && n < ENTRIES
    ensures BelowSet(mem, p, level, n + 1)
            == BelowSet(mem, p, level, n)
               + if Child(mem, p, n) != 0 then ReachSet(mem, Child(mem, p, n), level - 1) else {}
  {
    forall x | x in mem
      ensures ReachBelow(mem, p, level, n + 1, x)
              <==> ReachBelow(mem, p, level, n, x) || (Child(mem, p, n) != 0 && Reach(mem, Child(mem, p, n), level - 1, x))
    {
      if ReachBelow(mem, p, level, n + 1, x) {
        var i :| 0 <= i < n + 1 && i < ENTRIES && Child(mem, p, i) != 0 && Reach(mem, Child(mem, p, i), level - 1, x);
      }
      if ReachBelow(mem, p, level, n, x) {
        var i :| 0 <= i < n && i < ENTRIES && Child(mem, p, i) != 0 && Reach(mem, Child(mem, p, i), level - 1, x);
        assert 0 <= i < n + 1;
      }
    }
  }

  lemma BelowNone(mem: Memory, p: nat, level: nat)
    requires level > 0
    ensures BelowSet(mem, p, level, 0) == {}
  {
  }

  lemma BelowAll(mem: Memory, p: nat, level: nat)
    requires p in mem
    ensures level > 0 ==> ReachSet(mem, p, level) == BelowSet(mem, p, level, ENTRIES) + {p}
    ensures level == 0 ==> ReachSet(mem, p, level) == {p}
  {
  }

  /** From a root, the pages reached are exactly the process's table pages. */
  lemma RootReachesAll(mem: Memory, owner: Owners, spaces: Spaces, id: nat)
    requires TablesOk(mem, owner, spaces) && id in spaces
    ensures Subtree(mem, owner, id, spaces[id].pgtbl, 2)
    ensures forall x | x in mem :: Reach(mem, spaces[id].pgtbl, 2, x) <==> owner[x].Dir? && owner[x].id == id
  {
    var r := spaces[id].pgtbl;
    assert Subtree(mem, owner, id, r, 2) by {
      assert DirOk(mem, owner, spaces, r);
      forall i | 0 <= i < ENTRIES && Child(mem, r, i) != 0
        ensures Subtree(mem, owner, id, Child(mem, r, i), 1)
      {
        var c := Child(mem, r, i);
        assert owner[c] == Dir(id, 1, r, i);
        assert DirOk(mem, owner, spaces, c);
        forall j | 0 <= j < ENTRIES && Child(mem, c, j) != 0
          ensures Subtree(mem, owner, id, Child(mem, c, j), 0)
        {
          assert owner[Child(mem, c, j)] == Dir(id, 0, c, j);
          assert DirOk(mem, owner, spaces, Child(mem, c, j));
        }
      }
    }
    forall x | x in mem ensures Reach(mem, r, 2, x) <==> owner[x].Dir? && owner[x].id == id {
      if Reach(mem, r, 2, x) {
        ReachClimbs(mem, owner, id, r, 2, x);
      } else if owner[x].Dir? && owner[x].id == id {
        TableIsReached(mem, owner, spaces, id, x);
      }
    }
  }

  lemma TableIsReached(mem: Memory, owner: Owners, spaces: Spaces, id: nat, x: nat)
    requires TablesOk(mem, owner, spaces) && id in spaces
    requires x in owner && owner[x].Dir? && owner[x].id == id
    ensures Reach(mem, spaces[id].pgtbl, 2, x)
  {
    var r := spaces[id].pgtbl;
    assert DirOk(mem, owner, spaces, x);
    if owner[x].level < 2 {
      var u := owner[x].up;
      assert DirOk(mem, owner, spaces, u);
      assert x != 0;
      assert Child(mem, u, owner[x].idx) == x;
      if owner[u].level == 2 {
        assert u == r;
        assert Reach(mem, Child(mem, r, owner[x].idx), 1, x);
      } else {
        var t := owner[u].up;
        assert DirOk(mem, owner, spaces, t);
        assert t == r && Child(mem, r, owner[u].idx) == u && u != 0;
        assert Reach(mem, Child(mem, u, owner[x].idx), 0, x);
        assert Reach(mem, u, 1, x);
        assert Reach(mem, Child(mem, r, owner[u].idx), 1, x);
      }
    }
  }

  /** All pages process `id` owns: its table pages and the frames on its mapping list. */
  ghost function OwnedBy(owner: Owners, id: nat): set<nat> {
    set x | x in owner && (owner[x] == Held(id) || (owner[x].Dir? && owner[x].id == id))
  }

  /** The frames on a mapping list. */
  ghost function FramesIn(maps: seq<Mapping>): set<nat> {
    set k | 0 <= k < |maps| :: maps[k].pa
  }

  /** Popping the next mapping and freeing its frame. */
  lemma FreeNextFrame(mem0: Memory, owner0: Owners, spaces: Spaces, id: nat, k: nat, mem: Memory, owner: Owners)
    requires Consistent(mem0, owner0, spaces) && id in spaces && k < |spaces[id].maps|
    requires Released(FramesIn(spaces[id].maps[..k]), mem0, owner0, mem, owner)
    ensures var p := spaces[id].maps[k].pa;
            KernelPage(p) && p % PGSIZE == 0 && PaToVa(p) == p && p in mem && p in owner && owner[p] == Held(id)
            && FramesIn(spaces[id].maps[..k]) + {p} == FramesIn(spaces[id].maps[..k + 1])
  {
    hide TablesOk;
    hide LeavesOk;
    hide ValidPerm;
    hide KernelPage;
    hide FramesIn;
    var maps := spaces[id].maps;
    var p := maps[k].pa;
    ListIsValid(mem0, owner0, spaces, id);
    KernelPointerDecodes(p);
    assert SpaceOk(mem0, owner0, id, spaces[id]);
    FramesMore(maps, k);
  }

  lemma FramesMore(maps: seq<Mapping>, k: nat)
    requires k < |maps| && forall i, j | 0 <= i < j < |maps| :: maps[i].pa != maps[j].pa
    ensures FramesIn(maps[..k]) + {maps[k].pa} == FramesIn(maps[..k + 1])
    ensures maps[k].pa !in FramesIn(maps[..k])
  {
    var p := maps[k].pa;
    forall x ensures x in FramesIn(maps[..k + 1]) <==> x in FramesIn(maps[..k]) || x == p {
      if x in FramesIn(maps[..k]) {
        var j :| 0 <= j < k && maps[..k][j].pa == x;
        assert maps[..k + 1][j].pa == x;
      }
      if x in FramesIn(maps[..k + 1]) {
        var j :| 0 <= j < k + 1 && maps[..k + 1][j].pa == x;
        assert j < k ==> maps[..k][j].pa == x;
      }
      assert maps[..k + 1][k].pa == p;
    }
  }

  /** Once every frame on the list is free, the table tree is still whole. */
  lemma FramesGone(mem0: Memory, owner0: Owners, spaces: Spaces, id: nat, mem: Memory, owner: Owners)
    requires Consistent(mem0, owner0, spaces) && id in spaces
    requires Released(FramesIn(spaces[id].maps), mem0, owner0, mem, owner)
    ensures Subtree(mem, owner, id, spaces[id].pgtbl, 2)
    ensures FramesIn(spaces[id].maps) + ReachSet(mem, spaces[id].pgtbl, 2) == OwnedBy(owner0, id)
  {
    hide LeavesOk;
    hide ValidPerm;
    hide Subtree;
    hide Reach;
    hide DirOk;
    hide KernelPage;
    var maps := spaces[id].maps;
    assert SpaceOk(mem0, owner0, id, spaces[id]);
    forall x | x in owner0 ensures x in FramesIn(maps) <==> owner0[x] == Held(id) {
      if owner0[x] == Held(id) {
        var k :| 0 <= k < |maps| && maps[k].pa == x;
      }
    }
    TablesFrame(mem0, owner0, spaces, mem, owner, spaces);
    RootReachesAll(mem, owner, spaces, id);
  }

  /** Returning all of one process's pages leaves every other process as it was. */
  lemma AfterRelease(mem: Memory, owner: Owners, spaces: Spaces, id: nat, mem': Memory, owner': Owners)
    requires Consistent(mem, owner, spaces) && id in spaces
    requires Released(OwnedBy(owner, id), mem, owner, mem', owner')
    ensures Consistent(mem', owner', spaces - {id})
  {
    hide TablesOk;
    hide SpaceOk;
    hide Released;
    hide OwnedBy;
    TablesOf(mem, owner, spaces);
    TablesWithout(mem, owner, spaces, id, mem', owner');
    forall id' | id' in spaces - {id} ensures SpaceOk(mem', owner', id', spaces[id']) {
      SpaceWithout(mem, owner, spaces, id, mem', owner', id');
    }
    HeldWithout(mem, owner, spaces, id, mem', owner');
  }

  lemma SpaceWithout(mem: Memory, owner: Owners, spaces: Spaces, id: nat, mem': Memory, owner': Owners, id': nat)
    requires TablesOk(mem, owner, spaces) && id in spaces && id' in spaces && id' != id && 0 !in mem
    requires Released(OwnedBy(owner, id), mem, owner, mem', owner')
    requires SpaceOk(mem, owner, id', spaces[id'])
    ensures SpaceOk(mem', owner', id', spaces[id'])
  {
    hide TablesOk;
    hide SpaceOk;
    hide Leaf;
    LeafFrame(mem, owner, spaces, mem', id');
    SpaceFrame(mem, owner, id', spaces[id'], mem', owner');
  }

  lemma HeldWithout(mem: Memory, owner: Owners, spaces: Spaces, id: nat, mem': Memory, owner': Owners)
    requires Consistent(mem, owner, spaces) && id in spaces
    requires Released(OwnedBy(owner, id), mem, owner, mem', owner')
    ensures forall x | x in owner' && owner'[x].Held? ::
              && owner'[x].id in spaces - {id}
              && exists k | 0 <= k < |(spaces - {id})[owner'[x].id].maps| :: (spaces - {id})[owner'[x].id].maps[k].pa == x
  {
    hide TablesOk;
    hide SpaceOk;
    var spaces' := spaces - {id};
    forall x | x in owner' && owner'[x].Held?
      ensures owner'[x].id in spaces' && exists k | 0 <= k < |spaces'[owner'[x].id].maps| :: spaces'[owner'[x].id].maps[k].pa == x
    {
      assert owner'[x] == owner[x] && owner[x] != Held(id);
      var k :| 0 <= k < |spaces[owner[x].id].maps| && spaces[owner[x].id].maps[k].pa == x;
      assert spaces'[owner[x].id].maps[k].pa == x;
    }
  }

  lemma TablesWithout(mem: Memory, owner: Owners, spaces: Spaces, id: nat, mem': Memory, owner': Owners)
    requires TablesOk(mem, owner, spaces) && id in spaces
    requires Released(OwnedBy(owner, id), mem, owner, mem', owner')
    ensures TablesOk(mem', owner', spaces - {id})
  {
    hide KernelPage;
    hide DirOk;
    forall y | y in owner' && owner'[y].Dir? ensures DirOk(mem', owner', spaces - {id}, y) {
      assert DirOk(mem, owner, spaces, y);
      DirKept(mem, owner, spaces, id, mem', owner', y);
    }
  }

  lemma DirKept(mem: Memory, owner: Owners, spaces: Spaces, id: nat, mem': Memory, owner': Owners, y: nat)
    requires Released(OwnedBy(owner, id), mem, owner, mem', owner')
    requires y in owner' && owner'[y].Dir? && DirOk(mem, owner, spaces, y)
    ensures DirOk(mem', owner', spaces - {id}, y)
  {
  }

  lemma TableIsPage(mem: Memory, owner: Owners, id: nat, p: nat, level: nat, freelist: nat, free: seq<nat>)
    requires FreeOk(mem, owner, freelist, free) && Subtree(mem, owner, id, p, level)
    ensures p in mem && p in owner && owner[p].Dir? && KernelPage(p) && p % PGSIZE == 0 && owner.Keys == mem.Keys
    ensures TableAt(mem, p)
  {
    hide KernelPage;
    assert KernelPage(p);
    KernelPointerDecodes(p);
  }

  /** With everything below it freed, table p itself is still there to be freed. */
  lemma LastIntact(mem: Memory, owner: Owners, mem': Memory, owner': Owners, id: nat, p: nat, level: nat)
    requires Subtree(mem, owner, id, p, level) && level > 0
    requires Released(BelowSet(mem, p, level, ENTRIES), mem, owner, mem', owner')
    ensures p in mem' && p in owner' && owner'[p].Dir? && owner'.Keys == mem'.Keys
  {
    assert p !in BelowSet(mem, p, level, ENTRIES) by {
      if ReachBelow(mem, p, level, ENTRIES, p) {
        var i :| 0 <= i < ENTRIES && Child(mem, p, i) != 0 && Reach(mem, Child(mem, p, i), level - 1, p);
        ReachDisjoint(mem, owner, id, p, level, i, i, p);
      }
    }
  }

  lemma NoneReleased(mem: Memory, owner: Owners, spaces: Spaces, id: nat)
    requires Consistent(mem, owner, spaces) && id in spaces
    ensures Released(FramesIn(spaces[id].maps[..0]), mem, owner, mem, owner)
  {
    TablesOf(mem, owner, spaces);
  }

  lemma ReleasedKeys(s: set<nat>, mem: Memory, owner: Owners, mem': Memory, owner': Owners)
    requires Released(s, mem, owner, mem', owner')
    ensures owner'.Keys == mem'.Keys
  {
  }
}
