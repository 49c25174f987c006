/** Invariants of the page memory: the free list, and each process's mapping list against its
    page table. Everything here is about values; Machine.dfy has the code that keeps it. */
module AddressSpace {
  import opened Bits
  import opened Mmu
  import opened PageTable

  /** The list pointer at position k of a chain of pages. */
  function At(free: seq<nat>, k: nat): nat {
    if k < |free| then free[k] else 0
  }

  /** `free` is the chain that starts at `freelist`; it holds every free page exactly once. */
  ghost predicate FreeOk(mem: Memory, owner: Owners, freelist: nat, free: seq<nat>) {
    && owner.Keys == mem.Keys
    && (forall x | x in mem :: KernelPage(x))
    && freelist == At(free, 0)
    && (forall k | 0 <= k < |free| ::
          && free[k] in mem && owner[free[k]] == Free
          && mem[free[k]] == Link(At(free, k + 1)))
    && (forall i, j | 0 <= i < j < |free| :: free[i] != free[j])
    && (forall x | x in owner && owner[x].Free? :: x in free)
  }

  lemma AtTail(free: seq<nat>, k: nat)
    requires free != []
    ensures At(free[1..], k) == At(free, k + 1)
  {
  }

  lemma AtCons(p: nat, free: seq<nat>, k: nat)
    ensures At([p] + free, k) == if k == 0 then p else At(free, k - 1)
  {
  }

  lemma PopFree(mem: Memory, owner: Owners, freelist: nat, free: seq<nat>, f: Frame, o: Owner)
    requires FreeOk(mem, owner, freelist, free) && free != [] && !o.Free?
    ensures mem[free[0]] == Link(At(free, 1))
    ensures FreeOk(mem[free[0] := f], owner[free[0] := o], mem[free[0]].next, free[1..])
  {
    hide KernelPage;
    hide At;
    var rest := free[1..];
    var mem', owner' := mem[free[0] := f], owner[free[0] := o];
    assert owner'.Keys == mem'.Keys;
    AtTail(free, 0);
    forall k | 0 <= k < |rest|
      ensures rest[k] in mem' && owner'[rest[k]] == Free
              && mem'[rest[k]] == Link(At(rest, k + 1))
    {
      assert rest[k] == free[k + 1];
      AtTail(free, k + 1);
    }
    forall x | x in owner' && owner'[x].Free? ensures x in rest {
      assert x in free && x != free[0];
    }
  }

  lemma PushFree(mem: Memory, owner: Owners, freelist: nat, free: seq<nat>, p: nat)
    requires FreeOk(mem, owner, freelist, free) && KernelPage(p)
    requires p in mem ==> p in owner && !owner[p].Free?
    ensures FreeOk(mem[p := Link(freelist)], owner[p := Free], p, [p] + free)
  {
    hide KernelPage;
    hide At;
    var all := [p] + free;
    var mem', owner' := mem[p := Link(freelist)], owner[p := Free];
    assert owner'.Keys == mem'.Keys;
    assert p !in free;
    AtCons(p, free, 0);
    forall k | 0 <= k < |all|
      ensures all[k] in mem' && owner'[all[k]] == Free && mem'[all[k]] == Link(At(all, k + 1))
    {
      AtCons(p, free, k + 1);
      if k > 0 {
        assert all[k] == free[k - 1];
      }
    }
    forall x | x in owner' && owner'[x].Free? ensures x in all {
      if x != p { assert x in free; }
    }
  }

  lemma FreeFrame(mem: Memory, owner: Owners, mem': Memory, owner': Owners, freelist: nat, free: seq<nat>)
    requires FreeOk(mem, owner, freelist, free)
    requires mem'.Keys == mem.Keys && owner'.Keys == owner.Keys
    requires forall x | x in owner :: owner'[x].Free? == owner[x].Free?
    requires forall x | x in owner && owner[x].Free? :: mem'[x] == mem[x]
    ensures FreeOk(mem', owner', freelist, free)
  {
    hide KernelPage;
    hide At;
  }

  /** Rewriting a page that is not free, under any owner but Free, leaves the free list alone. */
  lemma FreeUpdate(mem: Memory, owner: Owners, freelist: nat, free: seq<nat>, x: nat, f: Frame, o: Owner)
    requires FreeOk(mem, owner, freelist, free)
    requires x in mem && x in owner && !owner[x].Free? && !o.Free?
    ensures FreeOk(mem[x := f], owner[x := o], freelist, free)
  {
    FreeFrame(mem, owner, mem[x := f], owner[x := o], freelist, free);
  }

  lemma Undo<K, V>(m: map<K, V>, k: K, b: V)
    requires k in m
    ensures m[k := b][k := m[k]] == m && m[k := m[k]] == m
  {
  }

  lemma Overwrite<K, V>(m: map<K, V>, k: K, a: V, b: V)
    ensures m[k := a][k := b] == m[k := b]
  {
  }

  predicate PageAt(mem: Memory, p: nat) {
    p in mem && mem[p].Page? && |mem[p].bytes| == PGSIZE
  }

  /** The permissions of all mappings of a page, ORed together. */
  function FlagsAt(maps: seq<Mapping>, vpn: nat): nat {
    if maps == [] then 0
    else if Vpn(maps[0].va) == vpn then Or(FlagsAt(maps[1..], vpn), maps[0].perm)
    else FlagsAt(maps[1..], vpn)
  }

  ghost predicate Mapped(maps: seq<Mapping>, vpn: nat) {
    exists k | 0 <= k < |maps| :: Vpn(maps[k].va) == vpn
  }

  /** A leaf word agrees with a mapping list: it is 0 when the page is not listed; otherwise its
      frame is that of some listing of the page and its flags are the union over all of them. */
  ghost predicate EntryOk(maps: seq<Mapping>, vpn: nat, pte: nat) {
    if Mapped(maps, vpn) then
      exists k | 0 <= k < |maps| ::
        Vpn(maps[k].va) == vpn && pte == Or(PaToPte(maps[k].pa), FlagsAt(maps, vpn))
    else pte == 0
  }

  /** The frames on the mapping list are distinct data pages, all held by this process. */
  ghost predicate HeldBy(mem: Memory, owner: Owners, id: nat, maps: seq<Mapping>) {
    && (forall k | 0 <= k < |maps| ::
          && maps[k].pa in owner && owner[maps[k].pa] == Held(id)
          && PageAt(mem, maps[k].pa) && ValidPerm(maps[k].perm))
    && (forall i, j | 0 <= i < j < |maps| :: maps[i].pa != maps[j].pa)
  }

  ghost predicate LeavesOk(mem: Memory, space: Space) {
    forall vpn | 0 <= vpn < VPAGES :: EntryOk(space.maps, vpn, Leaf(mem, space.pgtbl, vpn))
  }

  ghost predicate SpaceOk(mem: Memory, owner: Owners, id: nat, space: Space) {
    HeldBy(mem, owner, id, space.maps) && LeavesOk(mem, space)
  }

  ghost predicate Consistent(mem: Memory, owner: Owners, spaces: Spaces) {
    && TablesOk(mem, owner, spaces)
    && (forall id | id in spaces :: SpaceOk(mem, owner, id, spaces[id]))
    && (forall x | x in owner && owner[x].Held? ::
          && owner[x].id in spaces
          && exists k | 0 <= k < |spaces[owner[x].id].maps| :: spaces[owner[x].id].maps[k].pa == x)
  }

  lemma {:induction false} FlagsAtAreFlags(maps: seq<Mapping>, vpn: nat)
    requires forall k | 0 <= k < |maps| :: ValidPerm(maps[k].perm)
    ensures PteFlags(FlagsAt(maps, vpn)) == FlagsAt(maps, vpn)
    ensures PteValid(FlagsAt(maps, vpn)) <==> Mapped(maps, vpn)
  {
    if maps != [] {
      FlagsAtAreFlags(maps[1..], vpn);
      assert forall k | 0 <= k < |maps[1..]| :: maps[1..][k] == maps[k + 1];
      assert Mapped(maps, vpn) <==> Vpn(maps[0].va) == vpn || Mapped(maps[1..], vpn) by {
        if Mapped(maps, vpn) && Vpn(maps[0].va) != vpn {
          var k :| 0 <= k < |maps| && Vpn(maps[k].va) == vpn;
          assert Vpn(maps[1..][k - 1].va) == vpn;
        }
        if Mapped(maps[1..], vpn) {
          var k :| 0 <= k < |maps[1..]| && Vpn(maps[1..][k].va) == vpn;
          assert Vpn(maps[k + 1].va) == vpn;
        }
      }
      if Vpn(maps[0].va) == vpn {
        FlagsOr(FlagsAt(maps[1..], vpn), maps[0].perm);
      }
    } else {
      assert And(0, FLAG_MASK) == 0 && And(0, 1) == 0;
    }
  }

  lemma {:induction false} FlagsAtAppend(a: seq<Mapping>, b: seq<Mapping>, vpn: nat)
    ensures FlagsAt(a + b, vpn) == Or(FlagsAt(b, vpn), FlagsAt(a, vpn))
  {
    if a == [] {
      assert a + b == b;
    } else {
      assert (a + b)[1..] == a[1..] + b;
      FlagsAtAppend(a[1..], b, vpn);
      OrAssoc(FlagsAt(b, vpn), FlagsAt(a[1..], vpn), a[0].perm);
    }
  }

  /** The union of flags does not depend on where in the list a mapping stands. */
  lemma FlagsAtMove(a: seq<Mapping>, m: Mapping, b: seq<Mapping>, vpn: nat)
    ensures FlagsAt([m] + a + b, vpn) == FlagsAt(a + [m] + b, vpn)
  {
    FlagsAtAppend([m] + a, b, vpn);
    FlagsAtAppend(a + [m], b, vpn);
    FlagsAtAppend([m], a, vpn);
    FlagsAtAppend(a, [m], vpn);
    OrComm(FlagsAt(a, vpn), FlagsAt([m], vpn));
  }

  /** Two mapping lists that hold the same entries, possibly in another order. */
  lemma EntryOkMove(a: seq<Mapping>, m: Mapping, b: seq<Mapping>, vpn: nat, pte: nat)
    requires EntryOk(a + [m] + b, vpn, pte)
    ensures EntryOk([m] + a + b, vpn, pte)
  {
    var s, t := a + [m] + b, [m] + a + b;
    FlagsAtMove(a, m, b, vpn);
    if Mapped(s, vpn) {
      var k :| 0 <= k < |s| && Vpn(s[k].va) == vpn && pte == Or(PaToPte(s[k].pa), FlagsAt(s, vpn));
      var k' := if k < |a| then k + 1 else if k == |a| then 0 else k;
      assert t[k'] == s[k];
    }
    MappedMove(a, m, b, vpn);
  }

  lemma MappedMove(a: seq<Mapping>, m: Mapping, b: seq<Mapping>, vpn: nat)
    ensures Mapped([m] + a + b, vpn) <==> Mapped(a + [m] + b, vpn)
  {
    var s, t := a + [m] + b, [m] + a + b;
    if Mapped(s, vpn) {
      var k :| 0 <= k < |s| && Vpn(s[k].va) == vpn;
      assert s[k] == t[if k < |a| then k + 1 else if k == |a| then 0 else k];
    }
    if Mapped(t, vpn) {
      var k :| 0 <= k < |t| && Vpn(t[k].va) == vpn;
      assert t[k] == s[if k == 0 then |a| else if k <= |a| then k - 1 else k];
    }
  }

  lemma MappedPush(maps: seq<Mapping>, m: Mapping, vpn: nat)
    ensures Mapped([m] + maps, vpn) <==> Vpn(m.va) == vpn || Mapped(maps, vpn)
  {
    var s := [m] + maps;
    if Mapped(s, vpn) && Vpn(m.va) != vpn {
      var k :| 0 <= k < |s| && Vpn(s[k].va) == vpn;
      assert Vpn(maps[k - 1].va) == vpn;
    }
    if Mapped(maps, vpn) {
      var k :| 0 <= k < |maps| && Vpn(maps[k].va) == vpn;
      assert Vpn(s[k + 1].va) == vpn;
    }
    assert s[0] == m;
  }

  /** Mapping one more page: the word the mapper writes is what the longer list calls for. */
  lemma EntryOkPush(maps: seq<Mapping>, m: Mapping, vpn: nat, pte: nat)
    requires forall k | 0 <= k < |maps| :: ValidPerm(maps[k].perm) && KernelPage(maps[k].pa)
    requires ValidPerm(m.perm) && KernelPage(m.pa)
    requires EntryOk(maps, vpn, pte)
    ensures EntryOk([m] + maps, vpn,
                    if Vpn(m.va) == vpn then Or(Or(PaToPte(m.pa), PteFlags(pte)), m.perm) else pte)
  {
    var s := [m] + maps;
    assert s[1..] == maps;
    FlagsAtAreFlags(maps, vpn);
    assert forall k | 0 <= k < |maps| :: s[k + 1] == maps[k];
    if Vpn(m.va) == vpn {
      assert PteFlags(pte) == FlagsAt(maps, vpn) by {
        if Mapped(maps, vpn) {
          var k :| 0 <= k < |maps| && Vpn(maps[k].va) == vpn && pte == Or(PaToPte(maps[k].pa), FlagsAt(maps, vpn));
          LeafDecodes(maps[k].pa, FlagsAt(maps, vpn));
        } else {
          NotMappedNoFlags(maps, vpn);
        }
      }
      OrAssoc(PaToPte(m.pa), FlagsAt(maps, vpn), m.perm);
      assert s[0] == m;
    } else if Mapped(maps, vpn) {
      var k :| 0 <= k < |maps| && Vpn(maps[k].va) == vpn && pte == Or(PaToPte(maps[k].pa), FlagsAt(maps, vpn));
      assert Vpn(s[k + 1].va) == vpn;
    }
    MappedPush(maps, m, vpn);
  }

  lemma {:induction false} NotMappedNoFlags(maps: seq<Mapping>, vpn: nat)
    requires !Mapped(maps, vpn)
    ensures FlagsAt(maps, vpn) == 0
  {
    if maps != [] {
      assert Vpn(maps[0].va) != vpn;
      forall k | 0 <= k < |maps[1..]| ensures Vpn(maps[1..][k].va) != vpn {
        assert maps[1..][k] == maps[k + 1];
      }
      NotMappedNoFlags(maps[1..], vpn);
    }
  }

  /** What a leaf word means, given the list it agrees with. */
  ghost predicate EntryMeaning(maps: seq<Mapping>, vpn: nat, pte: nat) {
    if Mapped(maps, vpn) then
      && PteValid(pte) && PteFlags(pte) == FlagsAt(maps, vpn) && PteToPa(pte) > 0
      && PteToPa(pte) % PGSIZE == 0 && PteToPa(pte) < PHYS_LIMIT
      && exists k | 0 <= k < |maps| :: Vpn(maps[k].va) == vpn && PteToPa(pte) == maps[k].pa - DMW
                                     && PaToVa(PteToPa(pte)) == maps[k].pa
    else pte == 0
  }

  lemma EntryMeans(maps: seq<Mapping>, vpn: nat, pte: nat)
    requires forall k | 0 <= k < |maps| :: ValidPerm(maps[k].perm) && KernelPage(maps[k].pa)
    requires EntryOk(maps, vpn, pte)
    ensures EntryMeaning(maps, vpn, pte)
  {
    if Mapped(maps, vpn) {
      var k :| 0 <= k < |maps| && Vpn(maps[k].va) == vpn && pte == Or(PaToPte(maps[k].pa), FlagsAt(maps, vpn));
      FlagsAtAreFlags(maps, vpn);
      LeafDecodes(maps[k].pa, FlagsAt(maps, vpn));
      KernelPointerDecodes(maps[k].pa);
    }
  }

  /** What a process sees at a page: mapped iff listed, on one of the frames it was given. */
  lemma LeafMeaning(mem: Memory, owner: Owners, spaces: Spaces, id: nat, vpn: nat)
    requires Consistent(mem, owner, spaces) && id in spaces && vpn < VPAGES
    ensures EntryMeaning(spaces[id].maps, vpn, Leaf(mem, spaces[id].pgtbl, vpn))
  {
    hide TablesOk;
    hide Leaf;
    ListIsValid(mem, owner, spaces, id);
    EntryMeans(spaces[id].maps, vpn, Leaf(mem, spaces[id].pgtbl, vpn));
  }

  lemma ListIsValid(mem: Memory, owner: Owners, spaces: Spaces, id: nat)
    requires Consistent(mem, owner, spaces) && id in spaces
    ensures forall k | 0 <= k < |spaces[id].maps| ::
              ValidPerm(spaces[id].maps[k].perm) && KernelPage(spaces[id].maps[k].pa)
    ensures forall i, j | 0 <= i < j < |spaces[id].maps| :: spaces[id].maps[i].pa != spaces[id].maps[j].pa
  {
    assert SpaceOk(mem, owner, id, spaces[id]);
  }

  /** The frame behind a mapped page, as a kernel pointer. */
  ghost function FrameOf(mem: Memory, root: nat, vpn: nat): nat
    requires vpn < VPAGES
  {
    PaToVa(PteToPa(Leaf(mem, root, vpn)))
  }

  /** Distinct mapped pages of one process lie on distinct frames. */
  lemma FramesInjective(mem: Memory, owner: Owners, spaces: Spaces, id: nat, v: nat, w: nat)
    requires Consistent(mem, owner, spaces) && id in spaces && v < VPAGES && w < VPAGES
    requires Mapped(spaces[id].maps, v) && Mapped(spaces[id].maps, w)
    requires FrameOf(mem, spaces[id].pgtbl, v) == FrameOf(mem, spaces[id].pgtbl, w)
    ensures v == w
  {
    hide Consistent;
    hide Leaf;
    hide And;
    hide Or;
    hide FlagsAt;
    LeafMeaning(mem, owner, spaces, id, v);
    LeafMeaning(mem, owner, spaces, id, w);
    ListIsValid(mem, owner, spaces, id);
  }

  /** A process's leaves depend on nothing but its own table pages. */
  lemma LeafFrame(mem: Memory, owner: Owners, spaces: Spaces, mem': Memory, id: nat)
    requires TablesOk(mem, owner, spaces) && id in spaces
    requires forall x | x in owner && owner[x].Dir? && owner[x].id == id :: x in mem' && mem'[x] == mem[x]
    requires 0 !in mem'
    ensures forall i2, i1, i0 | 0 <= i2 < ENTRIES && 0 <= i1 < ENTRIES && 0 <= i0 < ENTRIES ::
              Slot(mem', spaces[id].pgtbl, i2, i1, i0) == Slot(mem, spaces[id].pgtbl, i2, i1, i0)
    ensures forall vpn | 0 <= vpn < VPAGES :: Leaf(mem', spaces[id].pgtbl, vpn) == Leaf(mem, spaces[id].pgtbl, vpn)
  {
    forall i2, i1, i0 | 0 <= i2 < ENTRIES && 0 <= i1 < ENTRIES && 0 <= i0 < ENTRIES
      ensures Slot(mem', spaces[id].pgtbl, i2, i1, i0) == Slot(mem, spaces[id].pgtbl, i2, i1, i0)
    {
      var r := spaces[id].pgtbl;
      assert DirOk(mem, owner, spaces, r);
      var a := Child(mem, r, i2);
      if a != 0 {
        assert owner[a] == Dir(id, 1, r, i2);
        assert DirOk(mem, owner, spaces, a);
        var b := Child(mem, a, i1);
        if b != 0 {
          assert owner[b] == Dir(id, 0, a, i1);
          assert DirOk(mem, owner, spaces, b);
        }
      }
    }
  }

  lemma EmptyLeaves(mem: Memory, n: nat)
    requires n in mem && mem[n] == ZeroTable() && 0 !in mem
    ensures forall vpn | 0 <= vpn < VPAGES :: Leaf(mem, n, vpn) == 0
  {
  }

  /** Every frame is a kernel page, so 0 is none. */
  lemma ZeroIsNoPage(mem: Memory, owner: Owners, spaces: Spaces)
    requires TablesOk(mem, owner, spaces)
    ensures 0 !in mem && owner.Keys == mem.Keys
  {
  }

  /** A page just taken from the free list becomes a table under an empty directory entry. */
  lemma GrowTable(mem: Memory, owner: Owners, spaces: Spaces, id: nat, x: nat, i: nat, n: nat,
                  mem1: Memory, owner1: Owners, mem': Memory, owner': Owners, freelist: nat, free: seq<nat>)
    requires TablesOk(mem, owner, spaces)
    requires x in owner && owner[x].Dir? && owner[x].id == id && owner[x].level > 0
    requires i < ENTRIES && TableAt(mem, x) && mem[x].pte[i] == 0
    requires n in owner && owner[n].Free? && n in mem
    requires mem1 == mem[n := JunkPage()] && owner1 == owner[n := Other]
    requires mem' == mem1[n := ZeroTable()][x := Table(mem[x].pte[i := n])]
    requires owner' == owner1[n := Dir(id, owner[x].level - 1, x, i)]
    requires FreeOk(mem1, owner1, freelist, free)
    ensures FreeOk(mem', owner', freelist, free) && TablesOk(mem', owner', spaces)
    ensures OnlyTablesOf(id, mem, owner, mem', owner') && SameSlots(spaces, mem, mem')
    ensures OneEntry(mem, owner, x, i, mem')
  {
    hide TablesOk;
    hide SameSlots;
    hide FreeOk;
    ZeroIsNoPage(mem, owner, spaces);
    var d := Dir(id, owner[x].level - 1, x, i);
    FreeUpdate(mem1, owner1, freelist, free, n, ZeroTable(), d);
    FreeUpdate(mem1[n := ZeroTable()], owner', freelist, free, x, mem'[x], owner'[x]);
    assert owner'[x := owner'[x]] == owner';
    Overwrite(mem, n, JunkPage(), ZeroTable());
    Overwrite(owner, n, Other, d);
    AttachTable(mem, owner, spaces, x, i, n, mem', owner');
    AttachFrame(mem, owner, id, x, i, n, mem', owner');
  }

  /** The last write of the mapper, seen from the memory before the walk. */
  lemma FinishMap(mem0: Memory, owner0: Owners, mem: Memory, owner: Owners, spaces: Spaces, id: nat,
                  va: nat, pa: nat, perm: nat, x: nat, mem': Memory, freelist: nat, free: seq<nat>)
    requires FreeOk(mem, owner, freelist, free) && TablesOk(mem, owner, spaces) && id in spaces
    requires OnlyTablesOf(id, mem0, owner0, mem, owner) && SameSlots(spaces, mem0, mem)
    requires x == Child(mem, Child(mem, spaces[id].pgtbl, Px(2, va)), Px(1, va)) && TableAt(mem, x)
    requires mem' == mem[x := Table(mem[x].pte[Px(0, va) :=
                       Or(Or(PaToPte(pa), PteFlags(mem[x].pte[Px(0, va)])), perm)])]
    ensures FreeOk(mem', owner, freelist, free) && TablesOk(mem', owner, spaces)
    ensures OnlyTablesOf(id, mem0, owner0, mem', owner)
    ensures OneLeaf(spaces, mem0, mem', id, Vpn(va),
              Or(Or(PaToPte(pa), PteFlags(Leaf(mem0, spaces[id].pgtbl, Vpn(va)))), perm))
  {
    hide Leaf;
    hide OneLeaf;
    hide Px;
    hide Or;
    hide And;
    hide TablesOk;
    hide FreeOk;
    LeafOfVa(mem0, spaces[id].pgtbl, va);
    var i2, i1, i0 := Px(2, va), Px(1, va), Px(0, va);
    var was := Slot(mem, spaces[id].pgtbl, i2, i1, i0);
    assert was == mem[x].pte[i0];
    assert was == Slot(mem0, spaces[id].pgtbl, i2, i1, i0);
    var w := Or(Or(PaToPte(pa), PteFlags(was)), perm);
    ZeroIsNoPage(mem, owner, spaces);
    WriteLeaf(mem, owner, spaces, id, i2, i1, i0, x, w, mem');
    FreeFrame(mem, owner, mem', owner, freelist, free);
    SameThenOne(spaces, mem0, mem, mem', id, i2, i1, i0, w);
    SlotToLeaf(spaces, mem0, mem', id, va, w);
  }

  lemma RootTables(mem: Memory, owner: Owners, spaces: Spaces, id: nat, n: nat,
                   mem': Memory, owner': Owners, spaces': Spaces)
    requires TablesOk(mem, owner, spaces) && id !in spaces
    requires n in owner && !owner[n].Dir?
    requires mem' == mem[n := ZeroTable()] && owner' == owner[n := Dir(id, 2, 0, 0)]
    requires spaces' == spaces[id := Space(n, [])]
    ensures TablesOk(mem', owner', spaces')
  {
    forall y | y in owner' && owner'[y].Dir? ensures DirOk(mem', owner', spaces', y) {
      if y != n {
        assert DirOk(mem, owner, spaces, y);
      }
    }
  }

  /** A page just taken from the free list becomes the root of a new, empty address space. */
  lemma FreshRoot(mem: Memory, owner: Owners, spaces: Spaces, id: nat, n: nat,
                  mem1: Memory, owner1: Owners, mem': Memory, owner': Owners, spaces': Spaces,
                  freelist: nat, free: seq<nat>)
    requires Consistent(mem, owner, spaces) && id !in spaces
    requires n in owner && owner[n].Free? && n in mem
    requires mem1 == mem[n := JunkPage()] && owner1 == owner[n := Other]
    requires mem' == mem1[n := ZeroTable()] && owner' == owner1[n := Dir(id, 2, 0, 0)]
    requires spaces' == spaces[id := Space(n, [])]
    requires FreeOk(mem1, owner1, freelist, free)
    ensures FreeOk(mem', owner', freelist, free) && Consistent(mem', owner', spaces')
    ensures mem' == mem[n := ZeroTable()] && owner' == owner[n := Dir(id, 2, 0, 0)]
    ensures forall vpn | 0 <= vpn < VPAGES :: Leaf(mem', n, vpn) == 0
  {
    hide FreeOk;
    ZeroIsNoPage(mem, owner, spaces);
    FreeUpdate(mem1, owner1, freelist, free, n, ZeroTable(), Dir(id, 2, 0, 0));
    Overwrite(mem, n, JunkPage(), ZeroTable());
    Overwrite(owner, n, Other, Dir(id, 2, 0, 0));
    EmptyLeaves(mem', n);
    RootSpaces(mem, owner, spaces, id, n, mem', owner', spaces');
  }

  /** A process with no mappings and no leaves. */
  lemma EmptySpace(mem: Memory, owner: Owners, id: nat, root: nat)
    requires forall vpn | 0 <= vpn < VPAGES :: Leaf(mem, root, vpn) == 0
    ensures SpaceOk(mem, owner, id, Space(root, []))
  {
  }

  lemma RootSpaces(mem: Memory, owner: Owners, spaces: Spaces, id: nat, n: nat,
                   mem': Memory, owner': Owners, spaces': Spaces)
    requires Consistent(mem, owner, spaces) && id !in spaces && 0 !in mem
    requires n in owner && owner[n].Free? && n in mem
    requires mem' == mem[n := ZeroTable()] && owner' == owner[n := Dir(id, 2, 0, 0)]
    requires spaces' == spaces[id := Space(n, [])]
    requires forall vpn | 0 <= vpn < VPAGES :: Leaf(mem', n, vpn) == 0
    ensures Consistent(mem', owner', spaces')
  {
    hide KernelPage;
    hide Leaf;
    hide DirOk;
    hide LeavesOk;
    hide EntryOk;
    RootTables(mem, owner, spaces, id, n, mem', owner', spaces');
    EmptySpace(mem', owner', id, n);
    forall id' | id' in spaces' ensures SpaceOk(mem', owner', id', spaces'[id']) {
      if id' != id {
        LeafFrame(mem, owner, spaces, mem', id');
        SpaceFrame(mem, owner, id', spaces[id'], mem', owner');
      }
    }
  }

  /** A process's invariant depends on its leaves and on the frames it holds. */
  lemma SpaceFrame(mem: Memory, owner: Owners, id: nat, space: Space, mem': Memory, owner': Owners)
    requires SpaceOk(mem, owner, id, space)
    requires forall x | x in owner && owner[x] == Held(id) :: x in owner' && owner'[x] == Held(id)
    requires forall x | x in owner && owner[x] == Held(id) && PageAt(mem, x) :: PageAt(mem', x)
    requires forall vpn | 0 <= vpn < VPAGES :: Leaf(mem', space.pgtbl, vpn) == Leaf(mem, space.pgtbl, vpn)
    ensures SpaceOk(mem', owner', id, space)
  {
    hide Leaf;
    hide EntryOk;
    hide ValidPerm;
    forall vpn | 0 <= vpn < VPAGES ensures EntryOk(space.maps, vpn, Leaf(mem', space.pgtbl, vpn)) {
      assert EntryOk(space.maps, vpn, Leaf(mem, space.pgtbl, vpn));
    }
  }

  /** The kernel takes a free page for itself: nothing else changes. */
  lemma TakePage(mem: Memory, owner: Owners, spaces: Spaces, n: nat, f: Frame, mem': Memory, owner': Owners)
    requires Consistent(mem, owner, spaces)
    requires n in owner && n in mem && (owner[n].Free? || owner[n].Other?)
    requires mem' == mem[n := f] && owner' == owner[n := Other]
    ensures Consistent(mem', owner', spaces)
  {
    hide DirOk;
    hide KernelPage;
    hide LeavesOk;
    hide Leaf;
    ZeroIsNoPage(mem, owner, spaces);
    TablesFrame(mem, owner, spaces, mem', owner', spaces);
    forall id | id in spaces ensures SpaceOk(mem', owner', id, spaces[id]) {
      LeafFrame(mem, owner, spaces, mem', id);
      SpaceFrame(mem, owner, id, spaces[id], mem', owner');
    }
  }

  /** OneSlot in terms of page numbers: mapping va changes the leaf of va's page and no other. */
  ghost predicate OneLeaf(spaces: Spaces, mem: Memory, mem': Memory, id: nat, v: nat, w: nat) {
    forall id', vpn | id' in spaces && 0 <= vpn < VPAGES ::
      Leaf(mem', spaces[id'].pgtbl, vpn)
      == if id' == id && vpn == v then w else Leaf(mem, spaces[id'].pgtbl, vpn)
  }

  /** Leaf vpn once n pages from va on have been mapped to pages from pa on. */
  ghost function EntryAfter(entry: nat, vpn: nat, va: nat, pa: nat, perm: nat, n: nat): nat {
    if n == 0 then entry
    else
      var e := EntryAfter(entry, vpn, va, pa, perm, n - 1);
      if Vpn(va + (n - 1) * PGSIZE) == vpn then Or(Or(PaToPte(pa + (n - 1) * PGSIZE), PteFlags(e)), perm) else e
  }

  /** Process id's leaves have been overwritten by mapping a range of pages; nobody else's have. */
  ghost predicate RangeMapped(spaces: Spaces, mem: Memory, mem': Memory, id: nat, va: nat, pa: nat, perm: nat, n: nat) {
    && id in spaces
    && (forall id', vpn | id' in spaces && id' != id && 0 <= vpn < VPAGES ::
          Leaf(mem', spaces[id'].pgtbl, vpn) == Leaf(mem, spaces[id'].pgtbl, vpn))
    && (forall vpn | 0 <= vpn < VPAGES ::
          Leaf(mem', spaces[id].pgtbl, vpn) == EntryAfter(Leaf(mem, spaces[id].pgtbl, vpn), vpn, va, pa, perm, n))
  }

  lemma RangeNone(spaces: Spaces, mem: Memory, id: nat, va: nat, pa: nat, perm: nat)
    requires id in spaces
    ensures RangeMapped(spaces, mem, mem, id, va, pa, perm, 0)
  {
  }

  lemma EntryStep(entry: nat, vpn: nat, va: nat, pa: nat, perm: nat, n: nat, vac: nat, pac: nat)
    requires vac == va + n * PGSIZE && pac == pa + n * PGSIZE
    ensures EntryAfter(entry, vpn, va, pa, perm, n + 1) ==
              var e := EntryAfter(entry, vpn, va, pa, perm, n);
              if Vpn(vac) == vpn then Or(Or(PaToPte(pac), PteFlags(e)), perm) else e
  {
  }

  lemma RangeMore(spaces: Spaces, mem0: Memory, mem: Memory, mem': Memory, id: nat, va: nat, pa: nat, perm: nat, n: nat, vac: nat, pac: nat)
    requires id in spaces && vac == va + n * PGSIZE && pac == pa + n * PGSIZE
    requires RangeMapped(spaces, mem0, mem, id, va, pa, perm, n)
    requires OneLeaf(spaces, mem, mem', id, Vpn(vac),
               Or(Or(PaToPte(pac), PteFlags(Leaf(mem, spaces[id].pgtbl, Vpn(vac)))), perm))
    ensures RangeMapped(spaces, mem0, mem', id, va, pa, perm, n + 1)
  {
    hide Leaf;
    hide And;
    hide Or;
    hide Vpn;
    forall vpn | 0 <= vpn < VPAGES
      ensures Leaf(mem', spaces[id].pgtbl, vpn) == EntryAfter(Leaf(mem0, spaces[id].pgtbl, vpn), vpn, va, pa, perm, n + 1)
    {
      EntryStep(Leaf(mem0, spaces[id].pgtbl, vpn), vpn, va, pa, perm, n, vac, pac);
      assert Leaf(mem, spaces[id].pgtbl, vpn) == EntryAfter(Leaf(mem0, spaces[id].pgtbl, vpn), vpn, va, pa, perm, n);
    }
  }

  lemma RangeOne(spaces: Spaces, mem: Memory, mem': Memory, id: nat, va: nat, pa: nat, perm: nat)
    requires id in spaces && RangeMapped(spaces, mem, mem', id, va, pa, perm, 1)
    ensures OneLeaf(spaces, mem, mem', id, Vpn(va), Or(Or(PaToPte(pa), PteFlags(Leaf(mem, spaces[id].pgtbl, Vpn(va)))), perm))
  {
    hide Leaf;
    hide And;
    hide Or;
    hide Vpn;
    forall id', vpn | id' in spaces && 0 <= vpn < VPAGES
      ensures Leaf(mem', spaces[id'].pgtbl, vpn)
              == if id' == id && vpn == Vpn(va) then Or(Or(PaToPte(pa), PteFlags(Leaf(mem, spaces[id].pgtbl, Vpn(va)))), perm)
                 else Leaf(mem, spaces[id'].pgtbl, vpn)
    {
      EntryStep(Leaf(mem, spaces[id].pgtbl, vpn), vpn, va, pa, perm, 0, va, pa);
    }
  }

  /** Mapping a range of at most VPAGES pages: the entry of each page of the range gets its own frame and
      the permissions, on top of the flags it had; every other entry stays. */
  lemma {:induction false} RangeEntries(entry: nat, vpn: nat, va: nat, pa: nat, perm: nat, n: nat)
    requires n <= VPAGES && va % PGSIZE == 0 && vpn < VPAGES
    ensures var k := (vpn - va / PGSIZE) % VPAGES;
            EntryAfter(entry, vpn, va, pa, perm, n) ==
              if k < n then Or(Or(PaToPte(pa + k * PGSIZE), PteFlags(entry)), perm) else entry
    decreases n
  {
    hide And;
    hide Or;
    hide Vpn;
    if n > 0 {
      PageOf(va, n - 1, vpn);
      RangeEntries(entry, vpn, va, pa, perm, n - 1);
    }
  }

  /** A page is touched exactly when a byte of the range lies in it. */
  lemma TouchedMeans(va: nat, size: nat, page: nat)
    requires size > 0
    ensures va / 16384 <= page < va / 16384 + PagesTouched(va, size) <==> exists b: nat :: va <= b < va + size && b / 16384 == page
  {
    if va / 16384 <= page < va / 16384 + PagesTouched(va, size) {
      var b := if page == va / 16384 then va else page * 16384;
      assert va <= b < va + size && b / 16384 == page;
    }
  }

  lemma PageOf(va: nat, k: nat, vpn: nat)
    requires va % PGSIZE == 0 && k < VPAGES && vpn < VPAGES
    ensures Vpn(va + k * PGSIZE) == vpn <==> (vpn - va / PGSIZE) % VPAGES == k
  {
    assert (va + k * PGSIZE) / PGSIZE == va / PGSIZE + k;
  }

  /** How many pages the range of __map_pages touches. */
  function PagesTouched(va: nat, size: nat): nat
    requires va + size > 0
  {
    var first, last := va / PGSIZE, (va + size - 1) / PGSIZE;
    if last < first then 0 else last - first + 1
  }

  lemma OnePage(va: nat, pa: nat)
    requires va % PGSIZE == 0 && pa % PGSIZE == 0
    ensures PagesTouched(va, PGSIZE) == 1 && PageDown(va) == va && PageDown(pa) == pa
  {
  }

  lemma TablesThenTables(id: nat, a: Memory, ao: Owners, b: Memory, bo: Owners, c: Memory, co: Owners)
    requires OnlyTablesOf(id, a, ao, b, bo) && OnlyTablesOf(id, b, bo, c, co)
    ensures OnlyTablesOf(id, a, ao, c, co)
  {
  }

  lemma TablesSame(id: nat, mem: Memory, owner: Owners, spaces: Spaces)
    requires TablesOk(mem, owner, spaces)
    ensures OnlyTablesOf(id, mem, owner, mem, owner)
  {
  }

  lemma SlotToLeaf(spaces: Spaces, mem: Memory, mem': Memory, id: nat, va: nat, w: nat)
    requires OneSlot(spaces, mem, mem', id, Px(2, va), Px(1, va), Px(0, va), w)
    ensures OneLeaf(spaces, mem, mem', id, Vpn(va), w)
  {
    hide Px;
    hide Slot;
    PxSplit(va);
    forall id', vpn | id' in spaces && 0 <= vpn < VPAGES
      ensures Leaf(mem', spaces[id'].pgtbl, vpn)
              == if id' == id && vpn == Vpn(va) then w else Leaf(mem, spaces[id'].pgtbl, vpn)
    {
      var a, b, c := vpn / 0x40_0000, vpn / 0x800 % 0x800, vpn % 0x800;
      assert vpn == a * 0x40_0000 + b * 0x800 + c by {
        assert vpn / 0x800 / 0x800 == vpn / 0x40_0000;
      }
      assert Slot(mem', spaces[id'].pgtbl, a, b, c)
             == if id' == id && a == Px(2, va) && b == Px(1, va) && c == Px(0, va) then w
                else Slot(mem, spaces[id'].pgtbl, a, b, c);
    }
  }

  /** Everything that is neither free nor a table of process `id` stays as it is; free pages may
      become tables or frames of process `id`. */
  ghost predicate OnlyGrows(id: nat, mem: Memory, owner: Owners, mem': Memory, owner': Owners) {
    && owner.Keys == mem.Keys && mem'.Keys == mem.Keys && owner'.Keys == owner.Keys
    && (forall x | x in owner && !owner[x].Free? ::
          owner'[x] == owner[x] && (!(owner[x].Dir? && owner[x].id == id) ==> mem'[x] == mem[x]))
    && (forall x | x in owner && owner[x].Free? ::
          owner'[x].Free? || (owner'[x].Dir? && owner'[x].id == id) || owner'[x] == Held(id))
  }

  lemma GrowsThenGrows(id: nat, a: Memory, ao: Owners, b: Memory, bo: Owners, c: Memory, co: Owners)
    requires OnlyGrows(id, a, ao, b, bo) && OnlyGrows(id, b, bo, c, co)
    ensures OnlyGrows(id, a, ao, c, co)
  {
  }

  /** Pushing the mapping that was just written to the page table restores the invariant. */
  lemma AddMapping(mem: Memory, owner: Owners, spaces: Spaces, id: nat, m: Mapping,
                   mem': Memory, owner2: Owners, owner': Owners, spaces': Spaces)
    requires Consistent(mem, owner, spaces) && id in spaces
    requires TablesOk(mem', owner2, spaces) && OnlyTablesOf(id, mem, owner, mem', owner2)
    requires m.pa in owner && owner[m.pa].Other? && PageAt(mem, m.pa) && ValidPerm(m.perm)
    requires OneLeaf(spaces, mem, mem', id, Vpn(m.va),
               Or(Or(PaToPte(m.pa), PteFlags(Leaf(mem, spaces[id].pgtbl, Vpn(m.va)))), m.perm))
    requires owner' == owner2[m.pa := Held(id)]
    requires Pushed(spaces, id, [m], spaces')
    ensures Consistent(mem', owner', spaces')
  {
    hide KernelPage;
    hide Leaf;
    hide And;
    hide Or;
    hide SpaceOk;
    hide FlagsAt;
    hide TablesOk;
    hide LeavesOk;
    hide EntryOk;
    hide ValidPerm;
    TablesFrame(mem', owner2, spaces, mem', owner', spaces');
    PagesAreKernel(mem, owner, spaces, m.pa);
    AddToList(mem, owner, spaces, id, m, mem', owner');
    forall id' | id' in spaces && id' != id ensures SpaceOk(mem', owner', id', spaces[id']) {
      OtherKept(mem, owner, spaces, id, m, mem', owner2, owner', id');
    }
    HeldListed(mem, owner, spaces, id, m, owner', spaces');
  }

  lemma PagesAreKernel(mem: Memory, owner: Owners, spaces: Spaces, x: nat)
    requires TablesOk(mem, owner, spaces) && x in mem
    ensures KernelPage(x)
  {
  }

  /** A mapping added to one process leaves another's address space as it was. */
  lemma OtherKept(mem: Memory, owner: Owners, spaces: Spaces, id: nat, m: Mapping,
                  mem': Memory, owner2: Owners, owner': Owners, id': nat)
    requires Consistent(mem, owner, spaces) && id in spaces && id' in spaces && id' != id
    requires OnlyTablesOf(id, mem, owner, mem', owner2)
    requires m.pa in owner && owner[m.pa].Other? && owner' == owner2[m.pa := Held(id)]
    requires OneLeaf(spaces, mem, mem', id, Vpn(m.va),
               Or(Or(PaToPte(m.pa), PteFlags(Leaf(mem, spaces[id].pgtbl, Vpn(m.va)))), m.perm))
    ensures SpaceOk(mem', owner', id', spaces[id'])
  {
    hide KernelPage;
    hide Leaf;
    hide And;
    hide Or;
    hide TablesOk;
    hide LeavesOk;
    hide EntryOk;
    hide ValidPerm;
    SpaceFrame(mem, owner, id', spaces[id'], mem', owner');
  }

  lemma AddToList(mem: Memory, owner: Owners, spaces: Spaces, id: nat, m: Mapping, mem': Memory, owner': Owners)
    requires Consistent(mem, owner, spaces) && id in spaces
    requires m.pa in owner && owner[m.pa].Other? && PageAt(mem, m.pa) && ValidPerm(m.perm) && KernelPage(m.pa)
    requires forall x | x in owner && (owner[x] == Held(id) || x == m.pa) ::
               x in owner' && owner'[x] == Held(id) && x in mem' && x in mem && mem'[x] == mem[x]
    requires OneLeaf(spaces, mem, mem', id, Vpn(m.va),
               Or(Or(PaToPte(m.pa), PteFlags(Leaf(mem, spaces[id].pgtbl, Vpn(m.va)))), m.perm))
    ensures SpaceOk(mem', owner', id, spaces[id].(maps := [m] + spaces[id].maps))
  {
    hide TablesOk;
    hide Leaf;
    hide KernelPage;
    hide ValidPerm;
    hide Or;
    hide And;
    hide EntryOk;
    ListIsValid(mem, owner, spaces, id);
    var maps, root := spaces[id].maps, spaces[id].pgtbl;
    assert SpaceOk(mem, owner, id, spaces[id]);
    forall vpn | 0 <= vpn < VPAGES ensures EntryOk([m] + maps, vpn, Leaf(mem', root, vpn)) {
      EntryOkPush(maps, m, vpn, Leaf(mem, root, vpn));
    }
    AddHeld(mem, owner, id, maps, m, mem', owner');
  }

  lemma AddHeld(mem: Memory, owner: Owners, id: nat, maps: seq<Mapping>, m: Mapping, mem': Memory, owner': Owners)
    requires HeldBy(mem, owner, id, maps)
    requires m.pa in owner && owner[m.pa].Other? && PageAt(mem, m.pa) && ValidPerm(m.perm)
    requires forall x | x in owner && (owner[x] == Held(id) || x == m.pa) ::
               x in owner' && owner'[x] == Held(id) && x in mem' && x in mem && mem'[x] == mem[x]
    ensures HeldBy(mem', owner', id, [m] + maps)
  {
    hide ValidPerm;
  }

  lemma HeldListed(mem: Memory, owner: Owners, spaces: Spaces, id: nat, m: Mapping, owner': Owners, spaces': Spaces)
    requires Consistent(mem, owner, spaces) && id in spaces
    requires Pushed(spaces, id, [m], spaces')
    requires owner'.Keys == owner.Keys
    requires forall x | x in owner && owner'[x].Held? :: owner'[x] == owner[x] || (x == m.pa && owner'[x] == Held(id))
    ensures forall x | x in owner' && owner'[x].Held? ::
              && owner'[x].id in spaces'
              && exists k | 0 <= k < |spaces'[owner'[x].id].maps| :: spaces'[owner'[x].id].maps[k].pa == x
  {
    hide TablesOk;
    hide SpaceOk;
    forall x | x in owner' && owner'[x].Held?
      ensures && owner'[x].id in spaces'
              && exists k | 0 <= k < |spaces'[owner'[x].id].maps| :: spaces'[owner'[x].id].maps[k].pa == x
    {
      var maps' := spaces'[owner'[x].id].maps;
      if owner'[x] == owner[x] {
        var k :| 0 <= k < |spaces[owner[x].id].maps| && spaces[owner[x].id].maps[k].pa == x;
        assert maps'[if owner[x].id == id then k + 1 else k].pa == x;
      } else {
        assert maps'[0].pa == x;
      }
    }
  }

  /** The mappings alloc_vm records for frames `got` at consecutive pages from `start`, latest first. */
  function Listed(start: nat, got: seq<nat>, perm: nat): seq<Mapping> {
    if got == [] then []
    else [Mapping(got[|got| - 1], start + (|got| - 1) * PGSIZE, PGSIZE, perm)] + Listed(start, got[..|got| - 1], perm)
  }

  /** Entry k of Listed, counted from the oldest. */
  lemma {:induction false} ListedAt(start: nat, got: seq<nat>, perm: nat, k: nat)
    requires k < |got|
    ensures |Listed(start, got, perm)| == |got|
    ensures Listed(start, got, perm)[|got| - 1 - k] == Mapping(got[k], start + k * PGSIZE, PGSIZE, perm)
  {
    var n := |got| - 1;
    if n == 0 {
      assert Listed(start, got[..0], perm) == [];
    } else {
      ListedAt(start, got[..n], perm, if k < n then k else 0);
    }
  }

  /** One round of alloc_vm: a zero page is taken, mapped at va and put on the list. */
  lemma AllocRound(mem: Memory, owner: Owners, spaces: Spaces, id: nat, p: nat, free1: nat, free1s: seq<nat>,
                   memJ: Memory, ownerJ: Owners, memZ: Memory, f: Frame)
    requires Consistent(mem, owner, spaces) && id in spaces
    requires p in owner && p in mem && owner[p].Free?
    requires memJ == mem[p := JunkPage()] && ownerJ == owner[p := Other]
    requires memZ == memJ[p := f]
    requires FreeOk(memJ, ownerJ, free1, free1s)
    ensures FreeOk(memZ, ownerJ, free1, free1s) && Consistent(memZ, ownerJ, spaces)
    ensures owner.Keys == mem.Keys
  {
    ZeroIsNoPage(mem, owner, spaces);
    hide FreeOk;
    hide Consistent;
    Overwrite(mem, p, JunkPage(), f);
    Overwrite(owner, p, Other, Other);
    FreeUpdate(memJ, ownerJ, free1, free1s, p, f, Other);
    TakePage(mem, owner, spaces, p, f, memZ, ownerJ);
  }

  /** After the page is mapped, listing it completes the round. */
  lemma AllocDone(mem: Memory, owner: Owners, spaces: Spaces, id: nat, m: Mapping,
                  mem': Memory, owner2: Owners, owner': Owners, spaces': Spaces, freelist: nat, free: seq<nat>)
    requires Consistent(mem, owner, spaces) && id in spaces
    requires m.pa in owner && owner[m.pa].Other? && PageAt(mem, m.pa) && ValidPerm(m.perm)
    requires FreeOk(mem', owner2, freelist, free)
    requires TablesOk(mem', owner2, spaces) && OnlyTablesOf(id, mem, owner, mem', owner2)
    requires OneLeaf(spaces, mem, mem', id, Vpn(m.va),
              Or(Or(PaToPte(m.pa), PteFlags(Leaf(mem, spaces[id].pgtbl, Vpn(m.va)))), m.perm))
    requires owner' == owner2[m.pa := Held(id)]
    requires Pushed(spaces, id, [m], spaces')
    ensures Consistent(mem', owner', spaces') && FreeOk(mem', owner', freelist, free)
    ensures KernelTake(id, m.pa, mem, owner, mem', owner')
  {
    hide Leaf;
    hide OneLeaf;
    hide Consistent;
    hide TablesOk;
    hide FreeOk;
    hide Px;
    hide Or;
    hide And;
    TablesOf(mem, owner, spaces);
    AddMapping(mem, owner, spaces, id, m, mem', owner2, owner', spaces');
    Undo(mem', m.pa, mem'[m.pa]);
    Undo(owner2, m.pa, Held(id));
    FreeUpdate(mem', owner2, freelist, free, m.pa, mem'[m.pa], Held(id));
  }

  /** A page held by the kernel becomes a frame of process `id`, whose tables may grow. */
  ghost predicate KernelTake(id: nat, n: nat, mem: Memory, owner: Owners, mem': Memory, owner': Owners) {
    && n in owner && n in mem && owner[n].Other? && owner'.Keys == owner.Keys && n in owner'
    && owner'[n] == Held(id)
    && OnlyTablesOf(id, mem, owner, mem', owner'[n := Other])
  }

  lemma RoundGrows(id: nat, n: nat, f: Frame, mem: Memory, owner: Owners, mem1: Memory, owner1: Owners,
                   mem': Memory, owner': Owners)
    requires owner.Keys == mem.Keys && n in owner && owner[n].Free?
    requires mem1 == mem[n := f] && owner1 == owner[n := Other]
    requires KernelTake(id, n, mem1, owner1, mem', owner')
    ensures OnlyGrows(id, mem, owner, mem', owner') && mem'[n] == f
  {
    var owner2 := owner'[n := Other];
    forall x | x in owner
      ensures !owner[x].Free? ==> owner'[x] == owner[x] && (!(owner[x].Dir? && owner[x].id == id) ==> mem'[x] == mem[x])
      ensures owner[x].Free? ==> owner'[x].Free? || (owner'[x].Dir? && owner'[x].id == id) || owner'[x] == Held(id)
    {
      assert x != n ==> owner2[x] == owner'[x] && owner1[x] == owner[x];
    }
  }

  lemma GrowsRefl(id: nat, mem: Memory, owner: Owners)
    requires owner.Keys == mem.Keys
    ensures OnlyGrows(id, mem, owner, mem, owner)
  {
  }

  /** A page taken from the free list, now a zero frame of process `id`. */
  ghost predicate NewZero(p: nat, owner0: Owners, mem: Memory, owner: Owners, id: nat) {
    && p in owner0 && owner0[p].Free? && p in owner && owner[p] == Held(id) && p in mem && mem[p] == ZeroPage()
  }

  ghost predicate AllZero(got: seq<nat>, owner0: Owners, mem: Memory, owner: Owners, id: nat) {
    forall k | 0 <= k < |got| :: NewZero(got[k], owner0, mem, owner, id)
  }

  lemma MoreZero(got: seq<nat>, p: nat, memA: Memory, ownerA: Owners, mem: Memory, owner: Owners, mem': Memory, owner': Owners, id: nat)
    requires AllZero(got, ownerA, mem, owner, id) && OnlyGrows(id, memA, ownerA, mem, owner)
    requires OnlyGrows(id, mem, owner, mem', owner') && NewZero(p, owner, mem', owner', id)
    ensures AllZero(got + [p], ownerA, mem', owner', id)
  {
    hide ZeroPage;
  }

  lemma TablesOf(mem: Memory, owner: Owners, spaces: Spaces)
    requires Consistent(mem, owner, spaces)
    ensures TablesOk(mem, owner, spaces) && owner.Keys == mem.Keys && 0 !in mem
  {
    ZeroIsNoPage(mem, owner, spaces);
  }

  /** `more` was put in front of process id's mapping list; nothing else changed. */
  ghost predicate Pushed(spaces0: Spaces, id: nat, more: seq<Mapping>, spaces: Spaces) {
    id in spaces0 && spaces == spaces0[id := spaces0[id].(maps := more + spaces0[id].maps)]
  }

  lemma PushedThenPushed(a: Spaces, id: nat, more: seq<Mapping>, b: Spaces, m: Mapping, c: Spaces)
    requires Pushed(a, id, more, b) && Pushed(b, id, [m], c)
    ensures Pushed(a, id, [m] + more, c)
  {
    assert [m] + (more + a[id].maps) == [m] + more + a[id].maps;
  }

  lemma KeepsSpace(a: Spaces, id: nat, m: Mapping, b: Spaces)
    requires Pushed(a, id, [m], b)
    ensures id in b && b.Keys == a.Keys && b[id].pgtbl == a[id].pgtbl
  {
  }

  lemma PushedNone(spaces: Spaces, id: nat)
    requires id in spaces
    ensures Pushed(spaces, id, [], spaces)
  {
    assert [] + spaces[id].maps == spaces[id].maps;
  }

  lemma ListMore(start: nat, got: seq<nat>, p: nat, perm: nat)
    ensures Listed(start, got + [p], perm)
            == [Mapping(p, start + |got| * PGSIZE, PGSIZE, perm)] + Listed(start, got, perm)
  {
    assert (got + [p])[..|got|] == got;
  }

  /** What alloc_vm did: frames `got`, taken from the free list and zeroed, are mapped at consecutive
      pages from `start` and listed; nothing else changed but free pages and the process's tables. */
  ghost predicate Granted(id: nat, start: nat, got: seq<nat>, perm: nat, mem0: Memory, owner0: Owners, spaces0: Spaces,
                          mem: Memory, owner: Owners, spaces: Spaces) {
    && OnlyGrows(id, mem0, owner0, mem, owner)
    && Pushed(spaces0, id, Listed(start, got, perm), spaces)
    && AllZero(got, owner0, mem, owner, id)
  }

  lemma GrantRoots(id: nat, start: nat, got: seq<nat>, perm: nat, mem0: Memory, owner0: Owners, spaces0: Spaces,
                   mem: Memory, owner: Owners, spaces: Spaces)
    requires Granted(id, start, got, perm, mem0, owner0, spaces0, mem, owner, spaces)
    ensures id in spaces0 && spaces.Keys == spaces0.Keys && forall q | q in spaces0 :: spaces[q].pgtbl == spaces0[q].pgtbl
  {
    hide OnlyGrows;
    hide AllZero;
    hide Listed;
  }

  /** Taking a page from the free list changes no leaf, so a round changes the one it maps. */
  lemma RoundLeaf(id: nat, p: nat, mem: Memory, owner: Owners, spaces: Spaces, mem1: Memory, mem2: Memory, va: nat, perm: nat)
    requires Consistent(mem, owner, spaces) && id in spaces && p in owner && owner[p].Free? && p in mem
    requires mem1 == mem[p := ZeroPage()]
    requires OneLeaf(spaces, mem1, mem2, id, Vpn(va), Or(Or(PaToPte(p), PteFlags(Leaf(mem1, spaces[id].pgtbl, Vpn(va)))), perm))
    ensures OneLeaf(spaces, mem, mem2, id, Vpn(va), Or(Or(PaToPte(p), PteFlags(Leaf(mem, spaces[id].pgtbl, Vpn(va)))), perm))
  {
    hide SpaceOk;
    hide TablesOk;
    hide Leaf;
    hide Or;
    hide And;
    TablesOf(mem, owner, spaces);
    forall q | q in spaces
      ensures forall vpn | 0 <= vpn < VPAGES :: Leaf(mem1, spaces[q].pgtbl, vpn) == Leaf(mem, spaces[q].pgtbl, vpn)
    {
      LeafFrame(mem, owner, spaces, mem1, q);
    }
  }

  /** A leaf once frames `got` have been mapped, one after the other, at the pages from `start` on. */
  ghost function LeafAfter(entry: nat, vpn: nat, start: nat, got: seq<nat>, perm: nat): nat {
    if got == [] then entry
    else
      var n := |got| - 1;
      var before := LeafAfter(entry, vpn, start, got[..n], perm);
      if Vpn(start + n * PGSIZE) == vpn then Or(Or(PaToPte(got[n]), PteFlags(before)), perm) else before
  }

  /** So it is with process id's leaves, and all others are as they were. */
  ghost predicate RangeLeaves(spaces: Spaces, mem: Memory, mem': Memory, id: nat, start: nat, got: seq<nat>, perm: nat) {
    forall id', vpn | id' in spaces && 0 <= vpn < VPAGES ::
      Leaf(mem', spaces[id'].pgtbl, vpn)
      == if id' == id then LeafAfter(Leaf(mem, spaces[id'].pgtbl, vpn), vpn, start, got, perm)
         else Leaf(mem, spaces[id'].pgtbl, vpn)
  }

  lemma LeavesNone(spaces: Spaces, mem: Memory, id: nat, start: nat, perm: nat)
    ensures RangeLeaves(spaces, mem, mem, id, start, [], perm)
  {
    hide Leaf;
  }

  lemma LeavesMore(spaces: Spaces, m0: Memory, m1: Memory, spaces1: Spaces, m2: Memory, id: nat, start: nat, got: seq<nat>,
                   page: nat, perm: nat)
    requires RangeLeaves(spaces, m0, m1, id, start, got, perm) && id in spaces && spaces1.Keys == spaces.Keys
    requires forall q | q in spaces :: spaces1[q].pgtbl == spaces[q].pgtbl
    requires var v := Vpn(start + |got| * PGSIZE);
             OneLeaf(spaces1, m1, m2, id, v, Or(Or(PaToPte(page), PteFlags(Leaf(m1, spaces1[id].pgtbl, v))), perm))
    ensures RangeLeaves(spaces, m0, m2, id, start, got + [page], perm)
  {
    hide Leaf;
    hide Or;
    hide And;
    var v, n := Vpn(start + |got| * PGSIZE), |got|;
    assert (got + [page])[..n] == got && (got + [page])[n] == page;
    forall id', vpn | id' in spaces && 0 <= vpn < VPAGES
      ensures Leaf(m2, spaces[id'].pgtbl, vpn)
              == if id' == id then LeafAfter(Leaf(m0, spaces[id'].pgtbl, vpn), vpn, start, got + [page], perm)
                 else Leaf(m0, spaces[id'].pgtbl, vpn)
    {
      assert Leaf(m2, spaces1[id'].pgtbl, vpn)
             == if id' == id && vpn == v then Or(Or(PaToPte(page), PteFlags(Leaf(m1, spaces1[id].pgtbl, v))), perm)
                else Leaf(m1, spaces1[id'].pgtbl, vpn);
    }
  }

  lemma WordLeads(page: nat, was: nat, perm: nat)
    requires KernelPage(page) && ValidPerm(perm)
    ensures var w := Or(Or(PaToPte(page), PteFlags(was)), perm);
            PteValid(w) && PaToVa(PteToPa(w)) == page && (UserBits(perm) ==> UserBits(w))
  {
    hide Or;
    hide And;
    hide KernelPage;
    var f := PteFlags(was);
    OrAssoc(PaToPte(page), f, perm);
    AndIdem(FLAG_MASK);
    AndAssoc(was, FLAG_MASK, FLAG_MASK);
    FlagsOr(f, perm);
    LeafDecodes(page, Or(f, perm));
    KernelPointerDecodes(page);
    if UserBits(perm) { OrUserBits(Or(PaToPte(page), f), perm); }
  }

  /** Page k of the range leads to frame k, with the permission, whatever was there before. */
  lemma {:induction false} LeafLeads(entry: nat, start: nat, got: seq<nat>, perm: nat, k: nat)
    requires k < |got| <= VPAGES && KernelPage(got[k]) && ValidPerm(perm)
    ensures var w := LeafAfter(entry, Vpn(start + k * PGSIZE), start, got, perm);
            PteValid(w) && PaToVa(PteToPa(w)) == got[k] && (UserBits(perm) ==> UserBits(w))
    decreases |got|
  {
    hide Or;
    hide And;
    hide KernelPage;
    var n, v := |got| - 1, Vpn(start + k * PGSIZE);
    if k == n {
      WordLeads(got[n], LeafAfter(entry, v, start, got[..n], perm), perm);
    } else {
      PagesApart(start, k, n);
      LeafLeads(entry, start, got[..n], perm, k);
    }
  }

  lemma PagesApart(start: nat, k: nat, n: nat)
    requires k < n < VPAGES
    ensures Vpn(start + k * PGSIZE) != Vpn(start + n * PGSIZE)
  {
    assert (start + k * PGSIZE) / PGSIZE == start / PGSIZE + k;
    assert (start + n * PGSIZE) / PGSIZE == start / PGSIZE + n;
  }

  lemma GrantNothing(id: nat, start: nat, perm: nat, mem: Memory, owner: Owners, spaces: Spaces)
    requires Consistent(mem, owner, spaces) && id in spaces
    ensures Granted(id, start, [], perm, mem, owner, spaces, mem, owner, spaces)
  {
    TablesOf(mem, owner, spaces);
    PushedNone(spaces, id);
    GrowsRefl(id, mem, owner);
  }

  lemma GrantMore(id: nat, start: nat, got: seq<nat>, perm: nat, mem0: Memory, owner0: Owners, spaces0: Spaces,
                  mem1: Memory, owner1: Owners, spaces1: Spaces, page: nat, mem: Memory, owner: Owners, spaces: Spaces)
    requires Granted(id, start, got, perm, mem0, owner0, spaces0, mem1, owner1, spaces1)
    requires OnlyGrows(id, mem1, owner1, mem, owner) && NewZero(page, owner1, mem, owner, id)
    requires Pushed(spaces1, id, [Mapping(page, start + |got| * PGSIZE, PGSIZE, perm)], spaces)
    ensures Granted(id, start, got + [page], perm, mem0, owner0, spaces0, mem, owner, spaces) && id in spaces
  {
    hide OnlyGrows;
    hide AllZero;
    hide Listed;
    hide Pushed;
    var m := Mapping(page, start + |got| * PGSIZE, PGSIZE, perm);
    GrowsThenGrows(id, mem0, owner0, mem1, owner1, mem, owner);
    MoreZero(got, page, mem0, owner0, mem1, owner1, mem, owner, id);
    KeepsSpace(spaces1, id, m, spaces);
    ListMore(start, got, page, perm);
    PushedThenPushed(spaces0, id, Listed(start, got, perm), spaces1, m, spaces);
  }

  lemma StartMap(id: nat, mem: Memory, owner: Owners, spaces: Spaces)
    requires TablesOk(mem, owner, spaces) && id in spaces
    ensures owner.Keys == mem.Keys && SameSlots(spaces, mem, mem) && OnlyTablesOf(id, mem, owner, mem, owner)
    ensures spaces[id].pgtbl in owner && owner[spaces[id].pgtbl] == Dir(id, 2, 0, 0)
  {
  }

  lemma AfterNewTable(id: nat, mem0: Memory, owner0: Owners, mem: Memory, owner: Owners, mem': Memory, owner': Owners,
                      spaces: Spaces)
    requires OnlyTablesOf(id, mem0, owner0, mem, owner) && OnlyTablesOf(id, mem, owner, mem', owner')
    requires SameSlots(spaces, mem0, mem) && SameSlots(spaces, mem, mem')
    ensures OnlyTablesOf(id, mem0, owner0, mem', owner') && SameSlots(spaces, mem0, mem')
    ensures forall y | y in owner && owner[y].Dir? :: y in owner' && owner'[y] == owner[y]
  {
    SameThenSame(spaces, mem0, mem, mem');
  }

  /** Filling an entry of the page the walk stands on leaves the entry it came through alone. */
  lemma StillChild(mem: Memory, owner: Owners, x: nat, i: nat, mem': Memory, root: nat, i2: nat, level: nat)
    requires i2 < ENTRIES && level <= 2
    requires mem' == mem || OneEntry(mem, owner, x, i, mem')
    requires x in owner && owner[x].Dir? && owner[x].level == level
    requires root in owner && owner[root].Dir? && owner[root].level == 2
    requires level == 1 ==> x == Child(mem, root, i2)
    ensures level == 1 ==> x == Child(mem', root, i2)
  {
  }
}
