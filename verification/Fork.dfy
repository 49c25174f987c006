/** Copying an address space: what one round of copy_pagetable does to the invariant, and why parent
    and child then see the same bytes through different frames. */
module Fork {
  import opened Bits
  import opened Sequences
  import opened Wrappers
  import opened Mmu
  import opened PageTable
  import opened AddressSpace
  import opened VirtualMemory

  /** A mapping that copy_pagetable can copy: one whole, aligned page below MAXVA. */
  predicate PageMapping(m: Mapping) {
    m.va % PGSIZE == 0 && m.va < MAXVA && m.size == PGSIZE
  }

  /** The first k mappings can be copied. */
  predicate AllPages(maps: seq<Mapping>, k: nat)
    requires k <= |maps|
  {
    forall j | 0 <= j < k :: PageMapping(maps[j])
  }

  /** While copy_pagetable runs, the parent's list is split: `rest` is still on the old list. */
  ghost predicate Joined(spaces: Spaces, p: nat, rest: seq<Mapping>, view: Spaces) {
    p in spaces && view == spaces[p := spaces[p].(maps := spaces[p].maps + rest)]
  }

  /** A mapping may move to the front of its list. */
  lemma MoveFront(mem: Memory, owner: Owners, view: Spaces, p: nat, a: seq<Mapping>, m: Mapping, b: seq<Mapping>, view': Spaces)
    requires Consistent(mem, owner, view) && p in view && view[p].maps == a + [m] + b
    requires view' == view[p := view[p].(maps := [m] + a + b)]
    ensures Consistent(mem, owner, view')
  {
    hide TablesOk;
    hide SpaceOk;
    TablesFrame(mem, owner, view, mem, owner, view');
    assert SpaceOk(mem, owner, p, view[p]);
    MoveInSpace(mem, owner, p, view[p], a, m, b);
    HeldMoved(mem, owner, view, p, a, m, b, view');
  }

  lemma MoveInSpace(mem: Memory, owner: Owners, p: nat, space: Space, a: seq<Mapping>, m: Mapping, b: seq<Mapping>)
    requires SpaceOk(mem, owner, p, space) && space.maps == a + [m] + b
    ensures SpaceOk(mem, owner, p, space.(maps := [m] + a + b))
  {
    hide EntryOk;
    hide ValidPerm;
    hide PageAt;
    hide Leaf;
    forall vpn | 0 <= vpn < VPAGES ensures EntryOk([m] + a + b, vpn, Leaf(mem, space.pgtbl, vpn)) {
      EntryOkMove(a, m, b, vpn, Leaf(mem, space.pgtbl, vpn));
    }
    MoveHeld(mem, owner, p, a, m, b);
  }

  lemma MoveHeld(mem: Memory, owner: Owners, p: nat, a: seq<Mapping>, m: Mapping, b: seq<Mapping>)
    requires HeldBy(mem, owner, p, a + [m] + b)
    ensures HeldBy(mem, owner, p, [m] + a + b)
  {
    hide ValidPerm;
    hide PageAt;
    var s, t := a + [m] + b, [m] + a + b;
    forall k | 0 <= k < |t|
      ensures t[k].pa in owner && owner[t[k].pa] == Held(p) && PageAt(mem, t[k].pa) && ValidPerm(t[k].perm)
    {
      assert t[k] == s[if k == 0 then |a| else if k <= |a| then k - 1 else k];
    }
    forall i, j | 0 <= i < j < |t| ensures t[i].pa != t[j].pa {
      var i' := if i == 0 then |a| else if i <= |a| then i - 1 else i;
      var j' := if j <= |a| then j - 1 else j;
      assert t[i] == s[i'] && t[j] == s[j'];
    }
  }

  lemma HeldMoved(mem: Memory, owner: Owners, view: Spaces, p: nat, a: seq<Mapping>, m: Mapping, b: seq<Mapping>, view': Spaces)
    requires Consistent(mem, owner, view) && p in view && view[p].maps == a + [m] + b
    requires view' == view[p := view[p].(maps := [m] + a + b)]
    ensures forall x | x in owner && owner[x].Held? ::
              owner[x].id in view' && exists k | 0 <= k < |view'[owner[x].id].maps| :: view'[owner[x].id].maps[k].pa == x
  {
    hide TablesOk;
    hide SpaceOk;
    forall x | x in owner && owner[x].Held?
      ensures owner[x].id in view' && exists k | 0 <= k < |view'[owner[x].id].maps| :: view'[owner[x].id].maps[k].pa == x
    {
      var k :| 0 <= k < |view[owner[x].id].maps| && view[owner[x].id].maps[k].pa == x;
      if owner[x].id == p {
        var k' := if k < |a| then k + 1 else if k == |a| then 0 else k;
        assert view'[p].maps[k'] == view[p].maps[k];
      } else {
        assert view'[owner[x].id].maps[k].pa == x;
      }
    }
  }

  lemma ByteAt(mem: Memory, root: nat, va: nat, out: seq<byte>, k: nat)
    requires ReadsAs(mem, root, va, out) && k < |out|
    ensures VByte(mem, root, va + k) == Option.Some(out[k])
  {
  }

  /** Reading a whole mapped page gives exactly its frame's bytes. */
  lemma WholePage(mem: Memory, owner: Owners, spaces: Spaces, id: nat, va: nat, out: seq<byte>)
    requires Consistent(mem, owner, spaces) && id in spaces
    requires va % PGSIZE == 0 && va < MAXVA && Mapped(spaces[id].maps, Vpn(va))
    requires ReadsAs(mem, spaces[id].pgtbl, va, out) && |out| <= PGSIZE
    requires |out| < PGSIZE ==> VByte(mem, spaces[id].pgtbl, va + |out|) == None
    ensures var f := FrameOf(mem, spaces[id].pgtbl, Vpn(va));
            PageAt(mem, f) && f in owner && owner[f] == Held(id) && out == mem[f].bytes
  {
    hide Consistent;
    hide Leaf;
    hide Mapped;
    hide And;
    hide Or;
    hide VByte;
    hide KernelPage;
    hide Vpn;
    var root := spaces[id].pgtbl;
    var f := FrameOf(mem, root, Vpn(va));
    VByteMeans(mem, owner, spaces, id, va);
    ReadInPage(mem, owner, spaces, id, va, PGSIZE);
    var all := mem[f].bytes[0..PGSIZE];
    assert ReadsAs(mem, root, va, all) && all == mem[f].bytes;
    if |out| < PGSIZE {
      ByteAt(mem, root, va, all, |out|);
    }
    forall i | 0 <= i < PGSIZE ensures out[i] == all[i] {
      assert VByte(mem, root, va + i) == Option.Some(out[i]);
      assert VByte(mem, root, va + i) == Option.Some(all[i]);
    }
  }

  /** The kernel fills a page it holds. */
  lemma FillPage(mem: Memory, owner: Owners, spaces: Spaces, n: nat, f: Frame, mem': Memory, freelist: nat, free: seq<nat>)
    requires Consistent(mem, owner, spaces) && FreeOk(mem, owner, freelist, free)
    requires n in owner && n in mem && owner[n].Other? && mem' == mem[n := f]
    ensures Consistent(mem', owner, spaces) && FreeOk(mem', owner, freelist, free)
  {
    hide Consistent;
    hide FreeOk;
    Undo(owner, n, Other);
    TakePage(mem, owner, spaces, n, f, mem', owner);
    FreeUpdate(mem, owner, freelist, free, n, f, Other);
  }

  /** Translating the page just mapped gives the frame pointer back. */
  lemma MappedBack(mem: Memory, root: nat, va: nat, page: nat, was: nat, perm: nat)
    requires KernelPage(page) && ValidPerm(perm) && PteFlags(was) == was
    requires va % PGSIZE == 0 && va < MAXVA
    requires Leaf(mem, root, Vpn(va)) == Or(Or(PaToPte(page), was), perm)
    ensures PaToVa(Translate(mem, root, va)) == page
  {
    hide Leaf;
    hide KernelPage;
    OrAssoc(PaToPte(page), was, perm);
    FlagsOr(was, perm);
    LeafDecodes(page, Or(was, perm));
    KernelPointerDecodes(page);
  }

  lemma FlagsTwice(pte: nat)
    ensures PteFlags(PteFlags(pte)) == PteFlags(pte)
  {
    AndIdem(FLAG_MASK);
    AndAssoc(pte, FLAG_MASK, FLAG_MASK);
  }

  /** The child's list mirrors `done`: same pages and permissions, on frames that hold the bytes the
      parent sees in those pages. mem0 is the memory when copying started. */
  ghost predicate Copied(mem0: Memory, root: nat, done: seq<Mapping>, child: seq<Mapping>, mem: Memory) {
    && |child| == |done|
    && (forall k | 0 <= k < |done| ::
          && child[k].va == done[k].va && child[k].perm == done[k].perm && child[k].size == PGSIZE
          && child[k].pa in mem && FrameOf(mem0, root, Vpn(done[k].va)) in mem0
          && mem[child[k].pa] == mem0[FrameOf(mem0, root, Vpn(done[k].va))])
  }

  /** What copy_pagetable promises: from the same old memory, the child translates exactly the
      parent's pages, with the parent's flags, and reads the parent's bytes. */
  ghost predicate SameView(mem: Memory, a: nat, b: nat) {
    && (forall vpn | 0 <= vpn < VPAGES :: PteFlags(Leaf(mem, a, vpn)) == PteFlags(Leaf(mem, b, vpn)))
    && (forall x: nat :: VByte(mem, a, x) == VByte(mem, b, x))
  }

  lemma {:induction false} SameFlags(a: seq<Mapping>, b: seq<Mapping>, vpn: nat)
    requires |a| == |b| && forall k | 0 <= k < |a| :: a[k].va == b[k].va && a[k].perm == b[k].perm
    ensures FlagsAt(a, vpn) == FlagsAt(b, vpn)
    ensures Mapped(a, vpn) <==> Mapped(b, vpn)
  {
    if a != [] {
      forall k | 0 <= k < |a| - 1 ensures a[1..][k].va == b[1..][k].va && a[1..][k].perm == b[1..][k].perm {
        assert a[1..][k] == a[k + 1] && b[1..][k] == b[k + 1];
      }
      SameFlags(a[1..], b[1..], vpn);
    }
    if Mapped(a, vpn) {
      var k :| 0 <= k < |a| && Vpn(a[k].va) == vpn;
      assert Vpn(b[k].va) == vpn;
    }
    if Mapped(b, vpn) {
      var k :| 0 <= k < |b| && Vpn(b[k].va) == vpn;
      assert Vpn(a[k].va) == vpn;
    }
  }

  /** Processes share no frame: whatever one writes, the other does not see (WroteVirtual), because
      the frames behind their pages have different owners. */
  lemma FramesDisjoint(mem: Memory, owner: Owners, spaces: Spaces, p: nat, q: nat, a: nat, b: nat)
    requires Consistent(mem, owner, spaces) && p in spaces && q in spaces && p != q
    requires a < MAXVA && b < MAXVA
    requires VByte(mem, spaces[p].pgtbl, a).Some? && VByte(mem, spaces[q].pgtbl, b).Some?
    ensures FrameOf(mem, spaces[p].pgtbl, Vpn(a)) != FrameOf(mem, spaces[q].pgtbl, Vpn(b))
  {
    hide Consistent;
    hide Leaf;
    hide And;
    hide Or;
    VByteMeans(mem, owner, spaces, p, a);
    VByteMeans(mem, owner, spaces, q, b);
  }

  /** The parent's own view is untouched by growth of the child. */
  lemma ParentKept(mem: Memory, owner: Owners, spaces: Spaces, p: nat, np: nat, mem': Memory, owner': Owners)
    requires Consistent(mem, owner, spaces) && p in spaces && p != np && OnlyGrows(np, mem, owner, mem', owner')
    ensures forall vpn | 0 <= vpn < VPAGES :: Leaf(mem', spaces[p].pgtbl, vpn) == Leaf(mem, spaces[p].pgtbl, vpn)
    ensures forall x: nat :: VByte(mem', spaces[p].pgtbl, x) == VByte(mem, spaces[p].pgtbl, x)
  {
    hide TablesOk;
    hide SpaceOk;
    hide Leaf;
    hide And;
    hide Or;
    TablesOf(mem, owner, spaces);
    LeafFrame(mem, owner, spaces, mem', p);
    forall x: nat ensures VByte(mem', spaces[p].pgtbl, x) == VByte(mem, spaces[p].pgtbl, x) {
      if x < MAXVA {
        VByteMeans(mem, owner, spaces, p, x);
      }
    }
  }

  /** Process id keeps its pages, takes others only from the free ones, and gives none back; no page of another
      process or of the kernel changes. */
  ghost predicate OnlyOwn(id: nat, mem: Memory, owner: Owners, mem': Memory, owner': Owners) {
    && owner.Keys == mem.Keys && mem'.Keys == mem.Keys && owner'.Keys == owner.Keys
    && (forall x | x in owner && !owner[x].Free? :: owner'[x] == owner[x])
    && (forall x | x in owner && owner[x].Free? ::
          owner'[x].Free? || (owner'[x].Dir? && owner'[x].id == id) || owner'[x] == Held(id))
    && (forall x | x in owner && !owner[x].Free? && owner[x] != Held(id) && !(owner[x].Dir? && owner[x].id == id) ::
          mem'[x] == mem[x])
  }

  lemma GrowthIsOwn(id: nat, mem: Memory, owner: Owners, mem': Memory, owner': Owners)
    requires OnlyGrows(id, mem, owner, mem', owner')
    ensures OnlyOwn(id, mem, owner, mem', owner')
  {
  }

  lemma FramesAreOwn(id: nat, mem: Memory, owner: Owners, mem': Memory)
    requires OnlyFramesOf(id, mem, owner, mem')
    ensures OnlyOwn(id, mem, owner, mem', owner)
  {
  }

  lemma OwnThenOwn(id: nat, a: Memory, ao: Owners, b: Memory, bo: Owners, c: Memory, co: Owners)
    requires OnlyOwn(id, a, ao, b, bo) && OnlyOwn(id, b, bo, c, co)
    ensures OnlyOwn(id, a, ao, c, co)
  {
  }

  /** So every other process keeps its leaves and its bytes. */
  lemma OthersSee(mem: Memory, owner: Owners, spaces: Spaces, q: nat, id: nat, mem': Memory, owner': Owners)
    requires Consistent(mem, owner, spaces) && q in spaces && q != id && OnlyOwn(id, mem, owner, mem', owner')
    ensures forall vpn | 0 <= vpn < VPAGES :: Leaf(mem', spaces[q].pgtbl, vpn) == Leaf(mem, spaces[q].pgtbl, vpn)
    ensures forall x: nat :: VByte(mem', spaces[q].pgtbl, x) == VByte(mem, spaces[q].pgtbl, x)
  {
    hide TablesOk;
    hide SpaceOk;
    hide Leaf;
    hide And;
    hide Or;
    TablesOf(mem, owner, spaces);
    LeafFrame(mem, owner, spaces, mem', q);
    forall x: nat ensures VByte(mem', spaces[q].pgtbl, x) == VByte(mem, spaces[q].pgtbl, x) {
      if x < MAXVA {
        VByteMeans(mem, owner, spaces, q, x);
      }
    }
  }

  /** What every process but id sees stays the same. */
  ghost predicate OthersKept(id: nat, mem: Memory, spaces: Spaces, mem': Memory) {
    forall q, a: nat | q in spaces && q != id :: VByte(mem', spaces[q].pgtbl, a) == VByte(mem, spaces[q].pgtbl, a)
  }

  lemma AllOthersSee(id: nat, mem: Memory, owner: Owners, spaces: Spaces, mem': Memory, owner': Owners)
    requires Consistent(mem, owner, spaces) && OnlyOwn(id, mem, owner, mem', owner')
    ensures OthersKept(id, mem, spaces, mem')
  {
    hide Consistent;
    hide OnlyOwn;
    hide VByte;
    forall q, a: nat | q in spaces && q != id ensures VByte(mem', spaces[q].pgtbl, a) == VByte(mem, spaces[q].pgtbl, a) {
      OthersSee(mem, owner, spaces, q, id, mem', owner');
    }
  }

  lemma ForkedView(mem0: Memory, owner0: Owners, spaces0: Spaces, p: nat, np: nat, mem: Memory, owner: Owners, spaces: Spaces)
    requires Consistent(mem0, owner0, spaces0) && p in spaces0 && p != np
    requires Consistent(mem, owner, spaces) && p in spaces && np in spaces && spaces[p].pgtbl == spaces0[p].pgtbl
    requires OnlyGrows(np, mem0, owner0, mem, owner)
    requires Copied(mem0, spaces0[p].pgtbl, spaces[p].maps, spaces[np].maps, mem)
    ensures SameView(mem, spaces[p].pgtbl, spaces[np].pgtbl)
  {
    hide Consistent;
    hide OnlyGrows;
    hide Copied;
    hide Leaf;
    hide VByte;
    hide And;
    hide Or;
    hide FlagsAt;
    hide Mapped;
    forall vpn | 0 <= vpn < VPAGES
      ensures PteFlags(Leaf(mem, spaces[p].pgtbl, vpn)) == PteFlags(Leaf(mem, spaces[np].pgtbl, vpn))
    {
      ForkedFlags(mem, owner, spaces, mem0, spaces0[p].pgtbl, p, np, vpn);
    }
    forall x: nat ensures VByte(mem, spaces[p].pgtbl, x) == VByte(mem, spaces[np].pgtbl, x) {
      ForkedByte(mem0, owner0, spaces0, p, np, mem, owner, spaces, x);
    }
  }

  lemma ForkedFlags(mem: Memory, owner: Owners, spaces: Spaces, mem0: Memory, root: nat, p: nat, np: nat, vpn: nat)
    requires Consistent(mem, owner, spaces) && p in spaces && np in spaces && vpn < VPAGES
    requires Copied(mem0, root, spaces[p].maps, spaces[np].maps, mem)
    ensures PteFlags(Leaf(mem, spaces[p].pgtbl, vpn)) == PteFlags(Leaf(mem, spaces[np].pgtbl, vpn))
  {
    hide Consistent;
    hide Leaf;
    hide And;
    hide Or;
    hide FlagsAt;
    hide Mapped;
    LeafMeaning(mem, owner, spaces, p, vpn);
    LeafMeaning(mem, owner, spaces, np, vpn);
    SameFlags(spaces[p].maps, spaces[np].maps, vpn);
  }

  lemma ForkedByte(mem0: Memory, owner0: Owners, spaces0: Spaces, p: nat, np: nat, mem: Memory, owner: Owners,
                   spaces: Spaces, x: nat)
    requires Consistent(mem0, owner0, spaces0) && p in spaces0 && p != np
    requires Consistent(mem, owner, spaces) && p in spaces && np in spaces && spaces[p].pgtbl == spaces0[p].pgtbl
    requires OnlyGrows(np, mem0, owner0, mem, owner)
    requires Copied(mem0, spaces0[p].pgtbl, spaces[p].maps, spaces[np].maps, mem)
    ensures VByte(mem, spaces[p].pgtbl, x) == VByte(mem, spaces[np].pgtbl, x)
  {
    hide Consistent;
    hide OnlyGrows;
    hide Leaf;
    hide And;
    hide Or;
    hide FlagsAt;
    hide KernelPage;
    if x < MAXVA {
      var v := Vpn(x);
      ParentKept(mem0, owner0, spaces0, p, np, mem, owner);
      SameFlags(spaces[p].maps, spaces[np].maps, v);
      VByteMeans(mem, owner, spaces, p, x);
      VByteMeans(mem, owner, spaces, np, x);
      LeafMeaning(mem, owner, spaces, np, v);
      if Mapped(spaces[np].maps, v) {
        var child := spaces[np].maps;
        var k :| 0 <= k < |child| && Vpn(child[k].va) == v && FrameOf(mem, spaces[np].pgtbl, v) == child[k].pa;
        var f := FrameOf(mem0, spaces0[p].pgtbl, v);
        assert mem[child[k].pa] == mem0[f];
        assert FrameOf(mem, spaces[p].pgtbl, v) == f;
        assert VByte(mem0, spaces0[p].pgtbl, x) == Option.Some(mem0[f].bytes[x % PGSIZE]);
      }
    }
  }

  /** The frames the child already has keep their contents. */
  lemma ChildKept(np: nat, mem1: Memory, owner1: Owners, view: Spaces, mem: Memory, owner: Owners)
    requires Consistent(mem1, owner1, view) && np in view && OnlyGrows(np, mem1, owner1, mem, owner)
    ensures forall k | 0 <= k < |view[np].maps| ::
              var x := view[np].maps[k].pa; x in mem1 && x in mem && mem[x] == mem1[x]
  {
    hide EntryOk;
    hide KernelPage;
    hide TablesOk;
    hide LeavesOk;
    hide ValidPerm;
    assert SpaceOk(mem1, owner1, np, view[np]);
    forall k | 0 <= k < |view[np].maps|
      ensures var x := view[np].maps[k].pa; x in mem1 && x in mem && mem[x] == mem1[x]
    {
      assert owner1[view[np].maps[k].pa] == Held(np);
    }
  }

  /** A frame of the parent is what it was before the child grew. */
  lemma ParentFrameKept(mem0: Memory, owner0: Owners, spaces0: Spaces, p: nat, np: nat, mem1: Memory, owner1: Owners, vpn: nat)
    requires Consistent(mem0, owner0, spaces0) && p in spaces0 && p != np && vpn < VPAGES
    requires OnlyGrows(np, mem0, owner0, mem1, owner1)
    requires var f := FrameOf(mem1, spaces0[p].pgtbl, vpn); f in mem1 && f in owner1 && owner1[f] == Held(p)
    ensures var f := FrameOf(mem1, spaces0[p].pgtbl, vpn); f == FrameOf(mem0, spaces0[p].pgtbl, vpn) && f in mem0 && mem1[f] == mem0[f]
  {
    hide VByte;
    hide KernelPage;
    hide Consistent;
    hide Leaf;
    hide And;
    hide Or;
    ParentKept(mem0, owner0, spaces0, p, np, mem1, owner1);
  }

  /** One more mapping copied. */
  lemma CopiedMore(p: nat, np: nat, mem0: Memory, owner0: Owners, spaces0: Spaces, done: seq<Mapping>, child: seq<Mapping>,
                   mem1: Memory, owner1: Owners, view: Spaces, info: Mapping, c: Mapping, mem: Memory, owner: Owners)
    requires Consistent(mem0, owner0, spaces0) && p in spaces0 && p != np
    requires Consistent(mem1, owner1, view) && p in view && np in view && view[np].maps == child
    requires OnlyGrows(np, mem0, owner0, mem1, owner1) && OnlyGrows(np, mem1, owner1, mem, owner)
    requires Copied(mem0, spaces0[p].pgtbl, done, child, mem1)
    requires view[p].pgtbl == spaces0[p].pgtbl
    requires c == Mapping(c.pa, info.va, PGSIZE, info.perm)
    requires var f := FrameOf(mem1, view[p].pgtbl, Vpn(info.va));
             f in mem1 && f in owner1 && owner1[f] == Held(p) && c.pa in mem && mem[c.pa] == mem1[f]
    ensures OnlyGrows(np, mem0, owner0, mem, owner)
    ensures Copied(mem0, spaces0[p].pgtbl, [info] + done, [c] + child, mem)
  {
    hide VByte;
    hide Consistent;
    hide OnlyGrows;
    hide FrameOf;
    hide Vpn;
    hide KernelPage;
    ParentFrameKept(mem0, owner0, spaces0, p, np, mem1, owner1, Vpn(info.va));
    GrowsThenGrows(np, mem0, owner0, mem1, owner1, mem, owner);
    ChildKept(np, mem1, owner1, view, mem, owner);
    var root := spaces0[p].pgtbl;
    forall k | 0 <= k < |[info] + done|
      ensures var d, e := ([info] + done)[k], ([c] + child)[k];
              e.va == d.va && e.perm == d.perm && e.size == PGSIZE && e.pa in mem
              && FrameOf(mem0, root, Vpn(d.va)) in mem0 && mem[e.pa] == mem0[FrameOf(mem0, root, Vpn(d.va))]
    {
      if k > 0 {
        assert ([c] + child)[k] == child[k - 1] && ([info] + done)[k] == done[k - 1];
      }
    }
  }

  /** One round's effect on the two lists. */
  ghost predicate RoundDone(spaces0: Spaces, p: nat, np: nat, info: Mapping, c: Mapping, spaces: Spaces) {
    && p in spaces0 && np in spaces0 && p != np
    && spaces == spaces0[p := spaces0[p].(maps := [info] + spaces0[p].maps)]
                        [np := spaces0[np].(maps := [c] + spaces0[np].maps)]
  }

  lemma JoinedRoots(mem: Memory, owner: Owners, spaces: Spaces, p: nat, rest: seq<Mapping>, view: Spaces)
    requires Consistent(mem, owner, view) && Joined(spaces, p, rest, view)
    ensures p in view && view.Keys == spaces.Keys && owner.Keys == mem.Keys
    ensures forall id | id in spaces :: view[id].pgtbl == spaces[id].pgtbl
  {
    ConsistentKeys(mem, owner, view);
  }

  lemma SameRoots(mem: Memory, owner: Owners, view: Spaces, p: nat, rest: seq<Mapping>, spaces: Spaces)
    requires TablesOk(mem, owner, view) && Joined(spaces, p, rest, view)
    ensures TablesOk(mem, owner, spaces)
  {
    hide TablesOk;
    TablesFrameKeys(mem, owner, view);
    TablesFrame(mem, owner, view, mem, owner, spaces);
  }

  lemma TablesFrameKeys(mem: Memory, owner: Owners, view: Spaces)
    requires TablesOk(mem, owner, view)
    ensures owner.Keys == mem.Keys
  {
  }

  /** The new page holds the parent's bytes. */
  lemma CopiedBytes(mem0: Memory, owner0: Owners, view: Spaces, p: nat, info: Mapping, rest: seq<Mapping>, spaces: Spaces,
                    n: nat, mem1: Memory, owner1: Owners, out: seq<byte>, mem2: Memory, freelist: nat, free: seq<nat>)
    requires Consistent(mem0, owner0, view) && Joined(spaces, p, [info] + rest, view) && PageMapping(info)
    requires n in owner0 && n in mem0 && owner0[n].Free?
    requires mem1 == mem0[n := ZeroPage()] && owner1 == owner0[n := Other]
    requires Consistent(mem1, owner1, view) && FreeOk(mem1, owner1, freelist, free)
    requires ReadsAs(mem1, view[p].pgtbl, info.va, out) && |out| <= PGSIZE
    requires |out| < PGSIZE ==> VByte(mem1, view[p].pgtbl, info.va + |out|) == None
    requires mem2 == mem1[n := Page(Splice(ZeroPage().bytes, 0, out))]
    ensures Consistent(mem2, owner1, view) && FreeOk(mem2, owner1, freelist, free)
    ensures KernelPage(n) && n % PGSIZE == 0
    ensures mem2 == mem0[n := mem2[n]] && PageAt(mem2, n)
    ensures var f := FrameOf(mem0, view[p].pgtbl, Vpn(info.va));
            f in mem0 && f in owner0 && owner0[f] == Held(p) && mem2[n] == mem0[f]
  {
    hide Consistent;
    hide FreeOk;
    hide TablesOk;
    hide Leaf;
    hide And;
    hide Or;
    hide KernelPage;
    hide ReadsAs;
    hide VByte;
    hide Vpn;
    FirstMapped(spaces, p, info, rest, view);
    WholePage(mem1, owner1, view, p, info.va, out);
    FillPage(mem1, owner1, view, n, Page(Splice(ZeroPage().bytes, 0, out)), mem2, freelist, free);
    Overwrite(mem0, n, ZeroPage(), mem2[n]);
    TablesOf(mem0, owner0, view);
    FreeIsPage(mem0, owner0, view, n);
    LeafFrame(mem0, owner0, view, mem1, p);
    assert Splice(ZeroPage().bytes, 0, out) == out;
  }

  /** The first half of a sound round: the page taken, and filled with what was read. */
  lemma SoundCopy(mem0: Memory, owner0: Owners, view: Spaces, p: nat, info: Mapping, rest: seq<Mapping>, spaces: Spaces,
                  n: nat, memJ: Memory, owner1: Owners, mem1: Memory, out: seq<byte>, mem2: Memory, freelist: nat, free: seq<nat>)
    requires Consistent(mem0, owner0, view) && Joined(spaces, p, [info] + rest, view) && PageMapping(info)
    requires n in owner0 && n in mem0 && owner0[n].Free?
    requires memJ == mem0[n := JunkPage()] && owner1 == owner0[n := Other] && mem1 == memJ[n := ZeroPage()]
    requires FreeOk(memJ, owner1, freelist, free)
    requires ReadsAs(mem1, spaces[p].pgtbl, info.va, out) && |out| <= PGSIZE
    requires |out| < PGSIZE ==> VByte(mem1, spaces[p].pgtbl, info.va + |out|) == None
    requires mem2 == mem1[n := Page(Splice(ZeroPage().bytes, 0, out))]
    ensures Consistent(mem2, owner1, view) && FreeOk(mem2, owner1, freelist, free) && PageAt(mem2, n)
    ensures var f := FrameOf(mem0, view[p].pgtbl, Vpn(info.va));
            f in mem0 && f in owner0 && owner0[f] == Held(p) && mem2[n] == mem0[f]
  {
    hide Consistent;
    hide FreeOk;
    hide PageMapping;
    hide ReadsAs;
    hide VByte;
    hide FrameOf;
    hide Vpn;
    hide Leaf;
    hide KernelPage;
    JoinedRoots(mem0, owner0, spaces, p, [info] + rest, view);
    AllocRound(mem0, owner0, view, p, n, freelist, free, memJ, owner1, mem1, ZeroPage());
    Overwrite(mem0, n, JunkPage(), ZeroPage());
    CopiedBytes(mem0, owner0, view, p, info, rest, spaces, n, mem1, owner1, out, mem2, freelist, free);
  }

  /** The second half: mapped, listed on both sides, and in order again. */
  lemma SoundFinish(mem: Memory, owner: Owners, view: Spaces, p: nat, np: nat, info: Mapping, rest: seq<Mapping>, n: nat, pa0: nat,
                    mem': Memory, owner2: Owners, spaces: Spaces, owner': Owners, spaces': Spaces,
                    freelist: nat, free: seq<nat>) returns (view': Spaces)
    requires Consistent(mem, owner, view) && Joined(spaces, p, [info] + rest, view)
    requires p != np && np in spaces && PageMapping(info) && ValidPerm(info.perm)
    requires n in owner && owner[n].Other? && PageAt(mem, n) && KernelPage(n) && n % PGSIZE == 0
    requires FreeOk(mem', owner2, freelist, free) && TablesOk(mem', owner2, spaces)
    requires OnlyTablesOf(np, mem, owner, mem', owner2)
    requires RangeMapped(spaces, mem, mem', np, PageDown(info.va), n, info.perm, PagesTouched(info.va, PGSIZE))
    requires pa0 == Translate(mem', spaces[np].pgtbl, info.va)
    requires owner' == owner2[n := Held(np)]
    requires var spaces1 := spaces[p := spaces[p].(maps := [Mapping(info.pa, info.va, PGSIZE, info.perm)] + spaces[p].maps)];
             spaces' == spaces1[np := spaces1[np].(maps := [Mapping(PaToVa(pa0), info.va, PGSIZE, info.perm)] + spaces1[np].maps)]
    ensures Consistent(mem', owner', view') && Joined(spaces', p, rest, view')
  {
    hide Consistent;
    hide FreeOk;
    hide TablesOk;
    hide OnlyTablesOf;
    hide KernelPage;
    hide ValidPerm;
    hide RangeMapped;
    hide OneLeaf;
    hide Leaf;
    hide Translate;
    hide And;
    hide Or;
    hide Vpn;
    OnePage(info.va, n);
    RangeOne(spaces, mem, mem', np, info.va, n, info.perm);
    view' := FinishRound(mem, owner, view, p, np, info, rest, n, pa0, mem', owner2, spaces, owner', spaces', freelist, free);
  }

  lemma FirstMapped(spaces: Spaces, p: nat, info: Mapping, rest: seq<Mapping>, view: Spaces)
    requires Joined(spaces, p, [info] + rest, view)
    ensures p in view && Mapped(view[p].maps, Vpn(info.va))
  {
    hide Vpn;
    assert view[p].maps[|spaces[p].maps|] == info;
  }

  lemma FreeIsPage(mem: Memory, owner: Owners, spaces: Spaces, n: nat)
    requires TablesOk(mem, owner, spaces) && n in mem
    ensures KernelPage(n) && n % PGSIZE == 0 && 0 !in mem
  {
    hide KernelPage;
    assert KernelPage(n);
    KernelPointerDecodes(n);
    ZeroIsNoPage(mem, owner, spaces);
  }

  /** Both pushes of a round, and the invariant for the rejoined lists. */
  lemma FinishRound(mem: Memory, owner: Owners, view: Spaces, p: nat, np: nat, info: Mapping, rest: seq<Mapping>, n: nat, pa0: nat,
                    mem': Memory, owner2: Owners, spaces: Spaces, owner': Owners, spaces': Spaces,
                    freelist: nat, free: seq<nat>) returns (view': Spaces)
    requires Consistent(mem, owner, view) && Joined(spaces, p, [info] + rest, view)
    requires p != np && np in spaces && PageMapping(info) && ValidPerm(info.perm)
    requires n in owner && owner[n].Other? && PageAt(mem, n) && KernelPage(n)
    requires FreeOk(mem', owner2, freelist, free) && TablesOk(mem', owner2, spaces)
    requires OnlyTablesOf(np, mem, owner, mem', owner2)
    requires OneLeaf(spaces, mem, mem', np, Vpn(info.va),
               Or(Or(PaToPte(n), PteFlags(Leaf(mem, spaces[np].pgtbl, Vpn(info.va)))), info.perm))
    requires pa0 == Translate(mem', spaces[np].pgtbl, info.va)
    requires owner' == owner2[n := Held(np)]
    requires var spaces1 := spaces[p := spaces[p].(maps := [Mapping(info.pa, info.va, PGSIZE, info.perm)] + spaces[p].maps)];
             spaces' == spaces1[np := spaces1[np].(maps := [Mapping(PaToVa(pa0), info.va, PGSIZE, info.perm)] + spaces1[np].maps)]
    ensures PaToVa(pa0) == n
    ensures FreeOk(mem', owner', freelist, free) && Consistent(mem', owner', view') && Joined(spaces', p, rest, view')
    ensures RoundDone(spaces, p, np, info, Mapping(n, info.va, PGSIZE, info.perm), spaces')
    ensures KernelTake(np, n, mem, owner, mem', owner')
  {
    hide Consistent;
    hide FreeOk;
    hide TablesOk;
    hide OnlyTablesOf;
    hide KernelTake;
    hide KernelPage;
    hide ValidPerm;
    hide Leaf;
    hide OneLeaf;
    hide And;
    hide Or;
    hide Vpn;
    hide Translate;
    var m := Mapping(n, info.va, PGSIZE, info.perm);
    BackAgain(mem, mem', spaces, np, info, n, pa0);
    JoinedRoots(mem, owner, spaces, p, [info] + rest, view);
    assert info == Mapping(info.pa, info.va, PGSIZE, info.perm);
    var view1 := view[np := view[np].(maps := [m] + view[np].maps)];
    ViewOneLeaf(spaces, view, mem, mem', np, Vpn(info.va),
                Or(Or(PaToPte(n), PteFlags(Leaf(mem, spaces[np].pgtbl, Vpn(info.va)))), info.perm));
    ViewTables(mem', owner2, spaces, view, p, [info] + rest);
    AllocDone(mem, owner, view, np, m, mem', owner2, owner', view1, freelist, free);
    var done := spaces[p].maps;
    view' := view1[p := view1[p].(maps := [info] + done + rest)];
    assert view1[p].maps == done + [info] + rest;
    MoveFront(mem', owner', view1, p, done, info, rest, view');
    RejoinedMaps(spaces, p, np, info, m, rest, view, view1, view', spaces');
  }

  lemma BackAgain(mem: Memory, mem': Memory, spaces: Spaces, np: nat, info: Mapping, n: nat, pa0: nat)
    requires np in spaces && PageMapping(info) && ValidPerm(info.perm) && KernelPage(n)
    requires OneLeaf(spaces, mem, mem', np, Vpn(info.va),
               Or(Or(PaToPte(n), PteFlags(Leaf(mem, spaces[np].pgtbl, Vpn(info.va)))), info.perm))
    requires pa0 == Translate(mem', spaces[np].pgtbl, info.va)
    ensures PaToVa(pa0) == n
  {
    hide Leaf;
    hide And;
    hide Or;
    hide KernelPage;
    hide ValidPerm;
    hide Vpn;
    hide Translate;
    var was := Leaf(mem, spaces[np].pgtbl, Vpn(info.va));
    FlagsTwice(was);
    assert Leaf(mem', spaces[np].pgtbl, Vpn(info.va)) == Or(Or(PaToPte(n), PteFlags(was)), info.perm);
    MappedBack(mem', spaces[np].pgtbl, info.va, n, PteFlags(was), info.perm);
  }

  lemma ViewOneLeaf(spaces: Spaces, view: Spaces, mem: Memory, mem': Memory, id: nat, v: nat, w: nat)
    requires OneLeaf(spaces, mem, mem', id, v, w)
    requires view.Keys == spaces.Keys && forall i | i in spaces :: view[i].pgtbl == spaces[i].pgtbl
    ensures OneLeaf(view, mem, mem', id, v, w)
  {
    hide Leaf;
  }

  lemma ViewTables(mem: Memory, owner: Owners, spaces: Spaces, view: Spaces, p: nat, rest: seq<Mapping>)
    requires TablesOk(mem, owner, spaces) && Joined(spaces, p, rest, view)
    ensures TablesOk(mem, owner, view)
  {
    hide TablesOk;
    TablesFrameKeys(mem, owner, spaces);
    TablesFrame(mem, owner, spaces, mem, owner, view);
  }

  lemma RejoinedMaps(spaces: Spaces, p: nat, np: nat, info: Mapping, m: Mapping, rest: seq<Mapping>,
                     view: Spaces, view1: Spaces, view': Spaces, spaces': Spaces)
    requires p in spaces && np in spaces && p != np && Joined(spaces, p, [info] + rest, view)
    requires view1 == view[np := view[np].(maps := [m] + view[np].maps)]
    requires view' == view1[p := view1[p].(maps := [info] + spaces[p].maps + rest)]
    requires var spaces1 := spaces[p := spaces[p].(maps := [info] + spaces[p].maps)];
             spaces' == spaces1[np := spaces1[np].(maps := [m] + spaces1[np].maps)]
    ensures Joined(spaces', p, rest, view') && RoundDone(spaces, p, np, info, m, spaces')
  {
    assert spaces'[p].maps + rest == [info] + spaces[p].maps + rest;
  }

  // Copying any mapping. An unaligned one leaves the child's bookkeeping broken, and with it the invariant of
  // all processes together, so what the rest of the copy needs is kept for the parent alone.

  /** The pages of process p keep their owner; everything else counts as the kernel's. */
  ghost predicate OwnView(owner: Owners, p: nat, own: Owners) {
    && own.Keys == owner.Keys
    && forall x | x in owner ::
         own[x] == if (owner[x].Dir? || owner[x].Held?) && owner[x].id == p then owner[x] else Other
  }

  /** Process p alone is in order. */
  ghost predicate Alone(mem: Memory, own: Owners, p: nat, root: nat, alone: Spaces) {
    Consistent(mem, own, alone) && p in alone && alone[p].pgtbl == root
  }

  lemma AloneMeans(mem: Memory, own: Owners, p: nat, root: nat, alone: Spaces)
    requires Alone(mem, own, p, root, alone)
    ensures Consistent(mem, own, alone) && p in alone && alone[p].pgtbl == root
  {
  }

  lemma AlignedDown(n: nat)
    requires n % PGSIZE == 0
    ensures PageDown(n) == n
  {
  }

  lemma StandAlone(mem: Memory, owner: Owners, spaces: Spaces, p: nat) returns (own: Owners, alone: Spaces)
    requires Consistent(mem, owner, spaces) && p in spaces
    ensures OwnView(owner, p, own) && Alone(mem, own, p, spaces[p].pgtbl, alone)
    ensures alone == map[p := spaces[p]]
  {
    hide SpaceOk;
    hide DirOk;
    hide FlagsAt;
    own := map x | x in owner :: if (owner[x].Dir? || owner[x].Held?) && owner[x].id == p then owner[x] else Other;
    alone := map[p := spaces[p]];
    forall x | x in own && own[x].Dir? ensures DirOk(mem, own, alone, x) {
      DirAlone(mem, owner, spaces, p, own, alone, x);
    }
    assert SpaceOk(mem, owner, p, spaces[p]);
    SpaceAlone(mem, owner, p, spaces[p], own);
    forall x | x in own && own[x].Held?
      ensures own[x].id in alone && exists k | 0 <= k < |alone[own[x].id].maps| :: alone[own[x].id].maps[k].pa == x
    {
      assert owner[x].Held? && owner[x].id == p;
    }
  }

  lemma DirAlone(mem: Memory, owner: Owners, spaces: Spaces, p: nat, own: Owners, alone: Spaces, x: nat)
    requires TablesOk(mem, owner, spaces) && p in spaces && OwnView(owner, p, own) && alone == map[p := spaces[p]]
    requires x in own && own[x].Dir?
    ensures DirOk(mem, own, alone, x)
  {
    hide KernelPage;
    assert DirOk(mem, owner, spaces, x);
  }

  lemma SpaceAlone(mem: Memory, owner: Owners, p: nat, space: Space, own: Owners)
    requires SpaceOk(mem, owner, p, space) && OwnView(owner, p, own)
    ensures SpaceOk(mem, own, p, space)
  {
    hide KernelPage;
    hide LeavesOk;
    hide ValidPerm;
  }

  /** It stays in order while only pages of others change. */
  lemma AloneFrame(mem: Memory, own: Owners, p: nat, root: nat, alone: Spaces, mem': Memory)
    requires Alone(mem, own, p, root, alone) && mem'.Keys == mem.Keys
    requires forall x | x in own && own[x] != Other :: mem'[x] == mem[x]
    ensures Alone(mem', own, p, root, alone)
  {
    hide KernelPage;
    hide LeavesOk;
    hide DirOk;
    hide Leaf;
    TablesOf(mem, own, alone);
    TablesFrame(mem, own, alone, mem', own, alone);
    forall id | id in alone ensures SpaceOk(mem', own, id, alone[id]) {
      LeafFrame(mem, own, alone, mem', id);
      SpaceFrame(mem, own, id, alone[id], mem', own);
    }
  }

  /** In particular while another process grows. */
  lemma AloneGrows(np: nat, mem: Memory, owner: Owners, mem': Memory, owner': Owners, own: Owners, p: nat, root: nat, alone: Spaces)
    requires OnlyGrows(np, mem, owner, mem', owner') && p != np
    requires OwnView(owner, p, own) && Alone(mem, own, p, root, alone)
    ensures OwnView(owner', p, own) && Alone(mem', own, p, root, alone)
  {
    hide Alone;
    AloneFrame(mem, own, p, root, alone, mem');
  }

  /** A free page taken and filled, seen from the tables and the free list. */
  lemma FilledPage(mem: Memory, owner: Owners, spaces: Spaces, n: nat, memJ: Memory, owner1: Owners, f: Frame, mem': Memory,
                   freelist: nat, free: seq<nat>)
    requires TablesOk(mem, owner, spaces) && n in owner && n in mem && owner[n].Free?
    requires memJ == mem[n := JunkPage()] && owner1 == owner[n := Other] && FreeOk(memJ, owner1, freelist, free)
    requires mem' == memJ[n := f]
    ensures FreeOk(mem', owner1, freelist, free) && TablesOk(mem', owner1, spaces) && mem' == mem[n := f]
    ensures KernelPage(n) && n % PGSIZE == 0 && owner.Keys == mem.Keys
  {
    hide FreeOk;
    hide TablesOk;
    hide KernelPage;
    TablesFrameKeys(mem, owner, spaces);
    FreeIsPage(mem, owner, spaces, n);
    Overwrite(mem, n, JunkPage(), f);
    Overwrite(owner, n, Other, Other);
    FreeUpdate(memJ, owner1, freelist, free, n, f, Other);
    TablesFrame(mem, owner, spaces, mem', owner1, spaces);
  }

  /** The end of a round, seen from the tables and the free list. */
  lemma RoundOver(mem: Memory, owner1: Owners, spaces: Spaces, np: nat, n: nat, mem': Memory, owner2: Owners,
                  owner': Owners, spaces': Spaces, freelist: nat, free: seq<nat>)
    requires n in owner1 && n in mem && owner1[n].Other? && OnlyTablesOf(np, mem, owner1, mem', owner2)
    requires FreeOk(mem', owner2, freelist, free) && TablesOk(mem', owner2, spaces) && owner' == owner2[n := Held(np)]
    requires spaces'.Keys == spaces.Keys && forall id | id in spaces :: spaces'[id].pgtbl == spaces[id].pgtbl
    ensures FreeOk(mem', owner', freelist, free) && TablesOk(mem', owner', spaces')
    ensures KernelTake(np, n, mem, owner1, mem', owner')
  {
    hide FreeOk;
    hide TablesOk;
    TablesFrameKeys(mem', owner2, spaces);
    Undo(mem', n, mem'[n]);
    Undo(owner2, n, Held(np));
    FreeUpdate(mem', owner2, freelist, free, n, mem'[n], Held(np));
    TablesFrame(mem', owner2, spaces, mem', owner', spaces');
  }

  /** What the child's list gets for page n mapped at va: the kernel's pointer to n plus the offset of va
      in its page, or a pointer to nothing when va is out of range. It is the page exactly when the
      mapping can be copied, and otherwise it is no page at all. */
  lemma RecordedFrame(spaces: Spaces, mem: Memory, mem': Memory, np: nat, info: Mapping, n: nat, pa0: nat)
    requires np in spaces && KernelPage(n) && ValidPerm(info.perm) && info.size == PGSIZE
    requires RangeMapped(spaces, mem, mem', np, PageDown(info.va), n, info.perm, PagesTouched(info.va, PGSIZE))
    requires pa0 == Translate(mem', spaces[np].pgtbl, info.va)
    ensures PaToVa(pa0) == n <==> PageMapping(info)
    ensures KernelPage(PaToVa(pa0)) <==> PageMapping(info)
    ensures info.va < MAXVA ==> PaToVa(pa0) == n + info.va % PGSIZE
  {
    hide Leaf;
    hide And;
    hide Or;
    hide ValidPerm;
    hide Vpn;
    hide PteFlags;
    hide PteToPa;
    hide PaToPte;
    hide EntryAfter;
    var root, v := spaces[np].pgtbl, Vpn(info.va);
    if info.va < MAXVA {
      FirstEntry(Leaf(mem, root, v), info.va, n, info.perm);
      var off := info.va % PGSIZE;
      assert pa0 == n - DMW + off;
      PaToVaAdds(n - DMW + off);
      OffPage(n, off);
    } else {
      PaToVaAdds(0);
    }
  }

  lemma OffPage(n: nat, off: nat)
    requires KernelPage(n) && off < PGSIZE
    ensures KernelPage(n + off) <==> off == 0
  {
  }

  /** The entry of the page va lies in. */
  lemma FirstEntry(entry: nat, va: nat, n: nat, perm: nat)
    requires KernelPage(n) && ValidPerm(perm) && va < MAXVA
    ensures var w := EntryAfter(entry, Vpn(va), PageDown(va), n, perm, PagesTouched(va, PGSIZE));
            PteToPa(w) == n - DMW && PteValid(w)
  {
    hide And;
    hide Or;
    hide KernelPage;
    hide EntryAfter;
    var was := PteFlags(entry);
    TwoPages(va);
    RangeEntries(entry, Vpn(va), PageDown(va), n, perm, PagesTouched(va, PGSIZE));
    assert (Vpn(va) - PageDown(va) / PGSIZE) % VPAGES == 0;
    FlagsTwice(entry);
    OrAssoc(PaToPte(n), was, perm);
    FlagsOr(was, perm);
    LeafDecodes(n, Or(was, perm));
  }

  /** A page-sized range touches one page when it is aligned, and two when it is not. */
  lemma TwoPages(va: nat)
    ensures PagesTouched(va, PGSIZE) == if va % PGSIZE == 0 then 1 else 2
    ensures PageDown(va) % PGSIZE == 0 && PageDown(va) / PGSIZE == va / PGSIZE
  {
  }

  /** The entry of the page behind, when the mapping straddles two: it leads to the frame behind n, which
      nobody gave the child. */
  lemma SecondEntry(entry: nat, va: nat, n: nat, perm: nat)
    requires KernelPage(n) && KernelPage(n + PGSIZE) && ValidPerm(perm) && va % PGSIZE != 0
    ensures PagesTouched(va, PGSIZE) == 2
    ensures var w := EntryAfter(entry, (va / PGSIZE + 1) % VPAGES, PageDown(va), n, perm, 2);
            PteValid(w) && PaToVa(PteToPa(w)) == n + PGSIZE
  {
    hide And;
    hide Or;
    hide KernelPage;
    hide EntryAfter;
    var was := PteFlags(entry);
    TwoPages(va);
    RangeEntries(entry, (va / PGSIZE + 1) % VPAGES, PageDown(va), n, perm, 2);
    assert ((va / PGSIZE + 1) % VPAGES - va / PGSIZE) % VPAGES == 1;
    FlagsTwice(entry);
    OrAssoc(PaToPte(n + PGSIZE), was, perm);
    FlagsOr(was, perm);
    LeafDecodes(n + PGSIZE, Or(was, perm));
    BackToPage(n + PGSIZE);
  }

  lemma BackToPage(n: nat)
    requires KernelPage(n)
    ensures PaToVa(n - DMW) == n
  {
    hide And;
    hide Or;
    PaToVaAdds(n - DMW);
  }

  /** Free pages that are enough for one round: the copy, and two tables for each page touched. */
  function RoundCost(m: Mapping): nat {
    if m.va + m.size == 0 then 1 else 1 + 2 * PagesTouched(m.va, m.size)
  }

  function CopyCost(maps: seq<Mapping>): nat {
    if maps == [] then 0 else CopyCost(maps[..|maps| - 1]) + RoundCost(maps[|maps| - 1])
  }

  lemma {:induction false} CostCat(a: seq<Mapping>, b: seq<Mapping>)
    ensures CopyCost(a + b) == CopyCost(a) + CopyCost(b)
    decreases |b|
  {
    if b == [] {
      assert a + b == a;
    } else {
      assert (a + b)[..|a + b| - 1] == a + b[..|b| - 1];
      CostCat(a, b[..|b| - 1]);
    }
  }

  lemma NoCost(maps: seq<Mapping>)
    ensures CopyCost(maps[..0]) == 0 && AllPages(maps, 0)
  {
  }

  lemma CostMore(maps: seq<Mapping>, k: nat)
    requires k < |maps|
    ensures CopyCost(maps[..k + 1]) == CopyCost(maps[..k]) + RoundCost(maps[k])
  {
    assert maps[..k + 1][..k] == maps[..k];
  }

  lemma {:induction false} CostGrows(maps: seq<Mapping>, k: nat)
    requires k <= |maps|
    ensures CopyCost(maps[..k]) <= CopyCost(maps)
    decreases |maps| - k
  {
    if k == |maps| {
      assert maps[..k] == maps;
    } else {
      CostMore(maps, k);
      CostGrows(maps, k + 1);
    }
  }

  /** The mapping the loop takes next. */
  lemma NextMapping(maps: seq<Mapping>, k: nat, list: seq<Mapping>)
    requires k <= |maps| && list == maps[k..] && list != []
    ensures k < |maps| && list[0] == maps[k] && [list[0]] + list[1..] == list && list[1..] == maps[k + 1..]
    ensures CopyCost(maps[..k + 1]) == CopyCost(maps[..k]) + RoundCost(maps[k]) && CopyCost(maps[..k + 1]) <= CopyCost(maps)
    ensures AllPages(maps, k + 1) <==> AllPages(maps, k) && PageMapping(maps[k])
  {
    hide RoundCost;
    hide PageMapping;
    CostMore(maps, k);
    CostGrows(maps, k + 1);
  }

  /** A mapping of the child for a mapping of the parent: same page, size and permission, and its frame is
      a page exactly when the mapping can be copied. */
  ghost predicate Mirrors(c: Mapping, m: Mapping) {
    c == m.(pa := c.pa, size := PGSIZE) && (KernelPage(c.pa) <==> PageMapping(m))
  }

  lemma MirrorIs(c: Mapping, m: Mapping, page: nat)
    requires Mirrors(c, m) && c.pa == page
    ensures c == Mapping(page, m.va, PGSIZE, m.perm)
  {
  }

  /** The process records after k rounds, whatever the mappings. */
  ghost predicate Listings(spaces0: Spaces, p: nat, np: nat, k: nat, spaces: Spaces) {
    && p in spaces0 && np in spaces0 && p != np && k <= |spaces0[p].maps| && spaces.Keys == spaces0.Keys
    && (forall id | id in spaces0 :: spaces[id].pgtbl == spaces0[id].pgtbl)
    && (forall id | id in spaces0 && id != p && id != np :: spaces[id] == spaces0[id])
    && spaces[p].maps == Reverse(spaces0[p].maps[..k]) && |spaces[np].maps| == k
    && (forall j | 0 <= j < k :: Mirrors(spaces[np].maps[j], spaces[p].maps[j]))
  }

  lemma NoListings(spaces0: Spaces, p: nat, np: nat, spaces: Spaces)
    requires p in spaces0 && np in spaces0 && p != np && spaces0[np].maps == []
    requires spaces == spaces0[p := spaces0[p].(maps := [])]
    ensures Listings(spaces0, p, np, 0, spaces)
  {
  }

  lemma MoreListings(spaces0: Spaces, p: nat, np: nat, k: nat, spaces1: Spaces, c: Mapping, spaces: Spaces)
    requires Listings(spaces0, p, np, k, spaces1) && k < |spaces0[p].maps|
    requires RoundDone(spaces1, p, np, spaces0[p].maps[k], c, spaces) && Mirrors(c, spaces0[p].maps[k])
    ensures Listings(spaces0, p, np, k + 1, spaces)
  {
    hide Mirrors;
    hide Reverse;
    var info := spaces0[p].maps[k];
    ReverseSnoc(spaces0[p].maps[..k], info);
    assert spaces0[p].maps[..k + 1] == spaces0[p].maps[..k] + [info];
    forall j | 0 <= j < k + 1 ensures Mirrors(spaces[np].maps[j], spaces[p].maps[j]) {
      if j > 0 {
        assert spaces[np].maps[j] == spaces1[np].maps[j - 1] && spaces[p].maps[j] == spaces1[p].maps[j - 1];
      }
    }
  }

  lemma RootsListed(spaces0: Spaces, p: nat, np: nat, k: nat, spaces: Spaces)
    requires Listings(spaces0, p, np, k, spaces)
    ensures p in spaces0 && p in spaces && np in spaces && spaces[p].pgtbl == spaces0[p].pgtbl
  {
  }

  lemma AllListings(spaces0: Spaces, p: nat, np: nat, spaces: Spaces)
    requires p in spaces0 && Listings(spaces0, p, np, |spaces0[p].maps|, spaces)
    ensures ForkedSpaces(spaces0, p, np, spaces) && multiset(spaces[p].maps) == multiset(spaces0[p].maps)
  {
    hide Reverse;
    assert spaces0[p].maps[..|spaces0[p].maps|] == spaces0[p].maps;
    ReverseSame(spaces0[p].maps);
  }

  /** One mapping that cannot be copied breaks the invariant. */
  lemma BrokenListing(mem: Memory, owner: Owners, spaces0: Spaces, p: nat, np: nat, spaces: Spaces, j: nat)
    requires p in spaces0 && Listings(spaces0, p, np, |spaces0[p].maps|, spaces)
    requires j < |spaces0[p].maps| && !PageMapping(spaces0[p].maps[j])
    ensures !Consistent(mem, owner, spaces)
  {
    hide Reverse;
    hide Consistent;
    hide KernelPage;
    hide PageMapping;
    var maps := spaces0[p].maps;
    assert maps[..|maps|] == maps;
    var i := |maps| - 1 - j;
    ReverseAt(maps, i);
    assert Mirrors(spaces[np].maps[i], spaces[p].maps[i]);
    if Consistent(mem, owner, spaces) {
      ListIsValid(mem, owner, spaces, np);
      assert false;
    }
  }

  /** One round, whatever its mapping, takes the loop's bookkeeping one mapping further. */
  lemma RoundListed(mem0: Memory, owner0: Owners, spaces0: Spaces, p: nat, np: nat, k: nat,
                    mem1: Memory, owner1: Owners, spaces1: Spaces, c: Mapping,
                    mem: Memory, owner: Owners, spaces: Spaces, own: Owners, alone: Spaces)
    requires OnlyGrows(np, mem0, owner0, mem1, owner1) && OnlyGrows(np, mem1, owner1, mem, owner)
    requires Listings(spaces0, p, np, k, spaces1) && p in spaces0 && k < |spaces0[p].maps|
    requires RoundDone(spaces1, p, np, spaces0[p].maps[k], c, spaces) && Mirrors(c, spaces0[p].maps[k])
    requires OwnView(owner1, p, own) && Alone(mem1, own, p, spaces0[p].pgtbl, alone)
    ensures OnlyGrows(np, mem0, owner0, mem, owner) && Listings(spaces0, p, np, k + 1, spaces)
    ensures p in spaces && np in spaces && spaces[p].pgtbl == spaces0[p].pgtbl
    ensures OwnView(owner, p, own) && Alone(mem, own, p, spaces0[p].pgtbl, alone)
  {
    hide OnlyGrows;
    hide OwnView;
    hide Alone;
    hide Mirrors;
    hide Reverse;
    MoreListings(spaces0, p, np, k, spaces1, c, spaces);
    RootsListed(spaces0, p, np, k + 1, spaces);
    AloneGrows(np, mem1, owner1, mem, owner, own, p, spaces0[p].pgtbl, alone);
    GrowsThenGrows(np, mem0, owner0, mem1, owner1, mem, owner);
  }

  /** How far copy_pagetable has got after k of p's mappings. */
  ghost predicate CopyState(mem0: Memory, owner0: Owners, spaces0: Spaces, p: nat, np: nat, k: nat,
                            mem: Memory, owner: Owners, spaces: Spaces) {
    && p in spaces0 && np in spaces0 && p != np && k <= |spaces0[p].maps|
    && OnlyGrows(np, mem0, owner0, mem, owner)
    && spaces.Keys == spaces0.Keys
    && (forall id | id in spaces0 :: spaces[id].pgtbl == spaces0[id].pgtbl)
    && (forall id | id in spaces0 && id != p && id != np :: spaces[id] == spaces0[id])
    && spaces[p].maps == Reverse(spaces0[p].maps[..k])
    && Copied(mem0, spaces0[p].pgtbl, spaces[p].maps, spaces[np].maps, mem)
  }

  /** The process records after a fork's copy: the parent's list is reversed, the child's mirrors it. */
  ghost predicate ForkedSpaces(spaces0: Spaces, p: nat, np: nat, spaces: Spaces) {
    && p in spaces0 && np in spaces0 && spaces.Keys == spaces0.Keys
    && (forall id | id in spaces0 :: spaces[id].pgtbl == spaces0[id].pgtbl)
    && (forall id | id in spaces0 && id != p && id != np :: spaces[id] == spaces0[id])
    && spaces[p].maps == Reverse(spaces0[p].maps)
    && |spaces[np].maps| == |spaces[p].maps|
    && (forall k | 0 <= k < |spaces[p].maps| ::
          spaces[np].maps[k] == spaces[p].maps[k].(pa := spaces[np].maps[k].pa, size := PGSIZE))
  }

  lemma StartCopy(mem: Memory, owner: Owners, spaces0: Spaces, p: nat, np: nat, spaces: Spaces)
    requires Consistent(mem, owner, spaces0) && p in spaces0 && np in spaces0 && p != np && spaces0[np].maps == []
    requires spaces == spaces0[p := spaces0[p].(maps := [])]
    ensures Joined(spaces, p, spaces0[p].maps, spaces0)
    ensures CopyState(mem, owner, spaces0, p, np, 0, mem, owner, spaces)
  {
    ConsistentKeys(mem, owner, spaces0);
    assert [] + spaces0[p].maps == spaces0[p].maps;
  }

  lemma CopyStep(mem0: Memory, owner0: Owners, spaces0: Spaces, p: nat, np: nat, k: nat,
                 mem1: Memory, owner1: Owners, spaces1: Spaces, rest: seq<Mapping>, view: Spaces, page: nat,
                 mem: Memory, owner: Owners, spaces: Spaces)
    requires Consistent(mem0, owner0, spaces0)
    requires CopyState(mem0, owner0, spaces0, p, np, k, mem1, owner1, spaces1) && k < |spaces0[p].maps|
    requires Consistent(mem1, owner1, view) && Joined(spaces1, p, [spaces0[p].maps[k]] + rest, view)
    requires OnlyGrows(np, mem1, owner1, mem, owner)
    requires var info := spaces0[p].maps[k];
             && RoundDone(spaces1, p, np, info, Mapping(page, info.va, PGSIZE, info.perm), spaces)
             && var f := FrameOf(mem1, view[p].pgtbl, Vpn(info.va));
                f in mem1 && f in owner1 && owner1[f] == Held(p) && page in mem && mem[page] == mem1[f]
    ensures CopyState(mem0, owner0, spaces0, p, np, k + 1, mem, owner, spaces)
  {
    hide Consistent;
    hide OnlyGrows;
    hide Copied;
    hide FrameOf;
    hide Vpn;
    hide Reverse;
    var info := spaces0[p].maps[k];
    CopiedMore(p, np, mem0, owner0, spaces0, spaces1[p].maps, spaces1[np].maps, mem1, owner1, view, info,
               Mapping(page, info.va, PGSIZE, info.perm), mem, owner);
    ReverseSnoc(spaces0[p].maps[..k], info);
    assert spaces0[p].maps[..k + 1] == spaces0[p].maps[..k] + [info];
  }

  lemma FinishCopy(mem0: Memory, owner0: Owners, spaces0: Spaces, p: nat, np: nat,
                   mem: Memory, owner: Owners, spaces: Spaces, view: Spaces)
    requires Consistent(mem0, owner0, spaces0) && p in spaces0 && Consistent(mem, owner, view) && Joined(spaces, p, [], view)
    requires CopyState(mem0, owner0, spaces0, p, np, |spaces0[p].maps|, mem, owner, spaces)
    ensures Consistent(mem, owner, spaces) && ForkedSpaces(spaces0, p, np, spaces)
    ensures SameView(mem, spaces[p].pgtbl, spaces[np].pgtbl)
  {
    hide Consistent;
    hide OnlyGrows;
    hide FrameOf;
    hide VByte;
    hide Leaf;
    hide Vpn;
    hide Reverse;
    assert spaces[p].maps + [] == spaces[p].maps;
    assert view == spaces;
    assert spaces0[p].maps[..|spaces0[p].maps|] == spaces0[p].maps;
    ForkedView(mem0, owner0, spaces0, p, np, mem, owner, spaces);
  }

  /** All is in order after the last round exactly when every mapping could be copied. */
  lemma CopySound(mem0: Memory, owner0: Owners, spaces0: Spaces, p: nat, np: nat,
                  mem: Memory, owner: Owners, spaces: Spaces, view: Spaces)
    requires Consistent(mem0, owner0, spaces0) && p in spaces0
    requires Listings(spaces0, p, np, |spaces0[p].maps|, spaces) && p in spaces && np in spaces
    requires AllPages(spaces0[p].maps, |spaces0[p].maps|) ==>
               && Consistent(mem, owner, view) && Joined(spaces, p, [], view)
               && CopyState(mem0, owner0, spaces0, p, np, |spaces0[p].maps|, mem, owner, spaces)
    ensures Consistent(mem, owner, spaces) <==> AllPages(spaces0[p].maps, |spaces0[p].maps|)
    ensures Consistent(mem, owner, spaces) ==> SameView(mem, spaces[p].pgtbl, spaces[np].pgtbl)
  {
    hide Consistent;
    hide Joined;
    hide CopyState;
    hide SameView;
    hide Listings;
    hide PageMapping;
    var all := spaces0[p].maps;
    if AllPages(all, |all|) {
      FinishCopy(mem0, owner0, spaces0, p, np, mem, owner, spaces, view);
    } else {
      var j :| 0 <= j < |all| && !PageMapping(all[j]);
      BrokenListing(mem, owner, spaces0, p, np, spaces, j);
    }
  }
}
