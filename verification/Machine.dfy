/** The page allocator, the page tables and the address spaces as the kernel runs them
    (mm/memblock.c, mm/n_vm.c). One object holds the kernel's globals. */
module Machine {
  import opened Bits
  import opened Sequences
  import opened Wrappers
  import opened Mmu
  import opened PageTable
  import opened AddressSpace
  import opened Teardown
  import opened VirtualMemory
  import opened Fork
  import opened UserStack

  /** The result of kernel code that may panic; a panic halts the machine. */
  datatype Outcome<+T> = Done(value: T) | Panic {
    predicate IsFailure() { Panic? }
    function PropagateFailure<U>(): Outcome<U>
      requires Panic?
    {
      Panic
    }
    function Extract(): T
      requires Done?
    {
      value
    }
  }

  class Kernel {
    var mem: Memory
    var freelist: nat
    var spaces: Spaces
    ghost var free: seq<nat>
    ghost var owner: Owners

    ghost predicate Heap()
      reads this
    {
      FreeOk(mem, owner, freelist, free)
    }

    ghost predicate Valid()
      reads this
    {
      Heap() && Consistent(mem, owner, spaces)
    }

    constructor ()
      ensures Valid() && mem == map[] && spaces == map[] && free == []
    {
      mem, freelist, spaces, free, owner := map[], 0, map[], [], map[];
    }

    /** kfree_page_memblock: push a page that is not free onto the free list. */
    method KfreePage(pa: nat)
      requires Heap() && KernelPage(pa)
      requires pa in mem ==> pa in owner && !owner[pa].Free?
      modifies this`mem, this`freelist, this`free, this`owner
      ensures Heap()
      ensures free == [pa] + old(free)
      ensures mem == old(mem)[pa := Link(old(freelist))] && owner == old(owner)[pa := Free]
    {
      hide FreeOk;
      PushFree(mem, owner, freelist, free, pa);
      mem := mem[pa := Link(freelist)];
      freelist := pa;
      owner := owner[pa := Free];
      free := [pa] + free;
    }

    /** kfree: panics on, and so never frees, a pointer that is not page-aligned. */
    method Kfree(pa: nat) returns (r: Outcome<()>)
      requires Heap() && (pa % PGSIZE == 0 ==> KernelPage(pa) && pa in owner && !owner[pa].Free?)
      modifies this`mem, this`freelist, this`free, this`owner
      ensures Heap()
      ensures r.Panic? <==> pa % PGSIZE != 0
      ensures r.Done? ==> free == [pa] + old(free) && mem == old(mem)[pa := Link(old(freelist))]
                          && owner == old(owner)[pa := Free]
    {
      if pa % PGSIZE == 0 {
        KfreePage(pa);
        r := Done(());
      } else {
        r := Panic;
      }
    }

    /** kalloc_page_memblock: pop a page, or panic when there is none. */
    method Kalloc() returns (r: Outcome<nat>)
      requires Heap()
      modifies this`mem, this`freelist, this`free, this`owner
      ensures Heap()
      ensures r.Panic? <==> old(free) == []
      ensures r.Panic? ==> mem == old(mem) && owner == old(owner) && free == old(free)
      ensures r.Done? ==>
                && r.value == old(free)[0] && free == old(free)[1..]
                && r.value in old(mem) && r.value in old(owner) && old(owner)[r.value].Free?
                && mem == old(mem)[r.value := JunkPage()]
                && owner == old(owner)[r.value := Other]
    {
      var p := freelist;
      if p == 0 {
        return Panic;
      }
      PopFree(mem, owner, freelist, free, JunkPage(), Other);
      hide FreeOk;
      freelist := mem[p].next;
      mem := mem[p := JunkPage()];
      owner := owner[p := Other];
      free := free[1..];
      r := Done(p);
    }

    /** freerange: hand every whole page inside [start, end) to the free list, lowest page first. */
    method Freerange(start: nat, end: nat)
      requires Heap()
      requires forall x | x in WholePages(start, end) :: KernelPage(x) && x !in mem
      modifies this`mem, this`freelist, this`free, this`owner
      ensures Heap()
      ensures free == WholePages(start, end) + old(free)
      ensures forall x | x in old(mem) :: x in mem && mem[x] == old(mem)[x]
      ensures mem.Keys == old(mem.Keys) + set x | x in WholePages(start, end)
    {
      hide FreeOk;
      hide KernelPage;
      hide PageUp;
      ghost var first := PageUp(start);
      ghost var n := 0;
      var p := PageUp(start);
      while p + PGSIZE <= end
        invariant p == first + n * PGSIZE && (n == 0 || p <= end)
        invariant Heap() && free == Downward(first, n) + old(free)
        invariant forall x | x in old(mem) :: x in mem && mem[x] == old(mem)[x]
        invariant mem.Keys == old(mem.Keys) + set x | x in Downward(first, n)
        decreases end - p
      {
        InWholePages(start, end, n);
        DownwardBelow(first, n);
        ghost var before := Downward(first, n);
        KfreePage(p);
        Regroup([p], before, old(free));
        p := p + PGSIZE;
        n := n + 1;
      }
      CountPages(first, end, n);
    }

    /** pgtbl_create and mlist_init: a new process starts with a zero root table and no mappings. */
    method CreateSpace(id: nat) returns (r: Outcome<()>)
      requires Valid() && id !in spaces
      modifies this
      ensures r.Panic? <==> old(free) == []
      ensures r.Done? ==>
                && Valid()
                && old(free) != [] && old(free)[0] in old(mem)
                && old(free)[0] in old(owner) && old(owner)[old(free)[0]].Free?
                && spaces == old(spaces)[id := Space(old(free)[0], [])]
                && free == old(free)[1..]
                && mem == old(mem)[old(free)[0] := ZeroTable()]
                && owner == old(owner)[old(free)[0] := Dir(id, 2, 0, 0)]
                && (forall vpn | 0 <= vpn < VPAGES :: Leaf(mem, spaces[id].pgtbl, vpn) == 0)
    {
      hide FreeOk;
      hide Consistent;
      var p :- Kalloc();
      ghost var mem1, owner1 := mem, owner;
      mem := mem[p := ZeroTable()];
      spaces := spaces[id := Space(p, [])];
      owner := owner[p := Dir(id, 2, 0, 0)];
      FreshRoot(old(mem), old(owner), old(spaces), id, p, mem1, owner1, mem, owner, spaces, freelist, free);
      r := Done(());
    }

    /** The allocation inside the walk: a zero page for empty entry `index` of table `iter`. */
    method NewTable(iter: nat, index: nat, ghost id: nat, ghost level: nat) returns (r: Outcome<()>)
      requires Heap() && TablesOk(mem, owner, spaces)
      requires iter in owner && owner[iter].Dir? && owner[iter].id == id && owner[iter].level == level > 0
      requires index < ENTRIES && TableAt(mem, iter) && mem[iter].pte[index] == 0
      modifies this`mem, this`freelist, this`free, this`owner
      ensures Heap()
      ensures r.Panic? <==> old(free) == []
      ensures r.Done? ==> free == old(free)[1..]
      ensures r.Done? ==> TablesOk(mem, owner, spaces) && OnlyTablesOf(id, old(mem), old(owner), mem, owner)
                          && SameSlots(spaces, old(mem), mem) && OneEntry(old(mem), old(owner), iter, index, mem)
    {
      hide FreeOk;
      hide TablesOk;
      hide SameSlots;
      hide OneEntry;
      hide OnlyTablesOf;
      var page :- Kalloc();
      ghost var mem1, owner1 := mem, owner;
      mem := mem[page := ZeroTable()];
      mem := mem[iter := Table(mem[iter].pte[index := page])];
      owner := owner[page := Dir(id, level - 1, iter, index)];
      GrowTable(old(mem), old(owner), spaces, id, iter, index, page, mem1, owner1, mem, owner, freelist, free);
      r := Done(());
    }

    /** __map_single_page: walk down from the root, creating missing tables, and write the leaf. */
    method MapSinglePage(pagetable: nat, va: nat, pa: nat, perm: nat, ghost id: nat) returns (r: Outcome<()>)
      requires Heap() && TablesOk(mem, owner, spaces)
      requires id in spaces && pagetable == spaces[id].pgtbl
      modifies this`mem, this`freelist, this`free, this`owner
      ensures Heap()
      ensures r.Panic? ==> |old(free)| < 2
      ensures r.Done? ==> |old(free)| - 2 <= |free|
      ensures r.Done? ==>
                && TablesOk(mem, owner, spaces) && OnlyTablesOf(id, old(mem), old(owner), mem, owner)
                && OneLeaf(spaces, old(mem), mem, id, Vpn(va),
                     Or(Or(PaToPte(pa), PteFlags(Leaf(old(mem), pagetable, Vpn(va)))), perm))
    {
      hide FreeOk;
      hide SameSlots;
      hide OneLeaf;
      hide OnlyTablesOf;
      hide TablesOk;
      hide DirOk;
      hide Px;
      hide And;
      hide Or;
      hide Leaf;
      StartMap(id, mem, owner, spaces);
      var iter := pagetable;
      var level := 2;
      while level >= 1
        invariant 0 <= level <= 2 && |old(free)| - (2 - level) <= |free|
        invariant Heap() && TablesOk(mem, owner, spaces) && OnlyTablesOf(id, old(mem), old(owner), mem, owner)
        invariant iter in owner && owner[iter].Dir? && owner[iter].id == id && owner[iter].level == level
        invariant pagetable in owner && owner[pagetable] == Dir(id, 2, 0, 0)
        invariant level == 2 ==> iter == pagetable
        invariant level == 1 ==> iter == Child(mem, pagetable, Px(2, va))
        invariant level == 0 ==> iter == Child(mem, Child(mem, pagetable, Px(2, va)), Px(1, va))
        invariant SameSlots(spaces, old(mem), mem)
      {
        ghost var mem0, owner0 := mem, owner;
        var index := Px(level, va);
        Descend(mem, owner, spaces, iter, index);
        var pte := mem[iter].pte[index];
        if pte == 0 {
          var _ :- NewTable(iter, index, id, level);
          AfterNewTable(id, old(mem), old(owner), mem0, owner0, mem, owner, spaces);
        }
        Descend(mem, owner, spaces, iter, index);
        StillChild(mem0, owner0, iter, index, mem, pagetable, Px(2, va), level);
        pte := mem[iter].pte[index];
        iter := pte;
        level := level - 1;
      }
      ghost var mem1 := mem;
      Descend(mem, owner, spaces, iter, Px(0, va));
      mem := mem[iter := Table(mem[iter].pte[Px(0, va) := Or(Or(PaToPte(pa), PteFlags(mem[iter].pte[Px(0, va)])), perm)])];
      FinishMap(old(mem), old(owner), mem1, owner, spaces, id, va, pa, perm, iter, mem, freelist, free);
      r := Done(());
    }

    /** va_to_pte_pointer without allocation: the table page and index of the leaf entry, or None.
        Each directory entry is masked to a physical address and turned back into a pointer. `own` and
        `view` say of whom the table is known to be in order. */
    method Walk(pagetable: nat, va: nat, ghost id: nat, ghost own: Owners, ghost view: Spaces) returns (found: bool, page: nat)
      requires TablesOk(mem, own, view)
      requires id in view && pagetable == view[id].pgtbl && va < MAXVA
      ensures found ==> TableAt(mem, page) && mem[page].pte[Px(0, va)] == Leaf(mem, pagetable, Vpn(va))
      ensures !found ==> Leaf(mem, pagetable, Vpn(va)) == 0
    {
      hide Leaf;
      hide Px;
      hide And;
      hide Or;
      LeafOfVa(mem, pagetable, va);
      ghost var i2, i1, i0 := Px(2, va), Px(1, va), Px(0, va);
      KernelPointerDecodes(pagetable);
      page := PaToVa(pagetable);
      var level := 2;
      while level > 0
        invariant 0 <= level <= 2
        invariant page in own && own[page].Dir? && own[page].id == id && own[page].level == level
        invariant level == 2 ==> page == pagetable
        invariant level == 1 ==> page == Child(mem, pagetable, i2)
        invariant level == 0 ==> page == Child(mem, Child(mem, pagetable, i2), i1)
      {
        assert DirOk(mem, own, view, page);
        var pte := mem[page].pte[Px(level, va)];
        if pte != 0 {
          KernelPointerDecodes(pte);
          page := PteToPa(pte);
          page := PaToVa(page);
        } else {
          assert 0 !in mem;
          return false, 0;
        }
        level := level - 1;
      }
      assert DirOk(mem, own, view, page);
      found := true;
    }

    /** va_to_pa: the physical address behind va, or 0 when va is not mapped. */
    method VaToPa(pagetable: nat, va: nat, ghost id: nat, ghost own: Owners, ghost view: Spaces) returns (pa: nat)
      requires TablesOk(mem, own, view)
      requires id in view && pagetable == view[id].pgtbl
      ensures pa == Translate(mem, pagetable, va)
    {
      var offset := va % PGSIZE;
      var va0 := va - offset;
      if va0 >= MAXVA {
        return 0;
      }
      assert Vpn(va0) == Vpn(va) && va < MAXVA;
      var found, page := Walk(pagetable, va0, id, own, view);
      if !found {
        assert !PteValid(0);
        return 0;
      }
      var pte := mem[page].pte[Px(0, va0)];
      if !PteValid(pte) {
        return 0;
      }
      pa := PteToPa(pte) + offset;
    }

    /** __map_single_page and __proc_add_mapping for a page the kernel holds: map it at va and
        put it on the front of the process's mapping list. */
    method MapFrame(id: nat, page: nat, va: nat, perm: nat) returns (r: Outcome<()>)
      requires Valid() && id in spaces && ValidPerm(perm)
      requires page in owner && owner[page].Other? && PageAt(mem, page)
      modifies this
      ensures r.Panic? ==> |old(free)| < 2
      ensures r.Done? ==> |old(free)| - 2 <= |free|
      ensures r.Done? ==>
                && Valid()
                && Pushed(old(spaces), id, [Mapping(page, va, PGSIZE, perm)], spaces)
                && KernelTake(id, page, old(mem), old(owner), mem, owner)
                && OneLeaf(old(spaces), old(mem), mem, id, Vpn(va),
                     Or(Or(PaToPte(page), PteFlags(Leaf(old(mem), old(spaces)[id].pgtbl, Vpn(va)))), perm))
    {
      hide FreeOk;
      hide Consistent;
      hide TablesOk;
      hide OneLeaf;
      hide OnlyTablesOf;
      hide Leaf;
      hide PageAt;
      TablesOf(mem, owner, spaces);
      var _ :- MapSinglePage(spaces[id].pgtbl, va, page, perm, id);
      ghost var owner2 := owner;
      spaces := spaces[id := spaces[id].(maps := [Mapping(page, va, PGSIZE, perm)] + spaces[id].maps)];
      owner := owner[page := Held(id)];
      AllocDone(old(mem), old(owner), old(spaces), id, Mapping(page, va, PGSIZE, perm), mem, owner2, owner, spaces, freelist, free);
      r := Done(());
    }

    /** One round of alloc_vm: a zero page, mapped at va and listed. */
    method AllocOne(id: nat, va: nat, perm: nat) returns (r: Outcome<nat>)
      requires Valid() && id in spaces && ValidPerm(perm)
      modifies this
      ensures r.Panic? ==> |old(free)| < 3
      ensures r.Done? ==> |old(free)| - 3 <= |free|
      ensures r.Done? ==>
                && Valid() && OnlyGrows(id, old(mem), old(owner), mem, owner)
                && Pushed(old(spaces), id, [Mapping(r.value, va, PGSIZE, perm)], spaces)
                && NewZero(r.value, old(owner), mem, owner, id)
                && OneLeaf(old(spaces), old(mem), mem, id, Vpn(va),
                     Or(Or(PaToPte(r.value), PteFlags(Leaf(old(mem), old(spaces)[id].pgtbl, Vpn(va)))), perm))
    {
      hide FreeOk;
      hide Consistent;
      hide OneLeaf;
      hide OnlyTablesOf;
      var page :- Kalloc();
      ghost var memJ, ownerJ := mem, owner;
      mem := mem[page := ZeroPage()];
      AllocRound(old(mem), old(owner), spaces, id, page, freelist, free, memJ, ownerJ, mem, ZeroPage());
      ghost var mem1 := mem;
      var _ :- MapFrame(id, page, va, perm);
      RoundGrows(id, page, ZeroPage(), old(mem), old(owner), mem1, ownerJ, mem, owner);
      RoundLeaf(id, page, old(mem), old(owner), old(spaces), mem1, mem, va, perm);
      r := Done(page);
    }

    /** alloc_vm: give process `id` a zero frame for every page from start up to end. Three free pages
        for each of them, one for itself and two for tables, are enough. */
    method AllocVm(id: nat, start: nat, end: nat, perm: nat) returns (r: Outcome<()>, ghost got: seq<nat>)
      requires Valid() && id in spaces && ValidPerm(perm)
      modifies this
      ensures r.Panic? ==> |old(free)| < 3 * PagesBetween(start, PageUp(end))
      ensures r.Done? ==> |old(free)| - 3 * PagesBetween(start, PageUp(end)) <= |free|
      ensures r.Done? ==> Valid() && |got| == PagesBetween(start, PageUp(end))
      ensures r.Done? ==> Granted(id, start, got, perm, old(mem), old(owner), old(spaces), mem, owner, spaces)
      ensures r.Done? ==> RangeLeaves(old(spaces), old(mem), mem, id, start, got, perm)
    {
      hide OneLeaf;
      hide RangeLeaves;
      hide Leaf;
      hide Or;
      hide And;
      hide FreeOk;
      hide Consistent;
      hide PageUp;
      hide PagesBetween;
      hide ValidPerm;
      hide Granted;
      hide OnlyGrows;
      hide Pushed;
      hide NewZero;
      GrantNothing(id, start, perm, mem, owner, spaces);
      LeavesNone(spaces, mem, id, start, perm);
      got := [];
      var last := PageUp(end);
      var caddr := start;
      while caddr < last
        invariant Valid() && id in spaces
        invariant Granted(id, start, got, perm, old(mem), old(owner), old(spaces), mem, owner, spaces)
        invariant RangeLeaves(old(spaces), old(mem), mem, id, start, got, perm)
        invariant caddr == start + |got| * PGSIZE && (|got| == 0 || caddr < last + PGSIZE)
        invariant |old(free)| - 3 * |got| <= |free|
        decreases last + PGSIZE - caddr
      {
        ghost var mem0, owner0, spaces0 := mem, owner, spaces;
        MoreSteps(start, last, |got|);
        var page :- AllocOne(id, caddr, perm);
        GrantRoots(id, start, got, perm, old(mem), old(owner), old(spaces), mem0, owner0, spaces0);
        LeavesMore(old(spaces), old(mem), mem0, spaces0, mem, id, start, got, page, perm);
        GrantMore(id, start, got, perm, old(mem), old(owner), old(spaces), mem0, owner0, spaces0, page, mem, owner, spaces);
        got := got + [page];
        caddr := caddr + PGSIZE;
      }
      CountSteps(start, last, |got|);
      r := Done(());
    }

    /** free_pagetable: free the tables below every non-zero entry, then the table itself. */
    method FreePagetable(pgtbl: nat, level: nat, ghost id: nat)
      requires Heap() && level <= 2 && Subtree(mem, owner, id, pgtbl, level)
      modifies this`mem, this`freelist, this`free, this`owner
      decreases level
      ensures Heap()
      ensures Released(ReachSet(old(mem), pgtbl, level), old(mem), old(owner), mem, owner)
    {
      hide Px;
      hide FreeOk;
      hide Reach;
      hide Subtree;
      TableIsPage(mem, owner, id, pgtbl, level, freelist, free);
      if level == 0 {
        BelowAll(mem, pgtbl, 0);
        ReleasedOne(pgtbl, freelist, mem, owner);
        var _ := Kfree(pgtbl);
        return;
      }
      BelowNone(mem, pgtbl, level);
      var i := 0;
      while i < ENTRIES
        invariant 0 <= i <= ENTRIES && Heap()
        invariant Released(BelowSet(old(mem), pgtbl, level, i), old(mem), old(owner), mem, owner)
      {
        NextIntact(old(mem), old(owner), mem, owner, id, pgtbl, level, i);
        BelowMore(old(mem), pgtbl, level, i);
        ghost var mem1, owner1 := mem, owner;
        var child := mem[pgtbl].pte[i];
        if child != 0 {
          FreePagetable(child, level - 1, id);
          ReleasedThen(BelowSet(old(mem), pgtbl, level, i), ReachSet(old(mem), child, level - 1),
                       old(mem), old(owner), mem1, owner1, mem, owner);
        }
        i := i + 1;
      }
      LastIntact(old(mem), old(owner), mem, owner, id, pgtbl, level);
      ghost var mem1, owner1 := mem, owner;
      ReleasedOne(pgtbl, freelist, mem, owner);
      var _ := Kfree(pgtbl);
      ReleasedThen(BelowSet(old(mem), pgtbl, level, ENTRIES), {pgtbl}, old(mem), old(owner), mem1, owner1, mem, owner);
      BelowAll(old(mem), pgtbl, level);
    }

    /** pgtbl_free: free every frame on the mapping list, then the page tables. Exactly the pages
        the process owns go back to the free list, each once. */
    method PgtblFree(id: nat)
      requires Valid() && id in spaces
      modifies this
      ensures Valid()
      ensures spaces == old(spaces) - {id}
      ensures Released(OwnedBy(old(owner), id), old(mem), old(owner), mem, owner)
    {
      hide FreeOk;
      hide Consistent;
      hide TablesOk;
      hide Released;
      hide Subtree;
      hide FramesIn;
      hide OwnedBy;
      hide ReachSet;
      hide KernelPage;
      hide Or;
      var list := spaces[id].maps;
      ghost var k := 0;
      NoneReleased(mem, owner, spaces, id);
      while list != []
        invariant Heap() && id in spaces && spaces == old(spaces)
        invariant k <= |spaces[id].maps| && list == spaces[id].maps[k..]
        invariant Released(FramesIn(spaces[id].maps[..k]), old(mem), old(owner), mem, owner)
        decreases |list|
      {
        ghost var mem1, owner1 := mem, owner;
        FreeNextFrame(old(mem), old(owner), spaces, id, k, mem, owner);
        var info := list[0];
        list := list[1..];
        var pa := PaToVa(info.pa);
        ReleasedKeys(FramesIn(spaces[id].maps[..k]), old(mem), old(owner), mem, owner);
        ReleasedOne(pa, freelist, mem, owner);
        var _ := Kfree(pa);
        ReleasedThen(FramesIn(spaces[id].maps[..k]), {pa}, old(mem), old(owner), mem1, owner1, mem, owner);
        k := k + 1;
      }
      assert spaces[id].maps[..k] == spaces[id].maps;
      FramesGone(old(mem), old(owner), spaces, id, mem, owner);
      ghost var mem1, owner1 := mem, owner;
      FreePagetable(spaces[id].pgtbl, 2, id);
      ReleasedThen(FramesIn(spaces[id].maps), ReachSet(mem1, spaces[id].pgtbl, 2), old(mem), old(owner), mem1, owner1, mem, owner);
      AfterRelease(old(mem), old(owner), spaces, id, mem, owner);
      spaces := spaces - {id};
    }

    /** memmove into a data page the kernel addresses directly; the bytes stay inside that page. */
    method StoreBytes(kva: nat, src: seq<byte>)
      requires PageAt(mem, PageDown(kva)) && kva % PGSIZE + |src| <= PGSIZE
      modifies this`mem
      ensures mem == old(mem)[PageDown(kva) := Page(Splice(old(mem)[PageDown(kva)].bytes, kva % PGSIZE, src))]
    {
      mem := mem[PageDown(kva) := Page(Splice(mem[PageDown(kva)].bytes, kva % PGSIZE, src))];
    }

    /** copy_to_va: write src at dstva, page by page. On -1 exactly the bytes before the first
        unmapped page have been written. */
    method CopyToVa(pagetable: nat, dstva: nat, src: seq<byte>, ghost id: nat) returns (r: int, ghost n: nat)
      requires Valid() && id in spaces && pagetable == spaces[id].pgtbl
      modifies this`mem
      ensures Valid() && Written(spaces, id, owner, dstva, src, n, old(mem), mem)
      ensures r == 0 || r == -1
      ensures r == 0 <==> n == |src|
      ensures r == -1 ==> VByte(mem, pagetable, dstva + n) == None
    {
      hide DirOk;
      hide FreeOk;
      hide Consistent;
      hide TablesOk;
      hide Written;
      hide VByte;
      hide FrameOf;
      hide Translate;
      hide Mapped;
      hide PaToVa;
      hide Vpn;
      var dst, len := dstva, |src|;
      var at := 0;
      n := 0;
      NothingWritten(mem, owner, spaces, id, dstva, src);
      while len > 0
        invariant 0 <= len && at == n && n + len == |src| && (len > 0 ==> dst == dstva + n)
        invariant Valid() && Written(spaces, id, owner, dstva, src, n, old(mem), mem)
      {
        var va0 := PageDown(dst);
        TablesOf(mem, owner, spaces);
        var pa0 := VaToPa(pagetable, va0, id, owner, spaces);
        TranslateMeans(mem, owner, spaces, id, dst);
        if pa0 == 0 {
          return -1, n;
        }
        var m := PGSIZE - (dst - va0);
        if m > len { m := len; }
        ghost var mem1 := mem;
        InPage(FrameOf(mem, pagetable, Vpn(dst)), dst % PGSIZE);
        StoreBytes(PaToVa(pa0 + (dst - va0)), src[at..at + m]);
        WroteChunk(old(mem), mem1, owner, spaces, id, dstva, src, n, m, mem, freelist, free);
        len := len - m;
        at := at + m;
        n := at;
        dst := va0 + PGSIZE;
      }
      r := 0;
    }

    /** copy_from_va: read len bytes at srcva, page by page. On -1 exactly the bytes before the
        first unmapped page have been read. */
    method CopyFromVa(pagetable: nat, srcva: nat, len: nat, ghost id: nat, ghost own: Owners, ghost view: Spaces) returns (r: int, out: seq<byte>)
      requires Consistent(mem, own, view) && id in view && pagetable == view[id].pgtbl
      ensures |out| <= len && ReadsAs(mem, pagetable, srcva, out)
      ensures r == 0 || r == -1
      ensures r == 0 <==> |out| == len
      ensures r == -1 ==> VByte(mem, pagetable, srcva + |out|) == None
    {
      hide FreeOk;
      hide Consistent;
      hide TablesOk;
      hide ReadsAs;
      hide VByte;
      hide FrameOf;
      hide Translate;
      hide Mapped;
      hide PaToVa;
      hide Vpn;
      var src, left := srcva, len;
      out := [];
      ReadsNothing(mem, pagetable, srcva);
      while left > 0
        invariant 0 <= left && |out| + left == len && (left > 0 ==> src == srcva + |out|)
        invariant ReadsAs(mem, pagetable, srcva, out)
      {
        var va0 := PageDown(src);
        TablesOf(mem, own, view);
        var pa0 := VaToPa(pagetable, va0, id, own, view);
        TranslateMeans(mem, own, view, id, src);
        if pa0 == 0 {
          return -1, out;
        }
        var m := PGSIZE - (src - va0);
        if m > left { m := left; }
        InPage(FrameOf(mem, pagetable, Vpn(src)), src % PGSIZE);
        ReadInPage(mem, own, view, id, src, m);
        var kva := PaToVa(pa0 + (src - va0));
        var chunk := mem[PageDown(kva)].bytes[kva % PGSIZE..kva % PGSIZE + m];
        ReadsMore(mem, pagetable, srcva, out, chunk);
        left := left - m;
        out := out + chunk;
        src := va0 + PGSIZE;
      }
      r := 0;
    }

    /** The byte loop of copy_from_va_str inside one page: stop after the first NUL among n bytes. */
    method TakeUntilNul(kva: nat, n: nat) returns (bytes: seq<byte>, gotNull: bool)
      requires PageAt(mem, PageDown(kva)) && kva % PGSIZE + n <= PGSIZE
      ensures |bytes| <= n && bytes == mem[PageDown(kva)].bytes[kva % PGSIZE..kva % PGSIZE + n][..|bytes|]
      ensures if gotNull then |bytes| > 0 && bytes[|bytes| - 1] == 0 && 0 !in bytes[..|bytes| - 1]
              else |bytes| == n && 0 !in bytes
    {
      ghost var chunk := mem[PageDown(kva)].bytes[kva % PGSIZE..kva % PGSIZE + n];
      bytes, gotNull := [], false;
      while |bytes| < n
        invariant |bytes| <= n && bytes == chunk[..|bytes|] && 0 !in bytes
      {
        var c := mem[PageDown(kva)].bytes[kva % PGSIZE + |bytes|];
        assert chunk[..|bytes| + 1] == chunk[..|bytes|] + [c];
        if c == 0 {
          assert (bytes + [0])[..|bytes|] == bytes;
          return bytes + [0], true;
        }
        bytes := bytes + [c];
      }
    }

    /** copy_from_va_str: read bytes up to and including a NUL, at most max of them. */
    method CopyFromVaStr(pagetable: nat, srcva: nat, max: nat, ghost id: nat) returns (r: int, out: seq<byte>)
      requires Valid() && id in spaces && pagetable == spaces[id].pgtbl
      ensures r == 0 || r == -1
      ensures r == 0 <==> StringWithin(mem, pagetable, srcva, max)
      ensures |out| <= max && ReadsAs(mem, pagetable, srcva, out)
      ensures if r == 0 then |out| > 0 && out[|out| - 1] == 0 && 0 !in out[..|out| - 1] else 0 !in out
    {
      hide FreeOk;
      hide Consistent;
      hide TablesOk;
      hide ReadsAs;
      hide StringWithin;
      hide VByte;
      hide FrameOf;
      hide Translate;
      hide Mapped;
      hide PaToVa;
      hide Vpn;
      var gotNull, src, left := false, srcva, max;
      out := [];
      ReadsNothing(mem, pagetable, srcva);
      while !gotNull && left > 0
        invariant 0 <= left
        invariant ReadsAs(mem, pagetable, srcva, out)
        invariant !gotNull ==> |out| + left == max && 0 !in out && (left > 0 ==> src == srcva + |out|)
        invariant gotNull ==> 0 < |out| <= max && out[|out| - 1] == 0 && 0 !in out[..|out| - 1]
        decreases if gotNull then 0 else 1, left
      {
        var va0 := PageDown(src);
        TablesOf(mem, owner, spaces);
        var pa0 := VaToPa(pagetable, va0, id, owner, spaces);
        TranslateMeans(mem, owner, spaces, id, src);
        if pa0 == 0 {
          NoString(mem, pagetable, srcva, max, out);
          return -1, out;
        }
        var n := PGSIZE - (src - va0);
        if n > left { n := left; }
        InPage(FrameOf(mem, pagetable, Vpn(src)), src % PGSIZE);
        ReadInPage(mem, owner, spaces, id, src, n);
        var kva := PaToVa(pa0 + (src - va0));
        ghost var chunk := mem[PageDown(kva)].bytes[kva % PGSIZE..kva % PGSIZE + n];
        var bytes;
        bytes, gotNull := TakeUntilNul(kva, n);
        ReadsPrefix(mem, pagetable, src, chunk, |bytes|);
        ReadsMore(mem, pagetable, srcva, out, bytes);
        assert gotNull ==> (out + bytes)[..|out + bytes| - 1] == out + bytes[..|bytes| - 1];
        out := out + bytes;
        left := if gotNull then left else left - n;
        src := va0 + PGSIZE;
      }
      if gotNull {
        assert out == out[..|out| - 1] + [0];
        StringFound(mem, pagetable, srcva, max, out[..|out| - 1]);
        r := 0;
      } else {
        NoString(mem, pagetable, srcva, max, out);
        r := -1;
      }
    }

    /** __map_pages: every page that the range touches, to as many pages from pa on. */
    method MapPages(pagetable: nat, va: nat, size: nat, pa: nat, perm: nat, ghost id: nat) returns (r: Outcome<()>)
      requires Heap() && TablesOk(mem, owner, spaces)
      requires id in spaces && pagetable == spaces[id].pgtbl && va + size > 0
      modifies this`mem, this`freelist, this`free, this`owner
      ensures Heap()
      ensures r.Panic? ==> |old(free)| < 2 * PagesTouched(va, size)
      ensures r.Done? ==> |old(free)| - 2 * PagesTouched(va, size) <= |free|
      ensures r.Done? ==>
                && TablesOk(mem, owner, spaces) && OnlyTablesOf(id, old(mem), old(owner), mem, owner)
                && RangeMapped(spaces, old(mem), mem, id, PageDown(va), PageDown(pa), perm, PagesTouched(va, size))
    {
      hide FreeOk;
      hide TablesOk;
      hide OnlyTablesOf;
      hide OneLeaf;
      hide RangeMapped;
      hide Leaf;
      hide And;
      hide Or;
      hide Vpn;
      var vaEnd := PageDown(va + size - 1);
      var paMap := PageDown(pa);
      var vac := PageDown(va);
      ghost var n := 0;
      RangeNone(spaces, mem, id, vac, paMap, perm);
      TablesSame(id, mem, owner, spaces);
      while vac <= vaEnd
        invariant Heap() && TablesOk(mem, owner, spaces) && OnlyTablesOf(id, old(mem), old(owner), mem, owner)
        invariant vac == PageDown(va) + n * PGSIZE && paMap == PageDown(pa) + n * PGSIZE && n <= PagesTouched(va, size)
        invariant |old(free)| - 2 * n <= |free|
        invariant RangeMapped(spaces, old(mem), mem, id, PageDown(va), PageDown(pa), perm, n)
        decreases vaEnd + PGSIZE - vac
      {
        ghost var mem1, owner1 := mem, owner;
        var _ :- MapSinglePage(pagetable, vac, paMap, perm, id);
        TablesThenTables(id, old(mem), old(owner), mem1, owner1, mem, owner);
        RangeMore(spaces, old(mem), mem1, mem, id, PageDown(va), PageDown(pa), perm, n, vac, paMap);
        paMap := paMap + PGSIZE;
        vac := vac + PGSIZE;
        n := n + 1;
      }
      r := Done(());
    }

    /** The first half of a round of copy_pagetable: a page of the kernel's gets what can be read of the
        parent at the mapping's address. If all was in order and the mapping is one whole page, that is a
        copy of the parent's frame. */
    method CopyPage(p: nat, info: Mapping, ghost rest: seq<Mapping>, ghost view: Spaces,
                    ghost own: Owners, ghost alone: Spaces, ghost good: bool) returns (r: Outcome<nat>)
      requires Heap() && TablesOk(mem, owner, spaces) && p in spaces
      requires OwnView(owner, p, own) && Alone(mem, own, p, spaces[p].pgtbl, alone)
      requires good ==> Consistent(mem, owner, view) && Joined(spaces, p, [info] + rest, view)
      modifies this`mem, this`freelist, this`free, this`owner
      ensures Heap() && (r.Panic? <==> old(free) == [])
      ensures r.Done? ==>
                && free == old(free)[1..] && r.value in old(owner) && old(owner)[r.value].Free? && r.value in mem
                && mem == old(mem)[r.value := mem[r.value]] && owner == old(owner)[r.value := Other]
                && TablesOk(mem, owner, spaces) && PageAt(mem, r.value)
                && KernelPage(r.value) && r.value % PGSIZE == 0 && old(owner).Keys == old(mem).Keys
      ensures r.Done? && good && PageMapping(info) ==>
                && Consistent(mem, owner, view)
                && var f := FrameOf(old(mem), view[p].pgtbl, Vpn(info.va));
                   f in old(mem) && f in old(owner) && old(owner)[f] == Held(p) && mem[r.value] == old(mem)[f]
    {
      hide FreeOk;
      hide Consistent;
      hide Alone;
      hide TablesOk;
      hide ReadsAs;
      hide VByte;
      hide FrameOf;
      hide Leaf;
      hide Vpn;
      hide PageMapping;
      hide KernelPage;
      var newMem :- Kalloc();
      ghost var memJ, owner1 := mem, owner;
      mem := mem[newMem := ZeroPage()];
      ghost var mem1 := mem;
      FilledPage(old(mem), old(owner), spaces, newMem, memJ, owner1, ZeroPage(), mem, freelist, free);
      AloneFrame(old(mem), own, p, spaces[p].pgtbl, alone, mem);
      AloneMeans(mem, own, p, spaces[p].pgtbl, alone);
      var _, out := CopyFromVa(spaces[p].pgtbl, info.va, PGSIZE, p, own, alone);
      mem := mem[newMem := Page(Splice(ZeroPage().bytes, 0, out))];
      Overwrite(memJ, newMem, ZeroPage(), Page(Splice(ZeroPage().bytes, 0, out)));
      FilledPage(old(mem), old(owner), spaces, newMem, memJ, owner1, Page(Splice(ZeroPage().bytes, 0, out)), mem, freelist, free);
      if good && PageMapping(info) {
        SoundCopy(old(mem), old(owner), view, p, info, rest, spaces, newMem, memJ, owner1, mem1, out, mem, freelist, free);
      }
      r := Done(newMem);
    }

    /** One round of copy_pagetable, for any mapping `info` of the parent: it goes back on the parent's
        list, and a page of the child's own gets what can be read at its address and is mapped there. The
        child's list gets that page exactly when the mapping is one whole page (PageMapping). Then, if all
        was in order before, it still is, and the page is a copy. */
    method CopyRound(p: nat, np: nat, info: Mapping, ghost rest: seq<Mapping>, ghost view: Spaces,
                     ghost own: Owners, ghost alone: Spaces, ghost good: bool)
      returns (r: Outcome<()>, ghost page: nat, ghost c: Mapping, ghost view': Spaces)
      requires Heap() && TablesOk(mem, owner, spaces)
      requires p != np && p in spaces && np in spaces && info.size == PGSIZE && ValidPerm(info.perm)
      requires OwnView(owner, p, own) && Alone(mem, own, p, spaces[p].pgtbl, alone)
      requires good ==> Consistent(mem, owner, view) && Joined(spaces, p, [info] + rest, view)
      modifies this
      ensures r.Panic? ==> |old(free)| < RoundCost(info)
      ensures r.Done? ==> |old(free)| - RoundCost(info) <= |free|
      ensures r.Done? ==>
                && Heap() && TablesOk(mem, owner, spaces) && OnlyGrows(np, old(mem), old(owner), mem, owner)
                && RoundDone(old(spaces), p, np, info, c, spaces) && Mirrors(c, info)
                && page in old(owner) && old(owner)[page].Free? && page in owner && owner[page] == Held(np) && page in mem
                && (c.pa == page <==> PageMapping(info))
                && RangeMapped(old(spaces), old(mem)[page := mem[page]], mem, np, PageDown(info.va), page, info.perm,
                               PagesTouched(info.va, PGSIZE))
      ensures r.Done? && good && PageMapping(info) ==>
                && Consistent(mem, owner, view') && Joined(spaces, p, rest, view')
                && var f := FrameOf(old(mem), view[p].pgtbl, Vpn(info.va));
                   f in old(mem) && f in old(owner) && old(owner)[f] == Held(p) && mem[page] == old(mem)[f]
    {
      hide FreeOk;
      hide Consistent;
      hide Alone;
      hide OwnView;
      hide TablesOk;
      hide OnlyTablesOf;
      hide FrameOf;
      hide Leaf;
      hide ValidPerm;
      hide KernelTake;
      hide OnlyGrows;
      hide Translate;
      hide Vpn;
      hide RangeMapped;
      hide PageMapping;
      hide KernelPage;
      hide PaToVa;
      page, c, view' := 0, info, view;
      var newMem :- CopyPage(p, info, rest, view, own, alone, good);
      page := newMem;
      ghost var mem2, owner1 := mem, owner;
      var _ :- MapPages(spaces[np].pgtbl, info.va, info.size, newMem, info.perm, np);
      AlignedDown(newMem);
      var pa0 := VaToPa(spaces[np].pgtbl, info.va, np, owner, spaces);
      var pa := PaToVa(pa0);
      RecordedFrame(spaces, mem2, mem, np, info, newMem, pa0);
      ghost var owner3, spaces3 := owner, spaces;
      spaces := spaces[p := spaces[p].(maps := [Mapping(info.pa, info.va, PGSIZE, info.perm)] + spaces[p].maps)];
      spaces := spaces[np := spaces[np].(maps := [Mapping(pa, info.va, PGSIZE, info.perm)] + spaces[np].maps)];
      owner := owner[newMem := Held(np)];
      c := Mapping(pa, info.va, PGSIZE, info.perm);
      RoundOver(mem2, owner1, spaces3, np, newMem, mem, owner3, owner, spaces, freelist, free);
      if good && PageMapping(info) {
        view' := SoundFinish(mem2, owner1, view, p, np, info, rest, newMem, pa0, mem, owner3, spaces3, owner, spaces,
                             freelist, free);
      }
      RoundGrows(np, newMem, mem2[newMem], old(mem), old(owner), mem2, owner1, mem, owner);
      r := Done(());
    }

    /** copy_pagetable: give np, whose list is empty, a copy of every page of p. Whatever p has mapped, its
        own view and its mappings stay, and np's list mirrors p's. All is in order afterwards exactly when
        every mapping of p is one whole page; then both see the same bytes and flags everywhere. */
    method CopyPagetable(p: nat, np: nat) returns (r: Outcome<()>)
      requires Valid() && p in spaces && np in spaces && p != np && spaces[np].maps == []
      requires forall k | 0 <= k < |spaces[p].maps| :: spaces[p].maps[k].size == PGSIZE
      modifies this
      ensures r.Panic? ==> |old(free)| < CopyCost(old(spaces)[p].maps)
      ensures r.Done? ==> |old(free)| - CopyCost(old(spaces)[p].maps) <= |free|
      ensures r.Done? ==>
                && Heap() && TablesOk(mem, owner, spaces) && OnlyGrows(np, old(mem), old(owner), mem, owner)
                && ForkedSpaces(old(spaces), p, np, spaces) && multiset(spaces[p].maps) == multiset(old(spaces)[p].maps)
                && (forall a: nat :: VByte(mem, spaces[p].pgtbl, a) == VByte(old(mem), spaces[p].pgtbl, a))
      ensures r.Done? ==> (Valid() <==> AllPages(old(spaces)[p].maps, |old(spaces)[p].maps|))
      ensures r.Done? && Valid() ==> SameView(mem, spaces[p].pgtbl, spaces[np].pgtbl)
    {
      hide Reverse;
      hide PagesTouched;
      hide PageDown;
      hide PageAt;
      hide FreeOk;
      hide Consistent;
      hide Alone;
      hide OwnView;
      hide Joined;
      hide Copied;
      hide CopyState;
      hide Listings;
      hide ForkedSpaces;
      hide SameView;
      hide PageMapping;
      hide AllPages;
      hide KernelPage;
      hide TablesOk;
      hide OnlyGrows;
      hide RoundDone;
      hide Mirrors;
      hide RangeMapped;
      hide RoundCost;
      hide CopyCost;
      hide FrameOf;
      hide ValidPerm;
      hide Vpn;
      hide VByte;
      hide Leaf;
      var oldList := spaces[p].maps;
      ghost var k, view, good := 0, spaces, true;
      ghost var mem0, owner0, spaces0, n0, all := mem, owner, spaces, |free|, spaces[p].maps;
      ListIsValid(mem, owner, spaces, p);
      ghost var own, alone := StandAlone(mem, owner, spaces, p);
      TablesOf(mem, owner, spaces);
      spaces := spaces[p := spaces[p].(maps := [])];
      StartCopy(mem, owner, view, p, np, spaces);
      SameRoots(mem, owner, view, p, all, spaces);
      NoListings(spaces0, p, np, spaces);
      GrowsRefl(np, mem, owner);
      NoCost(all);
      while oldList != []
        invariant k <= |all| && oldList == all[k..]
        invariant Heap() && TablesOk(mem, owner, spaces) && OnlyGrows(np, mem0, owner0, mem, owner)
        invariant Listings(spaces0, p, np, k, spaces) && p in spaces && np in spaces && spaces[p].pgtbl == spaces0[p].pgtbl
        invariant OwnView(owner, p, own) && Alone(mem, own, p, spaces[p].pgtbl, alone)
        invariant good <==> AllPages(all, k)
        invariant good ==> Consistent(mem, owner, view) && Joined(spaces, p, oldList, view)
        invariant good ==> CopyState(mem0, owner0, spaces0, p, np, k, mem, owner, spaces)
        invariant n0 - CopyCost(all[..k]) <= |free|
        decreases |oldList|
      {
        ghost var mem1, owner1, spaces1, view1 := mem, owner, spaces, view;
        NextMapping(all, k, oldList);
        var info := oldList[0];
        oldList := oldList[1..];
        ghost var page, c;
        var _, pg, cc, vw :- CopyRound(p, np, info, oldList, view, own, alone, good);
        page, c, view := pg, cc, vw;
        RoundListed(mem0, owner0, spaces0, p, np, k, mem1, owner1, spaces1, c, mem, owner, spaces, own, alone);
        if good && PageMapping(info) {
          MirrorIs(c, info, page);
          CopyStep(mem0, owner0, spaces0, p, np, k, mem1, owner1, spaces1, oldList, view1, page, mem, owner, spaces);
        }
        good := good && PageMapping(info);
        k := k + 1;
      }
      assert all[..k] == all;
      AllListings(spaces0, p, np, spaces);
      ParentKept(mem0, owner0, spaces0, p, np, mem, owner);
      CopySound(mem0, owner0, spaces0, p, np, mem, owner, spaces, view);
      r := Done(());
    }

    /** A copy_to_va of exec, whose result it does not look at. Inside the stack it goes through. */
    method Poke(id: nat, addr: nat, src: seq<byte>, ghost st: seq<byte>) returns (ghost st': seq<byte>)
      requires Valid() && id in spaces && StackIs(mem, spaces[id].pgtbl, st)
      modifies this`mem
      ensures Valid() && OnlyFramesOf(id, old(mem), owner, mem)
      ensures |st| == STACK_SIZE && StackIs(mem, spaces[id].pgtbl, st')
      ensures STACK_BOTTOM <= addr && addr + |src| <= STACK_TOP ==> st' == Splice(st, addr - STACK_BOTTOM, src)
    {
      hide FreeOk;
      hide Consistent;
      hide OnlyFramesOf;
      hide Written;
      hide VByte;
      hide StackIs;
      var r, n := CopyToVa(spaces[id].pgtbl, addr, src, id);
      st' := Poked(spaces, id, owner, addr, src, n, st, old(mem), mem);
    }

    /** The argument loop of exec: for each string a pointer in the vector and its bytes on the heap
        of strings that grows from the bottom of the stack. They are laid out as meant when all strings fit. */
    method ExecArgs(id: nat, argv: seq<seq<byte>>, ghost envp: seq<seq<byte>>, ghost st0: seq<byte>)
      returns (argc: nat, bp: nat, ghost st: seq<byte>)
      requires Valid() && id in spaces && StackIs(mem, spaces[id].pgtbl, st0)
      modifies this`mem
      ensures Valid() && OnlyFramesOf(id, old(mem), owner, mem) && StackIs(mem, spaces[id].pgtbl, st)
      ensures argc == Min(|argv|, ARGS_MAX) && bp == STACK_BOTTOM + Room(argv, argc)
      ensures Fits(argv, envp) ==> Strings(st, argv, envp, argc, 0)
    {
      hide FreeOk;
      hide Consistent;
      hide OnlyFramesOf;
      hide StackIs;
      hide Strings;
      hide WordBytes;
      hide Room;
      st, argc, bp := st0, 0, STACK_BOTTOM;
      var ustack := STACK_TOP - CONTEXT_SIZE - USTACK_SIZE;
      StartStack(id, mem, owner, spaces, st, argv, envp);
      while argc < ARGS_MAX && argc < |argv|
        invariant argc <= |argv| && argc <= ARGS_MAX && bp == STACK_BOTTOM + Room(argv, argc)
        invariant Valid() && OnlyFramesOf(id, old(mem), owner, mem)
        invariant StackIs(mem, spaces[id].pgtbl, st)
        invariant Fits(argv, envp) ==> Strings(st, argv, envp, argc, 0)
      {
        ghost var mem0, st1 := mem, st;
        RoomStep(argv, argc);
        if Fits(argv, envp) { ArgRoom(argv, envp, argc); }
        st := Poke(id, ustack + 8 * (argc + 1), WordBytes(bp, 8), st);
        ghost var mem1 := mem;
        st := Poke(id, bp, argv[argc] + [0], st);
        if Fits(argv, envp) { ArgStep(st1, argv, envp, argc, st); }
        FramesThenThen(id, owner, old(mem), mem0, mem1, mem);
        bp := bp + |argv[argc]| + 1;
        argc := argc + 1;
      }
    }

    /** The environment loop of exec, after all arguments. */
    method ExecEnvs(id: nat, ghost argv: seq<seq<byte>>, envp: seq<seq<byte>>, argc: nat, bp0: nat, ghost st0: seq<byte>)
      returns (envc: nat, ghost st: seq<byte>)
      requires Valid() && id in spaces && StackIs(mem, spaces[id].pgtbl, st0)
      requires argc == |argv| <= ARGS_MAX && bp0 == STACK_BOTTOM + Room(argv, argc)
      requires Fits(argv, envp) ==> Strings(st0, argv, envp, argc, 0)
      modifies this`mem
      ensures Valid() && OnlyFramesOf(id, old(mem), owner, mem) && StackIs(mem, spaces[id].pgtbl, st)
      ensures envc == Min(|envp|, ENVS_MAX) && (Fits(argv, envp) ==> Strings(st, argv, envp, argc, envc))
    {
      hide FreeOk;
      hide Consistent;
      hide OnlyFramesOf;
      hide StackIs;
      hide Strings;
      hide WordBytes;
      hide Room;
      st, envc := st0, 0;
      var bp := bp0;
      var ustack := STACK_TOP - CONTEXT_SIZE - USTACK_SIZE;
      NoRoom(envp);
      StartLast(id, mem, owner, spaces, st);
      while envc < ENVS_MAX && envc < |envp|
        invariant envc <= |envp| && envc <= ENVS_MAX && bp == STACK_BOTTOM + Room(argv, argc) + Room(envp, envc)
        invariant Valid() && OnlyFramesOf(id, old(mem), owner, mem)
        invariant StackIs(mem, spaces[id].pgtbl, st)
        invariant Fits(argv, envp) ==> Strings(st, argv, envp, argc, envc)
      {
        ghost var mem0, st1 := mem, st;
        RoomStep(envp, envc);
        if Fits(argv, envp) { EnvRoom(argv, envp, envc); }
        st := Poke(id, ustack + 8 * (argc + 2 + envc), WordBytes(bp, 8), st);
        ghost var mem1 := mem;
        st := Poke(id, bp, envp[envc] + [0], st);
        if Fits(argv, envp) { EnvStep(st1, argv, envp, argc, envc, st); }
        FramesThenThen(id, owner, old(mem), mem0, mem1, mem);
        bp := bp + |envp[envc]| + 1;
        envc := envc + 1;
      }
    }

    /** The part of exec that fills the stack: strings from the bottom up, then the argument and
        environment vectors, the saved context and the trapframe at the top. Whatever the strings, only frames of the process
        are written and the registers stand; the strings decode when they fit below the trapframe. */
    method ExecStack(id: nat, argv: seq<seq<byte>>, envp: seq<seq<byte>>, entry: nat, helper: nat, ghost st0: seq<byte>)
      returns (r: Outcome<()>, ghost st: seq<byte>)
      requires Valid() && id in spaces && StackIs(mem, spaces[id].pgtbl, st0)
      requires entry < WORD_LIMIT && helper < WORD_LIMIT
      requires forall k | 0 <= k < |argv| :: CString(argv[k])
      requires forall k | 0 <= k < |envp| :: CString(envp[k])
      modifies this`mem
      ensures Valid() && OnlyFramesOf(id, old(mem), owner, mem)
      ensures r.Panic? <==> |argv| > ARGS_MAX || |envp| > ENVS_MAX
      ensures r.Done? ==> StackIs(mem, spaces[id].pgtbl, st) && Registers(st, |argv|, entry, helper)
      ensures r.Done? && Fits(argv, envp) ==> StackImage(st, argv, envp, entry, helper)
    {
      hide FreeOk;
      hide Consistent;
      hide OnlyFramesOf;
      hide StackIs;
      hide StackImage;
      hide Registers;
      hide Fits;
      hide Strings;
      hide Stored;
      hide Room;
      hide CString;
      var argc, bp;
      argc, bp, st := ExecArgs(id, argv, envp, st0);
      if argc < |argv| {
        return Panic, st;
      }
      ghost var mem1 := mem;
      var envc;
      envc, st := ExecEnvs(id, argv, envp, argc, bp, st);
      FramesThen(id, owner, old(mem), mem1, mem);
      if envc < |envp| {
        return Panic, st;
      }
      ghost var mem2, st2 := mem, st;
      StackSize(mem, spaces[id].pgtbl, st);
      st := PokeLast(id, argc, envc, entry, helper, st);
      FramesThen(id, owner, old(mem), mem2, mem);
      RegistersDone(st2, argc, envc, entry, helper);
      if Fits(argv, envp) {
        AllRoom(argv, envp);
        ImageDone(st2, argv, envp, entry, helper);
      }
      r := Done(());
    }

    /** exec after the program is loaded: allocate the stack, find the kernel's own pointer to the
        saved context in its top page, and fill the stack. */
    method Exec(id: nat, argv: seq<seq<byte>>, envp: seq<seq<byte>>, entry: nat, helper: nat)
      returns (r: Outcome<nat>, ghost st: seq<byte>)
      requires Valid() && id in spaces
      requires entry < WORD_LIMIT && helper < WORD_LIMIT
      requires forall k | 0 <= k < |argv| :: CString(argv[k])
      requires forall k | 0 <= k < |envp| :: CString(envp[k])
      modifies this
      ensures r.Panic? ==> |old(free)| < 3 * (STACK_SIZE / PGSIZE) || |argv| > ARGS_MAX || |envp| > ENVS_MAX
      ensures r.Done? ==>
                && Valid() && id in spaces && |argv| <= ARGS_MAX && |envp| <= ENVS_MAX
                && StackIs(mem, spaces[id].pgtbl, st) && Registers(st, |argv|, entry, helper)
                && (Fits(argv, envp) ==> StackImage(st, argv, envp, entry, helper))
                && ContextAlias(mem, spaces[id].pgtbl, r.value)
                && Usable(mem, spaces[id].pgtbl, STACK_BOTTOM, STACK_TOP)
      ensures r.Done? ==>
                && OnlyOwn(id, old(mem), old(owner), mem, owner) && OthersKept(id, old(mem), old(spaces), mem)
                && spaces == old(spaces)[id := spaces[id]] && spaces[id].pgtbl == old(spaces)[id].pgtbl
                && |old(free)| - 3 * (STACK_SIZE / PGSIZE) <= |free|
                && (AllPages(old(spaces)[id].maps, |old(spaces)[id].maps|) ==> AllPages(spaces[id].maps, |spaces[id].maps|))
    {
      hide OnlyOwn;
      hide OthersKept;
      hide AllPages;
      hide Usable;
      hide RangeLeaves;
      hide FreeOk;
      hide Consistent;
      hide TablesOk;
      hide OnlyFramesOf;
      hide StackIs;
      hide StackImage;
      hide Registers;
      hide Fits;
      hide Granted;
      hide Translate;
      hide Room;
      hide CString;
      hide ContextAlias;
      hide FrameOf;
      hide Vpn;
      hide And;
      hide Or;
      UserPermValid();
      ghost var mem0, owner0, spaces0 := mem, owner, spaces;
      st := [];
      StackPages();
      var _, got :- AllocVm(id, STACK_BOTTOM, STACK_TOP, USER_PERM);
      st := StackMapped(id, got, mem0, owner0, spaces0, mem, owner, spaces);
      StackListed(id, got, mem0, owner0, spaces0, mem, owner, spaces);
      TablesOf(mem, owner, spaces);
      var pa := VaToPa(spaces[id].pgtbl, STACK_TOP - PGSIZE, id, owner, spaces);
      PastTopPage(id, mem, owner, spaces, pa, st);
      ghost var mem1 := mem;
      var newPage := PaToVa(pa + PGSIZE);
      var context := newPage - CONTEXT_SIZE;
      var done, s := ExecStack(id, argv, envp, entry, helper, st);
      if done.Panic? {
        return Panic, st;
      }
      SameFrames(id, mem1, owner, spaces, mem, Vpn(STACK_TOP - PGSIZE));
      ContextPointer(id, mem, owner, spaces, s, context);
      StackUsable(id, got, mem0, owner0, spaces0, mem1, owner, spaces, mem);
      ExecIsOwn(id, got, mem0, owner0, spaces0, mem1, owner, spaces, mem);
      st := s;
      r := Done(context);
    }

    /** The final words of the stack, in the order exec stores them. */
    method PokeLast(id: nat, argc: nat, envc: nat, entry: nat, helper: nat, ghost st0: seq<byte>) returns (ghost st: seq<byte>)
      requires Valid() && id in spaces && StackIs(mem, spaces[id].pgtbl, st0)
      requires argc <= ARGS_MAX && envc <= ENVS_MAX && |st0| == STACK_SIZE
      modifies this`mem
      ensures Valid() && OnlyFramesOf(id, old(mem), owner, mem)
      ensures StackIs(mem, spaces[id].pgtbl, st)
      ensures (forall k | 0 <= k < 8 :: LastWords(argc, envc, entry, helper)[k].at + 8 <= |st0|)
              && st == Stored(st0, LastWords(argc, envc, entry, helper))
    {
      hide FreeOk;
      hide Consistent;
      hide OnlyFramesOf;
      hide StackIs;
      hide Stored;
      hide WordBytes;
      st := st0;
      var ws := LastWords(argc, envc, entry, helper);
      var k := 0;
      StartLast(id, mem, owner, spaces, st);
      while k < |ws|
        invariant 0 <= k <= |ws|
        invariant Valid() && OnlyFramesOf(id, old(mem), owner, mem)
        invariant StackIs(mem, spaces[id].pgtbl, st) && st == Stored(st0, ws[..k])
      {
        ghost var mem0 := mem;
        assert ws[..k + 1] == ws[..k] + [ws[k]];
        StoredMore(st0, ws[..k], ws[k]);
        st := Poke(id, STACK_BOTTOM + ws[k].at, WordBytes(ws[k].word, 8), st);
        FramesThen(id, owner, old(mem), mem0, mem);
        k := k + 1;
      }
      assert ws[..k] == ws;
    }

    /** The memory side of fork: copy the address space, then make the child return 0 from its
        trapframe and start from its saved context. Returns the kernel's pointer to that context. */
    method ForkImage(p: nat, np: nat, trapframe: nat, helper: nat) returns (r: Outcome<int>)
      requires Valid() && p in spaces && np in spaces && p != np && spaces[np].maps == []
      requires forall k | 0 <= k < |spaces[p].maps| :: PageMapping(spaces[p].maps[k])
      modifies this
      ensures r.Panic? ==> |old(free)| < CopyCost(old(spaces)[p].maps)
      ensures r.Done? ==>
                && Valid() && ForkedSpaces(old(spaces), p, np, spaces)
                && var context := STACK_TOP - CONTEXT_SIZE;
                   var parent, child := spaces[p].pgtbl, spaces[np].pgtbl;
                   && (forall a: nat :: VByte(mem, parent, a) == VByte(old(mem), parent, a))
                   && ForkedImage(mem, parent, child, trapframe, context)
                   && ForkWords(mem, child, trapframe, context, helper,
                                MappedRange(old(mem), parent, context, CONTEXT_SIZE),
                                MappedRange(old(mem), parent, trapframe + TRAPFRAME_A0, 8))
                   && (MappedRange(old(mem), parent, context, CONTEXT_SIZE) ==>
                         r.value == FrameOf(mem, child, Vpn(STACK_TOP - PGSIZE)) + PGSIZE - CONTEXT_SIZE)
      ensures r.Done? ==>
                && OnlyOwn(np, old(mem), old(owner), mem, owner) && OthersKept(np, old(mem), old(spaces), mem)
                && |old(free)| - CopyCost(old(spaces)[p].maps) <= |free|
    {
      hide OnlyOwn;
      hide OthersKept;
      hide FreeOk;
      hide Consistent;
      hide TablesOk;
      hide OnlyFramesOf;
      hide OnlyGrows;
      hide Written;
      hide VByte;
      hide Translate;
      hide FrameOf;
      hide ForkedImage;
      hide ForkWords;
      hide ReadsAs;
      hide WordBytes;
      hide Vpn;
      hide And;
      hide Or;
      ghost var mem0, owner0, spaces0 := mem, owner, spaces;
      var _ :- CopyPagetable(p, np);
      ForkRoots(mem0, owner0, spaces0, p, np, mem, owner, spaces);
      ghost var m0 := mem;
      var context := STACK_TOP - CONTEXT_SIZE;
      TablesOf(mem, owner, spaces);
      var newPage := VaToPa(spaces[np].pgtbl, STACK_TOP - PGSIZE, np, owner, spaces);
      var npContext := PaToVa(newPage + PGSIZE) - CONTEXT_SIZE;
      var r1, n1 := CopyToVa(spaces[np].pgtbl, trapframe + TRAPFRAME_A0, WordBytes(0, 8), np);
      ghost var m1 := mem;
      var r2, n2 := CopyToVa(spaces[np].pgtbl, context + CONTEXT_SP, WordBytes(trapframe, 8), np);
      ghost var m2 := mem;
      var r3, n3 := CopyToVa(spaces[np].pgtbl, context + CONTEXT_RA, WordBytes(helper, 8), np);
      FinishFork(mem0, spaces, p, np, owner, trapframe, helper, n1, n2, n3, m0, m1, m2, mem, newPage);
      ForkIsOwn(np, mem0, owner0, spaces0, m0, owner, m1, m2, mem, spaces, n1, n2, n3, trapframe + TRAPFRAME_A0,
                context + CONTEXT_SP, context + CONTEXT_RA, WordBytes(0, 8), WordBytes(trapframe, 8), WordBytes(helper, 8));
      r := Done(npContext);
    }
  }

  /** Starting the kernel: a fresh machine, and the memory from start to end handed to its allocator. */
  method Boot(start: nat, end: nat) returns (k: Kernel)
    requires forall x | x in WholePages(start, end) :: KernelPage(x)
    ensures fresh(k) && k.Valid() && k.spaces == map[] && k.free == WholePages(start, end)
  {
    hide KernelPage;
    hide WholePages;
    k := new Kernel();
    k.Freerange(start, end);
    assert WholePages(start, end) + [] == WholePages(start, end);
    AllFree(k.mem, k.owner, k.freelist, k.free);
  }

  /** With every page free and no process, all is in order. */
  lemma AllFree(mem: Memory, owner: Owners, freelist: nat, free: seq<nat>)
    requires FreeOk(mem, owner, freelist, free) && mem.Keys == set x | x in free
    ensures Consistent(mem, owner, map[])
  {
    hide KernelPage;
    hide At;
    forall x | x in owner ensures owner[x].Free? {
      assert x in free;
      var i :| 0 <= i < |free| && free[i] == x;
    }
  }

  /** How many page-sized steps lead from start past end. */
  function PagesBetween(start: nat, end: nat): nat {
    if end <= start then 0 else (end - start + PGSIZE - 1) / PGSIZE
  }

  lemma NoneListed(start: nat, perm: nat)
    ensures Listed(start, [], perm) == []
  {
  }

  /** An aligned range below MAXVA lists mappings that fork can copy. */
  lemma PagesListed(start: nat, end: nat, got: seq<nat>, maps: seq<Mapping>)
    requires start % PGSIZE == 0 && end % PGSIZE == 0 && end <= MAXVA && |got| == PagesBetween(start, end)
    requires AllPages(maps, |maps|)
    ensures var all := Listed(start, got, USER_PERM) + maps; AllPages(all, |all|)
  {
    hide Listed;
    var all := Listed(start, got, USER_PERM) + maps;
    if got != [] { ListedAt(start, got, USER_PERM, 0); } else { NoneListed(start, USER_PERM); }
    forall k | 0 <= k < |all| ensures PageMapping(all[k]) {
      if k < |got| {
        var i := |got| - 1 - k;
        ListedAt(start, got, USER_PERM, i);
        assert all[k] == Mapping(got[i], start + i * PGSIZE, PGSIZE, USER_PERM);
        assert start + i * PGSIZE < end;
      } else {
        assert all[k] == maps[k - |got|];
      }
    }
  }

  /** The steps of alloc_vm: the k-th is taken exactly when it begins before the last page ends. */
  lemma StepsMean(start: nat, end: nat, k: nat)
    ensures k < PagesBetween(start, PageUp(end)) <==> exists a: nat :: start + k * 16384 <= a && a / 16384 * 16384 < end
  {
    var n := PagesBetween(start, PageUp(end));
    var up := (end + 16383) / 16384;
    assert PageUp(end) == up * 16384;
    Steps(start, up * 16384, k);
    if start + k * 16384 < up * 16384 {
      var a := start + k * 16384;
      assert a / 16384 < up;
      assert a / 16384 * 16384 < end;
    }
    if a: nat :| start + k * 16384 <= a && a / 16384 * 16384 < end {
      assert a / 16384 < up;
    }
  }

  lemma Steps(start: nat, stop: nat, k: nat)
    ensures k < PagesBetween(start, stop) <==> start + k * 16384 < stop
  {
  }

  lemma RangeCovers(start: nat, end: nat, a: nat)
    requires start <= a < end
    ensures start / PGSIZE <= a / PGSIZE < start / PGSIZE + PagesBetween(start, PageUp(end))
  {
    var up := (end + PGSIZE - 1) / PGSIZE;
    assert PageUp(end) == up * PGSIZE && a < up * PGSIZE;
    assert a / PGSIZE < up;
    assert PagesBetween(start, PageUp(end)) == (up * PGSIZE - start + PGSIZE - 1) / PGSIZE;
    assert start == start / PGSIZE * PGSIZE + start % PGSIZE;
  }

  /** Every page of the range has the bits of a user page. */
  ghost predicate Usable(mem: Memory, root: nat, lo: nat, hi: nat) {
    forall a: nat | lo <= a < hi :: UserBits(Leaf(mem, root, Vpn(a)))
  }

  lemma FewPages(start: nat, end: nat)
    requires end <= MAXVA
    ensures PagesBetween(start, PageUp(end)) <= VPAGES
  {
  }

  /** A byte of a range just granted is zero, in a page the user can write, whatever was mapped there before. */
  lemma FreshByte(id: nat, start: nat, end: nat, got: seq<nat>, m0: Memory, o0: Owners, s0: Spaces,
                  m1: Memory, o1: Owners, s1: Spaces, a: nat)
    requires Consistent(m1, o1, s1) && Granted(id, start, got, USER_PERM, m0, o0, s0, m1, o1, s1)
    requires RangeLeaves(s0, m0, m1, id, start, got, USER_PERM)
    requires |got| == PagesBetween(start, PageUp(end)) && end <= MAXVA && start <= a < end
    ensures id in s1 && UserBits(Leaf(m1, s1[id].pgtbl, Vpn(a))) && VByte(m1, s1[id].pgtbl, a) == Some(0)
  {
    hide SpaceOk;
    hide DirOk;
    hide OnlyGrows;
    hide Listed;
    hide Leaf;
    hide KernelPage;
    hide PagesBetween;
    hide PageUp;
    hide PteValid;
    hide PteToPa;
    hide PaToVa;
    hide UserBits;
    hide LeafAfter;
    hide Or;
    RangeCovers(start, end, a);
    FewPages(start, end);
    UserPermValid();
    UserPermBits();
    var k := a / PGSIZE - start / PGSIZE;
    SamePlace(start, k, a);
    assert NewZero(got[k], o0, m1, o1, id);
    LeafLeads(Leaf(m0, s0[id].pgtbl, Vpn(a)), start, got, USER_PERM, k);
  }

  lemma SamePlace(start: nat, k: nat, a: nat)
    requires a / PGSIZE == start / PGSIZE + k
    ensures Vpn(start + k * PGSIZE) == Vpn(a)
  {
    assert (start + k * PGSIZE) / PGSIZE == start / PGSIZE + k;
  }

  lemma UserPermBits()
    ensures UserBits(USER_PERM)
  {
  }

  /** The stack stays usable while frames are written. */
  lemma StackUsable(id: nat, got: seq<nat>, m0: Memory, o0: Owners, s0: Spaces, m1: Memory, o1: Owners, s1: Spaces, m2: Memory)
    requires Consistent(m1, o1, s1) && Granted(id, STACK_BOTTOM, got, USER_PERM, m0, o0, s0, m1, o1, s1)
    requires RangeLeaves(s0, m0, m1, id, STACK_BOTTOM, got, USER_PERM) && OnlyFramesOf(id, m1, o1, m2)
    requires |got| == PagesBetween(STACK_BOTTOM, PageUp(STACK_TOP))
    ensures id in s1 && Usable(m2, s1[id].pgtbl, STACK_BOTTOM, STACK_TOP)
  {
    hide Consistent;
    hide Granted;
    hide RangeLeaves;
    hide OnlyFramesOf;
    hide Leaf;
    hide PagesBetween;
    hide PageUp;
    hide UserBits;
    FreshByte(id, STACK_BOTTOM, STACK_TOP, got, m0, o0, s0, m1, o1, s1, STACK_BOTTOM);
    FramesOnly(m1, o1, s1, id, m2);
    forall a: nat | STACK_BOTTOM <= a < STACK_TOP ensures UserBits(Leaf(m2, s1[id].pgtbl, Vpn(a))) {
      FreshByte(id, STACK_BOTTOM, STACK_TOP, got, m0, o0, s0, m1, o1, s1, a);
    }
  }

  lemma StackListed(id: nat, got: seq<nat>, mem0: Memory, owner0: Owners, spaces0: Spaces, mem: Memory, owner: Owners, spaces: Spaces)
    requires Granted(id, STACK_BOTTOM, got, USER_PERM, mem0, owner0, spaces0, mem, owner, spaces)
    requires |got| == PagesBetween(STACK_BOTTOM, PageUp(STACK_TOP))
    ensures id in spaces0 && id in spaces
    ensures AllPages(spaces0[id].maps, |spaces0[id].maps|) ==> AllPages(spaces[id].maps, |spaces[id].maps|)
  {
    hide OnlyGrows;
    hide AllZero;
    hide Listed;
    hide AllPages;
    if AllPages(spaces0[id].maps, |spaces0[id].maps|) {
      PagesListed(STACK_BOTTOM, PageUp(STACK_TOP), got, spaces0[id].maps);
    }
  }

  /** The pages [first, first + n * PGSIZE), highest first. */
  function Downward(first: nat, n: nat): seq<nat> {
    if n == 0 then [] else [first + (n - 1) * PGSIZE] + Downward(first, n - 1)
  }

  /** The whole pages inside [start, end), highest first. */
  function WholePages(start: nat, end: nat): seq<nat> {
    Downward(PageUp(start), if end < PageUp(start) then 0 else (end - PageUp(start)) / PGSIZE)
  }

  lemma {:induction false} InDownward(first: nat, n: nat, x: nat)
    ensures x in Downward(first, n) <==> first <= x < first + n * PGSIZE && (x - first) % PGSIZE == 0
  {
    if n > 0 {
      InDownward(first, n - 1, x);
      assert x in Downward(first, n) <==> x == first + (n - 1) * PGSIZE || x in Downward(first, n - 1);
    }
  }

  /** WholePages lists exactly the page-aligned addresses whose page lies inside the range. */
  lemma WholePagesExact(start: nat, end: nat, x: nat)
    ensures x in WholePages(start, end) <==> x % PGSIZE == 0 && start <= x && x + PGSIZE <= end
  {
    var first := PageUp(start);
    InDownward(first, if end < first then 0 else (end - first) / PGSIZE, x);
  }

  lemma InWholePages(start: nat, end: nat, n: nat)
    requires PageUp(start) + (n + 1) * PGSIZE <= end
    ensures PageUp(start) + n * PGSIZE in WholePages(start, end)
  {
    WholePagesExact(start, end, PageUp(start) + n * PGSIZE);
  }

  lemma DownwardBelow(first: nat, n: nat)
    ensures first + n * PGSIZE !in Downward(first, n)
  {
    InDownward(first, n, first + n * PGSIZE);
  }

  lemma StackPages()
    ensures PagesBetween(STACK_BOTTOM, PageUp(STACK_TOP)) == STACK_SIZE / PGSIZE
  {
  }

  lemma MoreSteps(start: nat, end: nat, n: nat)
    requires start + n * PGSIZE < end
    ensures n < PagesBetween(start, end)
  {
  }

  lemma CountSteps(start: nat, end: nat, n: nat)
    requires start + n * PGSIZE >= end && (n == 0 || start + n * PGSIZE < end + PGSIZE)
    ensures n == PagesBetween(start, end)
  {
  }

  lemma CountPages(first: nat, end: nat, n: nat)
    requires n == 0 || first + n * PGSIZE <= end
    requires end < first + (n + 1) * PGSIZE
    ensures n == if end < first then 0 else (end - first) / PGSIZE
  {
  }
}
