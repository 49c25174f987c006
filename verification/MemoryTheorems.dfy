/** What the page-memory invariants mean for a caller: translation after mapping, ownership of every
    page, and copying through page tables. */
module MemoryTheorems {
  import opened Bits
  import opened Wrappers
  import opened Mmu
  import opened PageTable
  import opened AddressSpace
  import opened Teardown
  import opened VirtualMemory
  import opened Fork

  /** After mapping va to the frame at kernel pointer pa, addresses in va's page translate into that
      frame, every other address of every process translates as before, and the leaf's flags are
      the old ones and the new ones together. */
  lemma MapRefines(mem: Memory, spaces: Spaces, id: nat, va: nat, pa: nat, perm: nat, mem': Memory, id': nat, a: nat)
    requires id in spaces && id' in spaces && KernelPage(pa) && ValidPerm(perm)
    requires OneLeaf(spaces, mem, mem', id, Vpn(va),
               Or(Or(PaToPte(pa), PteFlags(Leaf(mem, spaces[id].pgtbl, Vpn(va)))), perm))
    ensures Translate(mem', spaces[id'].pgtbl, a)
            == if id' == id && a < MAXVA && Vpn(a) == Vpn(va) then pa - DMW + a % PGSIZE
               else Translate(mem, spaces[id'].pgtbl, a)
    ensures PteFlags(Leaf(mem', spaces[id].pgtbl, Vpn(va))) == Or(PteFlags(Leaf(mem, spaces[id].pgtbl, Vpn(va))), perm)
  {
    hide Leaf;
    hide And;
    hide Or;
    hide KernelPage;
    hide Vpn;
    var was := PteFlags(Leaf(mem, spaces[id].pgtbl, Vpn(va)));
    AndAssoc(Leaf(mem, spaces[id].pgtbl, Vpn(va)), FLAG_MASK, FLAG_MASK);
    AndIdem(FLAG_MASK);
    OrAssoc(PaToPte(pa), was, perm);
    FlagsOr(was, perm);
    LeafDecodes(pa, Or(was, perm));
  }

  // Copying a mapping that is not page-aligned.

  /** The frames behind the pages a copied mapping touches, in a child whose page for it is n: they are all
      n exactly when the mapping is aligned. Otherwise the second page leads to the frame behind n, which
      the child was never given. */
  lemma CopyOwnFrame(spaces: Spaces, mem: Memory, mem': Memory, np: nat, va: nat, perm: nat, n: nat)
    requires np in spaces && KernelPage(n) && KernelPage(n + PGSIZE) && ValidPerm(perm)
    requires RangeMapped(spaces, mem, mem', np, PageDown(va), n, perm, PagesTouched(va, PGSIZE))
    ensures va % PGSIZE == 0 <==>
              forall page | va / PGSIZE <= page < va / PGSIZE + PagesTouched(va, PGSIZE) ::
                FrameAt(mem', spaces[np].pgtbl, page) == n
    ensures va % PGSIZE != 0 ==> FrameAt(mem', spaces[np].pgtbl, va / PGSIZE + 1) == n + PGSIZE
  {
    hide Leaf;
    hide And;
    hide Or;
    hide KernelPage;
    hide EntryAfter;
    hide PagesTouched;
    hide PteValid;
    hide PteFlags;
    hide PteToPa;
    hide PaToVa;
    hide ValidPerm;
    var root := spaces[np].pgtbl;
    TwoPages(va);
    LowEntry(Leaf(mem, root, va / PGSIZE % VPAGES), va, n, perm);
    assert FrameAt(mem', root, va / PGSIZE) == n;
    if va % PGSIZE != 0 {
      SecondEntry(Leaf(mem, root, (va / PGSIZE + 1) % VPAGES), va, n, perm);
      assert FrameAt(mem', root, va / PGSIZE + 1) == n + PGSIZE;
    }
  }

  /** The frame behind a page, pages numbered without wrap-around. */
  ghost function FrameAt(mem: Memory, root: nat, page: nat): nat {
    FrameOf(mem, root, page % VPAGES)
  }

  lemma LowEntry(entry: nat, va: nat, n: nat, perm: nat)
    requires KernelPage(n) && ValidPerm(perm)
    ensures var w := EntryAfter(entry, va / PGSIZE % VPAGES, PageDown(va), n, perm, PagesTouched(va, PGSIZE));
            PaToVa(PteToPa(w)) == n
  {
    hide And;
    hide Or;
    hide KernelPage;
    hide EntryAfter;
    var was := PteFlags(entry);
    TwoPages(va);
    RangeEntries(entry, va / PGSIZE % VPAGES, PageDown(va), n, perm, PagesTouched(va, PGSIZE));
    assert (va / PGSIZE % VPAGES - va / PGSIZE) % VPAGES == 0;
    FlagsTwice(entry);
    OrAssoc(PaToPte(n), was, perm);
    FlagsOr(was, perm);
    LeafDecodes(n, Or(was, perm));
    BackToPage(n);
  }

  /** Where elf_loader starts a segment: its address rounded down to the larger of a page and p_align. */
  function SegmentStart(vaddr: nat, align: nat): nat {
    var size := if PGSIZE > align then PGSIZE else align;
    vaddr / size * size
  }

  /** Its segments start on pages whatever their addresses exactly when p_align is at most a page or a
      multiple of one; the ELF file says what it is. */
  lemma SegmentsAligned(align: nat)
    ensures (forall vaddr: nat :: SegmentStart(vaddr, align) % PGSIZE == 0) <==> align <= PGSIZE || align % PGSIZE == 0
  {
    var size := if PGSIZE > align then PGSIZE else align;
    if size % PGSIZE == 0 {
      forall vaddr: nat ensures SegmentStart(vaddr, align) % PGSIZE == 0 {
        Multiples(vaddr / size, size / PGSIZE);
        assert size == size / PGSIZE * PGSIZE;
      }
    } else {
      assert size / size * size == size;
      assert SegmentStart(size, align) == size;
    }
  }

  lemma Multiples(a: nat, b: nat)
    ensures a * (b * PGSIZE) % PGSIZE == 0
  {
    assert a * (b * PGSIZE) == (a * b) * PGSIZE;
  }

  /** Two addresses below MAXVA share a page number exactly when they lie in the same page. */
  lemma SamePageNumber(a: nat, b: nat)
    requires a < MAXVA && b < MAXVA
    ensures Vpn(a) == Vpn(b) <==> PageDown(a) == PageDown(b)
    ensures Vpn(a) == Vpn(b) <==> Px(2, a) == Px(2, b) && Px(1, a) == Px(1, b) && Px(0, a) == Px(0, b)
  {
    hide Px;
    hide Vpn;
    hide PageDown;
    PxSplit(a);
    PxSplit(b);
    PageDownVpn(a);
    PageDownVpn(b);
  }

  lemma PageDownVpn(a: nat)
    requires a < MAXVA
    ensures PageDown(a) == Vpn(a) * PGSIZE
  {
  }

  ghost function KernelHeld(owner: Owners): set<nat> {
    set x | x in owner && owner[x].Other?
  }

  function Elements(s: seq<nat>): set<nat> {
    set x | x in s
  }

  lemma {:induction false} DistinctCount(s: seq<nat>)
    requires forall i, j | 0 <= i < j < |s| :: s[i] != s[j]
    ensures |Elements(s)| == |s|
  {
    if s != [] {
      var n := |s| - 1;
      DistinctCount(s[..n]);
      assert s == s[..n] + [s[n]];
      assert Elements(s) == Elements(s[..n]) + {s[n]};
    }
  }

  lemma FrameCount(maps: seq<Mapping>)
    requires forall i, j | 0 <= i < j < |maps| :: maps[i].pa != maps[j].pa
    ensures |FramesIn(maps)| == |maps|
  {
    var pas := seq(|maps|, i requires 0 <= i < |maps| => maps[i].pa);
    DistinctCount(pas);
    forall x ensures x in FramesIn(maps) <==> x in pas {
      if x in FramesIn(maps) {
        var k :| 0 <= k < |maps| && maps[k].pa == x;
        assert pas[k] == x;
      }
    }
    assert FramesIn(maps) == Elements(pas);
  }

  /** Every managed page is in exactly one of these places. */
  ghost predicate Partition(all: set<nat>, onList: set<nat>, kernel: set<nat>, owner: Owners, ids: set<nat>) {
    && onList !! kernel
    && (forall id | id in ids :: onList !! OwnedBy(owner, id) && kernel !! OwnedBy(owner, id))
    && (forall id, id' | id in ids && id' in ids && id != id' :: OwnedBy(owner, id) !! OwnedBy(owner, id'))
    && (forall x | x in all :: x in onList || x in kernel || exists id | id in ids :: x in OwnedBy(owner, id))
    && onList <= all && kernel <= all && forall id | id in ids :: OwnedBy(owner, id) <= all
  }

  /** Every managed page is on the free list (once), with the kernel, in one process's page-table
      tree, or on one process's mapping list (once). */
  lemma PagesPartition(mem: Memory, owner: Owners, spaces: Spaces, freelist: nat, free: seq<nat>)
    requires FreeOk(mem, owner, freelist, free) && Consistent(mem, owner, spaces)
    ensures Partition(mem.Keys, Elements(free), KernelHeld(owner), owner, spaces.Keys)
    ensures |Elements(free)| == |free|
    ensures forall id | id in spaces ::
              var tables, frames := ReachSet(mem, spaces[id].pgtbl, 2), FramesIn(spaces[id].maps);
              OwnedBy(owner, id) == tables + frames && tables !! frames && |frames| == |spaces[id].maps|
  {
    hide FreeOk;
    hide Consistent;
    hide ReachSet;
    hide FramesIn;
    hide OwnedBy;
    hide Partition;
    FreeExactly(mem, owner, freelist, free);
    OwnerSpaces(mem, owner, spaces);
    OwnersPartition(owner, Elements(free), spaces.Keys);
    forall id | id in spaces
      ensures var tables, frames := ReachSet(mem, spaces[id].pgtbl, 2), FramesIn(spaces[id].maps);
              OwnedBy(owner, id) == tables + frames && tables !! frames && |frames| == |spaces[id].maps|
    {
      OwnedParts(mem, owner, spaces, id);
    }
  }

  lemma OwnersPartition(owner: Owners, onList: set<nat>, ids: set<nat>)
    requires forall x :: x in onList <==> x in owner && owner[x].Free?
    requires forall x | x in owner && (owner[x].Dir? || owner[x].Held?) :: owner[x].id in ids
    ensures Partition(owner.Keys, onList, KernelHeld(owner), owner, ids)
  {
    forall x | x in owner
      ensures x in onList || x in KernelHeld(owner) || exists id | id in ids :: x in OwnedBy(owner, id)
    {
      if owner[x].Dir? || owner[x].Held? {
        assert x in OwnedBy(owner, owner[x].id);
      }
    }
  }

  lemma FreeExactly(mem: Memory, owner: Owners, freelist: nat, free: seq<nat>)
    requires FreeOk(mem, owner, freelist, free)
    ensures owner.Keys == mem.Keys && |Elements(free)| == |free|
    ensures forall x :: x in free <==> x in owner && owner[x].Free?
  {
    hide KernelPage;
    DistinctCount(free);
    forall x | x in free ensures x in owner && owner[x].Free? {
      var k :| 0 <= k < |free| && free[k] == x;
    }
  }

  lemma OwnerSpaces(mem: Memory, owner: Owners, spaces: Spaces)
    requires Consistent(mem, owner, spaces)
    ensures forall x | x in owner && (owner[x].Dir? || owner[x].Held?) :: owner[x].id in spaces
  {
    hide SpaceOk;
    hide DirOk;
    forall x | x in owner && owner[x].Dir? ensures owner[x].id in spaces {
      DirHasSpace(mem, owner, spaces, x);
    }
  }

  lemma DirHasSpace(mem: Memory, owner: Owners, spaces: Spaces, x: nat)
    requires TablesOk(mem, owner, spaces) && x in owner && owner[x].Dir?
    ensures owner[x].id in spaces
  {
    assert DirOk(mem, owner, spaces, x);
  }

  lemma OwnedParts(mem: Memory, owner: Owners, spaces: Spaces, id: nat)
    requires Consistent(mem, owner, spaces) && id in spaces
    ensures var tables, frames := ReachSet(mem, spaces[id].pgtbl, 2), FramesIn(spaces[id].maps);
            OwnedBy(owner, id) == tables + frames && tables !! frames && |frames| == |spaces[id].maps|
  {
    hide LeavesOk;
    hide KernelPage;
    hide Reach;
    hide ValidPerm;
    hide DirOk;
    hide Subtree;
    TablesOf(mem, owner, spaces);
    RootReachesAll(mem, owner, spaces, id);
    ListIsValid(mem, owner, spaces, id);
    FrameCount(spaces[id].maps);
    var maps := spaces[id].maps;
    assert SpaceOk(mem, owner, id, spaces[id]);
    forall x | x in owner ensures x in FramesIn(maps) <==> owner[x] == Held(id) {
      if owner[x] == Held(id) {
        var k :| 0 <= k < |maps| && maps[k].pa == x;
      }
    }
  }

  /** A complete copy_to_va, then a complete copy_from_va of the same range: the bytes come back,
      and no other process can tell. */
  lemma CopyRoundTrip(spaces: Spaces, id: nat, owner: Owners, dst: nat, src: seq<byte>, mem: Memory, mem': Memory, out: seq<byte>)
    requires id in spaces && Written(spaces, id, owner, dst, src, |src|, mem, mem')
    requires ReadsAs(mem', spaces[id].pgtbl, dst, out) && |out| == |src|
    ensures out == src
    ensures forall id', a: nat | id' in spaces && id' != id :: VByte(mem', spaces[id'].pgtbl, a) == VByte(mem, spaces[id'].pgtbl, a)
  {
    hide VByte;
    hide OnlyFramesOf;
    assert src[..|src|] == src;
    ReadBack(spaces, id, dst, src, mem, mem');
    forall i | 0 <= i < |src| ensures out[i] == src[i] {
      assert VByte(mem', spaces[id].pgtbl, dst + i) == Some(out[i]);
      assert VByte(mem', spaces[id].pgtbl, dst + i) == Some(src[i]);
    }
  }
}
