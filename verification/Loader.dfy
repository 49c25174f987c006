/** Loading a program (core/exec.c:25-93): what elf_loader maps and writes for each segment, and when it gives up.
    Reading the file and checking its header are not part of it. */
module Loader {
  import opened Bits
  import opened Wrappers
  import opened Mmu
  import opened PageTable
  import opened AddressSpace
  import opened VirtualMemory
  import opened Fork
  import opened UserStack
  import opened Machine
  import opened MemoryTheorems

  /** A loadable segment: p_vaddr, p_memsz, p_align, whether it can be read and written, and its bytes in the file. */
  datatype Segment = Segment(vaddr: nat, memsz: nat, align: nat, data: bool, bytes: seq<byte>)

  datatype Program = Program(segments: seq<Segment>, entry: nat)

  /** What the loader asserts. */
  predicate SegmentOk(seg: Segment) {
    0 < |seg.bytes| <= seg.memsz
  }

  /** Where it stops mapping; four pages more for a segment that can be written. */
  function SegmentEnd(seg: Segment): nat
    requires SegmentOk(seg)
  {
    var size := if PGSIZE > seg.align then PGSIZE else seg.align;
    (seg.vaddr + seg.memsz - 1) / size * size + size + (if seg.data then 4 * PGSIZE else 0)
  }

  /** Free pages that are enough for it. */
  function SegmentCost(seg: Segment): nat {
    if SegmentOk(seg) then 3 * PagesBetween(SegmentStart(seg.vaddr, seg.align), PageUp(SegmentEnd(seg))) else 0
  }

  function LoadCost(segs: seq<Segment>): nat {
    if segs == [] then 0 else LoadCost(segs[..|segs| - 1]) + SegmentCost(segs[|segs| - 1])
  }

  /** A segment whose mappings fork can copy. */
  predicate Tidy(seg: Segment) {
    SegmentOk(seg) && SegmentStart(seg.vaddr, seg.align) % PGSIZE == 0 && PageUp(SegmentEnd(seg)) <= MAXVA
  }

  /** The segment lies inside what is mapped for it, which is no more than the units of its alignment it touches and,
      behind a segment that can be written, four pages. */
  lemma SegmentInside(seg: Segment)
    requires SegmentOk(seg)
    ensures SegmentStart(seg.vaddr, seg.align) <= seg.vaddr && seg.vaddr + seg.memsz <= SegmentEnd(seg)
    ensures var unit := if seg.align < 16384 then 16384 else seg.align;
            && SegmentStart(seg.vaddr, seg.align) % unit == 0 && seg.vaddr < SegmentStart(seg.vaddr, seg.align) + unit
            && var end := SegmentEnd(seg) - (if seg.data then 4 * 16384 else 0);
               end % unit == 0 && seg.vaddr + seg.memsz <= end < seg.vaddr + seg.memsz + unit
  {
    var size := if PGSIZE > seg.align then PGSIZE else seg.align;
    assert seg.vaddr == seg.vaddr / size * size + seg.vaddr % size;
    var last := seg.vaddr + seg.memsz - 1;
    assert last == last / size * size + last % size;
    Whole(seg.vaddr / size, size);
    Whole(last / size + 1, size);
    assert (last / size + 1) * size == last / size * size + size;
  }

  lemma Whole(n: nat, size: nat)
    requires size > 0
    ensures n * size % size == 0
  {
    var q, r := n * size / size, n * size % size;
    assert n * size == q * size + r;
    assert (n - q) * size == r < size;
    if n > q { AtLeastOnce(n - q, size); }
  }

  lemma AtLeastOnce(n: nat, m: nat)
    requires n > 0
    ensures n * m >= m
  {
  }

  /** Pages listed from any start cover all the page numbers from its own on. */
  lemma ListedCovers(start: nat, got: seq<nat>, perm: nat, maps: seq<Mapping>, a: nat)
    requires start / PGSIZE <= a / PGSIZE < start / PGSIZE + |got|
    ensures Mapped(Listed(start, got, perm) + maps, Vpn(a))
  {
    hide Listed;
    var k := a / PGSIZE - start / PGSIZE;
    ListedAt(start, got, perm, k);
    assert (start + k * PGSIZE) / PGSIZE == a / PGSIZE;
    assert (Listed(start, got, perm) + maps)[|got| - 1 - k] == Listed(start, got, perm)[|got| - 1 - k];
  }

  /** What loading may do: process id alone grows, takes pages only from the free ones, and keeps its root. */
  ghost predicate Extends(id: nat, mem0: Memory, owner0: Owners, spaces0: Spaces, mem: Memory, owner: Owners, spaces: Spaces) {
    && OnlyOwn(id, mem0, owner0, mem, owner) && id in spaces0 && id in spaces
    && spaces == spaces0[id := spaces[id]] && spaces[id].pgtbl == spaces0[id].pgtbl
  }

  lemma ExtendsNot(id: nat, mem: Memory, owner: Owners, spaces: Spaces)
    requires Consistent(mem, owner, spaces) && id in spaces
    ensures Extends(id, mem, owner, spaces, mem, owner, spaces)
  {
    hide SpaceOk;
  }

  lemma ExtendsThen(id: nat, m0: Memory, o0: Owners, s0: Spaces, m1: Memory, o1: Owners, s1: Spaces, m2: Memory, o2: Owners, s2: Spaces)
    requires Extends(id, m0, o0, s0, m1, o1, s1) && Extends(id, m1, o1, s1, m2, o2, s2)
    ensures Extends(id, m0, o0, s0, m2, o2, s2)
  {
    hide OnlyOwn;
    OwnThenOwn(id, m0, o0, m1, o1, m2, o2);
  }

  lemma GrantExtends(id: nat, start: nat, got: seq<nat>, perm: nat, m0: Memory, o0: Owners, s0: Spaces,
                     m1: Memory, o1: Owners, s1: Spaces)
    requires Granted(id, start, got, perm, m0, o0, s0, m1, o1, s1)
    ensures Extends(id, m0, o0, s0, m1, o1, s1)
  {
    hide OnlyGrows;
    hide OnlyOwn;
    hide AllZero;
    hide Listed;
    GrowthIsOwn(id, m0, o0, m1, o1);
  }

  lemma WriteExtends(id: nat, m0: Memory, o: Owners, s: Spaces, m1: Memory)
    requires id in s && OnlyFramesOf(id, m0, o, m1)
    ensures Extends(id, m0, o, s, m1, o, s)
  {
    hide OnlyFramesOf;
    hide OnlyOwn;
    FramesAreOwn(id, m0, o, m1);
  }

  /** No page of the kernel is at physical address 0. */
  lemma DmwIsAbove(pa: nat)
    ensures KernelPage(pa + DMW) ==> pa != 0
  {
  }

  /** A translation is zero exactly where no byte is mapped, inside a page too. */
  lemma ZeroMeansNone(mem: Memory, owner: Owners, spaces: Spaces, id: nat, a: nat)
    requires Consistent(mem, owner, spaces) && id in spaces
    ensures Translate(mem, spaces[id].pgtbl, a) == 0 <==> VByte(mem, spaces[id].pgtbl, a) == None
  {
    hide Consistent;
    hide Leaf;
    hide VByte;
    hide PteValid;
    hide PteToPa;
    hide Vpn;
    if a < MAXVA {
      VByteMeans(mem, owner, spaces, id, a);
      DmwIsAbove(PteToPa(Leaf(mem, spaces[id].pgtbl, Vpn(a))));
    } else {
      TranslateMeans(mem, owner, spaces, id, a);
    }
  }

  /** Every byte of the segment below MAXVA is there once its pages are. */
  lemma SegmentSeen(seg: Segment, got: seq<nat>, id: nat, m0: Memory, o0: Owners, s0: Spaces, m1: Memory, o1: Owners, s1: Spaces, a: nat)
    requires SegmentOk(seg) && Consistent(m1, o1, s1)
    requires Granted(id, SegmentStart(seg.vaddr, seg.align), got, USER_PERM, m0, o0, s0, m1, o1, s1)
    requires |got| == PagesBetween(SegmentStart(seg.vaddr, seg.align), PageUp(SegmentEnd(seg)))
    requires SegmentStart(seg.vaddr, seg.align) <= a < SegmentEnd(seg) && a < MAXVA
    ensures id in s1 && VByte(m1, s1[id].pgtbl, a).Some?
  {
    hide Consistent;
    hide OnlyGrows;
    hide AllZero;
    hide Listed;
    hide VByte;
    hide Mapped;
    hide PagesBetween;
    hide PageUp;
    hide SegmentEnd;
    RangeCovers(SegmentStart(seg.vaddr, seg.align), SegmentEnd(seg), a);
    ListedCovers(SegmentStart(seg.vaddr, seg.align), got, USER_PERM, s0[id].maps, a);
    SeenIfMapped(m1, o1, s1, id, a);
  }

  lemma SegmentAllSeen(seg: Segment, got: seq<nat>, id: nat, m0: Memory, o0: Owners, s0: Spaces, m1: Memory, o1: Owners, s1: Spaces)
    requires SegmentOk(seg) && Consistent(m1, o1, s1) && id in s1
    requires Granted(id, SegmentStart(seg.vaddr, seg.align), got, USER_PERM, m0, o0, s0, m1, o1, s1)
    requires |got| == PagesBetween(SegmentStart(seg.vaddr, seg.align), PageUp(SegmentEnd(seg)))
    ensures forall a | seg.vaddr <= a < SegmentEnd(seg) && a < MAXVA :: VByte(m1, s1[id].pgtbl, a).Some?
  {
    hide Consistent;
    hide Granted;
    hide VByte;
    hide PagesBetween;
    hide PageUp;
    hide SegmentEnd;
    hide SegmentStart;
    SegmentInside(seg);
    forall a | seg.vaddr <= a < SegmentEnd(seg) && a < MAXVA ensures VByte(m1, s1[id].pgtbl, a).Some? {
      SegmentSeen(seg, got, id, m0, o0, s0, m1, o1, s1, a);
    }
  }

  /** Writing a segment's bytes over mapped pages writes all of them, below MAXVA, and unmaps nothing. */
  lemma SegmentWritten(seg: Segment, id: nat, owner: Owners, spaces: Spaces, m1: Memory, m2: Memory, n: nat)
    requires SegmentOk(seg) && id in spaces && Consistent(m2, owner, spaces)
    requires Written(spaces, id, owner, seg.vaddr, seg.bytes, n, m1, m2)
    requires n < |seg.bytes| ==> VByte(m2, spaces[id].pgtbl, seg.vaddr + n) == None
    requires forall a | seg.vaddr <= a < SegmentEnd(seg) && a < MAXVA :: VByte(m1, spaces[id].pgtbl, a).Some?
    ensures Translate(m2, spaces[id].pgtbl, seg.vaddr) != 0 <==> seg.vaddr < MAXVA
    ensures SegmentEnd(seg) <= MAXVA ==> n == |seg.bytes|
  {
    hide Consistent;
    hide OnlyFramesOf;
    hide Translate;
    hide SegmentEnd;
    SegmentInside(seg);
    ZeroMeansNone(m2, owner, spaces, id, seg.vaddr);
    assert seg.vaddr >= MAXVA ==> VByte(m2, spaces[id].pgtbl, seg.vaddr) == None;
  }

  /** Every byte mapped for the segment is in a page the user can write, and is the file's or zero. */
  ghost predicate Loaded(mem: Memory, root: nat, seg: Segment)
    requires SegmentOk(seg)
  {
    forall a: nat | SegmentStart(seg.vaddr, seg.align) <= a < SegmentEnd(seg) ::
      && UserBits(Leaf(mem, root, Vpn(a)))
      && VByte(mem, root, a) == Some(if seg.vaddr <= a < seg.vaddr + |seg.bytes| then seg.bytes[a - seg.vaddr] else 0)
  }

  /** Zero pages with the bytes written over them are the segment. */
  lemma SegmentLoaded(seg: Segment, got: seq<nat>, id: nat, m0: Memory, o0: Owners, s0: Spaces,
                      m1: Memory, owner: Owners, spaces: Spaces, m2: Memory, n: nat)
    requires SegmentOk(seg) && SegmentEnd(seg) <= MAXVA && Consistent(m1, owner, spaces) && id in spaces
    requires Granted(id, SegmentStart(seg.vaddr, seg.align), got, USER_PERM, m0, o0, s0, m1, owner, spaces)
    requires RangeLeaves(s0, m0, m1, id, SegmentStart(seg.vaddr, seg.align), got, USER_PERM)
    requires |got| == PagesBetween(SegmentStart(seg.vaddr, seg.align), PageUp(SegmentEnd(seg)))
    requires Written(spaces, id, owner, seg.vaddr, seg.bytes, n, m1, m2) && n == |seg.bytes|
    ensures Loaded(m2, spaces[id].pgtbl, seg)
  {
    hide Consistent;
    hide Granted;
    hide RangeLeaves;
    hide OnlyFramesOf;
    hide Leaf;
    hide VByte;
    hide PagesBetween;
    hide PageUp;
    hide SegmentStart;
    hide SegmentEnd;
    hide UserBits;
    FramesOnly(m1, owner, spaces, id, m2);
    forall a: nat | SegmentStart(seg.vaddr, seg.align) <= a < SegmentEnd(seg)
      ensures UserBits(Leaf(m2, spaces[id].pgtbl, Vpn(a)))
      ensures VByte(m2, spaces[id].pgtbl, a)
              == Some(if seg.vaddr <= a < seg.vaddr + |seg.bytes| then seg.bytes[a - seg.vaddr] else 0)
    {
      FreshByte(id, SegmentStart(seg.vaddr, seg.align), SegmentEnd(seg), got, m0, o0, s0, m1, owner, spaces, a);
    }
  }

  lemma TidyListed(seg: Segment, got: seq<nat>, maps: seq<Mapping>)
    requires Tidy(seg) && |got| == PagesBetween(SegmentStart(seg.vaddr, seg.align), PageUp(SegmentEnd(seg)))
    requires AllPages(maps, |maps|)
    ensures var all := Listed(SegmentStart(seg.vaddr, seg.align), got, USER_PERM) + maps; AllPages(all, |all|)
  {
    hide PageUp;
    hide PagesBetween;
    hide AllPages;
    hide Listed;
    hide SegmentStart;
    hide SegmentEnd;
    PageUpAligned(SegmentEnd(seg));
    PagesListed(SegmentStart(seg.vaddr, seg.align), PageUp(SegmentEnd(seg)), got, maps);
  }

  lemma PageUpAligned(a: nat)
    ensures PageUp(a) % PGSIZE == 0
  {
  }

  /** One round of elf_loader. It gives up, with what it did in place, exactly when the segment does not start
      below MAXVA; one that is mapped below it whole is in memory, zero behind its bytes and before them. */
  method LoadSegment(k: Kernel, id: nat, seg: Segment) returns (r: Outcome<bool>)
    requires k.Valid() && id in k.spaces && SegmentOk(seg)
    modifies k
    ensures r.Panic? ==> |old(k.free)| < SegmentCost(seg)
    ensures r.Done? ==>
              && k.Valid() && Extends(id, old(k.mem), old(k.owner), old(k.spaces), k.mem, k.owner, k.spaces)
              && |old(k.free)| - SegmentCost(seg) <= |k.free|
              && (r.value <==> seg.vaddr < MAXVA)
              && (SegmentEnd(seg) <= MAXVA ==> Loaded(k.mem, k.spaces[id].pgtbl, seg))
              && (Tidy(seg) && AllPages(old(k.spaces)[id].maps, |old(k.spaces)[id].maps|) ==>
                    AllPages(k.spaces[id].maps, |k.spaces[id].maps|))
  {
    hide FreeOk;
    hide Consistent;
    hide Granted;
    hide Extends;
    hide PagesBetween;
    hide PageUp;
    hide SegmentEnd;
    hide Tidy;
    hide AllPages;
    hide Loaded;
    hide RangeLeaves;
    hide Translate;
    hide VByte;
    hide TablesOk;
    hide OnlyFramesOf;
    hide WroteVirtual;
    ghost var m0, o0, s0 := k.mem, k.owner, k.spaces;
    var start, end := SegmentStart(seg.vaddr, seg.align), SegmentEnd(seg);
    SegmentInside(seg);
    UserPermValid();
    var _, got :- k.AllocVm(id, start, end, USER_PERM);
    ghost var m1, o1, s1 := k.mem, k.owner, k.spaces;
    GrantExtends(id, start, got, USER_PERM, m0, o0, s0, m1, o1, s1);
    ExtendsMeans(id, m0, o0, s0, m1, o1, s1);
    SegmentAllSeen(seg, got, id, m0, o0, s0, m1, o1, s1);
    TidyGrant(seg, got, id, m0, o0, s0, m1, o1, s1);
    var c, n := k.CopyToVa(k.spaces[id].pgtbl, seg.vaddr, seg.bytes, id);
    WriteExtends(id, m1, o1, s1, k.mem);
    ExtendsThen(id, m0, o0, s0, m1, o1, s1, k.mem, o1, s1);
    SegmentWritten(seg, id, o1, s1, m1, k.mem, n);
    if SegmentEnd(seg) <= MAXVA {
      SegmentLoaded(seg, got, id, m0, o0, s0, m1, o1, s1, k.mem, n);
    }
    TablesOf(k.mem, k.owner, k.spaces);
    var pa := k.VaToPa(k.spaces[id].pgtbl, seg.vaddr, id, k.owner, k.spaces);
    r := Done(pa != 0);
  }

  lemma ExtendsMeans(id: nat, m0: Memory, o0: Owners, s0: Spaces, m1: Memory, o1: Owners, s1: Spaces)
    requires Extends(id, m0, o0, s0, m1, o1, s1)
    ensures id in s0 && id in s1 && s1[id].pgtbl == s0[id].pgtbl && s1 == s0[id := s1[id]]
  {
  }

  lemma TidyGrant(seg: Segment, got: seq<nat>, id: nat, m0: Memory, o0: Owners, s0: Spaces, m1: Memory, o1: Owners, s1: Spaces)
    requires Granted(id, SegmentStart(seg.vaddr, seg.align), got, USER_PERM, m0, o0, s0, m1, o1, s1) && SegmentOk(seg)
    requires |got| == PagesBetween(SegmentStart(seg.vaddr, seg.align), PageUp(SegmentEnd(seg)))
    ensures id in s0 && id in s1
    ensures Tidy(seg) && AllPages(s0[id].maps, |s0[id].maps|) ==> AllPages(s1[id].maps, |s1[id].maps|)
  {
    hide OnlyGrows;
    hide AllZero;
    hide Listed;
    hide Tidy;
    hide AllPages;
    hide PagesBetween;
    hide PageUp;
    hide SegmentStart;
    hide SegmentEnd;
    if Tidy(seg) && AllPages(s0[id].maps, |s0[id].maps|) {
      TidyListed(seg, got, s0[id].maps);
    }
  }

  /** The loop of elf_loader can go through all segments. */
  predicate Loadable(segs: seq<Segment>) {
    forall k | 0 <= k < |segs| :: segs[k].vaddr < MAXVA
  }

  predicate SegmentsOk(segs: seq<Segment>) {
    forall k | 0 <= k < |segs| :: SegmentOk(segs[k])
  }

  /** elf_loader over the loadable segments: false where it returns -1. A segment that fails its assertion stops
      the machine. */
  method LoadProgram(k: Kernel, id: nat, segs: seq<Segment>) returns (r: Outcome<bool>)
    requires k.Valid() && id in k.spaces
    modifies k
    ensures r.Panic? ==> !SegmentsOk(segs) || |old(k.free)| < LoadCost(segs)
    ensures r.Done? ==>
              && k.Valid() && Extends(id, old(k.mem), old(k.owner), old(k.spaces), k.mem, k.owner, k.spaces)
              && |old(k.free)| - LoadCost(segs) <= |k.free|
              && (r.value <==> Loadable(segs))
              && ((forall j | 0 <= j < |segs| :: Tidy(segs[j])) && AllPages(old(k.spaces)[id].maps, |old(k.spaces)[id].maps|) ==>
                    AllPages(k.spaces[id].maps, |k.spaces[id].maps|))
  {
    hide FreeOk;
    hide Consistent;
    hide Extends;
    hide SegmentCost;
    hide SegmentEnd;
    hide SegmentOk;
    hide Tidy;
    hide AllPages;
    hide Loaded;
    ghost var m0, o0, s0 := k.mem, k.owner, k.spaces;
    ExtendsNot(id, m0, o0, s0);
    var i := 0;
    assert segs[..0] == [];
    while i < |segs|
      invariant 0 <= i <= |segs| && k.Valid()
      invariant Extends(id, m0, o0, s0, k.mem, k.owner, k.spaces) && id in k.spaces
      invariant |old(k.free)| - LoadCost(segs[..i]) <= |k.free|
      invariant forall j | 0 <= j < i :: segs[j].vaddr < MAXVA
      invariant (forall j | 0 <= j < i :: Tidy(segs[j])) && AllPages(s0[id].maps, |s0[id].maps|) ==>
                  AllPages(k.spaces[id].maps, |k.spaces[id].maps|)
    {
      CostsLess(segs, i);
      if !SegmentOk(segs[i]) { return Panic; }
      ghost var m1, o1, s1 := k.mem, k.owner, k.spaces;
      var done := LoadSegment(k, id, segs[i]);
      if done.Panic? { return Panic; }
      ExtendsThen(id, m0, o0, s0, m1, o1, s1, k.mem, k.owner, k.spaces);
      ExtendsMeans(id, m0, o0, s0, k.mem, k.owner, k.spaces);
      if !done.value {
        NotTidy(segs[i]);
        return Done(false);
      }
      i := i + 1;
    }
    assert segs[..i] == segs;
    r := Done(true);
  }

  lemma NotTidy(seg: Segment)
    requires SegmentOk(seg) && seg.vaddr >= MAXVA
    ensures !Tidy(seg)
  {
    if Tidy(seg) {
      SegmentInside(seg);
      RoundedUp(SegmentEnd(seg));
    }
  }

  lemma RoundedUp(a: nat)
    ensures a <= PageUp(a)
  {
  }

  /** The first i segments, and one more, cost no more than all. */
  lemma {:induction false} CostsLess(segs: seq<Segment>, i: nat)
    requires i < |segs|
    ensures LoadCost(segs[..i + 1]) == LoadCost(segs[..i]) + SegmentCost(segs[i]) <= LoadCost(segs)
    decreases |segs| - i
  {
    hide SegmentCost;
    hide SegmentOk;
    assert segs[..i + 1][..i] == segs[..i];
    if i + 1 < |segs| {
      CostsLess(segs, i + 1);
    } else {
      assert segs[..i + 1] == segs;
    }
  }
}
