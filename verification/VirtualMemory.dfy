/** The bytes a process sees at its virtual addresses, and how writes through one page table show
    through it and through the others. */
module VirtualMemory {
  import opened Bits
  import opened Wrappers
  import opened Mmu
  import opened PageTable
  import opened AddressSpace

  /** The byte at virtual address a, if a is mapped. */
  ghost function VByte(mem: Memory, root: nat, a: nat): Option<byte> {
    if a < MAXVA && PteValid(Leaf(mem, root, Vpn(a))) && PageAt(mem, FrameOf(mem, root, Vpn(a)))
    then Some(mem[FrameOf(mem, root, Vpn(a))].bytes[a % PGSIZE])
    else None
  }

  /** The bytes `src` were written at virtual address dst of process `id`. No other virtual byte of
      that process, and no virtual byte of any other process, is different. */
  ghost predicate WroteVirtual(spaces: Spaces, id: nat, dst: nat, src: seq<byte>, mem: Memory, mem': Memory) {
    forall id', a: nat | id' in spaces ::
      VByte(mem', spaces[id'].pgtbl, a)
      == if id' == id && dst <= a < dst + |src| then Some(src[a - dst]) else VByte(mem, spaces[id'].pgtbl, a)
  }

  /** Only the contents of frames held by process `id` differ. */
  ghost predicate OnlyFramesOf(id: nat, mem: Memory, owner: Owners, mem': Memory) {
    && owner.Keys == mem.Keys && mem'.Keys == mem.Keys
    && (forall x | x in owner && owner[x] != Held(id) :: mem'[x] == mem[x])
    && (forall x | x in owner && owner[x] == Held(id) && PageAt(mem, x) :: PageAt(mem', x))
  }

  /** Frame contents are no part of the invariant, and page tables are no frames. */
  lemma FramesOnly(mem: Memory, owner: Owners, spaces: Spaces, id: nat, mem': Memory)
    requires Consistent(mem, owner, spaces) && OnlyFramesOf(id, mem, owner, mem')
    ensures Consistent(mem', owner, spaces)
    ensures forall id', vpn | id' in spaces && 0 <= vpn < VPAGES ::
              Leaf(mem', spaces[id'].pgtbl, vpn) == Leaf(mem, spaces[id'].pgtbl, vpn)
  {
    hide TablesOk;
    hide SpaceOk;
    hide Leaf;
    TablesOf(mem, owner, spaces);
    TablesFrame(mem, owner, spaces, mem', owner, spaces);
    forall id' | id' in spaces
      ensures SpaceOk(mem', owner, id', spaces[id'])
      ensures forall vpn | 0 <= vpn < VPAGES :: Leaf(mem', spaces[id'].pgtbl, vpn) == Leaf(mem, spaces[id'].pgtbl, vpn)
    {
      LeafFrame(mem, owner, spaces, mem', id');
      SpaceFrame(mem, owner, id', spaces[id'], mem', owner);
    }
  }

  /** Whether a process sees a byte at a, and in which frame. */
  lemma VByteMeans(mem: Memory, owner: Owners, spaces: Spaces, id: nat, a: nat)
    requires Consistent(mem, owner, spaces) && id in spaces && a < MAXVA
    ensures var f := FrameOf(mem, spaces[id].pgtbl, Vpn(a));
            if Mapped(spaces[id].maps, Vpn(a)) then
              && PteValid(Leaf(mem, spaces[id].pgtbl, Vpn(a))) && f in owner && owner[f] == Held(id) && PageAt(mem, f)
              && f == PteToPa(Leaf(mem, spaces[id].pgtbl, Vpn(a))) + DMW && KernelPage(f)
              && VByte(mem, spaces[id].pgtbl, a) == Some(mem[f].bytes[a % PGSIZE])
            else
              !PteValid(Leaf(mem, spaces[id].pgtbl, Vpn(a))) && VByte(mem, spaces[id].pgtbl, a) == None
  {
    hide TablesOk;
    hide LeavesOk;
    hide Leaf;
    hide Or;
    hide FlagsAt;
    LeafMeaning(mem, owner, spaces, id, Vpn(a));
    ListIsValid(mem, owner, spaces, id);
    assert SpaceOk(mem, owner, id, spaces[id]);
    InvalidZero();
  }

  lemma InvalidZero()
    ensures !PteValid(0)
  {
  }

  /** Overwriting bytes of one page. */
  function Splice(bytes: seq<byte>, off: nat, src: seq<byte>): (r: seq<byte>)
    requires off + |src| <= |bytes|
    ensures |r| == |bytes|
    ensures forall i | 0 <= i < |bytes| :: r[i] == if off <= i < off + |src| then src[i - off] else bytes[i]
  {
    bytes[..off] + src + bytes[off + |src|..]
  }

  /** Writing inside one page of a process is a virtual write. */
  lemma WriteInPage(mem: Memory, owner: Owners, spaces: Spaces, id: nat, dst: nat, src: seq<byte>, mem': Memory)
    requires Consistent(mem, owner, spaces) && id in spaces && dst < MAXVA
    requires Mapped(spaces[id].maps, Vpn(dst)) && dst % PGSIZE + |src| <= PGSIZE
    requires var f := FrameOf(mem, spaces[id].pgtbl, Vpn(dst));
             PageAt(mem, f) && mem' == mem[f := Page(Splice(mem[f].bytes, dst % PGSIZE, src))]
    ensures OnlyFramesOf(id, mem, owner, mem') && Consistent(mem', owner, spaces)
    ensures WroteVirtual(spaces, id, dst, src, mem, mem')
  {
    hide Consistent;
    hide Leaf;
    hide Mapped;
    hide And;
    hide Or;
    hide Vpn;
    var f := FrameOf(mem, spaces[id].pgtbl, Vpn(dst));
    VByteMeans(mem, owner, spaces, id, dst);
    ConsistentKeys(mem, owner, spaces);
    assert OnlyFramesOf(id, mem, owner, mem');
    FramesOnly(mem, owner, spaces, id, mem');
    forall id', a: nat | id' in spaces
      ensures VByte(mem', spaces[id'].pgtbl, a)
              == if id' == id && dst <= a < dst + |src| then Some(src[a - dst]) else VByte(mem, spaces[id'].pgtbl, a)
    {
      WriteOneByte(mem, owner, spaces, id, dst, src, mem', id', a);
    }
  }

  lemma ConsistentKeys(mem: Memory, owner: Owners, spaces: Spaces)
    requires Consistent(mem, owner, spaces)
    ensures owner.Keys == mem.Keys
  {
  }

  lemma SamePage(a: nat, dst: nat, n: nat)
    requires dst % PGSIZE + n <= PGSIZE && a < MAXVA && dst < MAXVA
    ensures dst <= a < dst + n ==> Vpn(a) == Vpn(dst) && a % PGSIZE == dst % PGSIZE + (a - dst)
    ensures Vpn(a) == Vpn(dst) && dst % PGSIZE <= a % PGSIZE < dst % PGSIZE + n ==>
              dst <= a < dst + n && a - dst == a % PGSIZE - dst % PGSIZE
    ensures dst + n <= MAXVA
  {
  }

  lemma WriteOneByte(mem: Memory, owner: Owners, spaces: Spaces, id: nat, dst: nat, src: seq<byte>, mem': Memory,
                     id': nat, a: nat)
    requires Consistent(mem, owner, spaces) && id in spaces && dst < MAXVA && id' in spaces
    requires Mapped(spaces[id].maps, Vpn(dst)) && dst % PGSIZE + |src| <= PGSIZE
    requires var f := FrameOf(mem, spaces[id].pgtbl, Vpn(dst));
             PageAt(mem, f) && mem' == mem[f := Page(Splice(mem[f].bytes, dst % PGSIZE, src))]
    requires Consistent(mem', owner, spaces)
    requires forall vpn | 0 <= vpn < VPAGES ::
               Leaf(mem', spaces[id'].pgtbl, vpn) == Leaf(mem, spaces[id'].pgtbl, vpn)
    ensures VByte(mem', spaces[id'].pgtbl, a)
            == if id' == id && dst <= a < dst + |src| then Some(src[a - dst]) else VByte(mem, spaces[id'].pgtbl, a)
  {
    hide Consistent;
    hide Leaf;
    hide Mapped;
    hide And;
    hide Or;
    hide KernelPage;
    hide Vpn;
    var root := spaces[id'].pgtbl;
    SamePage(dst, dst, |src|);
    if a < MAXVA {
      SamePage(a, dst, |src|);
      VByteMeans(mem, owner, spaces, id, dst);
      VByteMeans(mem, owner, spaces, id', a);
      VByteMeans(mem', owner, spaces, id', a);
      var f, g := FrameOf(mem, spaces[id].pgtbl, Vpn(dst)), FrameOf(mem, root, Vpn(a));
      if Mapped(spaces[id'].maps, Vpn(a)) {
        if id' == id && Vpn(a) != Vpn(dst) && f == g {
          FramesInjective(mem, owner, spaces, id, Vpn(a), Vpn(dst));
        }
      }
    }
  }

  /** Two adjacent writes are one. */
  lemma WroteMore(spaces: Spaces, id: nat, dst: nat, a: seq<byte>, b: seq<byte>, m0: Memory, m1: Memory, m2: Memory)
    requires WroteVirtual(spaces, id, dst, a, m0, m1) && WroteVirtual(spaces, id, dst + |a|, b, m1, m2)
    ensures WroteVirtual(spaces, id, dst, a + b, m0, m2)
  {
    hide VByte;
  }

  lemma FramesThen(id: nat, owner: Owners, m0: Memory, m1: Memory, m2: Memory)
    requires OnlyFramesOf(id, m0, owner, m1) && OnlyFramesOf(id, m1, owner, m2)
    ensures OnlyFramesOf(id, m0, owner, m2)
  {
  }

  /** The physical address a process sees at va: its leaf's frame plus the page offset. */
  ghost function Translate(mem: Memory, root: nat, va: nat): nat {
    if va < MAXVA && PteValid(Leaf(mem, root, Vpn(va)))
    then PteToPa(Leaf(mem, root, Vpn(va))) + va % PGSIZE
    else 0
  }

  /** How the copy loops use a translation: 0 means no byte is there, anything else is, as a kernel
      pointer, the place of the byte inside its frame. */
  lemma TranslateMeans(mem: Memory, owner: Owners, spaces: Spaces, id: nat, a: nat)
    requires Consistent(mem, owner, spaces) && id in spaces
    ensures var root := spaces[id].pgtbl;
            var pa := Translate(mem, root, PageDown(a));
            && (pa == 0 <==> VByte(mem, root, a) == None)
            && (pa != 0 ==>
                  && a < MAXVA && Mapped(spaces[id].maps, Vpn(a))
                  && var f := FrameOf(mem, root, Vpn(a));
                     KernelPage(f) && PageAt(mem, f) && PaToVa(pa + (a - PageDown(a))) == f + a % PGSIZE && PageDown(f + a % PGSIZE) == f
                     && VByte(mem, root, a) == Some(mem[f].bytes[a % PGSIZE]))
  {
    hide Consistent;
    hide Leaf;
    hide Mapped;
    hide And;
    hide Or;
    var root := spaces[id].pgtbl;
    var va0 := PageDown(a);
    SameVpn(a);
    if a < MAXVA {
      VByteMeans(mem, owner, spaces, id, a);
      LeafMeaning(mem, owner, spaces, id, Vpn(a));
      if Mapped(spaces[id].maps, Vpn(a)) {
        var f := FrameOf(mem, root, Vpn(a));
        PaToVaAdds(f - DMW + a % PGSIZE);
        InPage(f, a % PGSIZE);
      }
    }
  }

  lemma SameVpn(a: nat)
    ensures Vpn(PageDown(a)) == Vpn(a) && PageDown(a) % PGSIZE == 0 && a == PageDown(a) + a % PGSIZE
    ensures PageDown(a) < MAXVA <==> a < MAXVA
  {
  }

  lemma InPage(f: nat, off: nat)
    requires KernelPage(f) && off < PGSIZE
    ensures PageDown(f + off) == f && (f + off) % PGSIZE == off
  {
  }

  /** A run of virtual bytes that are all mapped reads as these values. */
  ghost predicate ReadsAs(mem: Memory, root: nat, src: nat, out: seq<byte>) {
    forall i | 0 <= i < |out| :: VByte(mem, root, src + i) == Some(out[i])
  }

  lemma ReadsNothing(mem: Memory, root: nat, src: nat)
    ensures ReadsAs(mem, root, src, [])
  {
  }

  lemma ReadsPrefix(mem: Memory, root: nat, src: nat, out: seq<byte>, k: nat)
    requires ReadsAs(mem, root, src, out) && k <= |out|
    ensures ReadsAs(mem, root, src, out[..k])
  {
    hide VByte;
  }

  /** The part of one page from address a on reads as the frame's bytes. */
  lemma ReadInPage(mem: Memory, owner: Owners, spaces: Spaces, id: nat, a: nat, n: nat)
    requires Consistent(mem, owner, spaces) && id in spaces && a % PGSIZE + n <= PGSIZE
    requires a < MAXVA && Mapped(spaces[id].maps, Vpn(a))
    ensures var f := FrameOf(mem, spaces[id].pgtbl, Vpn(a));
            PageAt(mem, f) && ReadsAs(mem, spaces[id].pgtbl, a, mem[f].bytes[a % PGSIZE..a % PGSIZE + n])
  {
    hide Consistent;
    hide Leaf;
    hide Mapped;
    hide And;
    hide Or;
    hide VByte;
    hide KernelPage;
    hide Vpn;
    var root := spaces[id].pgtbl;
    var f := FrameOf(mem, root, Vpn(a));
    VByteMeans(mem, owner, spaces, id, a);
    var out := mem[f].bytes[a % PGSIZE..a % PGSIZE + n];
    SamePage(a, a, n);
    forall i | 0 <= i < n ensures VByte(mem, root, a + i) == Some(out[i]) {
      SamePage(a + i, a, n);
      VByteMeans(mem, owner, spaces, id, a + i);
    }
  }

  lemma ReadsMore(mem: Memory, root: nat, src: nat, a: seq<byte>, b: seq<byte>)
    requires ReadsAs(mem, root, src, a) && ReadsAs(mem, root, src + |a|, b)
    ensures ReadsAs(mem, root, src, a + b)
  {
    hide VByte;
    forall i | 0 <= i < |a + b| ensures VByte(mem, root, src + i) == Some((a + b)[i]) {
      if i >= |a| {
        assert src + i == src + |a| + (i - |a|);
      }
    }
  }

  /** Reading back what was written gives it back. */
  lemma ReadBack(spaces: Spaces, id: nat, dst: nat, src: seq<byte>, mem: Memory, mem': Memory)
    requires WroteVirtual(spaces, id, dst, src, mem, mem') && id in spaces
    ensures ReadsAs(mem', spaces[id].pgtbl, dst, src)
  {
    hide VByte;
  }

  /** What copy_to_va has done after writing n bytes. */
  ghost predicate Written(spaces: Spaces, id: nat, owner: Owners, dst: nat, src: seq<byte>, n: nat, mem0: Memory, mem: Memory)
    requires id in spaces
  {
    && n <= |src| && OnlyFramesOf(id, mem0, owner, mem)
    && WroteVirtual(spaces, id, dst, src[..n], mem0, mem)
    && (forall a | dst <= a < dst + n :: VByte(mem0, spaces[id].pgtbl, a).Some?)
  }

  lemma NothingWritten(mem: Memory, owner: Owners, spaces: Spaces, id: nat, dst: nat, src: seq<byte>)
    requires Consistent(mem, owner, spaces) && id in spaces
    ensures Written(spaces, id, owner, dst, src, 0, mem, mem)
  {
    hide VByte;
    ConsistentKeys(mem, owner, spaces);
  }

  /** One more page's worth of bytes. */
  lemma WroteChunk(mem0: Memory, mem: Memory, owner: Owners, spaces: Spaces, id: nat, dst: nat, src: seq<byte>,
                   n: nat, m: nat, mem': Memory, freelist: nat, free: seq<nat>)
    requires Consistent(mem, owner, spaces) && FreeOk(mem, owner, freelist, free) && id in spaces
    requires Written(spaces, id, owner, dst, src, n, mem0, mem)
    requires n + m <= |src| && (dst + n) % PGSIZE + m <= PGSIZE && dst + n < MAXVA
    requires Mapped(spaces[id].maps, Vpn(dst + n))
    requires var f := FrameOf(mem, spaces[id].pgtbl, Vpn(dst + n));
             PageAt(mem, f) && mem' == mem[f := Page(Splice(mem[f].bytes, (dst + n) % PGSIZE, src[n..n + m]))]
    ensures Consistent(mem', owner, spaces) && FreeOk(mem', owner, freelist, free)
    ensures Written(spaces, id, owner, dst, src, n + m, mem0, mem')
  {
    hide Consistent;
    hide FreeOk;
    hide VByte;
    hide FrameOf;
    hide Mapped;
    hide Vpn;
    hide KernelPage;
    hide Leaf;
    hide And;
    hide Or;
    var chunk := src[n..n + m];
    var root := spaces[id].pgtbl;
    VByteMeans(mem, owner, spaces, id, dst + n);
    WriteInPage(mem, owner, spaces, id, dst + n, chunk, mem');
    ReadInPage(mem, owner, spaces, id, dst + n, m);
    FramesThen(id, owner, mem0, mem, mem');
    WroteMore(spaces, id, dst, src[..n], chunk, mem0, mem, mem');
    assert src[..n] + chunk == src[..n + m];
    FreeFrame(mem, owner, mem', owner, freelist, free);
    forall a | dst <= a < dst + (n + m) ensures VByte(mem0, root, a).Some? {
      if a >= dst + n {
        var f, i := FrameOf(mem, root, Vpn(dst + n)), a - (dst + n);
        assert VByte(mem, root, dst + n + i)
               == Some(mem[f].bytes[(dst + n) % PGSIZE..(dst + n) % PGSIZE + m][i]);
      }
    }
  }

  /** A NUL-terminated string of at most max bytes, terminator included, is mapped at src. */
  ghost predicate StringWithin(mem: Memory, root: nat, src: nat, max: nat) {
    exists e: nat | src <= e < src + max ::
      VByte(mem, root, e) == Some(0) && forall a | src <= a < e :: VByte(mem, root, a).Some?
  }

  lemma StringFound(mem: Memory, root: nat, src: nat, max: nat, out: seq<byte>)
    requires ReadsAs(mem, root, src, out + [0]) && |out| < max
    ensures StringWithin(mem, root, src, max)
  {
    hide VByte;
    assert (out + [0])[|out|] == 0;
    assert VByte(mem, root, src + |out|) == Some(0);
    forall a | src <= a < src + |out| ensures VByte(mem, root, a).Some? {
      assert VByte(mem, root, src + (a - src)) == Some((out + [0])[a - src]);
    }
  }

  lemma NoString(mem: Memory, root: nat, src: nat, max: nat, out: seq<byte>)
    requires ReadsAs(mem, root, src, out) && 0 !in out
    requires |out| == max || VByte(mem, root, src + |out|) == None
    ensures !StringWithin(mem, root, src, max)
  {
    hide VByte;
    forall e: nat | src <= e < src + max && forall a | src <= a < e :: VByte(mem, root, a).Some?
      ensures VByte(mem, root, e) != Some(0)
    {
      if e < src + |out| {
        assert VByte(mem, root, src + (e - src)) == Some(out[e - src]);
        assert out[e - src] in out;
      }
    }
  }
}
