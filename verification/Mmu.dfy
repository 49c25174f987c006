/** Page-table words and address masks (include/asm/mmu.h, include/memlayout.h).
    Every word is a natural below 2^64. */
module Mmu {
  import opened Bits

  const PGSIZE := 16384
  const ENTRIES := 2048
  const VPAGES := 0x2_0000_0000              // 2^33 pages below MAXVA
  const MAXVA := 0x8000_0000_0000            // 2^47
  const DMW := 0x9000_0000_0000_0000         // MAIN_KERNEL_DMW
  const PHYS_LIMIT := 0x4_0000_0000_0000     // 2^50: the frame field plus the page offset
  const PA_MASK := 0x3_FFFF_FFFF_C000        // PAMASK
  const FLAG_MASK := 0xE000_0000_0000_01FF   // the mask in PTE_FLAGS

  function PteToPa(pte: nat): nat { And(pte, PA_MASK) }

  function PaToPte(pa: nat): nat { And(pa, PA_MASK) }

  function PteFlags(pte: nat): nat { And(pte, FLAG_MASK) }

  function PaToVa(pa: nat): nat { Or(pa, DMW) }

  predicate PteValid(pte: nat) { And(pte, 1) != 0 }

  function PageDown(a: nat): nat { a / PGSIZE * PGSIZE }

  function PageUp(a: nat): nat { (a + PGSIZE - 1) / PGSIZE * PGSIZE }

  /** The index of va at a level of the radix tree (macro PX). */
  function Px(level: nat, va: nat): (i: nat)
    requires level <= 2
    ensures i < ENTRIES
  {
    if level == 2 then va / 0x10_0000_0000 % ENTRIES
    else if level == 1 then va / 0x200_0000 % ENTRIES
    else va / 0x4000 % ENTRIES
  }

  /** The virtual page number a page table distinguishes. */
  function Vpn(va: nat): (v: nat)
    ensures v < VPAGES
  {
    va / PGSIZE % VPAGES
  }

  /** A page-aligned pointer into the kernel's direct map, above physical address 0. */
  predicate KernelPage(p: nat) {
    DMW < p < DMW + PHYS_LIMIT && (p - DMW) % PGSIZE == 0
  }

  /** A permission word the kernel installs: only flag bits, and valid. */
  predicate ValidPerm(perm: nat) {
    PteFlags(perm) == perm && PteValid(perm)
  }

  /** PX splits a page number without loss. */
  lemma PxSplit(va: nat)
    ensures Vpn(va) == Px(2, va) * 0x40_0000 + Px(1, va) * 0x800 + Px(0, va)
  {
    var p := va / PGSIZE;
    assert va / 0x200_0000 == p / 0x800;
    assert va / 0x10_0000_0000 == p / 0x40_0000;
    assert p / 0x40_0000 == p / 0x800 / 0x800;
    assert p / 0x800 % 0x800 == p / 0x800 - p / 0x40_0000 * 0x800;
  }

  /** The frame mask is 36 ones shifted left by 14. */
  lemma PaMaskShape()
    ensures Shl(Ones(36), 14) == PA_MASK
  {
    hide Ones;
    hide Shl;
    NoOnes();
    Ones6(30); Ones6(24); Ones6(18); Ones6(12); Ones6(6); Ones6(0);
    Shl14(Ones(36));
  }

  lemma NoOnes()
    ensures Ones(0) == 0
  {
  }

  lemma Ones6(n: nat)
    ensures Ones(n + 6) == 64 * Ones(n) + 63
  {
    assert Ones(n + 6) == 2 * Ones(n + 5) + 1 == 4 * Ones(n + 4) + 3 == 8 * Ones(n + 3) + 7;
    assert Ones(n + 3) == 2 * Ones(n + 2) + 1 == 4 * Ones(n + 1) + 3 == 8 * Ones(n) + 7;
  }

  /** PTE2PA and PA2PTE select bits 14 to 49 in place. */
  lemma PteToPaField(x: nat)
    ensures And(x, PA_MASK) == x / PGSIZE % 0x10_0000_0000 * PGSIZE
  {
    AndField(x, 14, 36);
    PaMaskShape();
    ShrDiv14(x);
    LowMod36(x / PGSIZE);
    Shl14(Low(Shr(x, 14), 36));
  }

  /** A flag mask has no bit in the frame field; both masks are idempotent. */
  lemma MasksDisjoint(flagMask: nat)
    requires flagMask / PGSIZE % 0x10_0000_0000 == 0 && flagMask % 2 == 1
    ensures And(flagMask, PA_MASK) == 0 && And(PA_MASK, flagMask) == 0
    ensures And(PA_MASK, PA_MASK) == PA_MASK && And(flagMask, flagMask) == flagMask
    ensures And(flagMask, 1) == 1 && And(PA_MASK, 1) == 0
  {
    PteToPaField(flagMask);
    AndComm(flagMask, PA_MASK);
    AndIdem(PA_MASK);
    AndIdem(flagMask);
    AndLowBit(flagMask);
    AndLowBit(PA_MASK);
  }

  lemma AndLowBit(x: nat)
    ensures And(x, 1) == x % 2
  {
    AndStep(x, 1);
    assert And(x / 2, 0) == 0;
  }

  lemma LowThree(x: nat, n: nat)
    ensures Low(x, n + 3) == x % 8 + 8 * Low(x / 8, n)
  {
    assert Low(x, n + 3) == x % 2 + 2 * Low(x / 2, n + 2);
    assert Low(x / 2, n + 2) == x / 2 % 2 + 2 * Low(x / 4, n + 1);
    assert Low(x / 4, n + 1) == x / 4 % 2 + 2 * Low(x / 8, n);
  }

  lemma Low6(x: nat, n: nat)
    ensures Low(x, n + 6) == x % 64 + 64 * Low(x / 64, n)
  {
    LowThree(x, n + 3);
    LowThree(x / 8, n);
    hide Low;
    assert x / 8 / 8 == x / 64;
  }

  lemma Low12(x: nat, n: nat)
    ensures Low(x, n + 12) == x % 4096 + 4096 * Low(x / 4096, n)
  {
    hide Low;
    Low6(x, n + 6);
    Low6(x / 64, n);
    assert x / 64 / 64 == x / 4096;
    assert x % 64 + 64 * (x / 64 % 64) == x % 4096;
  }

  lemma LowMod36(x: nat)
    ensures Low(x, 36) == x % 0x10_0000_0000
  {
    var y := x / 4096;
    var z := y / 4096;
    Low12(x, 24);
    Low12(y, 12);
    Low12(z, 0);
    assert Low(z / 4096, 0) == 0;
    hide Low;
    ModDigits(x);
  }

  lemma ModDigits(x: nat)
    ensures x % 4096 + 4096 * (x / 4096 % 4096 + 4096 * (x / 4096 / 4096 % 4096)) == x % 0x10_0000_0000
  {
    var y := x / 4096;
    assert x == y * 4096 + x % 4096;
    var z := y / 4096;
    assert y == z * 4096 + y % 4096;
    assert z == z / 4096 * 4096 + z % 4096;
  }

  /** ORing the direct-map base onto a physical address adds it, and repeating it changes nothing. */
  lemma PaToVaAdds(x: nat)
    requires x < 0x1000_0000_0000_0000
    ensures PaToVa(x) == x + DMW && PaToVa(x + DMW) == x + DMW
  {
    DmwShape();
    OrHigh(0, x, 9, 60);
    ShlZero(60);
    OrHigh(9, x, 9, 60);
    OrIdem(9);
  }

  lemma DmwShape()
    ensures Shl(9, 60) == DMW && Shl(1, 60) == 0x1000_0000_0000_0000
  {
    Shl60(9);
    Shl60(1);
  }

  lemma Shl60(x: nat)
    ensures Shl(x, 60) == x * 0x1000_0000_0000_0000
  {
    Shl6(x, 54); Shl6(x, 48); Shl6(x, 42); Shl6(x, 36); Shl6(x, 30);
    Shl6(x, 24); Shl6(x, 18); Shl6(x, 12); Shl6(x, 6); Shl6(x, 0);
  }

  lemma {:induction false} ShlZero(k: nat)
    ensures Shl(0, k) == 0
  {
    if k > 0 { ShlZero(k - 1); }
  }

  /** What a kernel pointer decodes to: its physical address, and back. In particular the
      walker's decoding of a directory entry is the raw pointer the mapper stored there. */
  lemma KernelPointerDecodes(p: nat)
    requires KernelPage(p)
    ensures PteToPa(p) == PaToPte(p) == p - DMW
    ensures PaToVa(p) == p && PaToVa(p - DMW) == p && PaToVa(PteToPa(p)) == p
    ensures p % PGSIZE == 0
  {
    PteToPaField(p);
    var q := (p - DMW) / PGSIZE;
    assert p - DMW == q * PGSIZE;
    assert p / PGSIZE == q + 0x2_4000_0000_0000;
    assert (q + 0x2_4000_0000_0000) % 0x10_0000_0000 == q;
    PaToVaAdds(p - DMW);
  }

  /** The entry the mapper writes for frame pointer p over an entry with flags `flags`. */
  lemma LeafDecodes(p: nat, flags: nat)
    requires KernelPage(p) && PteFlags(flags) == flags
    ensures var w := Or(PaToPte(p), flags);
            PteToPa(w) == p - DMW && PteFlags(w) == flags && w != 0
            && (PteValid(w) <==> PteValid(flags))
  {
    LeafDecodesUnder(p, flags, FLAG_MASK);
  }

  lemma LeafDecodesUnder(p: nat, flags: nat, flagMask: nat)
    requires flagMask / PGSIZE % 0x10_0000_0000 == 0 && flagMask % 2 == 1
    requires KernelPage(p) && And(flags, flagMask) == flags
    ensures var w := Or(PaToPte(p), flags);
            PteToPa(w) == p - DMW && And(w, flagMask) == flags && w != 0
            && (PteValid(w) <==> PteValid(flags))
  {
    var a := PaToPte(p);
    MasksDisjoint(flagMask);
    KernelPointerDecodes(p);
    AndOr(a, flags, PA_MASK);
    AndAssoc(p, PA_MASK, PA_MASK);
    AndAssoc(flags, flagMask, PA_MASK);
    assert And(a, PA_MASK) == a && And(flags, PA_MASK) == 0;
    AndOr(a, flags, flagMask);
    AndAssoc(p, PA_MASK, flagMask);
    AndAssoc(flags, flagMask, flagMask);
    AndOr(a, flags, 1);
    AndAssoc(p, PA_MASK, 1);
  }

  /** Flag words are closed under OR, which keeps the valid bit. */
  lemma FlagsOr(f: nat, g: nat)
    requires PteFlags(f) == f && PteFlags(g) == g
    ensures PteFlags(Or(f, g)) == Or(f, g)
    ensures PteValid(Or(f, g)) <==> PteValid(f) || PteValid(g)
  {
    AndOr(f, g, FLAG_MASK);
    AndOr(f, g, 1);
  }

  /** The permission exec gives user pages, PTE_P|PTE_W|PTE_MATL|PTE_D|PTE_V. */
  const USER_PERM := 0x193

  lemma UserPermValid()
    ensures ValidPerm(USER_PERM)
  {
    LowFlags(0x193, FLAG_MASK);
    AndLowBit(0x193);
  }

  lemma LowFlags(x: nat, mask: nat)
    requires x < 512 && mask % 512 == 511
    ensures And(x, mask) == x
  {
    NineOnes(9);
    NineLow(mask, mask / 64);
    AndCovers(x, mask, 9);
  }

  lemma NineOnes(n: nat)
    requires n == 9
    ensures Ones(n) == 511 && Shl(1, n) == 512
  {
    Ones6(3);
    Shl6(1, 3);
  }

  lemma NineLow(mask: nat, high: nat)
    requires high == mask / 64 && mask % 64 == 63 && high % 8 == 7
    ensures Low(mask, 9) == 511
  {
    Low6(mask, 3);
    Low3(high);
  }

  lemma Low3(x: nat)
    ensures Low(x, 3) == x % 8
  {
    assert Low(x, 3) == x % 2 + 2 * Low(x / 2, 2);
    assert Low(x / 2, 2) == x / 2 % 2 + 2 * Low(x / 4, 1);
    assert Low(x / 4, 1) == x / 4 % 2;
  }
}
