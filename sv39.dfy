/**
 * Sv39 page-table entry attributes, address masks and table geometry
 * (`include/asm/svxx.h`), following section 4.4 of the RISC-V Privileged
 * Architecture v1.12. An entry is a 64-bit word; bits 0..7 are V, R, W, X,
 * U, G, A, D, bits 8..9 are reserved for software, and the physical frame
 * number starts at bit 10.
 */
module Sv39 {
  import opened Words

  const PAGE_ATTR_VALID: u64 := 0x1      // 1 << 0
  const PAGE_ATTR_READ: u64 := 0x2       // 1 << 1
  const PAGE_ATTR_WRITE: u64 := 0x4      // 1 << 2
  const PAGE_ATTR_EXEC: u64 := 0x8       // 1 << 3
  const PAGE_ATTR_USER: u64 := 0x10      // 1 << 4
  const PAGE_ATTR_GLOBAL: u64 := 0x20    // 1 << 5
  const PAGE_ATTR_ACCESS: u64 := 0x40    // 1 << 6
  const PAGE_ATTR_DIRTY: u64 := 0x80     // 1 << 7
  const PAGE_ATTR_SOFTWARE: u64 := 0x300 // 3 << 8
  /** READ | WRITE | EXEC */
  const PAGE_ATTR_LEAF: u64 := Or(Or(PAGE_ATTR_READ, PAGE_ATTR_WRITE), PAGE_ATTR_EXEC)

  const PAGE_PFN_SHIFT: nat := 10

  const PAGE_OFFSET_MASK: u64 := 0x0000_0000_0000_0FFF
  const PAGE_VPN2_MASK: u64 := 0x0000_007F_C000_0000
  const PAGE_VPN1_MASK: u64 := 0x0000_0000_3FE0_0000
  const PAGE_VPN0_MASK: u64 := 0x0000_0000_001F_F000
  const PAGE_PPN2_MASK: u64 := 0x00FF_FFFF_C000_0000
  const PAGE_PPN1_MASK: u64 := 0x0000_0000_3FE0_0000
  const PAGE_PPN0_MASK: u64 := 0x0000_0000_001F_F000

  const PGD_SHIFT: nat := 30
  const PGD_SIZE: u64 := 0x4000_0000     // 1UL << PGD_SHIFT
  const PGD_MASK: u64 := Not(PGD_SIZE - 1)
  /** PAGE_SIZE / sizeof(pgd_entry_t) */
  const PGDE_PER_PGD: nat := 4096 / 8

  const PMD_SHIFT: nat := 21
  const PMD_SIZE: u64 := 0x20_0000       // 1UL << PMD_SHIFT
  const PMD_MASK: u64 := Not(PMD_SIZE - 1)
  const PMDE_PER_PMD: nat := Pow2(PGD_SHIFT - PMD_SHIFT)

  const PTE_SHIFT: nat := 12
  const PTE_SIZE: u64 := 0x1000          // 1UL << PTE_SHIFT
  const PTE_MASK: u64 := Not(PTE_SIZE - 1)
  const PTE_PER_PT: nat := Pow2(PMD_SHIFT - PTE_SHIFT)

  predicate IsValidPage(val: u64)
    ensures IsValidPage(val) == Bit(val, 0)
  {
    AndPow2(val, 0);
    And(val, PAGE_ATTR_VALID) != 0
  }

  predicate IsReadablePage(val: u64)
    ensures IsReadablePage(val) == Bit(val, 1)
  {
    AndPow2(val, 1);
    And(val, PAGE_ATTR_READ) != 0
  }

  predicate IsWritablePage(val: u64)
    ensures IsWritablePage(val) == Bit(val, 2)
  {
    AndPow2(val, 2);
    And(val, PAGE_ATTR_WRITE) != 0
  }

  predicate IsExecutablePage(val: u64)
    ensures IsExecutablePage(val) == Bit(val, 3)
  {
    AndPow2(val, 3);
    And(val, PAGE_ATTR_EXEC) != 0
  }

  predicate IsUserPage(val: u64)
    ensures IsUserPage(val) == Bit(val, 4)
  {
    AndPow2(val, 4);
    And(val, PAGE_ATTR_USER) != 0
  }

  predicate IsGlobalPage(val: u64)
    ensures IsGlobalPage(val) == Bit(val, 5)
  {
    AndPow2(val, 5);
    And(val, PAGE_ATTR_GLOBAL) != 0
  }

  predicate IsAccessedPage(val: u64)
    ensures IsAccessedPage(val) == Bit(val, 6)
  {
    AndPow2(val, 6);
    And(val, PAGE_ATTR_ACCESS) != 0
  }

  predicate IsDirtyPage(val: u64)
    ensures IsDirtyPage(val) == Bit(val, 7)
  {
    AndPow2(val, 7);
    And(val, PAGE_ATTR_DIRTY) != 0
  }

  /** A leaf entry is valid and grants at least one of read, write, execute. */
  predicate IsLeafPage(val: u64)
    ensures IsLeafPage(val) == (Bit(val, 0) && (Bit(val, 1) || Bit(val, 2) || Bit(val, 3)))
  {
    LeafMask(val);
    IsValidPage(val) && And(val, PAGE_ATTR_LEAF) != 0
  }

  lemma LeafMaskBits(n: nat)
    ensures PAGE_ATTR_LEAF == 14
    ensures Bit(PAGE_ATTR_LEAF, n) == (1 <= n < 4)
  {
    assert Or(2, 4) == 6;
    assert Or(6, 8) == 14;
    MaskBit(1, 4, n, PAGE_ATTR_LEAF);
  }

  lemma LeafMask(val: u64)
    ensures (And(val, PAGE_ATTR_LEAF) != 0) == (Bit(val, 1) || Bit(val, 2) || Bit(val, 3))
  {
    var m := And(val, PAGE_ATTR_LEAF);
    forall n: nat
      ensures Bit(m, n) == (1 <= n < 4 && Bit(val, n))
    {
      BitAnd(val, PAGE_ATTR_LEAF, n);
      LeafMaskBits(n);
    }
    if Bit(val, 1) || Bit(val, 2) || Bit(val, 3) {
      BitZero(1);
      BitZero(2);
      BitZero(3);
    } else {
      ZeroByBits(m);
    }
  }

  /** The value of 2^k for the shifts the paging code uses. */
  lemma Pow2Table()
    ensures Pow2(9) == 512 && Pow2(10) == 0x400 && Pow2(12) == 0x1000
    ensures Pow2(21) == 0x20_0000 && Pow2(30) == 0x4000_0000
    ensures Pow2(39) == 0x80_0000_0000 && Pow2(56) == 0x100_0000_0000_0000
  {
    assert Pow2(8) == 0x100;
    Pow2Add(8, 1);
    Pow2Add(8, 2);
    Pow2Add(8, 4);
    Pow2Add(12, 9);
    Pow2Add(21, 9);
    Pow2Add(30, 9);
    Pow2Add(30, 26);
    Pow2Add(21, 5);
    Pow2Add(8, 13);
    Pow2Add(4, 9);
  }

  /**
   * Every attribute bit, the two software bits included, lies below bit
   * PAGE_PFN_SHIFT, so attributes never overlap the frame number.
   */
  lemma AttributesBelowPfn(n: nat)
    requires n >= PAGE_PFN_SHIFT
    ensures !Bit(PAGE_ATTR_VALID, n) && !Bit(PAGE_ATTR_READ, n) && !Bit(PAGE_ATTR_WRITE, n)
    ensures !Bit(PAGE_ATTR_EXEC, n) && !Bit(PAGE_ATTR_USER, n) && !Bit(PAGE_ATTR_GLOBAL, n)
    ensures !Bit(PAGE_ATTR_ACCESS, n) && !Bit(PAGE_ATTR_DIRTY, n) && !Bit(PAGE_ATTR_SOFTWARE, n)
  {
    Pow2Table();
    BitBound(PAGE_ATTR_VALID, 10, n);
    BitBound(PAGE_ATTR_READ, 10, n);
    BitBound(PAGE_ATTR_WRITE, 10, n);
    BitBound(PAGE_ATTR_EXEC, 10, n);
    BitBound(PAGE_ATTR_USER, 10, n);
    BitBound(PAGE_ATTR_GLOBAL, 10, n);
    BitBound(PAGE_ATTR_ACCESS, 10, n);
    BitBound(PAGE_ATTR_DIRTY, 10, n);
    BitBound(PAGE_ATTR_SOFTWARE, 10, n);
  }

  /** The software field is exactly bits 8 and 9. */
  lemma SoftwareBits(n: nat)
    ensures Bit(PAGE_ATTR_SOFTWARE, n) == (8 <= n < 10)
  {
    Pow2Table();
    assert Pow2(2) == 4 && Pow2(8) == 256;
    MaskValue(8, 10);
    MaskBit(8, 10, n, PAGE_ATTR_SOFTWARE);
  }

  /** Each address mask selects the bits [lo, hi). */
  lemma AddressMaskBits(n: nat)
    ensures Bit(PAGE_OFFSET_MASK, n) == (n < 12)
    ensures Bit(PAGE_VPN0_MASK, n) == (12 <= n < 21)
    ensures Bit(PAGE_VPN1_MASK, n) == (21 <= n < 30)
    ensures Bit(PAGE_VPN2_MASK, n) == (30 <= n < 39)
    ensures Bit(PAGE_PPN0_MASK, n) == (12 <= n < 21)
    ensures Bit(PAGE_PPN1_MASK, n) == (21 <= n < 30)
    ensures Bit(PAGE_PPN2_MASK, n) == (30 <= n < 56)
  {
    Pow2Table();
    BitLowMask(12, n);
    RangeMaskBit(PAGE_VPN0_MASK, 12, 21, n);
    RangeMaskBit(PAGE_VPN1_MASK, 21, 30, n);
    RangeMaskBit(PAGE_VPN2_MASK, 30, 39, n);
    RangeMaskBit(PAGE_PPN2_MASK, 30, 56, n);
  }

  /** The mask 2^hi - 2^lo selects the bits [lo, hi). */
  lemma RangeMaskBit(m: nat, lo: nat, hi: nat, n: nat)
    requires lo <= hi && m == Pow2(hi) - Pow2(lo)
    ensures Bit(m, n) == (lo <= n < hi)
  {
    MaskValue(lo, hi);
    MaskBit(lo, hi, n, m);
  }

  /**
   * The offset and the three VPN masks are pairwise disjoint and together
   * cover exactly bits 0..38 of a virtual address.
   */
  lemma VirtualMasksPartition()
    ensures And(PAGE_OFFSET_MASK, PAGE_VPN0_MASK) == 0 && And(PAGE_OFFSET_MASK, PAGE_VPN1_MASK) == 0
    ensures And(PAGE_OFFSET_MASK, PAGE_VPN2_MASK) == 0 && And(PAGE_VPN0_MASK, PAGE_VPN1_MASK) == 0
    ensures And(PAGE_VPN0_MASK, PAGE_VPN2_MASK) == 0 && And(PAGE_VPN1_MASK, PAGE_VPN2_MASK) == 0
    ensures Or(Or(Or(PAGE_OFFSET_MASK, PAGE_VPN0_MASK), PAGE_VPN1_MASK), PAGE_VPN2_MASK) == Pow2(39) - 1
  {
    DisjointRanges(PAGE_OFFSET_MASK, 0, 12, PAGE_VPN0_MASK, 12, 21);
    DisjointRanges(PAGE_OFFSET_MASK, 0, 12, PAGE_VPN1_MASK, 21, 30);
    DisjointRanges(PAGE_OFFSET_MASK, 0, 12, PAGE_VPN2_MASK, 30, 39);
    DisjointRanges(PAGE_VPN0_MASK, 12, 21, PAGE_VPN1_MASK, 21, 30);
    DisjointRanges(PAGE_VPN0_MASK, 12, 21, PAGE_VPN2_MASK, 30, 39);
    DisjointRanges(PAGE_VPN1_MASK, 21, 30, PAGE_VPN2_MASK, 30, 39);
    var lowTwo := Or(PAGE_OFFSET_MASK, PAGE_VPN0_MASK);
    var lowThree := Or(lowTwo, PAGE_VPN1_MASK);
    MaskSelects(PAGE_OFFSET_MASK, 0, 12);
    AdjacentRanges(PAGE_OFFSET_MASK, 0, 12, PAGE_VPN0_MASK, 21);
    AdjacentRanges(lowTwo, 0, 21, PAGE_VPN1_MASK, 30);
    AdjacentRanges(lowThree, 0, 30, PAGE_VPN2_MASK, 39);
    Pow2Table();
    LowMaskByBits(Or(lowThree, PAGE_VPN2_MASK), 39);
  }

  /** Bit-level view of an address mask: it selects the bits [lo, hi). */
  ghost predicate SelectsBits(m: u64, lo: nat, hi: nat)
  {
    forall n: nat :: Bit(m, n) == (lo <= n < hi)
  }

  lemma MaskSelects(m: u64, lo: nat, hi: nat)
    requires (lo, hi) in {(0, 12), (12, 21), (21, 30), (30, 39), (30, 56)}
    requires m == (if lo == 0 then PAGE_OFFSET_MASK else if lo == 12 then PAGE_VPN0_MASK
                   else if lo == 21 then PAGE_VPN1_MASK else if hi == 39 then PAGE_VPN2_MASK
                   else PAGE_PPN2_MASK)
    ensures SelectsBits(m, lo, hi)
  {
    forall n: nat
      ensures Bit(m, n) == (lo <= n < hi)
    {
      AddressMaskBits(n);
    }
  }

  lemma DisjointRanges(a: u64, alo: nat, ahi: nat, b: u64, blo: nat, bhi: nat)
    requires (alo, ahi) in {(0, 12), (12, 21), (21, 30)} && (blo, bhi) in {(12, 21), (21, 30), (30, 39)}
    requires a == (if alo == 0 then PAGE_OFFSET_MASK else if alo == 12 then PAGE_VPN0_MASK else PAGE_VPN1_MASK)
    requires b == (if blo == 12 then PAGE_VPN0_MASK else if blo == 21 then PAGE_VPN1_MASK else PAGE_VPN2_MASK)
    requires ahi <= blo
    ensures And(a, b) == 0
  {
    MaskSelects(a, alo, ahi);
    MaskSelects(b, blo, bhi);
    forall n: nat | n < 64
      ensures !Bit(And(a, b), n)
    {
      BitAnd(a, b, n);
    }
    ZeroByBits(And(a, b));
  }

  /** Joining bits [0, mid) with bits [mid, hi) gives bits [0, hi). */
  lemma AdjacentRanges(a: u64, lo: nat, mid: nat, b: u64, hi: nat)
    requires lo == 0 && mid <= hi <= 64
    requires forall n: nat :: Bit(a, n) == (n < mid)
    requires (mid, hi) in {(12, 21), (21, 30), (30, 39)}
    requires b == (if mid == 12 then PAGE_VPN0_MASK else if mid == 21 then PAGE_VPN1_MASK else PAGE_VPN2_MASK)
    ensures Or(a, b) < WORD
    ensures forall n: nat :: Bit(Or(a, b), n) == (n < hi)
  {
    MaskSelects(b, mid, hi);
    Pow2Word();
    OrBound(a, b, 64);
    forall n: nat
      ensures Bit(Or(a, b), n) == (n < hi)
    {
      BitOr(a, b, n);
    }
  }

  /** A word whose set bits are exactly those below w is 2^w - 1. */
  lemma LowMaskByBits(a: u64, w: nat)
    requires w <= 64
    requires forall n: nat :: Bit(a, n) == (n < w)
    ensures a == Pow2(w) - 1
  {
    Pow2Word();
    Pow2Mono(w, 64);
    forall n: nat | n < 64
      ensures Bit(a, n) == Bit(Pow2(w) - 1, n)
    {
      BitLowMask(w, n);
    }
    BitsEq(a, Pow2(w) - 1, 64);
  }

  lemma ZeroByBits(a: u64)
    requires forall n: nat :: n < 64 ==> !Bit(a, n)
    ensures a == 0
  {
    Pow2Word();
    forall n: nat | n < 64
      ensures Bit(a, n) == Bit(0, n)
    {
      BitZero(n);
    }
    BitsEq(a, 0, 64);
  }

  /**
   * Each level's size is 2^shift, its mask clears exactly the bits below
   * that size, and every table has 512 entries.
   */
  lemma Geometry(a: u64)
    ensures PGD_SIZE == Pow2(30) == 0x4000_0000
    ensures PMD_SIZE == Pow2(21) == 0x20_0000
    ensures PTE_SIZE == Pow2(12) == 0x1000
    ensures And(a, PGD_MASK) == a / PGD_SIZE * PGD_SIZE
    ensures And(a, PMD_MASK) == a / PMD_SIZE * PMD_SIZE
    ensures And(a, PTE_MASK) == a / PTE_SIZE * PTE_SIZE
    ensures PGDE_PER_PGD == PMDE_PER_PMD == PTE_PER_PT == 512
  {
    Pow2Table();
    AndNotLow(a, 30);
    AndNotLow(a, 21);
    AndNotLow(a, 12);
  }
}
