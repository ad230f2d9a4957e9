/**
 * The control-and-status-register field codec `SET_FIELD` and the
 * `mstatus` and `mcause` constants it is used with.
 *
 * `SET_FIELD(origin, which, fieldval)` clears the bits of the mask `which`
 * in origin and ors in fieldval shifted to the mask's lowest set bit; the
 * shift is written as a multiplication by that bit, `which & ~(which - 1)`,
 * and wraps in 64 bits. For a contiguous mask (bits lo..hi-1) and a value
 * that fits the field, the lemmas below show that the other bits are kept,
 * that the field reads back as fieldval, and that the last write wins.
 */
module Csr {
  import opened Words

  const PRIVILEGE_U: u64 := 0
  const PRIVILEGE_S: u64 := 1
  const PRIVILEGE_M: u64 := 3

  const INTR_DS: u64 := 0
  const INTR_EN: u64 := 1

  const MSTATUS_MPP_SHIFT: nat := 11
  const MSTATUS_MPP: u64 := Shl(3, MSTATUS_MPP_SHIFT)
  const MSTATUS_MPP_U: u64 := Shl(PRIVILEGE_U, MSTATUS_MPP_SHIFT)
  const MSTATUS_MPP_S: u64 := Shl(PRIVILEGE_S, MSTATUS_MPP_SHIFT)
  const MSTATUS_MPP_M: u64 := Shl(PRIVILEGE_M, MSTATUS_MPP_SHIFT)

  const MSTATUS_MPIE_SHIFT: nat := 7
  const MSTATUS_MPIE: u64 := Shl(1, MSTATUS_MPIE_SHIFT)
  const MSTATUS_MPIE_DS: u64 := Shl(INTR_DS, MSTATUS_MPIE_SHIFT)
  const MSTATUS_MPIE_EN: u64 := Shl(INTR_EN, MSTATUS_MPIE_SHIFT)

  /** Bit 63 of `mcause` (and `scause`) tells an interrupt from an exception. */
  const MCAUSE_INTERRUPT_FLAG: u64 := Shl(1, 63)

  const MCAUSE_MISALIGNED_FETCH: u64 := 0x00
  const MCAUSE_FETCH_ACCESS: u64 := 0x01
  const MCAUSE_ILLEGAL_INSTRUCTION: u64 := 0x02
  const MCAUSE_BREAKPOINT: u64 := 0x03
  const MCAUSE_MISALIGNED_LOAD: u64 := 0x04
  const MCAUSE_LOAD_ACCESS: u64 := 0x05
  const MCAUSE_MISALIGNED_STORE: u64 := 0x06
  const MCAUSE_STORE_ACCESS: u64 := 0x07
  const MCAUSE_USER_ECALL: u64 := 0x08
  const MCAUSE_SUPERVISOR_ECALL: u64 := 0x09
  const MCAUSE_VIRTUAL_SUPERVISOR_ECALL: u64 := 0x0A
  const MCAUSE_MACHINE_ECALL: u64 := 0x0B
  const MCAUSE_FETCH_PAGE_FAULT: u64 := 0x0C
  const MCAUSE_LOAD_PAGE_FAULT: u64 := 0x0D
  const MCAUSE_STORE_PAGE_FAULT: u64 := 0x0F
  const MCAUSE_FETCH_GUEST_PAGE_FAULT: u64 := 0x14
  const MCAUSE_LOAD_GUEST_PAGE_FAULT: u64 := 0x15
  const MCAUSE_VIRTUAL_INST_FAULT: u64 := 0x16
  const MCAUSE_STORE_GUEST_PAGE_FAULT: u64 := 0x17

  /** The exception codes the header names, in the order it lists them. */
  const MCAUSE_EXCEPTIONS: seq<u64> := [
    MCAUSE_MISALIGNED_FETCH, MCAUSE_FETCH_ACCESS, MCAUSE_ILLEGAL_INSTRUCTION, MCAUSE_BREAKPOINT,
    MCAUSE_MISALIGNED_LOAD, MCAUSE_LOAD_ACCESS, MCAUSE_MISALIGNED_STORE, MCAUSE_STORE_ACCESS,
    MCAUSE_USER_ECALL, MCAUSE_SUPERVISOR_ECALL, MCAUSE_VIRTUAL_SUPERVISOR_ECALL, MCAUSE_MACHINE_ECALL,
    MCAUSE_FETCH_PAGE_FAULT, MCAUSE_LOAD_PAGE_FAULT, MCAUSE_STORE_PAGE_FAULT,
    MCAUSE_FETCH_GUEST_PAGE_FAULT, MCAUSE_LOAD_GUEST_PAGE_FAULT, MCAUSE_VIRTUAL_INST_FAULT,
    MCAUSE_STORE_GUEST_PAGE_FAULT]

  /** `which & ~(which - 1)`: the lowest set bit of which (0 for 0). */
  function LowBit(which: u64): (r: u64)
    ensures r <= which
  {
    And(which, Not(Sub(which, 1)))
  }

  /** `SET_FIELD(origin, which, fieldval)`; the product wraps in 64 bits. */
  function SetField(origin: u64, which: u64, fieldval: u64): (r: u64)
  {
    var cleared := And(origin, Not(which));
    var placed := (fieldval * LowBit(which)) % WORD;
    OrWord(cleared, placed);
    Or(cleared, placed)
  }

  /** which is the contiguous mask of bits lo..hi-1. */
  ghost predicate Contiguous(which: u64, lo: nat, hi: nat)
  {
    lo < hi <= 64 && which == Pow2(hi) - Pow2(lo)
  }

  /** The powers of two a contiguous mask of bits lo..hi-1 is built from. */
  lemma MaskPowers(lo: nat, hi: nat)
    requires lo < hi <= 64
    ensures Pow2(hi) == Pow2(lo) * Pow2(hi - lo)
    ensures WORD == Pow2(lo) * (Pow2(hi - lo) * Pow2(64 - hi))
    ensures Pow2(hi - lo) >= 2 && Pow2(hi) <= WORD
    ensures Pow2(hi) - Pow2(lo) == (Pow2(hi - lo) - 1) * Pow2(lo)
  {
    Pow2Word();
    Pow2Add(lo, hi - lo);
    Pow2Add(hi - lo, 64 - hi);
    Pow2Add(lo, 64 - lo);
    assert lo + (hi - lo) == hi && (hi - lo) + (64 - hi) == 64 - lo && lo + (64 - lo) == 64;
    Pow2Mono(1, hi - lo);
    Pow2Mono(hi, 64);
    MaskValue(lo, hi);
  }

  /**
   * The arithmetic behind the lowest set bit: with W = p * q * b, the word
   * W - (p * q - p) is p times a number that is 1 modulo q.
   */
  lemma NotMaskArith(p: int, q: int, b: int, n: int)
    requires p >= 1 && q >= 2 && b >= 1
    requires n == p * (q * b) - (p * q - p)
    ensures 1 <= p * q - p < p * (q * b)
    ensures n / p == q * (b - 1) + 1 && (n / p) % q == 1
    ensures (n / p) % q * p == p
  {
    assert p * q - p == p * (q - 1);
    MulAtLeast(p, q - 1);
    assert p * (q * b) == (p * q) * b;
    MulAtLeast(p * q, b);
    assert n == p * (q * (b - 1) + 1) by {
      assert q * b == q * (b - 1) + q;
    }
    DivUnique(n, p, q * (b - 1) + 1, 0);
    DivUnique(q * (b - 1) + 1, q, b - 1, 1);
  }

  /** The lowest set bit of a contiguous mask is the bit it starts at. */
  lemma LowBitOfMask(which: u64, lo: nat, hi: nat)
    requires Contiguous(which, lo, hi)
    ensures LowBit(which) == Pow2(lo)
  {
    MaskPowers(lo, hi);
    var p, q, b := Pow2(lo), Pow2(hi - lo), Pow2(64 - hi);
    var n := WORD - which;
    NotMaskArith(p, q, b, n);
    assert Not(Sub(which, 1)) == n;
    AndFieldOne(n, which, lo, hi, p, q);
  }

  /** Masking with bits lo..hi-1 a word whose field there is 1 leaves just bit lo. */
  lemma AndFieldOne(n: u64, which: u64, lo: nat, hi: nat, p: nat, q: nat)
    requires lo <= hi <= 64 && which == Pow2(hi) - Pow2(lo)
    requires p == Pow2(lo) && q == Pow2(hi - lo) && (n / p) % q * p == p
    ensures And(which, n) == p
  {
    AndMask(n, lo, hi);
    AndCommutes(which, n);
  }

  lemma AndCommutes(a: u64, b: u64)
    ensures And(a, b) == And(b, a)
  {
    Pow2Word();
    forall n: nat | n < 64
      ensures Bit(And(a, b), n) == Bit(And(b, a), n)
    {
      BitAnd(a, b, n);
      BitAnd(b, a, n);
    }
    BitsEq(And(a, b), And(b, a), 64);
  }

  /** A value below q shifted by p still fits below p * q. */
  lemma PlacedFits(v: nat, p: nat, q: nat, w: nat)
    requires v < q && p * q <= w
    ensures v * p < w || p == 0
    ensures p > 0 ==> (v * p) % w == v * p
  {
    if p > 0 {
      MulLe(v + 1, q, p);
      DivUnique(v * p, w, 0, v * p);
    }
  }

  /** For a contiguous mask the multiplication places fieldval at bit lo without wrapping. */
  lemma SetFieldForm(origin: u64, which: u64, fieldval: u64, lo: nat, hi: nat)
    requires Contiguous(which, lo, hi) && fieldval < Pow2(hi - lo)
    ensures fieldval * Pow2(lo) < WORD
    ensures SetField(origin, which, fieldval) == Or(And(origin, Not(which)), fieldval * Pow2(lo))
  {
    MaskPowers(lo, hi);
    LowBitOfMask(which, lo, hi);
    PlacedFits(fieldval, Pow2(lo), Pow2(hi - lo), WORD);
  }

  /** One bit of SET_FIELD's result. */
  lemma SetFieldBitAt(origin: u64, which: u64, fieldval: u64, lo: nat, hi: nat, n: nat)
    requires Contiguous(which, lo, hi) && fieldval < Pow2(hi - lo) && n < 64
    ensures Bit(Or(And(origin, Not(which)), fieldval * Pow2(lo)), n) == if lo <= n < hi then Bit(fieldval, n - lo) else Bit(origin, n)
  {
    BitOr(And(origin, Not(which)), fieldval * Pow2(lo), n);
    ClearedBitAt(origin, which, lo, hi, n);
    PlacedBitAt(fieldval, lo, hi, n);
  }

  /** `origin & ~which` keeps the bits of origin outside the mask. */
  lemma ClearedBitAt(origin: u64, which: u64, lo: nat, hi: nat, n: nat)
    requires Contiguous(which, lo, hi) && n < 64
    ensures Bit(And(origin, Not(which)), n) == (!(lo <= n < hi) && Bit(origin, n))
  {
    MaskValue(lo, hi);
    BitAnd(origin, Not(which), n);
    BitNot(which, n);
    MaskBit(lo, hi, n, which);
  }

  /** fieldval placed at bit lo has its bits at lo..hi-1 only. */
  lemma PlacedBitAt(fieldval: nat, lo: nat, hi: nat, n: nat)
    requires lo <= hi && fieldval < Pow2(hi - lo)
    ensures Bit(fieldval * Pow2(lo), n) == (lo <= n < hi && Bit(fieldval, n - lo))
  {
    BitMul(fieldval, lo, n);
    if n >= hi {
      BitBound(fieldval, hi - lo, n - lo);
    }
  }

  /**
   * Bit by bit: inside the field SET_FIELD holds fieldval, outside it
   * holds origin.
   */
  lemma SetFieldBits(origin: u64, which: u64, fieldval: u64, lo: nat, hi: nat)
    requires Contiguous(which, lo, hi) && fieldval < Pow2(hi - lo)
    ensures forall n: nat :: n < 64 ==>
              Bit(SetField(origin, which, fieldval), n) == if lo <= n < hi then Bit(fieldval, n - lo) else Bit(origin, n)
  {
    SetFieldForm(origin, which, fieldval, lo, hi);
    forall n: nat | n < 64
      ensures Bit(SetField(origin, which, fieldval), n) == if lo <= n < hi then Bit(fieldval, n - lo) else Bit(origin, n)
    {
      SetFieldBitAt(origin, which, fieldval, lo, hi, n);
    }
  }

  /** Every bit outside a contiguous field is left as it was in origin. */
  lemma SetFieldKeepsOtherBits(origin: u64, which: u64, fieldval: u64, lo: nat, hi: nat, n: nat)
    requires Contiguous(which, lo, hi) && fieldval < Pow2(hi - lo)
    requires n < 64 && !(lo <= n < hi)
    ensures Bit(SetField(origin, which, fieldval), n) == Bit(origin, n)
  {
    SetFieldBits(origin, which, fieldval, lo, hi);
  }

  /**
   * Reading a field back, `(x & which) / lowbit(which)`: the inverse the
   * header's comment describes for `SET_FIELD`.
   */
  function GetField(x: u64, which: u64): (r: u64)
    requires LowBit(which) > 0
    ensures r <= x
  {
    Quotient(And(x, which), LowBit(which))
  }

  /** a / d, which never exceeds a. */
  function Quotient(a: nat, d: nat): (q: nat)
    requires d > 0
    ensures q <= a
  {
    DivBounds(a, d);
    a / d
  }

  /** One bit of `x & which` for a contiguous mask. */
  lemma AndMaskBitAt(x: u64, which: u64, lo: nat, hi: nat, n: nat)
    requires Contiguous(which, lo, hi)
    ensures Bit(And(x, which), n) == (lo <= n < hi && Bit(x, n))
  {
    BitAnd(x, which, n);
    MaskValue(lo, hi);
    MaskBit(lo, hi, n, which);
  }

  /** The read-back of a contiguous field is the number held in its bits. */
  lemma GetFieldValue(x: u64, which: u64, lo: nat, hi: nat)
    requires Contiguous(which, lo, hi)
    ensures LowBit(which) == Pow2(lo)
    ensures GetField(x, which) == (x / Pow2(lo)) % Pow2(hi - lo)
  {
    LowBitOfMask(which, lo, hi);
    AndMask(x, lo, hi);
    ExactDiv(And(x, which), (x / Pow2(lo)) % Pow2(hi - lo), Pow2(lo));
  }

  lemma ExactDiv(a: nat, f: nat, p: nat)
    requires p > 0 && a == f * p
    ensures a / p == f
  {
    DivUnique(a, p, f, 0);
  }

  /** Reading the field back gives fieldval. */
  lemma SetFieldReadBack(origin: u64, which: u64, fieldval: u64, lo: nat, hi: nat)
    requires Contiguous(which, lo, hi) && fieldval < Pow2(hi - lo)
    ensures LowBit(which) == Pow2(lo)
    ensures GetField(SetField(origin, which, fieldval), which) == fieldval
  {
    LowBitOfMask(which, lo, hi);
    SetFieldForm(origin, which, fieldval, lo, hi);
    SetFieldBits(origin, which, fieldval, lo, hi);
    var r := SetField(origin, which, fieldval);
    var placed := fieldval * Pow2(lo);
    forall n: nat | n < 64
      ensures Bit(And(r, which), n) == Bit(placed, n)
    {
      AndMaskBitAt(r, which, lo, hi, n);
      PlacedBitAt(fieldval, lo, hi, n);
    }
    Pow2Word();
    BitsEq(And(r, which), placed, 64);
    ExactDiv(And(r, which), fieldval, Pow2(lo));
  }

  /** Writing one field leaves the read-back of a disjoint field unchanged. */
  lemma SetFieldOtherField(origin: u64, which: u64, fieldval: u64, lo: nat, hi: nat, other: u64, lo2: nat, hi2: nat)
    requires Contiguous(which, lo, hi) && fieldval < Pow2(hi - lo)
    requires Contiguous(other, lo2, hi2) && (hi <= lo2 || hi2 <= lo)
    ensures LowBit(other) == Pow2(lo2)
    ensures GetField(SetField(origin, which, fieldval), other) == GetField(origin, other)
  {
    LowBitOfMask(other, lo2, hi2);
    SetFieldBits(origin, which, fieldval, lo, hi);
    var r := SetField(origin, which, fieldval);
    forall n: nat | n < 64
      ensures Bit(And(r, other), n) == Bit(And(origin, other), n)
    {
      AndMaskBitAt(r, other, lo2, hi2, n);
      AndMaskBitAt(origin, other, lo2, hi2, n);
    }
    Pow2Word();
    BitsEq(And(r, other), And(origin, other), 64);
  }

  /** A second write to the same field replaces the first; writing the same value twice is a no-op. */
  lemma SetFieldLastWins(origin: u64, which: u64, a: u64, b: u64, lo: nat, hi: nat)
    requires Contiguous(which, lo, hi) && a < Pow2(hi - lo) && b < Pow2(hi - lo)
    ensures SetField(SetField(origin, which, a), which, b) == SetField(origin, which, b)
  {
    Pow2Word();
    var once := SetField(origin, which, a);
    SetFieldBits(origin, which, a, lo, hi);
    SetFieldBits(once, which, b, lo, hi);
    SetFieldBits(origin, which, b, lo, hi);
    BitsEq(SetField(once, which, b), SetField(origin, which, b), 64);
  }

  /** Bits lo..hi-1 of x, counted from 0, are the bits of x from lo. */
  lemma FieldBitAt(x: u64, lo: nat, hi: nat, n: nat)
    requires lo <= n < hi
    ensures Bit((x / Pow2(lo)) % Pow2(hi - lo), n - lo) == Bit(x, n)
  {
    DivBounds(x, Pow2(lo));
    BitMod(x / Pow2(lo), hi - lo, n - lo);
    BitDiv(x, lo, n - lo, x / Pow2(lo));
    assert n - lo + lo == n;
  }

  /** Writing a field's own value back changes nothing: the other half of the read-back. */
  lemma SetFieldOwnValue(origin: u64, which: u64, lo: nat, hi: nat)
    requires Contiguous(which, lo, hi)
    ensures LowBit(which) == Pow2(lo)
    ensures GetField(origin, which) < Pow2(hi - lo)
    ensures SetField(origin, which, GetField(origin, which)) == origin
  {
    GetFieldValue(origin, which, lo, hi);
    var v := GetField(origin, which);
    SetFieldBits(origin, which, v, lo, hi);
    forall n: nat | n < 64
      ensures Bit(SetField(origin, which, v), n) == Bit(origin, n)
    {
      if lo <= n < hi {
        FieldBitAt(origin, lo, hi, n);
      }
    }
    Pow2Word();
    BitsEq(SetField(origin, which, v), origin, 64);
  }

  /** `MSTATUS_MPP` is bits 12:11 with U, S, M = 0, 1, 3; `MSTATUS_MPIE` is bit 7; the cause flag is bit 63. */
  lemma MstatusFields()
    ensures Contiguous(MSTATUS_MPP, 11, 13) && Pow2(13 - 11) == 4
    ensures MSTATUS_MPP_U == 0 * Pow2(11) && MSTATUS_MPP_S == 1 * Pow2(11) && MSTATUS_MPP_M == 3 * Pow2(11)
    ensures Contiguous(MSTATUS_MPIE, 7, 8) && Pow2(8 - 7) == 2
    ensures MSTATUS_MPIE_DS == 0 && MSTATUS_MPIE_EN == Pow2(7)
    ensures MCAUSE_INTERRUPT_FLAG == Pow2(63) && WORD == 2 * Pow2(63)
  {
    SmallPowers();
    CauseFlagBit();
  }

  /** Every exception code the header lists is below 0x18, so below the interrupt flag. */
  lemma ExceptionCodes()
    ensures forall c :: c in MCAUSE_EXCEPTIONS ==> c < 0x18
  {
  }

  lemma SmallPowers()
    ensures Pow2(1) == 2 && Pow2(2) == 4 && Pow2(7) == 0x80 && Pow2(8) == 0x100
    ensures Pow2(11) == 0x800 && Pow2(13) == 0x2000
  {
  }

  lemma CauseFlagBit()
    ensures MCAUSE_INTERRUPT_FLAG == Pow2(63) && WORD == 2 * Pow2(63)
  {
    Pow2Word();
    assert Pow2(64) == 2 * Pow2(63);
  }

  /**
   * The `mstatus` value `jump_to_kernel` writes back before `mret`:
   * `SET_FIELD(mval, MSTATUS_MPP, PRIVILEGE_S)` then
   * `SET_FIELD(mval, MSTATUS_MPIE, INTR_DS)`.
   */
  function KernelEntryStatus(mstatus: u64): (r: u64)
  {
    SetField(SetField(mstatus, MSTATUS_MPP, PRIVILEGE_S), MSTATUS_MPIE, INTR_DS)
  }

  /** After the two writes MPP reads S, MPIE reads 0, and every other bit of mstatus is kept. */
  lemma KernelEntryStatusFields(mstatus: u64)
    ensures LowBit(MSTATUS_MPP) > 0 && LowBit(MSTATUS_MPIE) > 0
    ensures GetField(KernelEntryStatus(mstatus), MSTATUS_MPP) == PRIVILEGE_S
    ensures GetField(KernelEntryStatus(mstatus), MSTATUS_MPIE) == INTR_DS
    ensures forall n: nat :: n < 64 && n != 7 && n != 11 && n != 12 ==>
              Bit(KernelEntryStatus(mstatus), n) == Bit(mstatus, n)
  {
    MstatusFields();
    var s := SetField(mstatus, MSTATUS_MPP, PRIVILEGE_S);
    SetFieldReadBack(mstatus, MSTATUS_MPP, PRIVILEGE_S, 11, 13);
    SetFieldOtherField(s, MSTATUS_MPIE, INTR_DS, 7, 8, MSTATUS_MPP, 11, 13);
    SetFieldReadBack(s, MSTATUS_MPIE, INTR_DS, 7, 8);
    SetFieldBits(mstatus, MSTATUS_MPP, PRIVILEGE_S, 11, 13);
    SetFieldBits(s, MSTATUS_MPIE, INTR_DS, 7, 8);
  }

  /**
   * The split both trap dispatchers make of a cause value:
   * `(cause & FLAG) != 0` and `cause & ~FLAG`.
   */
  function SplitCause(cause: u64): (r: (bool, u64))
  {
    (And(cause, MCAUSE_INTERRUPT_FLAG) != 0, And(cause, Not(MCAUSE_INTERRUPT_FLAG)))
  }

  /** A number below 2p is its quotient by p, 0 or 1, times p plus its remainder. */
  lemma HighSplit(c: nat, p: nat, q: nat)
    requires p > 0 && c < 2 * p && q == c / p
    ensures q < 2 && c == q * p + c % p
  {
    DivLt(c, p, 2);
  }

  /** The flag half of the split is bit 63 of the cause. */
  lemma SplitCauseFlag(cause: u64)
    ensures SplitCause(cause).0 <==> Bit(cause, 63)
  {
    CauseFlagBit();
    AndPow2(cause, 63);
  }

  /** The code half of the split is the cause without bit 63. */
  lemma SplitCauseCode(cause: u64)
    ensures SplitCause(cause).1 == cause % Pow2(63)
  {
    CauseFlagBit();
    assert Not(MCAUSE_INTERRUPT_FLAG) == Pow2(63) - 1;
    AndLow(cause, 63);
  }

  /** The split reads bit 63 and the remaining 63 bits, and puts the cause back together. */
  lemma SplitCauseParts(cause: u64)
    ensures SplitCause(cause).0 <==> Bit(cause, 63)
    ensures SplitCause(cause).1 == cause % Pow2(63)
    ensures cause == (if SplitCause(cause).0 then Pow2(63) else 0) + SplitCause(cause).1
  {
    SplitCauseFlag(cause);
    SplitCauseCode(cause);
    CauseFlagBit();
    var q := cause / Pow2(63);
    HighSplit(cause, Pow2(63), q);
    BitDiv(cause, 63, 0, q);
  }

  /** A cause below 2^63 is an exception with itself as its code. */
  lemma SplitExceptionCause(code: u64)
    requires code < Pow2(63)
    ensures SplitCause(code) == (false, code)
  {
    SplitCauseParts(code);
    BitBound(code, 63, 63);
  }
}
