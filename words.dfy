/**
 * Unsigned 64-bit machine words (`uint64_t`, `addr_t`) and the C operators
 * the kernel applies to them: `&`, `|`, `~`, `<<`, `>>` and the wrapping
 * `+` and `-`. A word is a non-negative integer below 2^64; the bitwise
 * operators are defined bit by bit, and the lemmas below relate them to
 * division and remainder by powers of two.
 */
module Words {

  const WORD: nat := 0x1_0000_0000_0000_0000
  type u64 = x: int | 0 <= x < WORD

  function Pow2(n: nat): (r: nat)
    ensures r >= 1
    ensures n >= 1 ==> r % 2 == 0
  {
    if n == 0 then 1 else 2 * Pow2(n - 1)
  }

  /** Bit n of a; bit 0 is the least significant. */
  predicate Bit(a: nat, n: nat)
    decreases n
  {
    if n == 0 then a % 2 == 1 else Bit(a / 2, n - 1)
  }

  /** C `a & b` */
  function And(a: nat, b: nat): (r: nat)
    ensures r <= a && r <= b
    decreases a
  {
    if a == 0 || b == 0 then 0
    else 2 * And(a / 2, b / 2) + (if a % 2 == 1 && b % 2 == 1 then 1 else 0)
  }

  /** C `a | b` */
  function Or(a: nat, b: nat): (r: nat)
    ensures a <= r <= a + b && b <= r
    decreases a + b
  {
    if a == 0 then b
    else if b == 0 then a
    else 2 * Or(a / 2, b / 2) + (if a % 2 == 1 || b % 2 == 1 then 1 else 0)
  }

  /** C `~a` on a 64-bit word */
  function Not(a: u64): (r: u64)
    ensures r + a == WORD - 1
  {
    WORD - 1 - a
  }

  /** C `a >> k` on an unsigned word */
  function Shr(a: u64, k: nat): (r: u64)
    ensures r * Pow2(k) <= a < (r + 1) * Pow2(k)
  {
    DivBounds(a, Pow2(k));
    a / Pow2(k)
  }

  /** C `a << k` on a 64-bit word: the bits shifted past bit 63 are lost. */
  function Shl(a: u64, k: nat): (r: u64)
    ensures a * Pow2(k) < WORD ==> r == a * Pow2(k)
  {
    (a * Pow2(k)) % WORD
  }

  /** C `a + b` on 64-bit words, wrapping modulo 2^64 */
  function Add(a: u64, b: u64): (r: u64)
    ensures a + b < WORD ==> r == a + b
    ensures a + b >= WORD ==> r == a + b - WORD
  {
    (a + b) % WORD
  }

  /** C `a - b` on 64-bit words, wrapping modulo 2^64 */
  function Sub(a: u64, b: u64): (r: u64)
    ensures b <= a ==> r == a - b
    ensures a < b ==> r == a - b + WORD
  {
    (a - b) % WORD
  }

  lemma Pow2Word()
    ensures Pow2(64) == WORD
  {
    assert Pow2(1) == 2;
    Pow2Add(1, 1);
    Pow2Add(2, 2);
    Pow2Add(4, 4);
    assert Pow2(8) == 0x100;
    Pow2Add(8, 8);
    assert Pow2(16) == 0x1_0000;
    Pow2Add(16, 16);
    assert Pow2(32) == 0x1_0000_0000;
    Pow2Add(32, 32);
  }

  lemma {:induction false} Pow2Add(m: nat, n: nat)
    ensures Pow2(m + n) == Pow2(m) * Pow2(n)
    decreases m
  {
    if m > 0 {
      Pow2Add(m - 1, n);
      assert Pow2(m + n) == 2 * Pow2(m - 1 + n);
      MulTwice(Pow2(m - 1), Pow2(n));
    }
  }

  lemma MulTwice(a: int, b: int)
    ensures 2 * (a * b) == (2 * a) * b
  {
  }

  lemma {:induction false} Pow2Mono(m: nat, n: nat)
    requires m <= n
    ensures Pow2(m) <= Pow2(n)
    decreases n
  {
    if m < n {
      Pow2Mono(m, n - 1);
    }
  }

  lemma {:induction false} BitZero(n: nat)
    ensures !Bit(0, n)
    decreases n
  {
    if n > 0 {
      BitZero(n - 1);
    }
  }

  lemma {:induction false} BitAnd(a: nat, b: nat, n: nat)
    ensures Bit(And(a, b), n) == (Bit(a, n) && Bit(b, n))
    decreases n
  {
    if a == 0 || b == 0 {
      BitZero(n);
    } else if n > 0 {
      BitAnd(a / 2, b / 2, n - 1);
    }
  }

  lemma {:induction false} BitOr(a: nat, b: nat, n: nat)
    ensures Bit(Or(a, b), n) == (Bit(a, n) || Bit(b, n))
    decreases n
  {
    if a == 0 || b == 0 {
      BitZero(n);
    } else if n > 0 {
      BitOr(a / 2, b / 2, n - 1);
    }
  }

  /** No bit at or above position w is set in a value below 2^w. */
  lemma {:induction false} BitBound(a: nat, w: nat, n: nat)
    requires a < Pow2(w) && w <= n
    ensures !Bit(a, n)
    decreases n
  {
    if n == 0 {
    } else if w == 0 {
      BitZero(n);
    } else {
      BitBound(a / 2, w - 1, n - 1);
    }
  }

  /** Two values below 2^w with the same w low bits are equal. */
  lemma {:induction false} BitsEq(a: nat, b: nat, w: nat)
    requires a < Pow2(w) && b < Pow2(w)
    requires forall n: nat :: n < w ==> Bit(a, n) == Bit(b, n)
    ensures a == b
    decreases w
  {
    if w > 0 {
      forall n: nat | n < w - 1
        ensures Bit(a / 2, n) == Bit(b / 2, n)
      {
        assert Bit(a, n + 1) == Bit(b, n + 1);
      }
      BitsEq(a / 2, b / 2, w - 1);
      assert Bit(a, 0) == Bit(b, 0);
    }
  }

  lemma {:induction false} BitDiv(a: nat, k: nat, n: nat, x: nat)
    requires x == a / Pow2(k)
    ensures Bit(x, n) == Bit(a, n + k)
    decreases k
  {
    if k > 0 {
      var p := Pow2(k - 1);
      assert Pow2(k) == 2 * p;
      DivDiv(a, 2, p);
      BitDiv(a / 2, k - 1, n, x);
    }
  }

  lemma {:induction false} BitMod(a: nat, k: nat, n: nat)
    ensures Bit(a % Pow2(k), n) == (n < k && Bit(a, n))
    decreases k
  {
    if k == 0 {
      BitZero(n);
    } else {
      var p := Pow2(k - 1);
      ModHalf(a, p);
      if n > 0 {
        BitMod(a / 2, k - 1, n - 1);
      }
    }
  }

  lemma {:induction false} BitMul(a: nat, k: nat, n: nat)
    ensures Bit(a * Pow2(k), n) == (n >= k && Bit(a, n - k))
    decreases k
  {
    if k > 0 {
      var p := Pow2(k - 1);
      assert a * Pow2(k) == 2 * (a * p);
      if n == 0 {
      } else {
        assert (a * Pow2(k)) / 2 == a * p;
        BitMul(a, k - 1, n - 1);
      }
    }
  }

  lemma {:induction false} BitPow2(k: nat, n: nat)
    ensures Bit(Pow2(k), n) == (n == k)
    decreases k
  {
    if k == 0 {
      if n > 0 {
        BitZero(n - 1);
      }
    } else if n > 0 {
      BitPow2(k - 1, n - 1);
    }
  }

  lemma {:induction false} BitLowMask(m: nat, n: nat)
    ensures Bit(Pow2(m) - 1, n) == (n < m)
    decreases m
  {
    if m == 0 {
      BitZero(n);
    } else if n > 0 {
      assert (Pow2(m) - 1) / 2 == Pow2(m - 1) - 1;
      BitLowMask(m - 1, n - 1);
    }
  }

  /** The bits of `~a` are the complements of the bits of a, below bit w. */
  lemma {:induction false} BitComplement(a: nat, w: nat, n: nat)
    requires a < Pow2(w) && n < w
    ensures Bit(Pow2(w) - 1 - a, n) == !Bit(a, n)
    decreases n
  {
    if n > 0 {
      assert (Pow2(w) - 1 - a) / 2 == Pow2(w - 1) - 1 - a / 2;
      BitComplement(a / 2, w - 1, n - 1);
    }
  }

  lemma BitNot(a: u64, n: nat)
    requires n < 64
    ensures Bit(Not(a), n) == !Bit(a, n)
  {
    Pow2Word();
    BitComplement(a, 64, n);
  }

  lemma {:induction false} OrDisjoint(a: nat, b: nat)
    requires forall n: nat :: !(Bit(a, n) && Bit(b, n))
    ensures Or(a, b) == a + b
    decreases a + b
  {
    if a != 0 && b != 0 {
      assert !(Bit(a, 0) && Bit(b, 0));
      forall n: nat
        ensures !(Bit(a / 2, n) && Bit(b / 2, n))
      {
        assert !(Bit(a, n + 1) && Bit(b, n + 1));
      }
      OrDisjoint(a / 2, b / 2);
    }
  }

  lemma {:induction false} OrBound(a: nat, b: nat, w: nat)
    requires a < Pow2(w) && b < Pow2(w)
    ensures Or(a, b) < Pow2(w)
    decreases w
  {
    if a != 0 && b != 0 {
      OrBound(a / 2, b / 2, w - 1);
    }
  }

  /** `a | b` of two words is a word. */
  lemma OrWord(a: u64, b: u64)
    ensures Or(a, b) < WORD
  {
    Pow2Word();
    OrBound(a, b, 64);
  }

  lemma DivDiv(a: nat, p: nat, q: nat)
    requires p > 0 && q > 0
    ensures a / (p * q) == (a / p) / q
  {
    var x := a / p;
    var y := x / q;
    var r := x % q;
    var s := a % p;
    assert a == p * x + s;
    assert x == q * y + r;
    MulSplit(p, q, y, r);
    MulLe(r, q - 1, p);
    MulSubOne(q, p);
    DivUnique(a, p * q, y, p * r + s);
  }

  lemma MulSplit(p: int, q: int, y: int, r: int)
    ensures p * (q * y + r) == (p * q) * y + p * r
  {
  }

  lemma MulSubOne(x: int, y: int)
    ensures (x - 1) * y == x * y - y
  {
  }

  /** Quotient and remainder bounds of `a / d`. */
  lemma DivBounds(a: nat, d: nat)
    requires d > 0
    ensures 0 <= a / d <= a
    ensures a / d * d <= a < (a / d + 1) * d
  {
    var x := a / d;
    assert a == d * x + a % d;
    MulLe(1, d, x);
    MulSubOne(x + 1, d);
  }

  /** A value between two with the same quotient has that quotient too. */
  lemma DivBetween(a: nat, v: nat, b: nat, d: nat)
    requires d > 0 && a <= v <= b && a / d == b / d
    ensures v / d == a / d
  {
    var q := a / d;
    DivBounds(a, d);
    DivBounds(b, d);
    DivUnique(v, d, q, v - q * d);
  }

  lemma DivUnique(a: int, d: int, q: int, r: int)
    requires d > 0 && 0 <= r < d && a == d * q + r
    ensures a / d == q && a % d == r
  {
    var k := a / d - q;
    assert d * k == r - a % d;
    MulSmall(d, k);
  }

  lemma MulSmall(d: int, k: int)
    requires d > 0 && -d < d * k < d
    ensures k == 0
  {
    if k > 0 {
      MulAtLeast(d, k);
    } else if k < 0 {
      MulAtLeast(d, -k);
    }
  }

  lemma MulAtLeast(d: int, k: int)
    requires d > 0 && k >= 1
    ensures d * k >= d
  {
  }

  lemma ModHalf(a: nat, p: nat)
    requires p >= 1
    ensures (a % (2 * p)) % 2 == a % 2
    ensures (a % (2 * p)) / 2 == (a / 2) % p
  {
    var h := a / 2;
    var q := h / p;
    assert a == 2 * h + a % 2;
    assert h == p * q + h % p;
    assert a == (2 * p) * q + (2 * (h % p) + a % 2);
    DivUnique(a, 2 * p, q, 2 * (h % p) + a % 2);
  }

  /** Masking with a single bit tests that bit. */
  lemma AndPow2(v: nat, n: nat)
    ensures (And(v, Pow2(n)) != 0) == Bit(v, n)
  {
    BitAnd(v, Pow2(n), n);
    BitPow2(n, n);
    if And(v, Pow2(n)) == 0 {
      BitZero(n);
    }
  }

  /** Masking with bits lo..hi-1 keeps exactly those bits of a. */
  lemma AndMask(a: u64, lo: nat, hi: nat)
    requires lo <= hi <= 64
    ensures Pow2(lo) <= Pow2(hi)
    ensures And(a, Pow2(hi) - Pow2(lo)) == (a / Pow2(lo)) % Pow2(hi - lo) * Pow2(lo)
  {
    Pow2Mono(lo, hi);
    var mask := (Pow2(hi - lo) - 1) * Pow2(lo);
    var r := (a / Pow2(lo)) % Pow2(hi - lo) * Pow2(lo);
    MaskValue(lo, hi);
    assert Pow2(hi) - Pow2(lo) == mask;
    FieldLe(a, Pow2(lo), Pow2(hi - lo));
    AndMaskOf(a, mask, r, lo, hi);
  }

  lemma MaskValue(lo: nat, hi: nat)
    requires lo <= hi
    ensures Pow2(hi) - Pow2(lo) == (Pow2(hi - lo) - 1) * Pow2(lo)
  {
    Pow2Add(hi - lo, lo);
    assert hi - lo + lo == hi;
    MulSubOne(Pow2(hi - lo), Pow2(lo));
  }

  lemma FieldLe(a: nat, p: nat, q: nat)
    requires p > 0 && q > 0
    ensures (a / p) % q * p <= a
  {
    var x := a / p;
    var f := x % q;
    assert f <= x;
    MulLe(f, x, p);
    assert x * p <= a;
  }

  lemma MulLe(f: nat, x: nat, p: nat)
    requires f <= x
    ensures f * p <= x * p
  {
  }

  lemma AndMaskOf(a: u64, mask: nat, r: nat, lo: nat, hi: nat)
    requires lo <= hi && mask == (Pow2(hi - lo) - 1) * Pow2(lo)
    requires r == (a / Pow2(lo)) % Pow2(hi - lo) * Pow2(lo) && r <= a
    ensures And(a, mask) == r
  {
    Pow2Word();
    DivBounds(a, Pow2(lo));
    var x: nat := a / Pow2(lo);
    var f: nat := x % Pow2(hi - lo);
    forall n: nat | n < 64
      ensures Bit(And(a, mask), n) == Bit(r, n)
    {
      BitAnd(a, mask, n);
      MaskBit(lo, hi, n, mask);
      FieldBitOf(a, x, f, r, lo, hi - lo, n);
    }
    BitsEq(And(a, mask), r, 64);
  }

  /** The mask (2^(hi-lo) - 1) * 2^lo has exactly the bits lo..hi-1. */
  lemma MaskBit(lo: nat, hi: nat, n: nat, mask: nat)
    requires lo <= hi && mask == (Pow2(hi - lo) - 1) * Pow2(lo)
    ensures Bit(mask, n) == (lo <= n < hi)
  {
    BitMul(Pow2(hi - lo) - 1, lo, n);
    if n >= lo {
      BitLowMask(hi - lo, n - lo);
    }
  }

  /** The field of m bits of a from bit lo, put back at bit lo, keeps exactly those bits of a. */
  lemma FieldBitOf(a: nat, x: nat, f: nat, r: nat, lo: nat, m: nat, n: nat)
    requires x == a / Pow2(lo) && f == x % Pow2(m) && r == f * Pow2(lo)
    ensures Bit(r, n) == (lo <= n < lo + m && Bit(a, n))
  {
    BitMul(f, lo, n);
    if n >= lo {
      BitMod(x, m, n - lo);
      BitDiv(a, lo, n - lo, x);
      assert n - lo + lo == n;
    }
  }

  /** `a & (2^k - 1)` is the remainder of a modulo 2^k. */
  lemma AndLow(a: u64, k: nat)
    requires k <= 64
    ensures And(a, Pow2(k) - 1) == a % Pow2(k)
  {
    AndMask(a, 0, k);
  }

  /** `a & ~(2^k - 1)` rounds a down to a multiple of 2^k. */
  lemma AndNotLow(a: u64, k: nat)
    requires k <= 64
    ensures Pow2(k) - 1 < WORD
    ensures And(a, Not(Pow2(k) - 1)) == a / Pow2(k) * Pow2(k)
  {
    Pow2Word();
    Pow2Mono(k, 64);
    AndMask(a, k, 64);
    Pow2Add(64 - k, k);
    ModSmallQuotient(a, Pow2(k), Pow2(64 - k));
  }

  lemma ModSmallQuotient(a: nat, p: nat, q: nat)
    requires p > 0 && a < q * p
    ensures (a / p) % q == a / p
  {
    DivLt(a, p, q);
    DivUnique(a / p, q, 0, a / p);
  }

  lemma DivLt(a: nat, p: nat, q: nat)
    requires p > 0 && a < q * p
    ensures a / p < q
  {
    if a / p >= q {
      MulLe(q, a / p, p);
      assert false;
    }
  }

  /**
   * Combining a multiple of 2^k with a value below 2^k by `|` is the same
   * as adding them.
   */
  lemma OrLow(x: nat, k: nat, lowPart: nat)
    requires lowPart < Pow2(k)
    ensures Or(x * Pow2(k), lowPart) == x * Pow2(k) + lowPart
  {
    forall n: nat
      ensures !(Bit(x * Pow2(k), n) && Bit(lowPart, n))
    {
      BitMul(x, k, n);
      if n >= k {
        BitBound(lowPart, k, n);
      }
    }
    OrDisjoint(x * Pow2(k), lowPart);
  }
}
