/**
 * Positional numerals: the digits of a number in a base, most significant
 * first, and the value a digit sequence denotes. Both `itoa` and the
 * formatter's number conversion produce these digits.
 */
module Numerals {
  import opened Words

  /** The digits of n in base, most significant first; zero is the single digit 0. */
  function Digits(n: nat, base: nat): (ds: seq<nat>)
    requires base >= 2
    ensures |ds| >= 1
    ensures forall i :: 0 <= i < |ds| ==> ds[i] < base
    decreases n
  {
    if n < base then [n] else Digits(Shift(n, base), base) + [n % base]
  }

  /** n without its last digit. */
  function Shift(n: nat, base: nat): (q: nat)
    requires base >= 2 && n >= base
    ensures 1 <= q < n && q == n / base
  {
    DivStep(n, base);
    n / base
  }

  /** Dividing off the last digit of a number of two or more digits. */
  lemma DivStep(n: nat, base: nat)
    requires base >= 2 && n >= base
    ensures 1 <= n / base < n
    ensures n == n / base * base + n % base && n % base < base
  {
    DivBounds(n, base);
    MulLe(2, base, n / base);
  }

  /** Dividing by a base of at least 2 at least halves. */
  lemma DivHalf(n: nat, base: nat, p: nat)
    requires base >= 2 && n < 2 * p
    ensures n / base < p
  {
    DivBounds(n, base);
    MulLe(2, base, n / base);
  }

  /** The number a digit sequence denotes in base. */
  function ValueOf(ds: seq<nat>, base: nat): nat
  {
    if |ds| == 0 then 0 else ValueOf(ds[..|ds| - 1], base) * base + ds[|ds| - 1]
  }

  /** A numeral without leading zeros: one digit, or a first digit other than 0. */
  predicate Canonical(ds: seq<nat>, base: nat)
  {
    && |ds| >= 1
    && (|ds| > 1 ==> ds[0] != 0)
    && (forall i :: 0 <= i < |ds| ==> ds[i] < base)
  }

  /** Reading the digits back gives the number, and there are no leading zeros. */
  lemma {:induction false} DigitsRoundTrip(n: nat, base: nat)
    requires base >= 2
    ensures ValueOf(Digits(n, base), base) == n
    ensures Canonical(Digits(n, base), base)
    decreases n
  {
    if n >= base {
      var q := Shift(n, base);
      DivStep(n, base);
      DigitsRoundTrip(q, base);
      var ds := Digits(n, base);
      assert ds[..|ds| - 1] == Digits(q, base);
      assert ds[0] == Digits(q, base)[0];
    }
  }

  /** A numeral with a nonzero first digit denotes at least that digit. */
  lemma {:induction false} ValueAtLeastFirst(ds: seq<nat>, base: nat)
    requires |ds| >= 1 && base >= 1
    ensures ValueOf(ds, base) >= ds[0]
    decreases |ds|
  {
    if |ds| > 1 {
      var init := ds[..|ds| - 1];
      ValueAtLeastFirst(init, base);
      assert init[0] == ds[0];
      MulAtLeastSelf(ValueOf(init, base), base);
    }
  }

  lemma MulAtLeastSelf(v: nat, base: nat)
    requires base >= 1
    ensures v * base >= v
  {
  }

  /** Every canonical numeral is the digit expansion of its value: the two definitions are inverse. */
  lemma {:induction false} ValueRoundTrip(ds: seq<nat>, base: nat)
    requires base >= 2 && Canonical(ds, base)
    ensures Digits(ValueOf(ds, base), base) == ds
    decreases |ds|
  {
    if |ds| == 1 {
      assert ds[..0] == [];
    } else {
      var init := ds[..|ds| - 1];
      var last := ds[|ds| - 1];
      assert init[0] == ds[0];
      ValueAtLeastFirst(init, base);
      var v := ValueOf(init, base);
      var n := ValueOf(ds, base);
      assert n == v * base + last;
      DivUnique(n, base, v, last);
      MulAtLeast(base, v);
      ValueRoundTrip(init, base);
    }
  }

  /** Below 2^k a number has at most k digits in any base, so 64 suffice for a u64. */
  lemma {:induction false} DigitsBound(n: nat, base: nat, k: nat)
    requires base >= 2 && k >= 1 && n < Pow2(k)
    ensures |Digits(n, base)| <= k
    decreases k
  {
    if n >= base {
      assert Pow2(k) == 2 * Pow2(k - 1);
      DivHalf(n, base, Pow2(k - 1));
      DigitsBound(Shift(n, base), base, k - 1);
    }
  }
}
