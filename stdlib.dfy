/**
 * `itoa`: the digits of an unsigned 64-bit number in a base, written most
 * significant first through a pointer that is advanced past each digit.
 * The pointer is modelled as a position in a byte buffer; the method
 * returns where it ends.
 */
module Stdlib {
  import opened Words
  import opened CString
  import opened Numerals

  /** The character of one digit: '0'..'9', then 'A' onwards, truncated to a char. */
  function ItoaChar(d: nat): (c: byte)
    requires d < 256
    ensures d < 10 ==> '0' as int <= c <= '9' as int && CharValue(c) == d
    ensures 10 <= d < 36 ==> 'A' as int <= c <= 'Z' as int && CharValue(c) == d
  {
    if d < 10 then d + '0' as int else (d - 10 + 'A' as int) % 256
  }

  /** The text `itoa` writes for integer in base. */
  function ItoaText(integer: nat, base: nat): (t: seq<byte>)
    requires 2 <= base < 256
    ensures |t| == |Digits(integer, base)|
  {
    var ds := Digits(integer, base);
    seq(|ds|, i requires 0 <= i < |ds| => ItoaChar(ds[i]))
  }

  /**
   * `itoa`: the digits of the quotient first (by recursion), then the
   * remainder's digit. Base 0 divides by zero and base 1 never terminates,
   * so the base must be at least 2; no NUL is written.
   */
  method Itoa(integer: u64, buf: array<byte>, pos: nat, base: nat) returns (end: nat)
    requires 2 <= base < 256
    requires pos + |Digits(integer, base)| <= buf.Length
    modifies buf
    ensures end == pos + |Digits(integer, base)|
    ensures buf[..] == old(buf[..pos]) + ItoaText(integer, base) + old(buf[end..])
    decreases integer
  {
    var remain := integer % base;
    var quotient := integer / base;
    QuotientZero(integer, base);
    ItoaTextStep(integer, base);
    ghost var front: seq<byte> := [];
    end := pos;
    if quotient != 0 {
      front := ItoaText(Shift(integer, base), base);
      end := Itoa(quotient, buf, pos, base);
    } else {
      assert old(buf[..]) == old(buf[..pos]) + [] + old(buf[pos..]);
    }
    ghost var mid := buf[..];
    assert mid == old(buf[..pos]) + front + old(buf[end..]);
    assert ItoaText(integer, base) == front + [ItoaChar(remain)];
    buf[end] := ItoaChar(remain);
    SpliceLast(mid, old(buf[..pos]), front, old(buf[end..]), ItoaChar(remain));
    assert old(buf[end..])[1..] == old(buf[end + 1..]);
    assert buf[..] == old(buf[..pos]) + ItoaText(integer, base) + old(buf[end + 1..]);
    end := end + 1;
  }

  /** Whether the recursion goes on: the quotient is zero exactly below the base, and then the remainder is the number. */
  lemma QuotientZero(n: nat, base: nat)
    requires base >= 2
    ensures n / base == 0 <==> n < base
    ensures n < base ==> n % base == n
  {
    DivBounds(n, base);
  }

  /** Writing one byte just after a written run extends the run. */
  lemma SpliceLast(m: seq<byte>, a: seq<byte>, t: seq<byte>, b: seq<byte>, c: byte)
    requires m == a + t + b && |b| >= 1
    ensures m[|a| + |t| := c] == a + (t + [c]) + b[1..]
  {
  }

  /** One step of the recursion: the text of n is the text of n / base and the last digit's character. */
  lemma ItoaTextStep(n: nat, base: nat)
    requires 2 <= base < 256
    ensures n < base ==> ItoaText(n, base) == [ItoaChar(n)]
    ensures n >= base ==> ItoaText(n, base) == ItoaText(Shift(n, base), base) + [ItoaChar(n % base)]
  {
  }

  /** The value of a character `itoa` writes, for bases up to 36. */
  function CharValue(c: byte): nat
  {
    if '0' as int <= c <= '9' as int then c - '0' as int
    else if 'A' as int <= c <= 'Z' as int then c - 'A' as int + 10
    else 0
  }

  /** The number a numeral text denotes in base. */
  function ReadText(t: seq<byte>, base: nat): nat
  {
    ValueOf(seq(|t|, i requires 0 <= i < |t| => CharValue(t[i])), base)
  }

  /**
   * For bases up to 36, reading the text back in the same base gives the
   * integer; the text never starts with '0' unless it is "0".
   */
  lemma ItoaRoundTrip(integer: nat, base: nat)
    requires 2 <= base <= 36
    ensures ReadText(ItoaText(integer, base), base) == integer
    ensures |ItoaText(integer, base)| > 1 ==> ItoaText(integer, base)[0] != '0' as int
  {
    var ds := Digits(integer, base);
    var t := ItoaText(integer, base);
    DigitsRoundTrip(integer, base);
    assert seq(|t|, i requires 0 <= i < |t| => CharValue(t[i])) == ds;
  }

  /** At most 64 characters are written for any u64. */
  lemma ItoaLength(integer: u64, base: nat)
    requires 2 <= base < 256
    ensures 1 <= |ItoaText(integer, base)| <= 64
  {
    Pow2Word();
    DigitsBound(integer, base, 64);
  }

  /** The examples of the `itoa` documentation. */
  lemma ItoaExamples()
    ensures ItoaText(6, 2) == Ascii("110")
    ensures ItoaText(23, 8) == Ascii("27")
    ensures ItoaText(47, 16) == Ascii("2F")
    ensures ItoaText(0, 10) == Ascii("0")
  {
    assert Digits(6, 2) == [1, 1, 0] by {
      assert Shift(6, 2) == 3 && Shift(3, 2) == 1;
    }
    assert Digits(23, 8) == [2, 7] by {
      assert Shift(23, 8) == 2;
    }
    assert Digits(47, 16) == [2, 15] by {
      assert Shift(47, 16) == 2;
    }
  }
}
