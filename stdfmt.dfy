/**
 * The kernel's printf-style formatter. `vsprintf` walks a format string,
 * copying ordinary characters and expanding each conversion
 * `%[flags][width][.precision][length]type` from the next argument, and
 * `copy_number` renders one integer. Output goes through a pointer into a
 * byte buffer, modelled as a position in an array; the variadic arguments
 * are a sequence of argument slots.
 */
module Stdfmt {
  import opened Words
  import opened Options
  import opened CString
  import opened Numerals

  /**
   * The flag and type bits of a conversion, one field per bit:
   * FLAG_ZEROPAD 1, FLAG_PLUS 2, FLAG_SPACE 4, FLAG_LEFT 8, FLAG_SUFFIX 16,
   * TYPE_SIGN 32 and TYPE_CAPITAL 64.
   */
  datatype Flags = Flags(zeropad: bool, plus: bool, space: bool, left: bool, suffix: bool, sign: bool, capital: bool)

  const NO_FLAGS := Flags(false, false, false, false, false, false, false)

  predicate IsDigit(c: byte)
  {
    '0' as int <= c <= '9' as int
  }

  /** The byte at i of a string, reading NUL at and past the end of the sequence. */
  function At(s: seq<byte>, i: nat): byte
  {
    if i < |s| then s[i] else NUL
  }

  // ---------------------------------------------------------------- _scan_number

  /** Where the run of digits that starts at i ends: the first non-digit at or after i. */
  function DigitRunEnd(s: seq<byte>, i: nat): (e: nat)
    requires i <= |s|
    ensures i <= e <= |s|
    ensures forall j :: i <= j < e ==> IsDigit(s[j])
    ensures !IsDigit(At(s, e))
    decreases |s| - i
  {
    if IsDigit(At(s, i)) then DigitRunEnd(s, i + 1) else i
  }

  function DigitValue(c: byte): nat
  {
    if IsDigit(c) then c - '0' as int else 0
  }

  /** The number a run of decimal digits denotes. */
  function DecimalValue(ds: seq<byte>): nat
  {
    ValueOf(seq(|ds|, j requires 0 <= j < |ds| => DigitValue(ds[j])), 10)
  }

  /** Reading one more digit multiplies what was read by ten and adds the digit. */
  lemma DecimalStep(ds: seq<byte>)
    requires |ds| >= 1
    ensures DecimalValue(ds) == DecimalValue(ds[..|ds| - 1]) * 10 + DigitValue(ds[|ds| - 1])
  {
    var vs := seq(|ds|, j requires 0 <= j < |ds| => DigitValue(ds[j]));
    var init := ds[..|ds| - 1];
    assert vs[..|vs| - 1] == seq(|init|, j requires 0 <= j < |init| => DigitValue(init[j]));
  }

  /**
   * `_scan_number`: consumes the maximal run of digits starting at p and
   * returns the position just past it with the run's decimal value.
   */
  method ScanNumber(s: seq<byte>, p: nat) returns (end: nat, num: nat)
    requires p <= |s|
    ensures end == DigitRunEnd(s, p)
    ensures num == DecimalValue(s[p..end])
  {
    var tmp := 0;
    end := p;
    while IsDigit(At(s, end))
      invariant p <= end <= DigitRunEnd(s, p)
      invariant tmp == DecimalValue(s[p..end])
      decreases |s| - end
    {
      DecimalStep(s[p..end + 1]);
      assert s[p..end + 1][..end - p] == s[p..end];
      tmp := tmp * 10;
      tmp := tmp + (s[end] - '0' as int);
      end := end + 1;
    }
    num := tmp;
  }

  // ---------------------------------------------------------------- copy_number

  /** One digit's character from the table "0123456789abc…z", or "…ABC…Z" under TYPE_CAPITAL. */
  function DigitChar(d: nat, capital: bool): byte
    requires d < 36
  {
    if d < 10 then '0' as int + d else (if capital then 'A' as int else 'a' as int) + d - 10
  }

  function DigitsText(ds: seq<nat>, capital: bool): (t: seq<byte>)
    requires forall i :: 0 <= i < |ds| ==> ds[i] < 36
    ensures |t| == |ds|
  {
    seq(|ds|, i requires 0 <= i < |ds| => DigitChar(ds[i], capital))
  }

  /** n copies of c; none when n is zero or negative. */
  function Repeat(c: byte, n: int): (r: seq<byte>)
    ensures |r| == if n > 0 then n else 0
  {
    seq(if n > 0 then n else 0, _ => c)
  }

  /** The '#' prefix: "0b", "0" or "0x" for bases 2, 8 and 16, nothing otherwise. */
  function Prefix(base: int, suffix: bool): seq<byte>
  {
    if !suffix then []
    else if base == 2 then Ascii("0b")
    else if base == 8 then Ascii("0")
    else if base == 16 then Ascii("0x")
    else []
  }

  /**
   * The sign character (NUL for none) and the magnitude printed: a signed
   * conversion of a number whose top bit is set prints '-' and its
   * two's-complement negation; otherwise '+' or ' ' under FLAG_PLUS or
   * FLAG_SPACE.
   */
  function SignOf(num: u64, flag: Flags): (r: (byte, u64))
    ensures r.0 == '-' as int <==> flag.sign && num >= 0x8000_0000_0000_0000
    ensures r.0 == NUL || r.0 == '-' as int || r.0 == '+' as int || r.0 == ' ' as int
    ensures flag.sign ==> r.1 == if num >= 0x8000_0000_0000_0000 then -(num - WORD) else num
    ensures !flag.sign ==> r == (NUL, num)
  {
    if flag.sign && num >= 0x8000_0000_0000_0000 then ('-' as int, WORD - num)
    else if flag.sign && flag.plus then ('+' as int, num)
    else if flag.sign && flag.space then (' ' as int, num)
    else (NUL, num)
  }

  function SignText(sign: byte): seq<byte>
  {
    if sign == NUL then [] else [sign]
  }

  /** The digits of mag, padded with '0's in front to at least precision digits. */
  function Body(mag: nat, base: nat, precision: int, capital: bool): (r: seq<byte>)
    requires 2 <= base <= 36
    ensures |r| == if precision > |Digits(mag, base)| then precision else |Digits(mag, base)|
  {
    var ds := Digits(mag, base);
    Repeat('0' as int, precision - |ds|) + DigitsText(ds, capital)
  }

  /** What is printed before the padding zeros: the sign and the prefix. */
  function Head(num: u64, base: nat, flag: Flags): seq<byte>
  {
    SignText(SignOf(num, flag).0) + Prefix(base, flag.suffix)
  }

  /** FLAG_LEFT clears FLAG_ZEROPAD. */
  function Effective(flag: Flags): (g: Flags)
    ensures !(g.left && g.zeropad)
    ensures g.(zeropad := flag.zeropad) == flag
    ensures !flag.left ==> g == flag
  {
    if flag.left then flag.(zeropad := false) else flag
  }

  /**
   * The text `copy_number` writes. The field is width wide when the number
   * fits: a left-justified number is followed by spaces, a right-justified
   * one is preceded by '0's (after the sign and prefix) or by spaces (before
   * them). minusCounted says whether a '-' sign counts against the width.
   */
  function NumberLayout(num: u64, base: int, width: int, precision: int, flag: Flags, minusCounted: bool): (r: Option<seq<byte>>)
    ensures r.Some? <==> 2 <= base <= 36
  {
    if base < 2 || base > 36 then None
    else
      var f := Effective(flag);
      var head := Head(num, base, f);
      var body := Body(SignOf(num, f).1, base, precision, f.capital);
      var counted := if SignOf(num, f).0 == '-' as int && !minusCounted then |head| - 1 else |head|;
      var w := width - counted - |body|;
      Some(if f.left then head + body + Repeat(' ' as int, w)
           else if f.zeropad then head + Repeat('0' as int, w) + body
           else Repeat(' ' as int, w) + head + body)
  }

  /** `copy_number` as corrected: the '-' sign takes one column of the width, like '+' and ' '. */
  function NumberText(num: u64, base: int, width: int, precision: int, flag: Flags): (r: Option<seq<byte>>)
    ensures r.Some? <==> 2 <= base <= 36
  {
    NumberLayout(num, base, width, precision, flag, true)
  }

  /** `copy_number` as written: the width is not reduced for a '-' sign. */
  function NumberTextAsWritten(num: u64, base: int, width: int, precision: int, flag: Flags): (r: Option<seq<byte>>)
    ensures r.Some? <==> 2 <= base <= 36
  {
    NumberLayout(num, base, width, precision, flag, false)
  }

  /**
   * The output written so far: the buffer holds its original contents S
   * with out written at pos; the pointer stands at pos + |out|.
   */
  ghost predicate WrittenAt(cur: seq<byte>, S: seq<byte>, pos: nat, out: seq<byte>)
  {
    pos + |out| <= |S| && cur == S[..pos] + out + S[pos + |out|..]
  }

  /** Writing seg just after out extends out by seg. */
  lemma Extend(cur: seq<byte>, next: seq<byte>, S: seq<byte>, pos: nat, out: seq<byte>, seg: seq<byte>)
    requires WrittenAt(cur, S, pos, out)
    requires pos + |out| + |seg| <= |S|
    requires next == cur[..pos + |out|] + seg + cur[pos + |out| + |seg|..]
    ensures WrittenAt(next, S, pos, out + seg)
  {
    assert cur[..pos + |out|] == S[..pos] + out;
    assert cur[pos + |out| + |seg|..] == S[pos + |out| + |seg|..];
  }

  /** `*str++ = c`: one byte at the pointer, which moves past it. */
  method PutChar(str: array<byte>, p: nat, c: byte, ghost S: seq<byte>, ghost pos: nat, ghost out: seq<byte>)
      returns (end: nat)
    requires WrittenAt(str[..], S, pos, out) && p == pos + |out| && p < str.Length
    modifies str
    ensures end == p + 1
    ensures WrittenAt(str[..], S, pos, out + [c])
  {
    str[p] := c;
    assert str[..] == old(str[..p]) + [c] + old(str[p + 1..]);
    Extend(old(str[..]), str[..], S, pos, out, [c]);
    end := p + 1;
  }

  /**
   * `while (n-- > 0) *str++ = c;`: writes n copies of c (none when n is not
   * positive) and returns where the pointer ends and the counter's final
   * value, which the last, failing test also decremented.
   */
  method Pad(str: array<byte>, p: nat, c: byte, n: int, ghost S: seq<byte>, ghost pos: nat, ghost out: seq<byte>)
      returns (end: nat, rest: int)
    requires WrittenAt(str[..], S, pos, out) && p == pos + |out| && p + |Repeat(c, n)| <= str.Length
    modifies str
    ensures end == p + |Repeat(c, n)|
    ensures rest == (if n > 0 then 0 else n) - 1
    ensures WrittenAt(str[..], S, pos, out + Repeat(c, n))
  {
    end := p;
    rest := n;
    while rest > 0
      invariant p <= end <= p + |Repeat(c, n)|
      invariant rest == n - (end - p) || (rest <= 0 && rest == n)
      invariant rest > 0 ==> end - p + rest == n
      invariant forall j :: 0 <= j < p ==> str[j] == old(str[j])
      invariant forall j :: p <= j < end ==> str[j] == c
      invariant forall j :: end <= j < str.Length ==> str[j] == old(str[j])
    {
      rest := rest - 1;
      str[end] := c;
      end := end + 1;
    }
    assert end == p + |Repeat(c, n)|;
    rest := rest - 1;
    Spliced(str[..], old(str[..]), p, Repeat(c, n));
    Extend(old(str[..]), str[..], S, pos, out, Repeat(c, n));
  }

  /** s in the opposite order. */
  function Reverse<T>(s: seq<T>): (r: seq<T>)
    ensures |r| == |s|
  {
    seq(|s|, j requires 0 <= j < |s| => s[|s| - 1 - j])
  }

  /** The digits of n least significant first, in the order `do_div` produces them; none for 0. */
  function LowDigits(n: nat, base: nat): (ds: seq<nat>)
    requires base >= 2
    ensures forall j :: 0 <= j < |ds| ==> ds[j] < base
    decreases n
  {
    if n == 0 then [] else DigitsLast(n, base); [n % base] + LowDigits(n / base, base)
  }

  /** Dividing off the last digit: the digits of n are those of n / base (none once it is 0) and then n % base. */
  lemma DigitsLast(n: nat, base: nat)
    requires 2 <= base && n > 0
    ensures 0 <= n / base < n && n % base < base
    ensures Digits(n, base) == (if n / base > 0 then Digits(n / base, base) else []) + [n % base]
  {
    DivBounds(n, base);
    if n >= base {
      DivStep(n, base);
    }
  }

  /** For a positive number, repeated division yields the numeral's digits backwards. */
  lemma {:induction false} LowDigitsReversed(n: nat, base: nat)
    requires base >= 2 && n > 0
    ensures Digits(n, base) == Reverse(LowDigits(n, base))
    decreases n
  {
    DigitsLast(n, base);
    var low := LowDigits(n, base);
    assert low == [n % base] + LowDigits(n / base, base);
    if n / base > 0 {
      LowDigitsReversed(n / base, base);
      assert Reverse(low) == Reverse(LowDigits(n / base, base)) + [n % base];
    } else {
      assert low == [n % base];
    }
  }

  /** The digits `copy_number` stores in `char_num`: least significant first, the single 0 for zero. */
  function StoredDigits(num: nat, base: nat): (ds: seq<nat>)
    requires base >= 2
    ensures forall j :: 0 <= j < |ds| ==> ds[j] < base
  {
    if num == 0 then [0] else LowDigits(num, base)
  }

  /** Stored digits read backwards, as characters, are the numeral's text, of at most 64 digits for a u64. */
  lemma StoredText(num: u64, base: nat, capital: bool, cs: seq<byte>)
    requires 2 <= base <= 36
    requires |cs| == |StoredDigits(num, base)|
    requires forall j :: 0 <= j < |cs| ==> cs[j] == DigitChar(StoredDigits(num, base)[j], capital)
    ensures |cs| == |Digits(num, base)|
    ensures Reverse(cs) == DigitsText(Digits(num, base), capital)
  {
    if num > 0 {
      LowDigitsReversed(num, base);
    }
  }

  /** A u64 has at most 64 stored digits, so `char_num` never overflows. */
  lemma StoredBound(num: u64, base: nat)
    requires 2 <= base
    ensures |StoredDigits(num, base)| <= 64
  {
    Pow2Word();
    DigitsBound(num, base, 64);
    if num > 0 {
      LowDigitsReversed(num, base);
    }
  }

  /**
   * `char_num`: the digits of num in base, least significant first, in a
   * 128-byte local buffer; i is how many there are. Zero is the single
   * digit '0'.
   */
  method ConvertDigits(num: u64, base: nat, capital: bool) returns (charNum: array<byte>, i: nat)
    requires 2 <= base <= 36
    ensures fresh(charNum) && charNum.Length == 128
    ensures i == |StoredDigits(num, base)| <= 64
    ensures forall j :: 0 <= j < i ==> charNum[j] == DigitChar(StoredDigits(num, base)[j], capital)
  {
    charNum := new byte[128];
    i := 0;
    if num == 0 {
      charNum[i] := '0' as int;
      i := i + 1;
    } else {
      StoredBound(num, base);
      var n: nat := num;
      ghost var low: seq<nat> := [];
      while n != 0
        invariant LowDigits(num, base) == low + LowDigits(n, base)
        invariant i == |low|
        invariant forall j :: 0 <= j < i ==> low[j] < base && charNum[j] == DigitChar(low[j], capital)
        decreases n
      {
        var d := n % base;
        DigitsLast(n, base);
        assert LowDigits(n, base) == [d] + LowDigits(n / base, base);
        charNum[i] := DigitChar(d, capital);
        low := low + [d];
        i := i + 1;
        n := n / base;
      }
    }
  }

  /** `while (i-- > 0) *str++ = char_num[i];`: the stored digits, most significant first. */
  method EmitReversed(str: array<byte>, p: nat, charNum: array<byte>, i: nat,
                      ghost S: seq<byte>, ghost pos: nat, ghost out: seq<byte>) returns (end: nat)
    requires WrittenAt(str[..], S, pos, out) && p == pos + |out|
    requires str != charNum && i <= charNum.Length && p + i <= str.Length
    modifies str
    ensures end == p + i
    ensures WrittenAt(str[..], S, pos, out + Reverse(charNum[..i]))
  {
    end := p;
    var k := i;
    while k > 0
      invariant 0 <= k <= i && end == p + (i - k)
      invariant forall j :: 0 <= j < p ==> str[j] == old(str[j])
      invariant forall j :: p <= j < end ==> str[j] == charNum[i - 1 - (j - p)]
      invariant forall j :: end <= j < str.Length ==> str[j] == old(str[j])
    {
      k := k - 1;
      str[end] := charNum[k];
      end := end + 1;
    }
    ghost var digits := Reverse(charNum[..i]);
    assert forall j :: p <= j < end ==> str[..][j] == digits[j - p];
    Spliced(str[..], old(str[..]), p, digits);
    Extend(old(str[..]), str[..], S, pos, out, digits);
  }

  /** A buffer that agrees with b outside [p, p + |mid|) and holds mid inside is b with mid spliced in. */
  lemma Spliced(a: seq<byte>, b: seq<byte>, p: nat, mid: seq<byte>)
    requires |a| == |b| && p + |mid| <= |a|
    requires forall j :: 0 <= j < p ==> a[j] == b[j]
    requires forall j :: p <= j < p + |mid| ==> a[j] == mid[j - p]
    requires forall j :: p + |mid| <= j < |a| ==> a[j] == b[j]
    ensures a == b[..p] + mid + b[p + |mid|..]
  {
  }

  /** The padding before the sign: spaces when right-justified without FLAG_ZEROPAD. */
  function LeadPad(w: int, f: Flags): seq<byte>
  {
    if !f.zeropad && !f.left then Repeat(' ' as int, w) else []
  }

  /** The padding between the prefix and the digits: '0's under FLAG_ZEROPAD. */
  function MidPad(w: int, f: Flags): seq<byte>
  {
    if f.zeropad && !f.left then Repeat('0' as int, w) else []
  }

  /** The padding after the digits: spaces when left-justified. */
  function TrailPad(w: int, f: Flags): seq<byte>
  {
    if f.left then Repeat(' ' as int, w) else []
  }

  /** The field around a number: at most one of the three paddings is non-empty. */
  function Field(w: int, f: Flags, head: seq<byte>, zeros: seq<byte>, digits: seq<byte>): seq<byte>
  {
    LeadPad(w, f) + head + MidPad(w, f) + zeros + digits + TrailPad(w, f)
  }

  /** The corrected text in its three justifications, rest being the width left for padding. */
  lemma NumberCases(num: u64, base: int, width: int, precision: int, flag: Flags, f: Flags, head: seq<byte>, body: seq<byte>, rest: int)
    requires 2 <= base <= 36 && f == Effective(flag) && head == Head(num, base, f)
    requires body == Body(SignOf(num, f).1, base, precision, f.capital)
    requires rest == width - |head| - |body|
    ensures NumberText(num, base, width, precision, flag).value ==
              (if f.left then head + body + Repeat(' ' as int, rest)
               else if f.zeropad then head + Repeat('0' as int, rest) + body
               else Repeat(' ' as int, rest) + head + body)
  {
  }

  /** The body is the precision zeros and then the digit characters. */
  lemma BodySplit(mag: nat, base: nat, precision: int, capital: bool, i: nat, digits: seq<byte>)
    requires 2 <= base <= 36
    requires i == |Digits(mag, base)| && digits == DigitsText(Digits(mag, base), capital)
    ensures Body(mag, base, precision, capital) == Repeat('0' as int, precision - i) + digits
  {
  }

  /** A field has the layout of one of the three justifications. */
  lemma FieldCases(rest: int, f: Flags, head: seq<byte>, zeros: seq<byte>, digits: seq<byte>, body: seq<byte>)
    requires !(f.left && f.zeropad) && body == zeros + digits
    ensures Field(rest, f, head, zeros, digits) ==
              (if f.left then head + body + Repeat(' ' as int, rest)
               else if f.zeropad then head + Repeat('0' as int, rest) + body
               else Repeat(' ' as int, rest) + head + body)
  {
    if f.left {
      assert LeadPad(rest, f) == [] && MidPad(rest, f) == [];
    } else if f.zeropad {
      assert LeadPad(rest, f) == [] && TrailPad(rest, f) == [];
    } else {
      assert MidPad(rest, f) == [] && TrailPad(rest, f) == [];
    }
  }

  /**
   * The field `copy_number` emits for a sign and a magnitude, w being the
   * width left after the sign and the prefix: at least precision digits,
   * then the padding of what width is left.
   */
  ghost function DigitField(w: int, f: Flags, sign: byte, mag: nat, base: nat, precision: int): seq<byte>
    requires 2 <= base <= 36
  {
    var ds := Digits(mag, base);
    var n := |ds|;
    Field(w - (if n > precision then n else precision), f, SignText(sign) + Prefix(base, f.suffix),
          Repeat('0' as int, precision - n), DigitsText(ds, f.capital))
  }

  /**
   * `NumberText` is the field `copy_number` emits for the sign and
   * magnitude of num and the width left once the sign and prefix are
   * counted against it.
   */
  lemma NumberField(num: u64, base: int, width: int, precision: int, flag: Flags, f: Flags, sign: byte, mag: u64, w: int)
    requires 2 <= base <= 36
    requires f == Effective(flag) && (sign, mag) == SignOf(num, f) && w == width - |Head(num, base, f)|
    ensures NumberText(num, base, width, precision, flag).value == DigitField(w, f, sign, mag, base, precision)
  {
    var ds := Digits(mag, base);
    var i := |ds|;
    var head, zeros, digits := Head(num, base, f), Repeat('0' as int, precision - i), DigitsText(ds, f.capital);
    var body := zeros + digits;
    var rest := w - (if i > precision then i else precision);
    calc {
      NumberText(num, base, width, precision, flag).value;
    == { BodySplit(mag, base, precision, f.capital, i, digits);
         NumberCases(num, base, width, precision, flag, f, head, body, rest); }
      if f.left then head + body + Repeat(' ' as int, rest)
      else if f.zeropad then head + Repeat('0' as int, rest) + body
      else Repeat(' ' as int, rest) + head + body;
    == { FieldCases(rest, f, head, zeros, digits, body); }
      Field(rest, f, head, zeros, digits);
    ==
      DigitField(w, f, sign, mag, base, precision);
    }
  }

  /** The '#' prefix written byte by byte. */
  method PutPrefix(str: array<byte>, p: nat, base: int, suffix: bool,
                   ghost S: seq<byte>, ghost pos: nat, ghost out: seq<byte>) returns (end: nat)
    requires WrittenAt(str[..], S, pos, out) && p == pos + |out|
    requires p + |Prefix(base, suffix)| <= str.Length
    modifies str
    ensures end == p + |Prefix(base, suffix)|
    ensures WrittenAt(str[..], S, pos, out + Prefix(base, suffix))
  {
    end := p;
    if suffix {
      if base == 2 {
        end := PutChar(str, end, '0' as int, S, pos, out);
        end := PutChar(str, end, 'b' as int, S, pos, out + ['0' as int]);
        assert out + ['0' as int] + ['b' as int] == out + Prefix(base, suffix);
      } else if base == 8 {
        end := PutChar(str, end, '0' as int, S, pos, out);
      } else if base == 16 {
        end := PutChar(str, end, '0' as int, S, pos, out);
        end := PutChar(str, end, 'x' as int, S, pos, out + ['0' as int]);
        assert out + ['0' as int] + ['x' as int] == out + Prefix(base, suffix);
      }
    }
    if !suffix || !(base == 2 || base == 8 || base == 16) {
      assert out + Prefix(base, suffix) == out;
    }
  }

  /**
   * Lines 109-133 of `copy_number`: spaces when right-justified without
   * zero padding, the sign, the prefix, and '0's when zero-padded. The
   * width counter comes back unchanged when left-justified and negative
   * otherwise, because `while (width-- > 0)` has run.
   */
  method EmitHead(str: array<byte>, p: nat, w: int, f: Flags, sign: byte, base: int,
                  ghost S: seq<byte>, ghost pos: nat, ghost out: seq<byte>) returns (end: nat, width: int)
    requires !(f.left && f.zeropad) && WrittenAt(str[..], S, pos, out) && p == pos + |out|
    requires p + |LeadPad(w, f)| + |SignText(sign)| + |Prefix(base, f.suffix)| + |MidPad(w, f)| <= str.Length
    modifies str
    ensures end == p + |LeadPad(w, f)| + |SignText(sign)| + |Prefix(base, f.suffix)| + |MidPad(w, f)|
    ensures WrittenAt(str[..], S, pos, out + LeadPad(w, f) + (SignText(sign) + Prefix(base, f.suffix)) + MidPad(w, f))
    ensures f.left ==> width == w
    ensures !f.left ==> width < 0
  {
    ghost var lead, mid := LeadPad(w, f), MidPad(w, f);
    ghost var head := SignText(sign) + Prefix(base, f.suffix);
    end, width := EmitLead(str, p, w, f, sign, base, S, pos, out);
    var padChar: byte := if f.zeropad then '0' as int else ' ' as int;
    if !f.left {
      if f.zeropad {
        assert width == w;
      } else {
        assert width < 0 && mid == [];
      }
      assert Repeat(padChar, width) == mid;
      end, width := Pad(str, end, padChar, width, S, pos, out + lead + head);
    } else {
      assert out + lead + head + mid == out + lead + head;
    }
  }

  /**
   * Lines 109-128 of `copy_number`: the spaces of a right-justified field
   * without zero padding, the sign and the prefix.
   */
  method EmitLead(str: array<byte>, p: nat, w: int, f: Flags, sign: byte, base: int,
                  ghost S: seq<byte>, ghost pos: nat, ghost out: seq<byte>) returns (end: nat, width: int)
    requires WrittenAt(str[..], S, pos, out) && p == pos + |out|
    requires p + |LeadPad(w, f)| + |SignText(sign)| + |Prefix(base, f.suffix)| <= str.Length
    modifies str
    ensures end == p + |LeadPad(w, f)| + |SignText(sign)| + |Prefix(base, f.suffix)|
    ensures WrittenAt(str[..], S, pos, out + LeadPad(w, f) + (SignText(sign) + Prefix(base, f.suffix)))
    ensures width == if !(f.zeropad || f.left) then (if w > 0 then 0 else w) - 1 else w
  {
    ghost var lead := LeadPad(w, f);
    width := w;
    end := p;
    if !(f.zeropad || f.left) {
      end, width := Pad(str, end, ' ' as int, width, S, pos, out);
    } else {
      assert out + lead == out;
    }
    if sign != NUL {
      end := PutChar(str, end, sign, S, pos, out + lead);
    } else {
      assert out + lead + SignText(sign) == out + lead;
    }
    end := PutPrefix(str, end, base, f.suffix, S, pos, out + lead + SignText(sign));
    assert out + lead + SignText(sign) + Prefix(base, f.suffix) == out + lead + (SignText(sign) + Prefix(base, f.suffix));
  }

  /**
   * Lines 136-141 of `copy_number`: '0's up to the precision, the stored
   * digits backwards, then the spaces a left-justified field still owes.
   */
  method EmitTail(str: array<byte>, p: nat, width: int, precision: int, charNum: array<byte>, i: nat,
                  ghost S: seq<byte>, ghost pos: nat, ghost out: seq<byte>) returns (end: nat)
    requires WrittenAt(str[..], S, pos, out) && p == pos + |out|
    requires str != charNum && i <= charNum.Length
    requires p + |Repeat('0' as int, precision - i)| + i + |Repeat(' ' as int, width)| <= str.Length
    modifies str
    ensures end == p + |Repeat('0' as int, precision - i)| + i + |Repeat(' ' as int, width)|
    ensures WrittenAt(str[..], S, pos, out + Repeat('0' as int, precision - i) + Reverse(charNum[..i]) + Repeat(' ' as int, width))
  {
    ghost var zeros := Repeat('0' as int, precision - i);
    ghost var digits := Reverse(charNum[..i]);
    var zeroRest, rest;
    end, zeroRest := Pad(str, p, '0' as int, precision - i, S, pos, out);
    end := EmitReversed(str, end, charNum, i, S, pos, out + zeros);
    assert Reverse(charNum[..i]) == digits;
    end, rest := Pad(str, end, ' ' as int, width, S, pos, out + zeros + digits);
  }

  /**
   * The emission half of `copy_number`, lines 109-141. w is the width left
   * once sign, prefix and digits are accounted for; once one padding loop
   * has run, the later ones write nothing.
   */
  method EmitField(str: array<byte>, pos: nat, w: int, f: Flags, sign: byte, base: int, precision: int,
                   charNum: array<byte>, i: nat) returns (end: nat)
    requires !(f.left && f.zeropad) && str != charNum && i <= charNum.Length
    requires pos + |Field(w, f, SignText(sign) + Prefix(base, f.suffix), Repeat('0' as int, precision - i), Reverse(charNum[..i]))| <= str.Length
    modifies str
    ensures var t := Field(w, f, SignText(sign) + Prefix(base, f.suffix), Repeat('0' as int, precision - i), Reverse(charNum[..i]));
            end == pos + |t| && WrittenAt(str[..], old(str[..]), pos, t)
  {
    ghost var lead, mid, trail := LeadPad(w, f), MidPad(w, f), TrailPad(w, f);
    ghost var head := SignText(sign) + Prefix(base, f.suffix);
    ghost var zeros, digits := Repeat('0' as int, precision - i), Reverse(charNum[..i]);
    ghost var t := Field(w, f, head, zeros, digits);
    ghost var S := str[..];
    assert WrittenAt(str[..], S, pos, []);
    var width;
    end, width := EmitHead(str, pos, w, f, sign, base, S, pos, []);
    assert [] + lead + head + mid == lead + head + mid;
    assert Repeat(' ' as int, width) == trail;
    end := EmitTail(str, end, width, precision, charNum, i, S, pos, lead + head + mid);
    assert Reverse(charNum[..i]) == digits;
    assert t == lead + head + mid + zeros + digits + trail;
  }

  /**
   * The digits of mag and the field around them (lines 97-141 of
   * `copy_number`): at least precision digits are printed, and what
   * width is left after them is padding.
   */
  method EmitNumber(str: array<byte>, pos: nat, w: int, f: Flags, sign: byte, mag: u64, base: nat, precision: int)
      returns (end: nat)
    requires 2 <= base <= 36 && !(f.left && f.zeropad)
    requires pos + |DigitField(w, f, sign, mag, base, precision)| <= str.Length
    modifies str
    ensures var t := DigitField(w, f, sign, mag, base, precision);
            end == pos + |t| && WrittenAt(str[..], old(str[..]), pos, t)
  {
    var charNum, i := ConvertDigits(mag, base, f.capital);
    StoredText(mag, base, f.capital, charNum[..i]);
    var p := if i > precision then i else precision;
    FieldOfDigits(w, f, sign, mag, base, precision, i, p, Reverse(charNum[..i]));
    end := EmitField(str, pos, w - p, f, sign, base, p, charNum, i);
  }

  /** The digit field with the precision raised to the number of digits i when there are more. */
  lemma FieldOfDigits(w: int, f: Flags, sign: byte, mag: nat, base: nat, precision: int, i: nat, p: int, digits: seq<byte>)
    requires 2 <= base <= 36 && i == |Digits(mag, base)| && digits == DigitsText(Digits(mag, base), f.capital)
    requires p == if i > precision then i else precision
    ensures DigitField(w, f, sign, mag, base, precision) ==
              Field(w - p, f, SignText(sign) + Prefix(base, f.suffix), Repeat('0' as int, p - i), digits)
  {
    var head := SignText(sign) + Prefix(base, f.suffix);
    calc {
      DigitField(w, f, sign, mag, base, precision);
    ==
      Field(w - p, f, head, Repeat('0' as int, precision - i), digits);
    == { assert Repeat('0' as int, p - i) == Repeat('0' as int, precision - i); }
      Field(w - p, f, head, Repeat('0' as int, p - i), digits);
    }
  }

  /** The buffer written so far, spelt out. */
  lemma Written(cur: seq<byte>, S: seq<byte>, pos: nat, out: seq<byte>)
    requires WrittenAt(cur, S, pos, out)
    ensures cur == S[..pos] + out + S[pos + |out|..]
  {
  }

  /**
   * The sign and the prefix of `copy_number`: the sign character and the
   * magnitude printed, and the width left once the sign and the '#' prefix
   * are counted against it.
   */
  method SignWidth(num: u64, base: int, width: int, flag: Flags) returns (sign: byte, mag: u64, w: int)
    requires 2 <= base <= 36
    ensures (sign, mag) == SignOf(num, flag)
    ensures w == width - |Head(num, base, flag)|
  {
    sign, mag, w := NUL, num, width;
    if flag.sign {
      if num >= 0x8000_0000_0000_0000 {
        sign := '-' as int;
        mag := WORD - num;
        w := w - 1;
      } else if flag.plus {
        sign := '+' as int;
        w := w - 1;
      } else if flag.space {
        sign := ' ' as int;
        w := w - 1;
      }
    }
    if flag.suffix {
      if base == 2 || base == 16 {
        w := w - 2;
      } else if base == 8 {
        w := w - 1;
      }
    }
  }

  /**
   * `copy_number`: writes num in base at pos, padded to width, with at
   * least precision digits. A base outside [2, 36] writes nothing and
   * gives no position (NULL). This is the corrected conversion: the '-'
   * sign counts against the width.
   */
  method CopyNumber(str: array<byte>, pos: nat, num: u64, base: int, width: int, precision: int, flag: Flags)
      returns (r: Option<nat>)
    requires NumberText(num, base, width, precision, flag).Some? ==>
               pos + |NumberText(num, base, width, precision, flag).value| <= str.Length
    modifies str
    ensures r.Some? <==> 2 <= base <= 36
    ensures r.None? ==> str[..] == old(str[..])
    ensures r.Some? ==>
              var t := NumberText(num, base, width, precision, flag).value;
              r.value == pos + |t| && str[..] == old(str[..pos]) + t + old(str[r.value..])
  {
    if base < 2 || base > 36 {
      return None;
    }
    var end := CopyInBase(str, pos, num, base, width, precision, flag);
    return Some(end);
  }

  /** `copy_number` past the check of the base (lines 63-141). */
  method CopyInBase(str: array<byte>, pos: nat, num: u64, base: int, width: int, precision: int, flag: Flags)
      returns (end: nat)
    requires 2 <= base <= 36 && pos + |NumberText(num, base, width, precision, flag).value| <= str.Length
    modifies str
    ensures var t := NumberText(num, base, width, precision, flag).value;
            end == pos + |t| && str[..] == old(str[..pos]) + t + old(str[end..])
  {
    var f := flag;
    if f.left {
      f := f.(zeropad := false);
    }
    var sign, mag, w := SignWidth(num, base, width, f);
    ghost var t := NumberText(num, base, width, precision, flag).value;
    NumberField(num, base, width, precision, flag, f, sign, mag, w);
    end := EmitNumber(str, pos, w, f, sign, mag, base, precision);
    Written(str[..], old(str[..]), pos, t);
  }

  // ---------------------------------------------------------------- what copy_number prints

  /**
   * The field is width columns when the sign, prefix and digits fit in it,
   * and exactly as wide as they are when they do not.
   */
  lemma NumberWidth(num: u64, base: int, width: int, precision: int, flag: Flags)
    requires 2 <= base <= 36
    ensures var f := Effective(flag);
            var n := |Head(num, base, f)| + |Body(SignOf(num, f).1, base, precision, f.capital)|;
            |NumberText(num, base, width, precision, flag).value| == if width > n then width else n
  {
  }

  /** Leading zero digits do not change the value of a numeral. */
  lemma {:induction false} ZerosValue(k: nat, ds: seq<nat>, base: nat)
    ensures ValueOf(seq(k, _ => 0) + ds, base) == ValueOf(ds, base)
    decreases |ds|
  {
    var zs: seq<nat> := seq(k, _ => 0);
    if |ds| == 0 {
      ZerosOnly(k, base);
      assert zs + ds == zs;
    } else {
      var s := zs + ds;
      assert s[..|s| - 1] == zs + ds[..|ds| - 1];
      ZerosValue(k, ds[..|ds| - 1], base);
    }
  }

  /** A numeral of zeros only denotes zero. */
  lemma {:induction false} ZerosOnly(k: nat, base: nat)
    ensures ValueOf(seq(k, _ => 0), base) == 0
    decreases k
  {
    if k > 0 {
      var zs: seq<nat> := seq(k, _ => 0);
      assert zs[..k - 1] == seq(k - 1, _ => 0);
      ZerosOnly(k - 1, base);
    }
  }

  /**
   * `_scan_number` reads back what `copy_number` prints for an unsigned
   * decimal without width: a run of digits denoting num, whatever the
   * precision adds in leading zeros.
   */
  lemma ScanPrinted(num: u64, precision: int)
    ensures var t := NumberText(num, 10, -1, precision, NO_FLAGS).value;
            (forall i :: 0 <= i < |t| ==> IsDigit(t[i])) && DecimalValue(t) == num
  {
    var ds := Digits(num, 10);
    var t := NumberText(num, 10, -1, precision, NO_FLAGS).value;
    assert t == Body(num, 10, precision, false);
    DecimalBody(num, precision, ds, t);
  }

  /** The decimal digits of num behind zeros of padding denote num. */
  lemma DecimalBody(num: nat, precision: int, ds: seq<nat>, t: seq<byte>)
    requires ds == Digits(num, 10) && t == Repeat('0' as int, precision - |ds|) + DigitsText(ds, false)
    ensures (forall i :: 0 <= i < |t| ==> IsDigit(t[i])) && DecimalValue(t) == num
  {
    var k := if precision - |ds| > 0 then precision - |ds| else 0;
    DigitValues(k, ds, t);
    ZerosValue(k, ds, 10);
    DigitsRoundTrip(num, 10);
  }

  /** Each character of k zeros and decimal digits ds is a digit, whose value is the zero or the digit. */
  lemma DigitValues(k: nat, ds: seq<nat>, t: seq<byte>)
    requires forall i :: 0 <= i < |ds| ==> ds[i] < 10
    requires t == Repeat('0' as int, k) + DigitsText(ds, false)
    ensures forall i :: 0 <= i < |t| ==> IsDigit(t[i])
    ensures seq(|t|, j requires 0 <= j < |t| => DigitValue(t[j])) == seq(k, _ => 0) + ds
  {
    var vs := seq(|t|, j requires 0 <= j < |t| => DigitValue(t[j]));
    var zs: seq<nat> := seq(k, _ => 0);
    forall i | 0 <= i < |t|
      ensures IsDigit(t[i]) && vs[i] == (zs + ds)[i]
    {
      if i >= k {
        assert t[i] == DigitChar(ds[i - k], false);
      }
    }
  }

  /**
   * As written, a negative number narrower than the field comes out one
   * column wider than the width, its '-' not being counted; corrected, it
   * fills the width exactly.
   */
  lemma MinusOverflow(num: u64, base: int, width: int, precision: int, flag: Flags)
    requires 2 <= base <= 36 && flag.sign && num >= 0x8000_0000_0000_0000
    requires width > 1 + |Prefix(base, flag.suffix)| + |Body(WORD - num, base, precision, flag.capital)|
    ensures |NumberTextAsWritten(num, base, width, precision, flag).value| == width + 1
    ensures |NumberText(num, base, width, precision, flag).value| == width
  {
  }

  /** The smallest case: -5 in a field of 4. */
  lemma MinusExample()
    ensures NumberTextAsWritten(WORD - 5, 10, 4, -1, NO_FLAGS.(sign := true)) == Some(Ascii("   -5"))
    ensures NumberText(WORD - 5, 10, 4, -1, NO_FLAGS.(sign := true)) == Some(Ascii("  -5"))
  {
    var f := NO_FLAGS.(sign := true);
    assert Digits(5, 10) == [5];
    assert SignOf(WORD - 5, f) == ('-' as int, 5);
    assert Head(WORD - 5, 10, f) == ['-' as int];
    assert Body(5, 10, -1, false) == ['5' as int];
    assert Ascii("   -5") == Repeat(' ' as int, 3) + ['-' as int] + ['5' as int];
    assert Ascii("  -5") == Repeat(' ' as int, 2) + ['-' as int] + ['5' as int];
  }
}
