/**
 * The kernel's own memory and string routines over byte buffers. A
 * pointer argument is a buffer whose first byte is the one pointed at; a
 * C string is the bytes of a buffer before its first NUL. Plain `char` is
 * unsigned on RISC-V, so bytes compare as 0..255.
 */
module CString {
  import opened Options

  type byte = x: int | 0 <= x < 256

  const NUL: byte := 0

  /** The ASCII bytes of a string of 8-bit characters. */
  function Ascii(s: string): (b: seq<byte>)
    requires forall i :: 0 <= i < |s| ==> s[i] as int < 256
    ensures |b| == |s|
  {
    seq(|s|, i requires 0 <= i < |s| => s[i] as int)
  }

  /** A buffer holds a C string when a NUL occurs in it. */
  predicate Terminated(s: seq<byte>)
  {
    NUL in s
  }

  /** The index of the first NUL. */
  function NulIndex(s: seq<byte>): (n: nat)
    requires Terminated(s)
    ensures n < |s| && s[n] == NUL && NUL !in s[..n]
  {
    if s[0] == NUL then 0
    else
      var m := NulIndex(s[1..]);
      assert s[..m + 1] == [s[0]] + s[1..][..m];
      m + 1
  }

  /** The C string a buffer holds: the NUL-free prefix the first NUL ends. */
  function Str(s: seq<byte>): (r: seq<byte>)
    requires Terminated(s)
    ensures NUL !in r && r + [NUL] <= s
  {
    var n := NulIndex(s);
    assert s[..n] + [NUL] == s[..n + 1];
    s[..n]
  }

  /** A NUL-free prefix followed by NUL is the string of any buffer it starts. */
  lemma StrOfPrefix(r: seq<byte>, s: seq<byte>)
    requires NUL !in r && r + [NUL] <= s
    ensures Terminated(s) && Str(s) == r
  {
    assert s[|r|] == NUL;
  }

  /**
   * Three-way lexicographic comparison: -1, 0 or 1 by the first differing
   * byte, and a proper prefix before the longer sequence.
   */
  function Compare(x: seq<byte>, y: seq<byte>): (r: int)
    ensures r == -1 || r == 0 || r == 1
  {
    if |x| == 0 && |y| == 0 then 0
    else if |x| == 0 then -1
    else if |y| == 0 then 1
    else if x[0] != y[0] then (if x[0] < y[0] then -1 else 1)
    else Compare(x[1..], y[1..])
  }

  /** The comparison is 0 exactly for equal sequences. */
  lemma {:induction false} CompareZero(x: seq<byte>, y: seq<byte>)
    ensures Compare(x, y) == 0 <==> x == y
  {
    if |x| > 0 && |y| > 0 && x[0] == y[0] {
      CompareZero(x[1..], y[1..]);
      if x[1..] == y[1..] {
        assert x == [x[0]] + x[1..] && y == [y[0]] + y[1..];
      }
    }
  }

  /** Swapping the operands negates the comparison. */
  lemma {:induction false} CompareAntisymmetric(x: seq<byte>, y: seq<byte>)
    ensures Compare(y, x) == -Compare(x, y)
  {
    if |x| > 0 && |y| > 0 && x[0] == y[0] {
      CompareAntisymmetric(x[1..], y[1..]);
    }
  }

  /** `memset`: the first size bytes become value, the rest stay; size is returned. */
  method Memset(dst: array<byte>, value: byte, size: nat) returns (num: nat)
    requires size <= dst.Length
    modifies dst
    ensures num == size
    ensures dst[..] == seq(size, _ => value) + old(dst[size..])
  {
    num := 0;
    while num < size
      invariant num <= size
      invariant forall j :: 0 <= j < num ==> dst[j] == value
      invariant forall j :: num <= j < dst.Length ==> dst[j] == old(dst[j])
    {
      dst[num] := value;
      num := num + 1;
    }
    assert dst[..] == seq(size, _ => value) + old(dst[size..]);
  }

  /**
   * `strmset`: like memset, but stops at the string's end, so at most
   * strlen(dst) bytes are written; the count written is returned.
   */
  method Strmset(dst: array<byte>, value: byte, size: nat) returns (num: nat)
    requires Terminated(dst[..])
    modifies dst
    ensures num == if size < |Str(old(dst[..]))| then size else |Str(old(dst[..]))|
    ensures dst[..] == seq(num, _ => value) + old(dst[num..])
  {
    var maxl := Strlen(dst);
    num := 0;
    while num < size && num < maxl
      invariant num <= size && num <= maxl
      invariant forall j :: 0 <= j < num ==> dst[j] == value
      invariant forall j :: num <= j < dst.Length ==> dst[j] == old(dst[j])
    {
      dst[num] := value;
      num := num + 1;
    }
    assert dst[..] == seq(num, _ => value) + old(dst[num..]);
  }

  /** `memcpy`: the first size bytes of src are copied into dst; size is returned. */
  method Memcpy(dst: array<byte>, src: array<byte>, size: nat) returns (num: nat)
    requires size <= dst.Length && size <= src.Length
    modifies dst
    ensures num == size
    ensures dst[..] == old(src[..size]) + old(dst[size..])
  {
    num := 0;
    while num < size
      invariant num <= size
      invariant forall j :: 0 <= j < num ==> dst[j] == old(src[j])
      invariant forall j :: num <= j < dst.Length ==> dst[j] == old(dst[j])
      invariant forall j :: num <= j < src.Length ==> src[j] == old(src[j])
    {
      dst[num] := src[num];
      num := num + 1;
    }
    assert dst[..] == old(src[..size]) + old(dst[size..]);
  }

  /** `memcmp`: -1, 0 or 1 by the first differing byte of the first size bytes. */
  method Memcmp(a: array<byte>, b: array<byte>, size: nat) returns (r: int)
    requires size <= a.Length && size <= b.Length
    ensures r == Compare(a[..size], b[..size])
  {
    var i := 0;
    while i < size
      invariant i <= size
      invariant a[..i] == b[..i]
      invariant Compare(a[..size], b[..size]) == Compare(a[i..size], b[i..size])
    {
      if a[i] != b[i] {
        return if a[i] > b[i] then 1 else -1;
      }
      assert a[i..size][1..] == a[i + 1..size] && b[i..size][1..] == b[i + 1..size];
      assert a[..i + 1] == a[..i] + [a[i]] && b[..i + 1] == b[..i] + [b[i]];
      i := i + 1;
    }
    return 0;
  }

  /** `strcpy`: src's string and its NUL are copied to the front of dst. */
  method Strcpy(dst: array<byte>, src: array<byte>) returns (r: array<byte>)
    requires dst != src && Terminated(src[..]) && |Str(src[..])| < dst.Length
    modifies dst
    ensures r == dst
    ensures dst[..] == Str(src[..]) + [NUL] + old(dst[|Str(src[..])| + 1..])
    ensures Terminated(dst[..]) && Str(dst[..]) == Str(src[..])
  {
    ghost var s := Str(src[..]);
    var i := 0;
    while src[i] != NUL
      invariant i <= |s|
      invariant forall j :: 0 <= j < i ==> dst[j] == s[j]
      invariant forall j :: i <= j < dst.Length ==> dst[j] == old(dst[j])
      decreases |s| - i
    {
      assert src[..][i] != NUL;
      dst[i] := src[i];
      i := i + 1;
    }
    assert src[..][i] == NUL;
    assert i == |s|;
    dst[i] := NUL;
    assert dst[..] == s + [NUL] + old(dst[|s| + 1..]);
    StrOfPrefix(s, dst[..]);
    r := dst;
  }

  /** `strlen`: the index of the first NUL. */
  method Strlen(s: array<byte>) returns (n: nat)
    requires Terminated(s[..])
    ensures n < s.Length && s[n] == NUL && NUL !in s[..n]
    ensures n == |Str(s[..])|
  {
    n := 0;
    while s[n] != NUL
      invariant n <= NulIndex(s[..])
      invariant NUL !in s[..n]
      decreases NulIndex(s[..]) - n
    {
      assert s[..n + 1] == s[..n] + [s[n]];
      n := n + 1;
    }
    assert s[..][n] == NUL;
  }

  /** `strcmp`: the lexicographic comparison of the two strings. */
  method Strcmp(a: array<byte>, b: array<byte>) returns (r: int)
    requires Terminated(a[..]) && Terminated(b[..])
    ensures r == Compare(Str(a[..]), Str(b[..]))
  {
    ghost var x := Str(a[..]);
    ghost var y := Str(b[..]);
    var i := 0;
    while a[i] != NUL && a[i] == b[i]
      invariant i <= |x| && i <= |y|
      invariant Compare(x, y) == Compare(x[i..], y[i..])
      decreases |x| - i
    {
      assert a[..][i] == x[i] && b[..][i] == y[i] by {
        assert a[..][i] != NUL;
        assert i < |x|;
      }
      assert x[i..][1..] == x[i + 1..] && y[i..][1..] == y[i + 1..];
      i := i + 1;
    }
    if a[i] == NUL {
      assert a[..][i] == NUL;
      assert i == |x|;
    } else {
      assert i < |x|;
    }
    if i < |y| {
      assert b[i] == y[i];
    } else {
      assert b[..][i] == NUL;
    }
    r := if a[i] < b[i] then -1 else if a[i] > b[i] then 1 else 0;
  }

  /** `strcat`: src's string and a NUL are written over dst's NUL. */
  method Strcat(dst: array<byte>, src: array<byte>) returns (r: array<byte>)
    requires dst != src && Terminated(dst[..]) && Terminated(src[..])
    requires |Str(dst[..])| + |Str(src[..])| < dst.Length
    modifies dst
    ensures r == dst
    ensures dst[..] == Str(old(dst[..])) + Str(src[..]) + [NUL]
                       + old(dst[|Str(dst[..])| + |Str(src[..])| + 1..])
    ensures Terminated(dst[..]) && Str(dst[..]) == Str(old(dst[..])) + Str(src[..])
  {
    var n := Strlen(dst);
    ghost var d := Str(dst[..]);
    ghost var s := Str(src[..]);
    var i := 0;
    while src[i] != NUL
      invariant i <= |s|
      invariant forall j :: 0 <= j < n ==> dst[j] == d[j]
      invariant forall j :: 0 <= j < i ==> dst[n + j] == s[j]
      invariant forall j :: n + i <= j < dst.Length ==> dst[j] == old(dst[j])
      decreases |s| - i
    {
      assert src[..][i] != NUL;
      dst[n + i] := src[i];
      i := i + 1;
    }
    assert src[..][i] == NUL;
    assert i == |s|;
    dst[n + i] := NUL;
    assert dst[..] == d + s + [NUL] + old(dst[n + |s| + 1..]);
    StrOfPrefix(d + s, dst[..]);
    r := dst;
  }

  /** `strchr`: the first position of ch in the string, NULL when it does not occur (NUL never does). */
  method Strchr(s: array<byte>, ch: byte) returns (r: Option<nat>)
    requires Terminated(s[..])
    ensures r.Some? ==> r.value < |Str(s[..])| && s[r.value] == ch && ch !in s[..r.value]
    ensures r.None? ==> ch !in Str(s[..])
  {
    ghost var x := Str(s[..]);
    var i := 0;
    while s[i] != NUL
      invariant i <= |x|
      invariant ch !in x[..i]
      decreases |x| - i
    {
      assert s[..][i] != NUL;
      assert i < |x| && x[i] == s[i];
      if s[i] == ch {
        assert s[..i] == x[..i];
        return Some(i);
      }
      assert x[..i + 1] == x[..i] + [x[i]];
      i := i + 1;
    }
    assert s[..][i] == NUL;
    assert i == |x| && x[..i] == x;
    return None;
  }

  /** `strrchr`: the last position of ch in the string, NULL when it does not occur. */
  method Strrchr(s: array<byte>, ch: byte) returns (r: Option<nat>)
    requires Terminated(s[..])
    ensures r.Some? ==> r.value < |Str(s[..])| && s[r.value] == ch && ch !in Str(s[..])[r.value + 1..]
    ensures r.None? ==> ch !in Str(s[..])
  {
    ghost var x := Str(s[..]);
    r := None;
    var i := 0;
    while s[i] != NUL
      invariant i <= |x|
      invariant r.Some? ==> r.value < i && x[r.value] == ch && ch !in x[r.value + 1..i]
      invariant r.None? ==> ch !in x[..i]
      decreases |x| - i
    {
      assert s[..][i] != NUL;
      assert i < |x| && x[i] == s[i];
      if s[i] == ch {
        r := Some(i);
      } else if r.Some? {
        assert x[r.value + 1..i + 1] == x[r.value + 1..i] + [x[i]];
      }
      assert x[..i + 1] == x[..i] + [x[i]];
      i := i + 1;
    }
    assert s[..][i] == NUL;
    assert i == |x| && x[..i] == x;
  }

  /** `strchrs`: the number of occurrences of ch in the string. */
  method Strchrs(s: array<byte>, ch: byte) returns (count: nat)
    requires Terminated(s[..])
    ensures count == multiset(Str(s[..]))[ch]
  {
    ghost var x := Str(s[..]);
    count := 0;
    var i := 0;
    while s[i] != NUL
      invariant i <= |x|
      invariant count == multiset(x[..i])[ch]
      decreases |x| - i
    {
      assert s[..][i] != NUL;
      assert i < |x| && x[i] == s[i];
      assert x[..i + 1] == x[..i] + [x[i]];
      if s[i] == ch {
        count := count + 1;
      }
      i := i + 1;
    }
    assert s[..][i] == NUL;
    assert i == |x| && x[..i] == x;
  }

  /** The string library's own check: "abbbbc" holds four 'b's. */
  lemma StrchrsExample()
    ensures multiset(Str([97, 98, 98, 98, 98, 99, 0]))[98] == 4
  {
    var r: seq<byte> := [97, 98, 98, 98, 98, 99];
    assert r + [NUL] == [97, 98, 98, 98, 98, 99, 0];
    StrOfPrefix(r, r + [NUL]);
    assert multiset(r) == multiset{97, 98, 98, 98, 98, 99};
  }
}
