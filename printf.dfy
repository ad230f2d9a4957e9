/**
 * `vsprintf` and `sprintf` of lib/stdfmt.c: a format string is copied to a
 * buffer, and each `%[flags][width][.precision][length]conversion` in it is
 * replaced by the text of the next argument. The variable argument list is
 * a sequence of argument slots; a `%n` store through a pointer argument is
 * returned as a list of stores rather than written to memory.
 *
 * `Format` is the text the corrected formatter produces, `FormatAsWritten`
 * the text of the formatter as the source has it; `Vsprintf` is proved to
 * write `Format`.
 */
module Printf {
  import opened Words
  import opened Options
  import opened CString
  import opened Numerals
  import opened Stdfmt

  /**
   * An argument slot: a 64-bit register value (an integer or a pointer), or
   * the bytes a `char *` argument points at.
   */
  datatype Arg = Word(w: u64) | Text(s: seq<byte>)

  /** The length field: none, `h`, `l`, or `ll` / `L`. */
  datatype Length = NoLength | Short | Long | LongLong

  /**
   * A conversion specification parsed up to the format position pos, with
   * ai the next argument slot; a width or precision of -1 means none.
   */
  datatype Spec = Spec(flags: Flags, width: int, precision: int, length: Length, pos: nat, ai: nat)

  /** A `%n` store: count, the bytes written so far, stored at addr. */
  datatype Store = Store(addr: u64, count: nat)

  /** The bytes written (without the final NUL) and the `%n` stores, in order. */
  datatype Formatted = Formatted(text: seq<byte>, stores: seq<Store>)

  /**
   * What one turn of the formatting loop produces: bytes, stores, the next
   * format position and argument slot, and the base a number conversion
   * leaves in the variable `base`.
   */
  datatype Piece = Piece(text: seq<byte>, stores: seq<Store>, next: nat, ai: nat, base: Option<int>)

  /**
   * Which formatter: the corrected one, or the one as written, which
   * remembers the base of the last number conversion (`base` is declared
   * outside the loop and never reset; None while it is uninitialised).
   */
  datatype Mode = Corrected | AsWritten(lastBase: Option<int>)

  // ---------------------------------------------------------------- parsing

  predicate IsFlag(c: byte)
  {
    c == '-' as int || c == '+' as int || c == ' ' as int || c == '#' as int || c == '0' as int
  }

  /** The flag a flag character sets. */
  function AddFlag(f: Flags, c: byte): (g: Flags)
    requires IsFlag(c)
    ensures !g.sign && !g.capital <== !f.sign && !f.capital
  {
    if c == '-' as int then f.(left := true)
    else if c == '+' as int then f.(plus := true)
    else if c == ' ' as int then f.(space := true)
    else if c == '#' as int then f.(suffix := true)
    else f.(zeropad := true)
  }

  /** The flags of the run of flag characters at p, and where the run ends. */
  function FlagsEnd(fmt: seq<byte>, p: nat, f: Flags): (r: (Flags, nat))
    ensures p <= r.1 && !IsFlag(At(fmt, r.1))
    ensures !f.sign && !f.capital ==> !r.0.sign && !r.0.capital
    decreases |fmt| - p
  {
    if IsFlag(At(fmt, p)) then FlagsEnd(fmt, p + 1, AddFlag(f, At(fmt, p))) else (f, p)
  }

  /** An `int` argument: the low 32 bits of the slot, as a signed number. */
  function Int32(w: u64): (v: int)
    ensures -0x8000_0000 <= v < 0x8000_0000
    ensures v % 0x1_0000_0000 == w % 0x1_0000_0000
  {
    var x := w % 0x1_0000_0000;
    if x >= 0x8000_0000 then x - 0x1_0000_0000 else x
  }

  /** An `int` argument cast to `short`: the low 16 bits, as a signed number. */
  function Int16(w: u64): (v: int)
    ensures -0x8000 <= v < 0x8000
    ensures v % 0x1_0000 == w % 0x1_0000
  {
    var x := w % 0x1_0000;
    if x >= 0x8000 then x - 0x1_0000 else x
  }

  /** A signed value converted to `unsigned long`: two's complement modulo 2^64. */
  function Unsigned(v: int): (u: u64)
    requires -0x8000_0000_0000_0000 <= v < 0x8000_0000_0000_0000
    ensures u % WORD == v % WORD
  {
    if v < 0 then v + WORD else v
  }

  /** The width field: a decimal number, or `*` taking an int argument whose sign selects left justification. */
  function WithWidth(fmt: seq<byte>, s: Spec, args: seq<Arg>): (r: Option<Spec>)
    ensures r.Some? ==> s.pos <= r.value.pos && s.ai <= r.value.ai
    ensures r.Some? ==> r.value.flags.sign == s.flags.sign && r.value.flags.capital == s.flags.capital
  {
    var c := At(fmt, s.pos);
    if IsDigit(c) then
      var e := DigitRunEnd(fmt, s.pos);
      Some(s.(width := DecimalValue(fmt[s.pos..e]), pos := e))
    else if c == '*' as int then
      if s.ai < |args| && args[s.ai].Word? then
        var v := Int32(args[s.ai].w);
        if v < 0 then Some(s.(width := -v, flags := s.flags.(left := true), pos := s.pos + 1, ai := s.ai + 1))
        else Some(s.(width := v, pos := s.pos + 1, ai := s.ai + 1))
      else None
    else Some(s)
  }

  /** The precision field: `.` and a decimal number, or `.*` with an int argument; a negative or missing one is 0. */
  function WithPrecision(fmt: seq<byte>, s: Spec, args: seq<Arg>): (r: Option<Spec>)
    ensures r.Some? ==> s.pos <= r.value.pos && s.ai <= r.value.ai && r.value.flags == s.flags
  {
    if At(fmt, s.pos) != '.' as int then Some(s)
    else
      var q := s.pos + 1;
      var c := At(fmt, q);
      if IsDigit(c) then
        var e := DigitRunEnd(fmt, q);
        Some(s.(precision := DecimalValue(fmt[q..e]), pos := e))
      else if c == '*' as int then
        if s.ai < |args| && args[s.ai].Word? then
          var v := Int32(args[s.ai].w);
          Some(s.(precision := if v < 0 then 0 else v, pos := q + 1, ai := s.ai + 1))
        else None
      else Some(s.(precision := 0, pos := q))
  }

  /** The length field: `h`, `l`, `ll` or `L`. */
  function WithLength(fmt: seq<byte>, s: Spec): (r: Spec)
    ensures s.pos <= r.pos <= s.pos + 2 && r.ai == s.ai && r.flags == s.flags
  {
    var c := At(fmt, s.pos);
    if c == 'h' as int then s.(length := Short, pos := s.pos + 1)
    else if c == 'L' as int then s.(length := LongLong, pos := s.pos + 1)
    else if c == 'l' as int then
      if At(fmt, s.pos + 1) == 'l' as int then s.(length := LongLong, pos := s.pos + 2)
      else s.(length := Long, pos := s.pos + 1)
    else s
  }

  /**
   * The specification after the `%` at p - 1, up to its conversion byte.
   * None when a `*` has no integer argument to take.
   */
  function ParseSpec(fmt: seq<byte>, p: nat, args: seq<Arg>, ai: nat): (r: Option<Spec>)
    ensures r.Some? ==> p <= r.value.pos && ai <= r.value.ai && !r.value.flags.sign && !r.value.flags.capital
  {
    var fq := FlagsEnd(fmt, p, NO_FLAGS);
    match WithWidth(fmt, Spec(fq.0, -1, -1, NoLength, fq.1, ai), args)
    case None => None
    case Some(s1) =>
      match WithPrecision(fmt, s1, args)
      case None => None
      case Some(s2) => Some(WithLength(fmt, s2))
  }

  // ---------------------------------------------------------------- conversions

  /** `%c`: the character, and width - 1 spaces before it, or after it when left-justified. */
  function CharField(ch: byte, width: int, left: bool): seq<byte>
  {
    var pad := Repeat(' ' as int, width - 1);
    if left then [ch] + pad else pad + [ch]
  }

  /** The C string of a `char *` argument: its bytes up to the first NUL. */
  function CText(s: seq<byte>): (t: seq<byte>)
    ensures NUL !in t && t <= s
  {
    if Terminated(s) then Str(s) else s
  }

  /** The characters `%s` prints: "<NULL>" for the empty string, cut to a positive precision. */
  function Kept(s: seq<byte>, precision: int): seq<byte>
  {
    var t := if |CText(s)| == 0 then Ascii("<NULL>") else CText(s);
    var prec := if precision > 0 then precision else |t|;
    if |t| > prec then t[..prec] else t
  }

  /** `%s`: the kept characters, padded with spaces to width on the left, or on the right when left-justified. */
  function StringField(s: seq<byte>, width: int, precision: int, left: bool): seq<byte>
  {
    var kept := Kept(s, precision);
    var pad := Repeat(' ' as int, width - |kept|);
    if left then kept + pad else pad + kept
  }

  /** The integer conversions. */
  predicate IsNumberConv(c: byte)
  {
    c == 'b' as int || c == 'o' as int || c == 'x' as int || c == 'X' as int
    || c == 'd' as int || c == 'i' as int || c == 'u' as int
  }

  function BaseOf(c: byte): (base: int)
    ensures 2 <= base <= 36
  {
    if c == 'b' as int then 2
    else if c == 'o' as int then 8
    else if c == 'x' as int || c == 'X' as int then 16
    else 10
  }

  /**
   * The number an integer conversion prints, as an `unsigned long`: `ll`
   * and `l` take the slot whole, `h` its low 16 bits and no length its low
   * 32 bits, sign-extended for a signed conversion.
   */
  function IntArg(w: u64, length: Length, sign: bool): (num: u64)
    ensures length == NoLength && !sign ==> num == w % 0x1_0000_0000
    ensures length == Short && !sign ==> num == w % 0x1_0000
  {
    match length
    case LongLong => w
    case Long => w
    case Short => if sign then Unsigned(Int16(w)) else w % 0x1_0000
    case NoLength => if sign then Unsigned(Int32(w)) else w % 0x1_0000_0000
  }

  /**
   * `%p` and the integer conversions: the text of the argument slot w. A
   * pointer without a width is printed as 16 hexadecimal digits with
   * leading zeros; `X` prints capitals and `d` and `i` are signed.
   */
  function NumberConv(c: byte, s: Spec, w: u64, mode: Mode): seq<byte>
    requires c == 'p' as int || IsNumberConv(c)
  {
    if c == 'p' as int then
      var width := if s.width == -1 then 16 else s.width;
      var flags := if s.width == -1 then s.flags.(zeropad := true) else s.flags;
      NumberLayout(w, 16, width, s.precision, flags, mode.Corrected?).value
    else
      var f := s.flags.(capital := s.flags.capital || c == 'X' as int, sign := s.flags.sign || c == 'd' as int || c == 'i' as int);
      NumberLayout(IntArg(w, s.length, f.sign), BaseOf(c), s.width, s.precision, f, mode.Corrected?).value
  }

  /**
   * What the conversion byte at s.pos produces, written bytes having been
   * written before it. None where C leaves the behaviour undefined: a
   * missing argument or one of the wrong kind, or, as written, an
   * unrecognised conversion printed in a base never set.
   */
  function Convert(fmt: seq<byte>, s: Spec, args: seq<Arg>, written: nat, mode: Mode): (r: Option<Piece>)
    ensures r.Some? ==> s.pos <= r.value.next && s.ai <= r.value.ai
  {
    var c := At(fmt, s.pos);
    var next := s.pos + 1;
    var word := s.ai < |args| && args[s.ai].Word?;
    if c == '%' as int then Some(Piece(['%' as int], [], next, s.ai, None))
    else if c == 'c' as int then
      if word then Some(Piece(CharField(args[s.ai].w % 256, s.width, s.flags.left), [], next, s.ai + 1, None))
      else None
    else if c == 's' as int then
      if s.ai < |args| && args[s.ai].Text? then
        Some(Piece(StringField(args[s.ai].s, s.width, s.precision, s.flags.left), [], next, s.ai + 1, None))
      else None
    else if c == 'n' as int then
      if word then Some(Piece([], [Store(args[s.ai].w, written)], next, s.ai + 1, None))
      else None
    else if c == 'p' as int || IsNumberConv(c) then
      if word then Some(Piece(NumberConv(c, s, args[s.ai].w, mode), [], next, s.ai + 1, if c == 'p' as int then None else Some(BaseOf(c))))
      else None
    else
      var copied := if c == NUL then [] else [c];
      var after := if c == NUL then s.pos else next;
      if mode.Corrected? then Some(Piece(copied, [], after, s.ai, None))
      else if mode.lastBase.Some? && word then
        match NumberLayout(IntArg(args[s.ai].w, s.length, s.flags.sign), mode.lastBase.value, s.width, s.precision, s.flags, false)
        case None => None
        case Some(t) => Some(Piece(copied + t, [], after, s.ai + 1, None))
      else None
  }

  /** One turn of the loop at the non-NUL byte at p: a plain byte is copied, a `%` starts a conversion. */
  function Step(fmt: seq<byte>, p: nat, args: seq<Arg>, ai: nat, written: nat, mode: Mode): (r: Option<Piece>)
    ensures r.Some? ==> p < r.value.next && ai <= r.value.ai
  {
    if At(fmt, p) != '%' as int then Some(Piece([At(fmt, p)], [], p + 1, ai, None))
    else
      match ParseSpec(fmt, p + 1, args, ai)
      case None => None
      case Some(s) => Convert(fmt, s, args, written, mode)
  }

  /** The mode after a piece: as written, a number conversion sets `base`. */
  function NextMode(mode: Mode, piece: Piece): Mode
  {
    if mode.AsWritten? && piece.base.Some? then AsWritten(piece.base) else mode
  }

  /** The output from format position p to the first NUL, written bytes having been written before p. */
  function FormatFrom(fmt: seq<byte>, p: nat, args: seq<Arg>, ai: nat, written: nat, mode: Mode): (r: Option<Formatted>)
    decreases |fmt| - p, 1
  {
    if At(fmt, p) == NUL then Some(Formatted([], [])) else Continue(fmt, p, args, ai, written, mode)
  }

  /** The piece at the non-NUL byte at p, followed by the output after it. */
  function Continue(fmt: seq<byte>, p: nat, args: seq<Arg>, ai: nat, written: nat, mode: Mode): (r: Option<Formatted>)
    requires At(fmt, p) != NUL
    decreases |fmt| - p, 0
  {
    match Step(fmt, p, args, ai, written, mode)
    case None => None
    case Some(piece) =>
      match FormatFrom(fmt, piece.next, args, piece.ai, written + |piece.text|, NextMode(mode, piece))
      case None => None
      case Some(rest) => Some(Formatted(piece.text + rest.text, piece.stores + rest.stores))
  }

  /** What the corrected `vsprintf` writes for fmt and the arguments. */
  function Format(fmt: seq<byte>, args: seq<Arg>): Option<Formatted>
  {
    FormatFrom(fmt, 0, args, 0, 0, Corrected)
  }

  /** What `vsprintf` as written writes. */
  function FormatAsWritten(fmt: seq<byte>, args: seq<Arg>): Option<Formatted>
  {
    FormatFrom(fmt, 0, args, 0, 0, AsWritten(None))
  }

  // ---------------------------------------------------------------- the formatter

  /** The flag characters at p (lines 185-215). */
  method ScanFlags(fmt: seq<byte>, p: nat) returns (flag: Flags, q: nat)
    ensures (flag, q) == FlagsEnd(fmt, p, NO_FLAGS)
  {
    flag, q := NO_FLAGS, p;
    while IsFlag(At(fmt, q))
      invariant FlagsEnd(fmt, q, flag) == FlagsEnd(fmt, p, NO_FLAGS)
      decreases |fmt| - q
    {
      flag := AddFlag(flag, At(fmt, q));
      q := q + 1;
    }
  }

  /** The width field at s.pos (lines 218-232). */
  method ScanWidth(fmt: seq<byte>, s: Spec, args: seq<Arg>) returns (r: Spec)
    requires WithWidth(fmt, s, args).Some?
    ensures r == WithWidth(fmt, s, args).value
  {
    var flag, q, next := s.flags, s.pos, s.ai;
    var width := -1;
    if IsDigit(At(fmt, q)) {
      q, width := ScanNumber(fmt, q);
    } else if At(fmt, q) == '*' as int {
      width := Int32(args[next].w);
      next := next + 1;
      if width < 0 {
        width := -width;
        flag := flag.(left := true);
      }
      q := q + 1;
    } else {
      width := s.width;
    }
    r := s.(flags := flag, width := width, pos := q, ai := next);
  }

  /** The precision field at s.pos (lines 236-253). */
  method ScanPrecision(fmt: seq<byte>, s: Spec, args: seq<Arg>) returns (r: Spec)
    requires WithPrecision(fmt, s, args).Some?
    ensures r == WithPrecision(fmt, s, args).value
  {
    var q, next := s.pos, s.ai;
    var precision := s.precision;
    if At(fmt, q) == '.' as int {
      q := q + 1;
      precision := -1;
      if IsDigit(At(fmt, q)) {
        q, precision := ScanNumber(fmt, q);
      } else if At(fmt, q) == '*' as int {
        precision := Int32(args[next].w);
        next := next + 1;
        q := q + 1;
      }
      if precision < 0 {
        precision := 0;
      }
    }
    r := s.(precision := precision, pos := q, ai := next);
  }

  /** The length field at s.pos (lines 257-266). */
  method ScanLength(fmt: seq<byte>, s: Spec) returns (r: Spec)
    ensures r == WithLength(fmt, s)
  {
    var q := s.pos;
    var length := s.length;
    var c := At(fmt, q);
    if c == 'h' as int || c == 'l' as int || c == 'L' as int {
      length := if c == 'h' as int then Short else if c == 'l' as int then Long else LongLong;
      q := q + 1;
      if c == 'l' as int && At(fmt, q) == 'l' as int {
        length := LongLong;
        q := q + 1;
      }
    }
    r := s.(length := length, pos := q);
  }

  /**
   * The flags, width, precision and length fields after a `%` at p - 1
   * (lines 185-266): width and precision start at -1, meaning none.
   */
  method ScanSpec(fmt: seq<byte>, p: nat, args: seq<Arg>, ai: nat) returns (s: Spec)
    requires ParseSpec(fmt, p, args, ai).Some?
    ensures s == ParseSpec(fmt, p, args, ai).value
  {
    var flag, q := ScanFlags(fmt, p);
    s := Spec(flag, -1, -1, NoLength, q, ai);
    s := ScanWidth(fmt, s, args);
    s := ScanPrecision(fmt, s, args);
    s := ScanLength(fmt, s);
  }

  /**
   * `%c` (lines 273-282): width - 1 spaces before the character, or after
   * it when left-justified.
   */
  method EmitChar(str: array<byte>, p: nat, ch: byte, width: int, left: bool,
                  ghost S: seq<byte>, ghost pos: nat, ghost out: seq<byte>) returns (end: nat)
    requires WrittenAt(str[..], S, pos, out) && p == pos + |out| && p + |CharField(ch, width, left)| <= str.Length
    modifies str
    ensures end == p + |CharField(ch, width, left)|
    ensures WrittenAt(str[..], S, pos, out + CharField(ch, width, left))
  {
    ghost var o := out;
    var rest;
    end := p;
    if !left {
      end, rest := Pad(str, end, ' ' as int, width - 1, S, pos, o);
      o := o + Repeat(' ' as int, width - 1);
    }
    end := PutChar(str, end, ch, S, pos, o);
    o := o + [ch];
    if left {
      end, rest := Pad(str, end, ' ' as int, width - 1, S, pos, o);
      o := o + Repeat(' ' as int, width - 1);
    }
    assert o == out + CharField(ch, width, left);
  }

  /** The bytes of t, one at a time. */
  method PutBytes(str: array<byte>, p: nat, t: seq<byte>, ghost S: seq<byte>, ghost pos: nat, ghost out: seq<byte>)
      returns (end: nat)
    requires WrittenAt(str[..], S, pos, out) && p == pos + |out| && p + |t| <= str.Length
    modifies str
    ensures end == p + |t|
    ensures WrittenAt(str[..], S, pos, out + t)
  {
    end := p;
    var k := 0;
    while k < |t|
      invariant 0 <= k <= |t| && end == p + k
      invariant WrittenAt(str[..], S, pos, out + t[..k])
    {
      end := PutChar(str, end, t[k], S, pos, out + t[..k]);
      assert out + t[..k] + [t[k]] == out + t[..k + 1];
      k := k + 1;
    }
    assert t[..k] == t;
  }

  /**
   * `%s` (lines 283-300): the kept characters of the string, padded with
   * spaces to width before them, or after them when left-justified.
   */
  method EmitString(str: array<byte>, p: nat, arg: seq<byte>, width: int, precision: int, left: bool,
                    ghost S: seq<byte>, ghost pos: nat, ghost out: seq<byte>) returns (end: nat)
    requires WrittenAt(str[..], S, pos, out) && p == pos + |out|
    requires p + |StringField(arg, width, precision, left)| <= str.Length
    modifies str
    ensures end == p + |StringField(arg, width, precision, left)|
    ensures WrittenAt(str[..], S, pos, out + StringField(arg, width, precision, left))
  {
    var kept := Kept(arg, precision);
    ghost var o := out;
    var rest;
    end := p;
    if !left {
      end, rest := Pad(str, end, ' ' as int, width - |kept|, S, pos, o);
      o := o + Repeat(' ' as int, width - |kept|);
    }
    end := PutBytes(str, end, kept, S, pos, o);
    o := o + kept;
    if left {
      end, rest := Pad(str, end, ' ' as int, width - |kept|, S, pos, o);
      o := o + Repeat(' ' as int, width - |kept|);
    }
    assert o == out + StringField(arg, width, precision, left);
  }

  /** `copy_number` at p, for a base it accepts. */
  method PutNumber(str: array<byte>, p: nat, num: u64, base: int, width: int, precision: int, flag: Flags,
                   ghost S: seq<byte>, ghost pos: nat, ghost out: seq<byte>) returns (end: nat)
    requires 2 <= base <= 36
    requires WrittenAt(str[..], S, pos, out) && p == pos + |out|
    requires p + |NumberText(num, base, width, precision, flag).value| <= str.Length
    modifies str
    ensures end == p + |NumberText(num, base, width, precision, flag).value|
    ensures WrittenAt(str[..], S, pos, out + NumberText(num, base, width, precision, flag).value)
  {
    ghost var t := NumberText(num, base, width, precision, flag).value;
    ghost var prev := str[..];
    var r := CopyNumber(str, p, num, base, width, precision, flag);
    end := r.value;
    assert str[..] == prev[..p] + t + prev[end..];
    Extend(prev, str[..], S, pos, out, t);
  }

  /** `%p` (lines 305-314) and the integer conversions (lines 315-331 and 341-364). */
  method EmitNumberConv(str: array<byte>, p: nat, c: byte, s: Spec, w: u64, ghost S: seq<byte>, ghost out: seq<byte>)
      returns (end: nat)
    requires c == 'p' as int || IsNumberConv(c)
    requires WrittenAt(str[..], S, 0, out) && p == |out| && p + |NumberConv(c, s, w, Corrected)| <= str.Length
    modifies str
    ensures end == p + |NumberConv(c, s, w, Corrected)|
    ensures WrittenAt(str[..], S, 0, out + NumberConv(c, s, w, Corrected))
  {
    if c == 'p' as int {
      var width, flag := s.width, s.flags;
      if width == -1 {
        width := 16;
        flag := flag.(zeropad := true);
      }
      end := PutNumber(str, p, w, 16, width, s.precision, flag, S, 0, out);
    } else {
      var flag := s.flags;
      var base;
      if c == 'b' as int {
        base := 2;
      } else if c == 'o' as int {
        base := 8;
      } else if c == 'X' as int || c == 'x' as int {
        if c == 'X' as int {
          flag := flag.(capital := true);
        }
        base := 16;
      } else {
        if c == 'd' as int || c == 'i' as int {
          flag := flag.(sign := true);
        }
        base := 10;
      }
      var num := IntArg(w, s.length, flag.sign);
      end := PutNumber(str, p, num, base, s.width, s.precision, flag, S, 0, out);
    }
  }

  /**
   * The conversion byte at s.pos (lines 269-364), written at p, the p bytes
   * before it being everything written so far.
   */
  method EmitConversion(str: array<byte>, p: nat, fmt: seq<byte>, s: Spec, args: seq<Arg>,
                        ghost S: seq<byte>, ghost out: seq<byte>) returns (end: nat, next: nat, ai: nat, stores: seq<Store>)
    requires WrittenAt(str[..], S, 0, out) && p == |out|
    requires Convert(fmt, s, args, p, Corrected).Some?
    requires p + |Convert(fmt, s, args, p, Corrected).value.text| <= str.Length
    modifies str
    ensures var piece := Convert(fmt, s, args, p, Corrected).value;
            end == p + |piece.text| && next == piece.next && ai == piece.ai && stores == piece.stores
            && WrittenAt(str[..], S, 0, out + piece.text)
  {
    var c := At(fmt, s.pos);
    next, ai, stores := s.pos + 1, s.ai, [];
    if c == '%' as int {
      end := PutChar(str, p, c, S, 0, out);
    } else if c == 'c' as int {
      end := EmitChar(str, p, args[ai].w % 256, s.width, s.flags.left, S, 0, out);
      ai := ai + 1;
    } else if c == 's' as int {
      end := EmitString(str, p, args[ai].s, s.width, s.precision, s.flags.left, S, 0, out);
      ai := ai + 1;
    } else if c == 'n' as int {
      stores := [Store(args[ai].w, p)];
      ai := ai + 1;
      end := p;
      assert out + [] == out;
    } else if c == 'p' as int || IsNumberConv(c) {
      end := EmitNumberConv(str, p, c, s, args[ai].w, S, out);
      ai := ai + 1;
    } else if c == NUL {
      next := s.pos;
      end := p;
      assert out + [] == out;
    } else {
      end := PutChar(str, p, c, S, 0, out);
    }
  }

  /**
   * One turn of the loop of `vsprintf` at the non-NUL format byte at fp
   * (lines 174-364): it writes text, the first bytes of what is left to
   * write, and the rest is what the format gives from next on.
   */
  method EmitStep(str: array<byte>, op: nat, fmt: seq<byte>, fp: nat, args: seq<Arg>, ai: nat,
                  ghost S: seq<byte>, ghost out: seq<byte>) returns (end: nat, next: nat, nai: nat, stores: seq<Store>, ghost text: seq<byte>)
    requires At(fmt, fp) != NUL && FormatFrom(fmt, fp, args, ai, op, Corrected).Some?
    requires WrittenAt(str[..], S, 0, out) && op == |out|
    requires op + |FormatFrom(fmt, fp, args, ai, op, Corrected).value.text| <= str.Length
    modifies str
    ensures fp < next && end == op + |text| && FormatFrom(fmt, next, args, nai, end, Corrected).Some?
    ensures FormatFrom(fmt, fp, args, ai, op, Corrected).value ==
              Formatted(text + FormatFrom(fmt, next, args, nai, end, Corrected).value.text,
                        stores + FormatFrom(fmt, next, args, nai, end, Corrected).value.stores)
    ensures WrittenAt(str[..], S, 0, out + text)
  {
    assert Step(fmt, fp, args, ai, op, Corrected).Some? by {
      FormatStep(fmt, fp, args, ai, op, Corrected);
    }
    ghost var piece := Step(fmt, fp, args, ai, op, Corrected).value;
    text := piece.text;
    var c := At(fmt, fp);
    if c != '%' as int {
      end := PutChar(str, op, c, S, 0, out);
      next, nai, stores := fp + 1, ai, [];
    } else {
      var s := ScanSpec(fmt, fp + 1, args, ai);
      assert piece == Convert(fmt, s, args, op, Corrected).value;
      end, next, nai, stores := EmitConversion(str, op, fmt, s, args, S, out);
    }
    StepRest(fmt, fp, args, ai, op, piece, text, stores, next, nai, end);
  }

  /** The output at p once the piece there is known, in the terms of `EmitStep`. */
  lemma StepRest(fmt: seq<byte>, p: nat, args: seq<Arg>, ai: nat, written: nat, piece: Piece,
                 text: seq<byte>, stores: seq<Store>, next: nat, nai: nat, end: nat)
    requires At(fmt, p) != NUL && FormatFrom(fmt, p, args, ai, written, Corrected).Some?
    requires Step(fmt, p, args, ai, written, Corrected) == Some(piece)
    requires text == piece.text && stores == piece.stores && next == piece.next && nai == piece.ai
    requires end == written + |text|
    ensures FormatFrom(fmt, next, args, nai, end, Corrected).Some?
    ensures FormatFrom(fmt, p, args, ai, written, Corrected).value ==
              Formatted(text + FormatFrom(fmt, next, args, nai, end, Corrected).value.text,
                        stores + FormatFrom(fmt, next, args, nai, end, Corrected).value.stores)
  {
    FormatStep(fmt, p, args, ai, written, Corrected);
    assert NextMode(Corrected, piece) == Corrected;
  }

  /** A format that does not end at p is the piece at p followed by the rest. */
  lemma FormatStep(fmt: seq<byte>, p: nat, args: seq<Arg>, ai: nat, written: nat, mode: Mode)
    requires At(fmt, p) != NUL && FormatFrom(fmt, p, args, ai, written, mode).Some?
    ensures Step(fmt, p, args, ai, written, mode).Some?
    ensures var piece := Step(fmt, p, args, ai, written, mode).value;
            var rest := FormatFrom(fmt, piece.next, args, piece.ai, written + |piece.text|, NextMode(mode, piece));
            rest.Some? && FormatFrom(fmt, p, args, ai, written, mode).value ==
              Formatted(piece.text + rest.value.text, piece.stores + rest.value.stores)
  {
    assert FormatFrom(fmt, p, args, ai, written, mode) == Continue(fmt, p, args, ai, written, mode);
  }

  /**
   * `vsprintf`: writes the formatted text and a NUL to str and returns the
   * number of bytes before the NUL. The caller passes the arguments the
   * format asks for and a buffer with room for the text and its NUL.
   */
  method Vsprintf(str: array<byte>, fmt: seq<byte>, args: seq<Arg>) returns (n: nat, stores: seq<Store>)
    requires Format(fmt, args).Some? && |Format(fmt, args).value.text| < str.Length
    modifies str
    ensures n == |Format(fmt, args).value.text|
    ensures str[..n + 1] == Format(fmt, args).value.text + [NUL]
    ensures stores == Format(fmt, args).value.stores
  {
    ghost var S := str[..];
    ghost var out: seq<byte> := [];
    ghost var all := Format(fmt, args).value;
    var op, fp, ai := 0, 0, 0;
    stores := [];
    assert WrittenAt(str[..], S, 0, out);
    while At(fmt, fp) != NUL
      invariant WrittenAt(str[..], S, 0, out) && op == |out|
      invariant FormatFrom(fmt, fp, args, ai, op, Corrected).Some?
      invariant all.text == out + FormatFrom(fmt, fp, args, ai, op, Corrected).value.text
      invariant all.stores == stores + FormatFrom(fmt, fp, args, ai, op, Corrected).value.stores
      decreases |fmt| - fp
    {
      var st;
      ghost var text;
      ghost var here := FormatFrom(fmt, fp, args, ai, op, Corrected).value;
      op, fp, ai, st, text := EmitStep(str, op, fmt, fp, args, ai, S, out);
      Advance(all, out, stores, here, text, st, FormatFrom(fmt, fp, args, ai, op, Corrected).value);
      stores := stores + st;
      out := out + text;
    }
    ghost var before := str[..];
    str[op] := NUL;
    Terminate(before, str[..], S, out);
    n := op;
  }

  /** Moving one piece from what is left to write to what is written. */
  lemma Advance(all: Formatted, out: seq<byte>, stores: seq<Store>, here: Formatted, text: seq<byte>, st: seq<Store>, rest: Formatted)
    requires all.text == out + here.text && all.stores == stores + here.stores
    requires here == Formatted(text + rest.text, st + rest.stores)
    ensures all.text == (out + text) + rest.text && all.stores == (stores + st) + rest.stores
  {
    assert out + (text + rest.text) == (out + text) + rest.text;
    assert stores + (st + rest.stores) == (stores + st) + rest.stores;
  }

  /** The NUL written just after the text ends the string. */
  lemma Terminate(before: seq<byte>, after: seq<byte>, S: seq<byte>, out: seq<byte>)
    requires WrittenAt(before, S, 0, out) && |out| < |before| && after == before[|out| := NUL]
    ensures after[..|out| + 1] == out + [NUL]
  {
    assert before[..|out|] == out;
  }

  /** `sprintf`: `vsprintf` over the arguments that follow the format. */
  method Sprintf(buf: array<byte>, fmt: seq<byte>, args: seq<Arg>) returns (n: nat, stores: seq<Store>)
    requires Format(fmt, args).Some? && |Format(fmt, args).value.text| < buf.Length
    modifies buf
    ensures n == |Format(fmt, args).value.text|
    ensures buf[..n + 1] == Format(fmt, args).value.text + [NUL]
    ensures stores == Format(fmt, args).value.stores
  {
    n, stores := Vsprintf(buf, fmt, args);
  }

  // ---------------------------------------------------------------- properties

  /** A format with no '%' before its end is copied unchanged: no argument is taken and nothing is stored. */
  lemma {:induction false} PlainCopy(fmt: seq<byte>, p: nat, args: seq<Arg>, ai: nat, written: nat, mode: Mode)
    requires p <= |fmt| && forall i :: p <= i < |fmt| ==> fmt[i] != '%' as int && fmt[i] != NUL
    ensures FormatFrom(fmt, p, args, ai, written, mode) == Some(Formatted(fmt[p..], []))
    decreases |fmt| - p
  {
    if p < |fmt| {
      PlainCopy(fmt, p + 1, args, ai, written + 1, mode);
      var piece := Piece([fmt[p]], [], p + 1, ai, None);
      assert Step(fmt, p, args, ai, written, mode) == Some(piece);
      assert NextMode(mode, piece) == mode;
      Unfold(fmt, p, args, ai, written, mode, piece, Formatted(fmt[p + 1..], []));
      assert fmt[p..] == [fmt[p]] + fmt[p + 1..];
      var none: seq<Store> := [];
      assert none + none == none;
      assert FormatFrom(fmt, p, args, ai, written, mode) == Some(Formatted([fmt[p]] + fmt[p + 1..], none + none));
    } else {
      assert At(fmt, p) == NUL && fmt[p..] == [];
    }
  }

  /** A piece stores only the count of the bytes written before it. */
  lemma StepStores(fmt: seq<byte>, p: nat, args: seq<Arg>, ai: nat, written: nat, mode: Mode)
    requires At(fmt, p) != NUL && Step(fmt, p, args, ai, written, mode).Some?
    ensures var piece := Step(fmt, p, args, ai, written, mode).value;
            forall k :: 0 <= k < |piece.stores| ==> piece.stores[k].count == written
  {
    if At(fmt, p) == '%' as int {
      var s := ParseSpec(fmt, p + 1, args, ai).value;
      assert Step(fmt, p, args, ai, written, mode) == Convert(fmt, s, args, written, mode);
    }
  }

  /** Every count lies between lo and hi. */
  predicate CountsIn(stores: seq<Store>, lo: nat, hi: nat)
  {
    forall k :: 0 <= k < |stores| ==> lo <= stores[k].count <= hi
  }

  /** The counts never decrease. */
  predicate CountsOrdered(stores: seq<Store>)
  {
    forall j, k :: 0 <= j < k < |stores| ==> stores[j].count <= stores[k].count
  }

  /**
   * `%n` stores the number of bytes written so far: every count lies
   * between what was written before p and what is written by the end, and
   * the counts never decrease.
   */
  lemma {:induction false} StoreCounts(fmt: seq<byte>, p: nat, args: seq<Arg>, ai: nat, written: nat, mode: Mode)
    requires FormatFrom(fmt, p, args, ai, written, mode).Some?
    ensures var r := FormatFrom(fmt, p, args, ai, written, mode).value;
            CountsIn(r.stores, written, written + |r.text|) && CountsOrdered(r.stores)
    decreases |fmt| - p
  {
    if At(fmt, p) != NUL {
      FormatStep(fmt, p, args, ai, written, mode);
      var piece := Step(fmt, p, args, ai, written, mode).value;
      var w := written + |piece.text|;
      StepStores(fmt, p, args, ai, written, mode);
      StoreCounts(fmt, piece.next, args, piece.ai, w, NextMode(mode, piece));
      var rest := FormatFrom(fmt, piece.next, args, piece.ai, w, NextMode(mode, piece)).value;
      JoinStores(written, piece.text, piece.stores, rest, FormatFrom(fmt, p, args, ai, written, mode).value);
    }
  }

  /** Stores of the count written, followed by stores counted after piece text, keep both properties. */
  lemma JoinStores(written: nat, text: seq<byte>, stores: seq<Store>, rest: Formatted, r: Formatted)
    requires forall k :: 0 <= k < |stores| ==> stores[k].count == written
    requires CountsIn(rest.stores, written + |text|, written + |text| + |rest.text|) && CountsOrdered(rest.stores)
    requires r == Formatted(text + rest.text, stores + rest.stores)
    ensures CountsIn(r.stores, written, written + |r.text|) && CountsOrdered(r.stores)
  {
    assert forall k :: |stores| <= k < |r.stores| ==> r.stores[k] == rest.stores[k - |stores|];
  }

  /** `%c` fills width columns, at least one: the character last, or first when left-justified, and spaces. */
  lemma CharLayout(ch: byte, width: int, left: bool)
    ensures var t := CharField(ch, width, left);
            var at := if left then 0 else |t| - 1;
            |t| == (if width > 1 then width else 1) && t[at] == ch
            && forall i :: 0 <= i < |t| && i != at ==> t[i] == ' ' as int
  {
  }

  /**
   * `%s` fills width columns, or as many as the string keeps: the kept
   * characters are a prefix of the string ("<NULL>" for an empty one), at
   * most precision of them when it is positive, last in the field or first
   * when left-justified, and the rest are spaces.
   */
  lemma StringLayout(s: seq<byte>, width: int, precision: int, left: bool)
    ensures var k := Kept(s, precision);
            var t := StringField(s, width, precision, left);
            var from := if left then 0 else |t| - |k|;
            && |t| == (if width > |k| then width else |k|)
            && t[from..from + |k|] == k
            && (forall i :: 0 <= i < |t| && !(from <= i < from + |k|) ==> t[i] == ' ' as int)
            && k <= (if |CText(s)| == 0 then Ascii("<NULL>") else CText(s))
            && (precision > 0 ==> |k| <= precision)
            && (precision <= 0 ==> k == (if |CText(s)| == 0 then Ascii("<NULL>") else CText(s)))
  {
  }

  /**
   * An unrecognised conversion byte: the corrected formatter copies it and
   * takes no argument; as written it goes on to print the next argument in
   * the base of the last number conversion, or is undefined when there was
   * none.
   */
  lemma UnknownConversion(fmt: seq<byte>, s: Spec, args: seq<Arg>, written: nat, base: int)
    requires var c := At(fmt, s.pos);
             c != NUL && c != '%' as int && c != 'c' as int && c != 's' as int && c != 'n' as int
             && c != 'p' as int && !IsNumberConv(c)
    requires 2 <= base <= 36 && s.ai < |args| && args[s.ai].Word?
    ensures var fixed := Convert(fmt, s, args, written, Corrected);
            var asWritten := Convert(fmt, s, args, written, AsWritten(Some(base)));
            && fixed == Some(Piece([At(fmt, s.pos)], [], s.pos + 1, s.ai, None))
            && asWritten.Some? && asWritten.value.ai == s.ai + 1 && asWritten.value.next == s.pos + 1
            && fixed.value.text < asWritten.value.text
    ensures Convert(fmt, s, args, written, AsWritten(None)).None?
  {
  }

  /** The output at a byte that is not NUL: the piece there, then the output after it. */
  lemma Unfold(fmt: seq<byte>, p: nat, args: seq<Arg>, ai: nat, written: nat, mode: Mode, piece: Piece, rest: Formatted)
    requires At(fmt, p) != NUL && Step(fmt, p, args, ai, written, mode) == Some(piece)
    requires FormatFrom(fmt, piece.next, args, piece.ai, written + |piece.text|, NextMode(mode, piece)) == Some(rest)
    ensures FormatFrom(fmt, p, args, ai, written, mode) == Some(Formatted(piece.text + rest.text, piece.stores + rest.stores))
  {
    assert FormatFrom(fmt, p, args, ai, written, mode) == Continue(fmt, p, args, ai, written, mode);
  }

  /** A one-digit number without sign, prefix, width or precision prints as its digit. */
  lemma OneDigit(n: u64, flag: Flags, minusCounted: bool)
    requires n < 10 && !flag.plus && !flag.space && !flag.suffix
    ensures NumberLayout(n, 10, -1, -1, flag, minusCounted) == Some(['0' as int + n])
  {
    var f := Effective(flag);
    assert Digits(n, 10) == [n];
    assert SignOf(n, f).0 == NUL && Head(n, 10, f) == [];
    assert Body(n, 10, -1, f.capital) == ['0' as int + n];
    var r := NumberLayout(n, 10, -1, -1, flag, minusCounted);
    assert r.Some?;
    assert r.value == ['0' as int + n];
  }

  /** "%d%y" with 1 and 2: as written the 'y' also prints the 2 in base 10; corrected it is copied alone. */
  lemma UnknownConversionExample()
    ensures FormatAsWritten(Ascii("%d%y"), [Word(1), Word(2)]) == Some(Formatted(Ascii("1y2"), []))
    ensures Format(Ascii("%d%y"), [Word(1), Word(2)]) == Some(Formatted(Ascii("1y"), []))
  {
    assert Ascii("%d%y") == ['%' as int, 'd' as int, '%' as int, 'y' as int];
    assert Ascii("1y2") == ['1' as int, 'y' as int, '2' as int];
    assert Ascii("1y") == ['1' as int, 'y' as int];
    ExampleRun(Ascii("%d%y"), [Word(1), Word(2)]);
  }

  /** The two runs of the example, piece by piece. */
  lemma ExampleRun(fmt: seq<byte>, args: seq<Arg>)
    requires fmt == ['%' as int, 'd' as int, '%' as int, 'y' as int] && args == [Word(1), Word(2)]
    ensures FormatFrom(fmt, 0, args, 0, 0, AsWritten(None)) == Some(Formatted(['1' as int, 'y' as int, '2' as int], []))
    ensures FormatFrom(fmt, 0, args, 0, 0, Corrected) == Some(Formatted(['1' as int, 'y' as int], []))
  {
    var one := Piece(['1' as int], [], 2, 1, Some(10));
    var yAsWritten := Piece(['y' as int, '2' as int], [], 4, 2, None);
    var yFixed := Piece(['y' as int], [], 4, 1, None);
    ExampleY(fmt, args, yAsWritten, yFixed);
    ExampleRunIn(fmt, args, one, AsWritten(None), AsWritten(Some(10)), yAsWritten);
    ExampleRunIn(fmt, args, one, Corrected, Corrected, yFixed);
    assert one.text + yAsWritten.text == ['1' as int, 'y' as int, '2' as int];
    assert one.text + yFixed.text == ['1' as int, 'y' as int];
  }

  /** One run of the example: the "%d" piece, then the piece of the "%y" in the mode it leaves. */
  lemma ExampleRunIn(fmt: seq<byte>, args: seq<Arg>, one: Piece, mode: Mode, after: Mode, y: Piece)
    requires fmt == ['%' as int, 'd' as int, '%' as int, 'y' as int] && args == [Word(1), Word(2)]
    requires one == Piece(['1' as int], [], 2, 1, Some(10)) && after == NextMode(mode, one)
    requires y.stores == [] && y.next == 4 && Step(fmt, 2, args, 1, 1, after) == Some(y)
    ensures FormatFrom(fmt, 0, args, 0, 0, mode) == Some(Formatted(one.text + y.text, []))
  {
    var none: seq<Store> := [];
    ExampleTail(fmt, args, after, y);
    assert one.next == 2 && one.ai == 1 && 0 + |one.text| == 1 && one.stores + none == [];
    ExampleD(fmt, args, one, mode);
    Unfold(fmt, 0, args, 0, 0, mode, one, Formatted(y.text, none));
  }

  /** The output of the example from its second '%' on is the piece there. */
  lemma ExampleTail(fmt: seq<byte>, args: seq<Arg>, mode: Mode, y: Piece)
    requires fmt == ['%' as int, 'd' as int, '%' as int, 'y' as int]
    requires y.stores == [] && y.next == 4 && Step(fmt, 2, args, 1, 1, mode) == Some(y)
    ensures FormatFrom(fmt, 2, args, 1, 1, mode) == Some(Formatted(y.text, []))
  {
    var none: seq<Store> := [];
    Unfold(fmt, 2, args, 1, 1, mode, y, Formatted([], none));
    assert y.text + [] == y.text && none + none == none;
  }

  /** The "%d" of the example prints the 1. */
  lemma ExampleD(fmt: seq<byte>, args: seq<Arg>, one: Piece, mode: Mode)
    requires fmt == ['%' as int, 'd' as int, '%' as int, 'y' as int] && args == [Word(1), Word(2)]
    requires one == Piece(['1' as int], [], 2, 1, Some(10))
    ensures Step(fmt, 0, args, 0, 0, mode) == Some(one)
  {
    var d := Spec(NO_FLAGS, -1, -1, NoLength, 1, 0);
    ExampleSpecs(fmt, args);
    ExampleOne(d, mode);
    assert Convert(fmt, d, args, 0, mode) == Some(one);
  }

  /** The two specifications of the example have no flags, width, precision or length. */
  lemma ExampleSpecs(fmt: seq<byte>, args: seq<Arg>)
    requires fmt == ['%' as int, 'd' as int, '%' as int, 'y' as int] && args == [Word(1), Word(2)]
    ensures ParseSpec(fmt, 1, args, 0) == Some(Spec(NO_FLAGS, -1, -1, NoLength, 1, 0))
    ensures ParseSpec(fmt, 3, args, 1) == Some(Spec(NO_FLAGS, -1, -1, NoLength, 3, 1))
  {
    assert FlagsEnd(fmt, 1, NO_FLAGS) == (NO_FLAGS, 1);
    assert FlagsEnd(fmt, 3, NO_FLAGS) == (NO_FLAGS, 3);
  }

  /** `%d` of the argument 1 prints "1". */
  lemma ExampleOne(d: Spec, mode: Mode)
    requires d == Spec(NO_FLAGS, -1, -1, NoLength, 1, 0)
    ensures NumberConv('d' as int, d, 1, mode) == ['1' as int]
  {
    assert Int32(1) == 1 && IntArg(1, NoLength, true) == 1;
    OneDigit(1, NO_FLAGS.(sign := true), mode.Corrected?);
  }

  /** The "%y" of the example after the "%d". */
  lemma ExampleY(fmt: seq<byte>, args: seq<Arg>, yAsWritten: Piece, yFixed: Piece)
    requires fmt == ['%' as int, 'd' as int, '%' as int, 'y' as int] && args == [Word(1), Word(2)]
    requires yAsWritten == Piece(['y' as int, '2' as int], [], 4, 2, None)
    requires yFixed == Piece(['y' as int], [], 4, 1, None)
    ensures Step(fmt, 2, args, 1, 1, AsWritten(Some(10))) == Some(yAsWritten)
    ensures Step(fmt, 2, args, 1, 1, Corrected) == Some(yFixed)
    ensures At(fmt, 4) == NUL
  {
    var y := Spec(NO_FLAGS, -1, -1, NoLength, 3, 1);
    ExampleSpecs(fmt, args);
    assert IntArg(2, NoLength, false) == 2;
    OneDigit(2, NO_FLAGS, false);
    assert ['y' as int] + ['0' as int + 2] == yAsWritten.text;
    assert Convert(fmt, y, args, 1, AsWritten(Some(10))) == Some(yAsWritten);
    assert Convert(fmt, y, args, 1, Corrected) == Some(yFixed);
  }

  /** "%%" prints one '%'. */
  lemma PercentExample()
    ensures Format(Ascii("a%%b"), []) == Some(Formatted(Ascii("a%b"), []))
  {
    var fmt := Ascii("a%%b");
    assert fmt == ['a' as int, '%' as int, '%' as int, 'b' as int];
    assert ParseSpec(fmt, 2, [], 0) == Some(Spec(NO_FLAGS, -1, -1, NoLength, 2, 0));
    var a, pc, b := Piece(['a' as int], [], 1, 0, None), Piece(['%' as int], [], 3, 0, None), Piece(['b' as int], [], 4, 0, None);
    assert Step(fmt, 3, [], 0, 2, Corrected) == Some(b);
    assert Step(fmt, 1, [], 0, 1, Corrected) == Some(pc);
    assert Step(fmt, 0, [], 0, 0, Corrected) == Some(a);
    var none: seq<Store> := [];
    Unfold(fmt, 3, [], 0, 2, Corrected, b, Formatted([], none));
    assert b.text + [] == b.text && none + none == none;
    Unfold(fmt, 1, [], 0, 1, Corrected, pc, Formatted(b.text, none));
    Unfold(fmt, 0, [], 0, 0, Corrected, a, Formatted(pc.text + b.text, none));
    assert a.text + (pc.text + b.text) == Ascii("a%b");
  }
}
