/**
 What a format string and its arguments stand for: the text of every conversion, as a function
 (section 7.21.6.1 of C11, in the configuration of the kernel's nanoprintf).
*/
module Printf {
  import opened Digits
  import opened FormatSpec
  import DoubleText
  import opened Machine

  datatype Arg = Int(v: int) | Text(s: string) | Double(bits: nat)

  function Max(a: int, b: int): (m: int)
    ensures m >= a && m >= b
  {
    if a >= b then a else b
  }

  function Repeat(c: char, n: nat): (s: string)
    ensures |s| == n
  {
    if n == 0 then "" else [c] + Repeat(c, n - 1)
  }

  function Reverse(s: string): (r: string)
    ensures |r| == |s|
  {
    if s == [] then [] else Reverse(s[1..]) + [s[0]]
  }

  // ---- Arguments; a missing one, or one of another type, is undefined in C and reads as 0 here ----

  function NextInt(args: seq<Arg>): int { if args != [] && args[0].Int? then args[0].v else 0 }

  function NextText(args: seq<Arg>): string { if args != [] && args[0].Text? then args[0].s else "" }

  function NextDouble(args: seq<Arg>): nat { if args != [] && args[0].Double? then args[0].bits % TWO_64 else 0 }

  function Rest(args: seq<Arg>): seq<Arg> { if args == [] then [] else args[1..] }

  /** 2 to the width of the type that a length modifier names. */
  function Modulus(m: LengthModifier): nat {
    match m
    case Plain => 0x1_0000_0000
    case Short => 0x1_0000
    case Char => 0x100
    case Long => TWO_64
    case LongDouble => 1
  }

  function Unsigned(m: LengthModifier, v: int): (r: nat)
    ensures r < TWO_64
  {
    v % Modulus(m)
  }

  function Signed(m: LengthModifier, v: int): int {
    var half := Modulus(m) / 2;
    (v + half) % Modulus(m) - half
  }

  /** 'L' is no modifier of integers: nothing is read, and the value is 0. */
  function IntArgs(m: LengthModifier, args: seq<Arg>): seq<Arg> {
    if m.LongDouble? then args else Rest(args)
  }

  predicate IsFloat(c: Conversion) { c.FloatDec? || c.FloatSci? || c.FloatShortest? || c.FloatHex? }

  predicate IsPlainInt(c: Conversion) { c.SignedInt? || c.Octal? || c.HexInt? || c.UnsignedInt? }

  function WithWidth(s: Spec, args: seq<Arg>): (r: (Spec, seq<Arg>))
    ensures r.0.caseAdjust == s.caseAdjust && r.0.conversion == s.conversion
  {
    if !s.widthOpt.Star? then (s, args)
    else
      var w := Signed(Plain, NextInt(args));
      (if w < 0 then s.(fieldWidth := -w, leftJustified := true) else s.(fieldWidth := w), Rest(args))
  }

  function WithPrecision(s: Spec, args: seq<Arg>): (r: (Spec, seq<Arg>))
    ensures r.0.caseAdjust == s.caseAdjust && r.0.conversion == s.conversion
  {
    if !s.precOpt.Star? then (s, args)
    else
      var p := Signed(Plain, NextInt(args));
      (if p < 0 then s.(prec := 0, precOpt := Absent) else s.(prec := p), Rest(args))
  }

  function WithDefaults(s: Spec): (r: Spec)
    ensures r.caseAdjust == s.caseAdjust && r.conversion == s.conversion
  {
    var t := if s.precOpt.Absent? && IsFloat(s.conversion) then s.(prec := 6)
             else if s.precOpt.Absent? && s.conversion.Pointer? then s.(prec := 16)
             else s;
    if !t.precOpt.Absent? && IsPlainInt(t.conversion) then t.(leadingZeroPad := false) else t
  }

  /** The specification with its star arguments read and its defaults filled in. */
  function Resolve(s: Spec, args: seq<Arg>): (Spec, seq<Arg>) {
    var (wide, a) := WithWidth(s, args);
    var (precise, b) := WithPrecision(wide, a);
    (WithDefaults(precise), b)
  }

  lemma ResolveKeeps(s: Spec, args: seq<Arg>)
    ensures var r := Resolve(s, args).0; r.caseAdjust == s.caseAdjust && r.conversion == s.conversion
  {
    hide WithWidth, WithPrecision, WithDefaults;
  }

  // ---- Padding ----

  /** A converted argument: `digits` is its text back to front. */
  datatype Converted = Converted(sign: string, prefix: string, precPad: nat, digits: string, zero: bool)

  function PadChar(s: Spec, zero: bool): char {
    if s.widthOpt.Absent? then NUL
    else if s.leadingZeroPad && !s.leftJustified && !(!s.precOpt.Absent? && s.prec == 0 && zero) then '0'
    else ' '
  }

  function Length(c: Converted): nat { |c.sign| + |c.prefix| + c.precPad + |c.digits| }

  function FieldPad(s: Spec, c: Converted): nat { Max(0, s.fieldWidth - Length(c)) }

  function Assemble(s: Spec, c: Converted): string {
    var pad := PadChar(s, c.zero);
    var number := Repeat('0', c.precPad) + Reverse(c.digits);
    var padding := Repeat(pad, if pad == NUL then 0 else FieldPad(s, c));
    if s.leftJustified then c.prefix + c.sign + number + padding
    else if pad == '0' then c.sign + c.prefix + padding + number
    else padding + c.prefix + c.sign + number
  }

  // ---- Conversions ----

  /** Zero with an explicit precision of zero has no digits. */
  predicate NoDigits(s: Spec, v: int) { v == 0 && !s.precOpt.Absent? && s.prec == 0 }

  function NumberBase(c: Conversion): nat { if c.Octal? then 8 else if c.UnsignedInt? || c.SignedInt? then 10 else 16 }

  function SignedConverted(s: Spec, v: int): Converted
    requires s.caseAdjust <= 32
  {
    var digits := if NoDigits(s, v) then "" else ToDigits(if v < 0 then -v else v, 10, s.caseAdjust);
    var sign := if v < 0 then "-" else if s.prepend == NUL then "" else [s.prepend];
    Converted(sign, "", Max(0, s.prec - |digits|), digits, v == 0)
  }

  /** "%#o" puts a zero in front of the digits. */
  predicate LeadsWithZero(s: Spec, v: nat) { v > 0 && s.altForm && s.conversion.Octal? }

  function UnsignedConverted(s: Spec, v: nat): Converted
    requires s.caseAdjust <= 32
  {
    var digits := if NoDigits(s, v) then ""
                  else ToDigits(v, NumberBase(s.conversion), s.caseAdjust) + if LeadsWithZero(s, v) then "0" else "";
    var hex := v > 0 && s.altForm && NumberBase(s.conversion) == 16;
    var prefix := if hex then ['0', 'X' + s.caseAdjust as char] else "";
    Converted("", prefix, Max(0, Least(s, v) - |digits|), digits, v == 0)
  }

  /** The precision, save that "%#.0o" prints a zero. */
  function Least(s: Spec, v: nat): nat {
    if NoDigits(s, v) && s.conversion.Octal? && s.altForm then 1 else s.prec
  }

  function UnsignedText(s: Spec, v: nat): string
    requires s.caseAdjust <= 32
  {
    Assemble(s.(prec := Least(s, v)), UnsignedConverted(s, v))
  }

  function CharConverted(s: Spec, c: char): Converted {
    var digits := if c == NUL then "" else [c];
    Converted("", "", Max(0, s.prec - |digits|), digits, false)
  }

  /** The characters of a string before its NUL, and no more than the precision. */
  function StringBody(s: Spec, t: string): string
    decreases |t|
  {
    if t == [] || t[0] == NUL || (!s.precOpt.Absent? && s.prec == 0) then ""
    else [t[0]] + StringBody(if s.precOpt.Absent? then s else s.(prec := s.prec - 1), t[1..])
  }

  function FloatConverted(s: Spec, bits: nat, text: string): Converted {
    Converted(if bits / 0x8000_0000_0000_0000 % 2 == 1 then "-" else if s.prepend == NUL then "" else [s.prepend],
              "", 0, text, bits % 0x8000_0000_0000_0000 == 0)
  }

  /** The text of one specification, and the arguments behind those it takes. */
  function Convert(spec: Spec, args: seq<Arg>): (string, seq<Arg>)
    requires spec.caseAdjust <= 32
  {
    ResolveKeeps(spec, args);
    var (s, a) := Resolve(spec, args);
    ConvertResolved(s, a)
  }

  function ConvertResolved(s: Spec, a: seq<Arg>): (string, seq<Arg>)
    requires s.caseAdjust <= 32
  {
    match s.conversion
    case Percent => (Assemble(s, CharConverted(s, '%')), a)
    case Character => (Assemble(s, CharConverted(s, (NextInt(a) % 256) as char)), Rest(a))
    case String => (Assemble(s, Converted("", "", 0, Reverse(StringBody(s, NextText(a))), false)), Rest(a))
    case SignedInt => (Assemble(s, SignedConverted(s, Signed(s.lengthModifier, NextInt(a)))),
      IntArgs(s.lengthModifier, a))
    case Pointer => (UnsignedText(s, Unsigned(Long, NextInt(a))), Rest(a))
    case _ =>
      if IsFloat(s.conversion) then
        var bits := NextDouble(a);
        var (text, number) := DoubleText.FloatText(bits, s.prec, s.altForm, s.caseAdjust);
        (Assemble(if number then s else s.(leadingZeroPad := false), FloatConverted(s, bits, text)), Rest(a))
      else
        (UnsignedText(s, Unsigned(s.lengthModifier, NextInt(a))), IntArgs(s.lengthModifier, a))
  }

  /** The whole output of npf_vpprintf from position i of the format. */
  function Expand(f: string, i: nat, args: seq<Arg>): string
    decreases |f| - i
  {
    if At(f, i) == NUL then ""
    else
      var p := if f[i] == '%' then Parse(f, i) else NotASpec;
      ParseAdvances(f, i);
      ParseCase(f, i);
      match p
      case NotASpec => [f[i]] + Expand(f, i + 1, args)
      case Parsed(spec, next) =>
        var (text, rest) := Convert(spec, args);
        text + Expand(f, next, rest)
  }

  lemma ParseCase(f: string, i: nat)
    ensures Parse(f, i).Parsed? ==> Parse(f, i).spec.caseAdjust == 0 || Parse(f, i).spec.caseAdjust == 32
  {
    hide Flags, Width, Precision, Modifier, ConversionOf;
  }

  // ---- The length of a conversion ----

  lemma AssembledLength(s: Spec, c: Converted)
    requires s.widthOpt.Absent? ==> s.fieldWidth == 0
    ensures |Assemble(s, c)| == Max(s.fieldWidth, Length(c))
  {
  }

  /** A signed conversion takes as many characters as its width, sign, precision and digits ask for. */
  lemma SignedLength(s: Spec, v: int)
    requires s.caseAdjust == 0 || s.caseAdjust == 32
    requires s.widthOpt.Absent? ==> s.fieldWidth == 0
    ensures var c := SignedConverted(s, v);
            && |Assemble(s, c)| == Max(s.fieldWidth, |c.sign| + Max(s.prec, |c.digits|))
            && |c.sign| == (if v < 0 || s.prepend != NUL then 1 else 0)
            && (c.digits == [] <==> NoDigits(s, v))
            && (!NoDigits(s, v) ==> DigitCount(if v < 0 then -v else v, 10, |c.digits|))
  {
    AssembledLength(s, SignedConverted(s, v));
    ToDigitsDecode(if v < 0 then -v else v, 10, s.caseAdjust);
    hide Assemble, DigitCount;
  }

  lemma UnsignedDigits(s: Spec, v: nat)
    requires s.caseAdjust == 0 || s.caseAdjust == 32
    ensures var d := UnsignedConverted(s, v).digits;
            && (d == [] <==> NoDigits(s, v))
            && (!NoDigits(s, v) ==> DigitCount(v, NumberBase(s.conversion), |d| - if LeadsWithZero(s, v) then 1 else 0))
  {
    ToDigitsDecode(v, NumberBase(s.conversion), s.caseAdjust);
    hide DigitCount, Decode, DigitValue;
  }

  /** The same for an unsigned one, with the "0x" and the leading octal zero of the alternative form. */
  lemma UnsignedLength(s: Spec, v: nat)
    requires s.caseAdjust == 0 || s.caseAdjust == 32
    requires s.widthOpt.Absent? ==> s.fieldWidth == 0
    ensures var c := UnsignedConverted(s, v);
            && |UnsignedText(s, v)| == Max(s.fieldWidth, |c.prefix| + Max(Least(s, v), |c.digits|))
            && |c.prefix| == (if v > 0 && s.altForm && NumberBase(s.conversion) == 16 then 2 else 0)
            && (c.digits == [] <==> NoDigits(s, v))
            && (!NoDigits(s, v) ==>
                  DigitCount(v, NumberBase(s.conversion), |c.digits| - if LeadsWithZero(s, v) then 1 else 0))
  {
    UnsignedDigits(s, v);
    AssembledLength(s.(prec := Least(s, v)), UnsignedConverted(s, v));
    hide Assemble, DigitCount, ToDigits, Base, NoDigits;
  }

  /** A string conversion shows the longest prefix without a NUL that the precision allows. */
  lemma {:induction false} StringBodyIsPrefix(s: Spec, t: string)
    ensures var b := StringBody(s, t);
            && |b| <= |t| && b == t[..|b|] && NUL !in b && (!s.precOpt.Absent? ==> |b| <= s.prec)
            && (|b| < |t| && (s.precOpt.Absent? || |b| < s.prec) ==> t[|b|] == NUL)
    decreases |t|
  {
    var b := StringBody(s, t);
    if b != [] {
      StringBodyIsPrefix(if s.precOpt.Absent? then s else s.(prec := s.prec - 1), t[1..]);
      assert t[..|b|] == [t[0]] + t[1..][..|b| - 1];
    }
  }

  // ---- Reading a number back ----

  predicate IsBaseDigit(c: char, base: nat) {
    ('0' <= c <= '9' || 'A' <= c <= 'F' || 'a' <= c <= 'f') && DigitValue(c) < base
  }

  function ReadDigits(t: string, base: nat, value: nat): nat {
    if t == [] || !IsBaseDigit(t[0], base) then value else ReadDigits(t[1..], base, value * base + DigitValue(t[0]))
  }

  function SkipSpaces(t: string): string {
    if t != [] && t[0] == ' ' then SkipSpaces(t[1..]) else t
  }

  function SkipPrefix(t: string, base: nat): string {
    if base == 16 && |t| >= 2 && t[0] == '0' && (t[1] == 'x' || t[1] == 'X') then t[2..] else t
  }

  /** What a reader makes of a number: spaces, a sign, "0x" for base 16, and digits up to something else. */
  function ReadBack(t: string, base: nat): int {
    var u := SkipSpaces(t);
    if u != [] && u[0] == '-' then -(ReadDigits(u[1..], base, 0) as int)
    else if u != [] && u[0] == '+' then ReadDigits(u[1..], base, 0)
    else ReadDigits(SkipPrefix(u, base), base, 0)
  }

  /** Only spaces are left. */
  predicate Blank(t: string) { t == [] || t[0] == ' ' }

  lemma {:induction false} ReadReversed(d: string, rest: string, base: nat, value: nat)
    requires Blank(rest) && forall c | c in d :: IsBaseDigit(c, base)
    ensures ReadDigits(Reverse(d) + rest, base, value) == value * Power(base, |d|) + Decode(d, base)
  {
    hide DigitValue, IsBaseDigit;
    if d == [] {
      assert Reverse(d) + rest == rest && Power(base, 0) == 1;
      BlankEnds(rest, base);
    } else {
      var last := d[|d| - 1];
      var front := d[..|d| - 1];
      assert d == front + [last];
      ReverseAppend(front, last);
      DecodeAppend(front, last, base);
      var t := Reverse(d) + rest;
      assert t[0] == last && t[1..] == Reverse(front) + rest;
      ReadReversed(front, rest, base, value * base + DigitValue(last));
      ReadStep(value, base, DigitValue(last), Power(base, |front|), Power(base, |d|));
    }
  }

  lemma ReadStep(value: nat, base: nat, d: nat, p: nat, q: nat)
    requires q == base * p
    ensures (value * base + d) * p == value * q + p * d
  {
    assert value * base * p == value * (base * p);
  }

  lemma BlankEnds(rest: string, base: nat)
    requires Blank(rest)
    ensures rest != [] ==> !IsBaseDigit(rest[0], base)
  {
  }

  lemma {:induction false} ReverseAppend(s: string, c: char)
    ensures Reverse(s + [c]) == [c] + Reverse(s)
  {
    if s == [] {
      assert s + [c] == [c];
    } else {
      assert (s + [c])[1..] == s[1..] + [c];
      ReverseAppend(s[1..], c);
    }
  }

  /** Leading zeros do not change what is read. */
  lemma {:induction false} ReadZeros(k: nat, t: string, base: nat)
    requires base > 0
    ensures ReadDigits(Repeat('0', k) + t, base, 0) == ReadDigits(t, base, 0)
  {
    if k == 0 {
      assert Repeat('0', 0) + t == t;
    } else {
      var u := Repeat('0', k) + t;
      assert u[0] == '0' && u[1..] == Repeat('0', k - 1) + t;
      ReadZeros(k - 1, t, base);
    }
  }

  lemma {:induction false} SkipsPadding(k: nat, t: string)
    ensures SkipSpaces(Repeat(' ', k) + t) == SkipSpaces(t)
  {
    if k == 0 {
      assert Repeat(' ', 0) + t == t;
    } else {
      var u := Repeat(' ', k) + t;
      assert u[0] == ' ' && u[1..] == Repeat(' ', k - 1) + t;
      SkipsPadding(k - 1, t);
    }
  }

  /** Zeros, digits and spaces: what is read is what the digits decode to. */
  lemma ReadNumber(zeros: nat, digits: string, spaces: nat, base: nat)
    requires base > 0 && forall c | c in digits :: IsBaseDigit(c, base)
    ensures ReadDigits(Repeat('0', zeros) + Reverse(digits) + Repeat(' ', spaces), base, 0) == Decode(digits, base)
  {
    var rest := Reverse(digits) + Repeat(' ', spaces);
    assert Repeat('0', zeros) + Reverse(digits) + Repeat(' ', spaces) == Repeat('0', zeros) + rest;
    ReadZeros(zeros, rest, base);
    ReadReversed(digits, Repeat(' ', spaces), base, 0);
  }

  lemma {:induction false} RepeatSum(c: char, i: nat, j: nat)
    ensures Repeat(c, i) + Repeat(c, j) == Repeat(c, i + j)
  {
    if i == 0 {
      assert Repeat(c, 0) + Repeat(c, j) == Repeat(c, j);
    } else {
      RepeatSum(c, i - 1, j);
      assert Repeat(c, i) + Repeat(c, j) == [c] + (Repeat(c, i - 1) + Repeat(c, j));
    }
  }

  /** Zeros, the digits, and padding behind them. */
  function NumberText(zeros: nat, digits: string, spaces: nat): string {
    Repeat('0', zeros) + Reverse(digits) + Repeat(' ', spaces)
  }

  /** There are zeros to the width where the '0' flag counts: not with '-', and not for "%0.0d" of zero. */
  predicate ZeroPads(s: Spec, zero: bool) {
    s.leadingZeroPad && !s.leftJustified && !s.widthOpt.Absent? && !(!s.precOpt.Absent? && s.prec == 0 && zero)
  }

  /** Where the padding goes: behind with '-', otherwise in front, as zeros behind the sign where the flag counts. */
  predicate Sides(s: Spec, c: Converted, before: nat, zeros: nat, after: nat) {
    if s.leftJustified then before == 0 && zeros == c.precPad
    else after == 0 && if ZeroPads(s, c.zero) then before == 0 else zeros == c.precPad
  }

  /** However it is padded, a conversion is spaces, sign, prefix, zeros, digits, spaces. */
  lemma NormalForm(s: Spec, c: Converted) returns (before: nat, zeros: nat, after: nat)
    requires c.sign == "" || c.prefix == ""
    ensures Assemble(s, c) == Repeat(' ', before) + (c.sign + c.prefix + NumberText(zeros, c.digits, after))
    ensures Sides(s, c, before, zeros, after)
  {
    var pad := PadChar(s, c.zero);
    var z, d, q := Repeat('0', c.precPad), Reverse(c.digits), FieldPad(s, c);
    before, zeros, after := 0, c.precPad, 0;
    assert Repeat(' ', 0) == "" && Repeat(pad, 0) == "";
    assert s.leftJustified ==> pad != '0';
    assert pad == NUL || pad == '0' || pad == ' ';
    RepeatSum('0', q, c.precPad);
    hide FieldPad, Repeat, Reverse, PadChar;
    if s.leftJustified {
      after := if pad == NUL then 0 else q;
      Rearranged(c.sign, c.prefix, z, d, Repeat(' ', after));
    } else if pad == '0' {
      zeros := q + c.precPad;
      ZerosJoined(c.sign + c.prefix, Repeat('0', q), z, d);
    } else {
      before := if pad == NUL then 0 else q;
      SpacesFirst(c.sign, c.prefix, Repeat(' ', before), z, d);
    }
  }

  lemma Rearranged(sign: string, prefix: string, z: string, d: string, q: string)
    requires sign == "" || prefix == ""
    ensures prefix + sign + (z + d) + q == "" + (sign + prefix + (z + d + q))
  {
    assert prefix + sign == sign + prefix;
  }

  lemma ZerosJoined(front: string, p: string, z: string, d: string)
    ensures front + p + (z + d) == "" + (front + (p + z + d + ""))
  {
  }

  lemma SpacesFirst(sign: string, prefix: string, p: string, z: string, d: string)
    requires sign == "" || prefix == ""
    ensures p + prefix + sign + (z + d) == p + (sign + prefix + (z + d + ""))
  {
    assert prefix + sign == sign + prefix;
  }

  /** A number with no sign in front of it: nothing is skipped but padding where there are no digits. */
  lemma NumberStart(zeros: nat, digits: string, after: nat, base: nat)
    requires base == 8 || base == 10 || base == 16
    requires forall c | c in digits :: IsBaseDigit(c, base)
    ensures var t := NumberText(zeros, digits, after); var u := SkipSpaces(t);
            && ReadDigits(t, base, 0) == ReadDigits(u, base, 0) == Decode(digits, base)
            && SkipPrefix(u, base) == u && (u != [] ==> u[0] != '-' && u[0] != '+' && u[0] != ' ')
  {
    var t := NumberText(zeros, digits, after);
    ReadNumber(zeros, digits, after, base);
    if zeros == 0 && digits == [] {
      assert t == Repeat(' ', after) + "";
      SkipsPadding(after, "");
      BlankEnds(t, base);
      assert t != [] ==> t[0] == ' ';
    } else {
      StartsWithDigit(zeros, digits, after, base);
    }
  }

  lemma StartsWithDigit(zeros: nat, digits: string, after: nat, base: nat)
    requires (zeros > 0 || digits != []) && forall c | c in digits :: IsBaseDigit(c, base)
    requires base > 0
    ensures var t := NumberText(zeros, digits, after);
            t != [] && IsBaseDigit(t[0], base) && forall k | 0 <= k < |t| :: t[k] == ' ' || IsBaseDigit(t[k], base)
  {
    var t := NumberText(zeros, digits, after);
    AllOf(zeros, '0');
    AllOf(after, ' ');
    ReverseSame(digits);
    hide IsBaseDigit, Repeat, Reverse;
    assert IsBaseDigit('0', base) by { ZeroIsDigit(base); }
    forall k | 0 <= k < |t| ensures (t[k] == ' ' || IsBaseDigit(t[k], base)) && (k == 0 ==> IsBaseDigit(t[k], base)) {
      if k < zeros {
        assert t[k] == Repeat('0', zeros)[k];
      } else if k < zeros + |digits| {
        assert t[k] == Reverse(digits)[k - zeros] && Reverse(digits)[k - zeros] in Reverse(digits);
      } else {
        assert t[k] == Repeat(' ', after)[k - zeros - |digits|];
      }
    }
  }

  lemma ZeroIsDigit(base: nat)
    requires base > 0
    ensures IsBaseDigit('0', base)
  {
  }

  lemma {:induction false} AllOf(n: nat, c: char)
    ensures forall k | 0 <= k < n :: Repeat(c, n)[k] == c
  {
    if n > 0 { AllOf(n - 1, c); }
  }

  lemma {:induction false} ReverseSame(s: string)
    ensures forall c | c in Reverse(s) :: c in s
  {
    if s != [] { ReverseSame(s[1..]); }
  }

  /** A conversion reads back as the number its digits decode to, with its sign. */
  lemma AssembledReadsBack(s: Spec, c: Converted, base: nat)
    requires base == 8 || base == 10 || base == 16
    requires c.sign == "" || c.sign == "-" || c.sign == "+" || c.sign == " "
    requires c.prefix == "" || (c.sign == "" && base == 16 && (c.prefix == "0x" || c.prefix == "0X"))
    requires forall d | d in c.digits :: IsBaseDigit(d, base)
    ensures ReadBack(Assemble(s, c), base) == if c.sign == "-" then -(Decode(c.digits, base) as int)
      else Decode(c.digits, base)
  {
    hide *;
    var before, zeros, after := NormalForm(s, c);
    var t := NumberText(zeros, c.digits, after);
    NumberStart(zeros, c.digits, after, base);
    PaddingRead(before, c.sign + c.prefix + t, base);
    SignRead(c.sign, c.prefix, t, base);
  }

  lemma PaddingRead(n: nat, t: string, base: nat)
    ensures ReadBack(Repeat(' ', n) + t, base) == ReadBack(t, base)
  {
    SkipsPadding(n, t);
    hide SkipSpaces, Repeat;
  }

  /** The sign and the prefix are taken off, and then t is read. */
  lemma SignRead(sign: string, prefix: string, t: string, base: nat)
    requires sign == "" || sign == "-" || sign == "+" || sign == " "
    requires prefix == "" || (sign == "" && base == 16 && (prefix == "0x" || prefix == "0X"))
    requires var u := SkipSpaces(t);
      && SkipPrefix(u, base) == u && (u != [] ==> u[0] != '-' && u[0] != '+' && u[0] != ' ')
      && ReadDigits(t, base, 0) == ReadDigits(u, base, 0)
    ensures ReadBack(sign + prefix + t, base) == if sign == "-" then -(ReadDigits(t, base, 0) as int)
      else ReadDigits(t, base, 0)
  {
    hide ReadDigits;
    var u := sign + prefix + t;
    if prefix != "" {
      assert sign + prefix == prefix;
      PrefixSkipped(prefix, t);
    } else if sign == "" {
      assert u == t;
    } else {
      assert u == sign + t;
      assert u[1..] == t && u[0] == sign[0];
    }
  }

  lemma PrefixSkipped(prefix: string, t: string)
    requires prefix == "0x" || prefix == "0X"
    ensures SkipSpaces(prefix + t) == prefix + t && SkipPrefix(prefix + t, 16) == t && (prefix + t)[0] == '0'
  {
  }

  lemma SignedReadsBack(s: Spec, v: int)
    requires s.caseAdjust == 0 || s.caseAdjust == 32
    requires s.prepend == NUL || s.prepend == ' ' || s.prepend == '+'
    ensures ReadBack(Assemble(s, SignedConverted(s, v)), 10) == v
  {
    var c := SignedConverted(s, v);
    DigitsRead(if v < 0 then -v else v, 10, s.caseAdjust);
    hide Assemble;
    AssembledReadsBack(s, c, 10);
  }

  lemma UnsignedReadsBack(s: Spec, v: nat)
    requires s.caseAdjust == 0 || s.caseAdjust == 32
    ensures ReadBack(UnsignedText(s, v), NumberBase(s.conversion)) == v
  {
    var c := UnsignedConverted(s, v);
    var base := NumberBase(s.conversion);
    DigitsRead(v, base, s.caseAdjust);
    LeadingZero(ToDigits(v, base, s.caseAdjust), base);
    hide Assemble, ToDigits, Decode, IsBaseDigit;
    AssembledReadsBack(s.(prec := Least(s, v)), c, base);
  }

  lemma DigitsRead(v: nat, base: nat, caseAdjust: nat)
    requires Base(base) && (caseAdjust == 0 || caseAdjust == 32)
    ensures Decode(ToDigits(v, base, caseAdjust), base) == v && Decode("", base) == 0
    ensures forall c | c in ToDigits(v, base, caseAdjust) :: IsBaseDigit(c, base)
  {
  }

  lemma LeadingZero(d: string, base: nat)
    requires base > 0
    ensures Decode(d + "0", base) == Decode(d, base) && IsBaseDigit('0', base) && d + "" == d
  {
    DecodeAppend(d, '0', base);
  }

  // ---- From the format to the text ----

  /** What the parser and the star arguments leave to be relied on. */
  predicate WellFormed(s: Spec) {
    && (s.widthOpt.Absent? ==> s.fieldWidth == 0)
    && (s.prepend == NUL || s.prepend == ' ' || s.prepend == '+')
    && (s.caseAdjust == 0 || s.caseAdjust == 32)
  }

  lemma {:induction false} FlagsShape(f: string, i: nat, spec: Spec)
    requires spec.prepend == NUL || spec.prepend == ' ' || spec.prepend == '+'
    ensures var r := Flags(f, i, spec).0; r.prepend == NUL || r.prepend == ' ' || r.prepend == '+'
    decreases |f| - i
  {
    if i < |f| && IsFlag(f[i]) {
      FlagsShape(f, i + 1, WithFlag(spec, f[i]));
    }
  }

  /** The width and the precision leave the other parts alone. */
  lemma WidthShape(f: string, i: nat, flags: Spec)
    ensures var r := Width(f, i, flags).0; r.prepend == flags.prepend && (r.widthOpt.Absent? ==> r.fieldWidth == 0)
  {
  }

  lemma PrecisionShape(f: string, i: nat, wide: Spec)
    ensures var r := Precision(f, i, wide).0;
            r.prepend == wide.prepend && r.widthOpt == wide.widthOpt && r.fieldWidth == wide.fieldWidth
  {
    hide Number;
  }

  lemma ParsedWellFormed(f: string, i: nat)
    ensures Parse(f, i).Parsed? ==> WellFormed(Parse(f, i).spec)
  {
    hide Flags, Width, Precision, Modifier, ConversionOf;
    ParseCase(f, i);
    FlagsShape(f, i + 1, EMPTY);
    var (flagged, a) := Flags(f, i + 1, EMPTY);
    WidthShape(f, a, flagged);
    var (wide, b) := Width(f, a, flagged);
    PrecisionShape(f, b, wide);
  }

  lemma StarsShape(s: Spec, args: seq<Arg>)
    requires WellFormed(s)
    ensures WellFormed(WithWidth(s, args).0) && WellFormed(WithPrecision(s, args).0)
  {
    hide Signed;
  }

  lemma DefaultsShape(s: Spec)
    requires WellFormed(s)
    ensures WellFormed(WithDefaults(s))
  {
  }

  lemma ResolvedWellFormed(s: Spec, args: seq<Arg>)
    requires WellFormed(s)
    ensures WellFormed(Resolve(s, args).0)
  {
    hide WithWidth, WithPrecision, WithDefaults, WellFormed;
    var (wide, a) := WithWidth(s, args);
    StarsShape(s, args);
    StarsShape(wide, a);
    DefaultsShape(WithPrecision(wide, a).0);
  }

  lemma ConvertedAfterStars(spec: Spec, args: seq<Arg>)
    requires WellFormed(spec)
    ensures var (s, a) := Resolve(spec, args);
            WellFormed(s) && Convert(spec, args) == ConvertResolved(s, a)
  {
    ResolvedWellFormed(spec, args);
    ResolveKeeps(spec, args);
    hide Resolve, ConvertResolved;
  }

  /** "%d" and "%i": the text reads back as the argument, and is as long as its parsed parts ask for. */
  lemma SignedConversion(f: string, i: nat, args: seq<Arg>)
    requires Parse(f, i).Parsed? && Parse(f, i).spec.conversion.SignedInt?
    ensures WellFormed(Parse(f, i).spec)
    ensures var (s, a) := Resolve(Parse(f, i).spec, args);
            var text := Convert(Parse(f, i).spec, args).0;
            var v := Signed(s.lengthModifier, NextInt(a));
            && ReadBack(text, 10) == v
            && WellFormed(s)
            && |text| == Max(s.fieldWidth, |SignedConverted(s, v).sign| + Max(s.prec, |SignedConverted(s, v).digits|))
  {
    ParsedWellFormed(f, i);
    hide Parse;
    var spec := Parse(f, i).spec;
    ConvertedAfterStars(spec, args);
    ResolveKeeps(spec, args);
    hide Convert, Resolve;
    var (s, a) := Resolve(spec, args);
    var v := Signed(s.lengthModifier, NextInt(a));
    hide Assemble, ReadBack, SignedConverted, Signed;
    SignedLength(s, v);
    SignedReadsBack(s, v);
  }

  /** "%u", "%x" and "%o", with the alternative form. */
  lemma UnsignedConversion(f: string, i: nat, args: seq<Arg>)
    requires Parse(f, i).Parsed?
    requires var c := Parse(f, i).spec.conversion; c.UnsignedInt? || c.HexInt? || c.Octal?
    ensures WellFormed(Parse(f, i).spec)
    ensures var (s, a) := Resolve(Parse(f, i).spec, args);
            var text := Convert(Parse(f, i).spec, args).0;
            var v := Unsigned(s.lengthModifier, NextInt(a));
            && ReadBack(text, NumberBase(s.conversion)) == v
            && WellFormed(s)
            && |text| == Max(s.fieldWidth,
                             |UnsignedConverted(s, v).prefix| + Max(Least(s, v), |UnsignedConverted(s, v).digits|))
  {
    ParsedWellFormed(f, i);
    hide Parse;
    var spec := Parse(f, i).spec;
    ConvertedAfterStars(spec, args);
    ResolveKeeps(spec, args);
    hide Convert, Resolve;
    var (s, a) := Resolve(spec, args);
    var v := Unsigned(s.lengthModifier, NextInt(a));
    hide Assemble, ReadBack, UnsignedConverted, UnsignedText, Unsigned, Least;
    UnsignedLength(s, v);
    UnsignedReadsBack(s, v);
  }

  /** "%f" and its kin: spaces, a sign, zeros, the text of the double, spaces; a word has no zeros. */
  lemma FloatConversion(f: string, i: nat, args: seq<Arg>) returns (before: nat, zeros: nat, after: nat)
    requires Parse(f, i).Parsed? && IsFloat(Parse(f, i).spec.conversion)
    ensures WellFormed(Parse(f, i).spec)
    ensures var (s, a) := Resolve(Parse(f, i).spec, args);
            var text := Convert(Parse(f, i).spec, args).0;
            && WellFormed(s)
            && var (digits, number) := DoubleText.FloatText(NextDouble(a), s.prec, s.altForm, s.caseAdjust);
               var sign := FloatConverted(s, NextDouble(a), digits).sign;
            && text == Repeat(' ', before) + (sign + NumberText(zeros, digits, after)) && (!number ==> zeros == 0)
            && |text| == Max(s.fieldWidth, |sign| + |digits|) && 0 < |digits| <= DoubleText.BUFFER_SIZE
  {
    ParsedWellFormed(f, i);
    hide Parse, DoubleText.FloatText;
    var spec := Parse(f, i).spec;
    ConvertedAfterStars(spec, args);
    ResolveKeeps(spec, args);
    hide Convert, Resolve;
    var (s, a) := Resolve(spec, args);
    var (digits, number) := DoubleText.FloatText(NextDouble(a), s.prec, s.altForm, s.caseAdjust);
    DoubleText.FloatTextFits(NextDouble(a), s.prec, s.altForm, s.caseAdjust);
    var c := FloatConverted(s, NextDouble(a), digits);
    var padded := if number then s else s.(leadingZeroPad := false);
    assert Convert(spec, args).0 == Assemble(padded, c);
    hide ConvertResolved, Assemble, NumberText, Repeat;
    AssembledLength(padded, c);
    before, zeros, after := NormalForm(padded, c);
    assert c.sign + "" == c.sign;
  }
}
