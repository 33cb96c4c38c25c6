/**
 From a format string and its arguments to the text, without the parser and the argument list in between:
 which argument a conversion reads, what its letter, modifier and flags make of it, and how the texts follow
 one another (section 7.21.6.1 of C11).
*/
module Conversions {
  import opened Digits
  import DoubleText
  import opened FormatGrammar
  import opened FormatSpec
  import opened Machine
  import opened Printf

  // ---- Arguments by number ----

  /** The arguments from number n on. */
  function Behind(args: seq<Arg>, n: nat): seq<Arg> { if n <= |args| then args[n..] else [] }

  function IntAt(args: seq<Arg>, n: nat): int { if n < |args| && args[n].Int? then args[n].v else 0 }

  function TextAt(args: seq<Arg>, n: nat): string { if n < |args| && args[n].Text? then args[n].s else "" }

  function BitsAt(args: seq<Arg>, n: nat): nat {
    if n < |args| && args[n].Double? then args[n].bits % TWO_64 else 0
  }

  lemma FirstBehind(args: seq<Arg>, n: nat)
    ensures NextInt(Behind(args, n)) == IntAt(args, n) && NextText(Behind(args, n)) == TextAt(args, n)
    ensures NextDouble(Behind(args, n)) == BitsAt(args, n)
    ensures Rest(Behind(args, n)) == Behind(args, n + 1)
  {
  }

  /** A star takes an argument each, in front of the value. */
  function Stars(s: Spec): nat { (if s.widthOpt.Star? then 1 else 0) + if s.precOpt.Star? then 1 else 0 }

  /** "%%" takes no value, and neither does an integer with the modifier 'L'. */
  predicate TakesValue(s: Spec) {
    match s.conversion
    case Percent => false
    case SignedInt => s.lengthModifier != LongDouble
    case UnsignedInt => s.lengthModifier != LongDouble
    case Octal => s.lengthModifier != LongDouble
    case HexInt => s.lengthModifier != LongDouble
    case _ => true
  }

  function Taken(s: Spec): nat { Stars(s) + if TakesValue(s) then 1 else 0 }

  // ---- Widths of integers ----

  /** r is v cut to the signed type that the modifier names: char, short, int or long; 'L' names none. */
  predicate IsSigned(m: LengthModifier, v: int, r: int) {
    match m
    case Char => (v - r) % 0x100 == 0 && -0x80 <= r < 0x80
    case Short => (v - r) % 0x1_0000 == 0 && -0x8000 <= r < 0x8000
    case Plain => (v - r) % 0x1_0000_0000 == 0 && -0x8000_0000 <= r < 0x8000_0000
    case Long => (v - r) % 0x1_0000_0000_0000_0000 == 0 && -0x8000_0000_0000_0000 <= r < 0x8000_0000_0000_0000
    case LongDouble => r == 0
  }

  predicate IsUnsigned(m: LengthModifier, v: int, r: int) {
    match m
    case Char => (v - r) % 0x100 == 0 && 0 <= r < 0x100
    case Short => (v - r) % 0x1_0000 == 0 && 0 <= r < 0x1_0000
    case Plain => (v - r) % 0x1_0000_0000 == 0 && 0 <= r < 0x1_0000_0000
    case Long => (v - r) % 0x1_0000_0000_0000_0000 == 0 && 0 <= r < 0x1_0000_0000_0000_0000
    case LongDouble => r == 0
  }

  lemma Cut(m: LengthModifier, v: int)
    ensures IsSigned(m, v, Signed(m, v)) && IsUnsigned(m, v, Unsigned(m, v))
  {
    if !m.LongDouble? {
      var modulus := Modulus(m);
      CutTo(v, modulus);
      var r, u := Signed(m, v), Unsigned(m, v);
      hide Signed, Unsigned, IsSigned, IsUnsigned;
      CutByModulus(m, v, modulus, r, u);
    }
  }

  lemma CutByModulus(m: LengthModifier, v: int, modulus: nat, r: int, u: int)
    requires !m.LongDouble? && modulus == Modulus(m) > 0
    requires (v - r) % modulus == 0 && -(modulus / 2) <= r < modulus / 2
    requires (v - u) % modulus == 0 && 0 <= u < modulus
    ensures IsSigned(m, v, r) && IsUnsigned(m, v, u)
  {
  }

  lemma CutTo(v: int, m: nat)
    requires m > 0 && m % 2 == 0
    ensures var r := (v + m / 2) % m - m / 2; (v - r) % m == 0 && -(m / 2) <= r < m / 2
    ensures (v - v % m) % m == 0
  {
    Remainder(v + m / 2, m);
    Remainder(v, m);
  }

  lemma Remainder(x: int, m: nat)
    requires m > 0
    ensures (x - x % m) % m == 0
  {
    var q := x / m;
    assert x - x % m == m * q;
    var k: int, rest: int := m * q / m, m * q % m;
    assert m * q == m * k + rest && m * (q - k) == rest;
    Multiples(m, q - k);
  }

  lemma Multiples(m: nat, d: int)
    ensures d != 0 ==> m * d >= m || m * d <= 0 - m
  {
    if d > 0 {
      Grows(m, d);
    } else if d < 0 {
      Grows(m, 0 - d);
      Negated(m, d);
    }
  }

  lemma Grows(m: nat, d: int)
    requires d >= 1
    ensures m * d >= m
  {
  }

  lemma Negated(m: nat, d: int)
    ensures m * (0 - d) == 0 - m * d
  {
  }

  // ---- Stars and defaults ----

  /** What the flags, the width and the precision come to when the stars read w and p. */
  predicate ResolvedWith(spec: Spec, w: int, p: int, s: Spec) {
    var given := spec.precOpt.Literal? || (spec.precOpt.Star? && p >= 0);
    && s.fieldWidth == (if !spec.widthOpt.Star? then spec.fieldWidth else if w < 0 then -w else w)
    && s.leftJustified == (spec.leftJustified || (spec.widthOpt.Star? && w < 0))
    && (s.precOpt.Absent? <==> !given)
    && s.prec == (if spec.precOpt.Star? && given then p
                  else if given then spec.prec
                  else match spec.conversion
                       case Pointer => 16
                       case FloatDec => 6 case FloatSci => 6 case FloatShortest => 6 case FloatHex => 6
                       case _ => if spec.precOpt.Star? then 0 else spec.prec)
    && s.leadingZeroPad == (spec.leadingZeroPad && match spec.conversion
                            case SignedInt => !given case UnsignedInt => !given
                            case Octal => !given case HexInt => !given
                            case _ => true)
    && s.prepend == spec.prepend && s.altForm == spec.altForm && s.widthOpt == spec.widthOpt
    && s.lengthModifier == spec.lengthModifier && s.caseAdjust == spec.caseAdjust && s.conversion == spec.conversion
  }

  /** The stars read the arguments from number n on, as int. */
  predicate IsResolved(spec: Spec, args: seq<Arg>, n: nat, s: Spec) {
    ResolvedWith(spec, Signed(Plain, IntAt(args, n)),
                 Signed(Plain, IntAt(args, n + if spec.widthOpt.Star? then 1 else 0)), s)
  }

  lemma StarsRead(spec: Spec, args: seq<Arg>, n: nat)
    ensures var (s, a) := Resolve(spec, Behind(args, n));
      a == Behind(args, n + Stars(spec)) && IsResolved(spec, args, n, s)
  {
    WidthRead(spec, args, n);
    var wide := WithWidth(spec, Behind(args, n)).0;
    var m := n + if spec.widthOpt.Star? then 1 else 0;
    PrecisionRead(wide, args, m);
    Filled(spec, Signed(Plain, IntAt(args, n)), Signed(Plain, IntAt(args, m)));
    hide WithWidth, WithPrecision, WithDefaults, ResolvedWith, Signed, Behind, IntAt;
  }

  function WidthOf(spec: Spec, w: int): Spec {
    if !spec.widthOpt.Star? then spec
    else if w < 0 then spec.(fieldWidth := -w, leftJustified := true) else spec.(fieldWidth := w)
  }

  function PrecisionOf(spec: Spec, p: int): Spec {
    if !spec.precOpt.Star? then spec
    else if p < 0 then spec.(prec := 0, precOpt := Absent) else spec.(prec := p)
  }

  lemma Filled(spec: Spec, w: int, p: int)
    ensures ResolvedWith(spec, w, p, WithDefaults(PrecisionOf(WidthOf(spec, w), p)))
  {
    var precise := PrecisionOf(WidthOf(spec, w), p);
    Defaults(precise);
    hide WithDefaults;
  }

  /** Only the precision and the '0' flag have defaults. */
  lemma Defaults(s: Spec)
    ensures var t := WithDefaults(s);
      && t == s.(prec := t.prec, leadingZeroPad := t.leadingZeroPad)
      && t.prec == (if !s.precOpt.Absent? then s.prec
                    else match s.conversion
                         case Pointer => 16
                         case FloatDec => 6 case FloatSci => 6 case FloatShortest => 6 case FloatHex => 6
                         case _ => s.prec)
      && t.leadingZeroPad == (s.leadingZeroPad && match s.conversion
                              case SignedInt => s.precOpt.Absent? case UnsignedInt => s.precOpt.Absent?
                              case Octal => s.precOpt.Absent? case HexInt => s.precOpt.Absent?
                              case _ => true)
  {
  }

  lemma WidthRead(spec: Spec, args: seq<Arg>, n: nat)
    ensures var (s, a) := WithWidth(spec, Behind(args, n)); var w := Signed(Plain, IntAt(args, n));
      && a == (if spec.widthOpt.Star? then Behind(args, n + 1) else Behind(args, n))
      && s == WidthOf(spec, w)
  {
    FirstBehind(args, n);
    hide Signed, Behind, IntAt, NextInt, Rest;
  }

  lemma PrecisionRead(spec: Spec, args: seq<Arg>, n: nat)
    ensures var (s, a) := WithPrecision(spec, Behind(args, n)); var p := Signed(Plain, IntAt(args, n));
      && a == (if spec.precOpt.Star? then Behind(args, n + 1) else Behind(args, n))
      && s == PrecisionOf(spec, p)
  {
    FirstBehind(args, n);
    hide Signed, Behind, IntAt, NextInt, Rest;
  }

  /** A conversion leaves the arguments behind those that it takes. */
  lemma ConvertTakes(spec: Spec, args: seq<Arg>, n: nat)
    requires spec.caseAdjust <= 32
    ensures Convert(spec, Behind(args, n)).1 == Behind(args, n + Taken(spec))
  {
    hide Resolve, IsResolved, ConvertResolved, Behind, Rest, TakesValue, Stars;
    StarsRead(spec, args, n);
    ResolveKeeps(spec, Behind(args, n));
    var (s, a) := Resolve(spec, Behind(args, n));
    SameParts(spec, args, n, s);
    FirstBehind(args, n + Stars(spec));
    RestTaken(s, a);
    SameTaken(s, spec);
  }

  lemma SameTaken(s: Spec, spec: Spec)
    requires s.conversion == spec.conversion && s.lengthModifier == spec.lengthModifier
    ensures TakesValue(s) == TakesValue(spec)
  {
  }

  lemma RestTaken(s: Spec, a: seq<Arg>)
    requires s.caseAdjust <= 32
    ensures ConvertResolved(s, a).1 == if TakesValue(s) then Rest(a) else a
  {
    hide Rest, Assemble, SignedConverted, UnsignedText, CharConverted, StringBody, FloatConverted, Signed, Unsigned,
         NextInt, NextText, NextDouble, DoubleText.FloatText;
  }

  // ---- One conversion ----

  /** The letter of a parsed specification. */
  lemma LetterAt(f: string, i: nat)
    requires i < |f| && f[i] == '%' && Parse(f, i).Parsed?
    ensures i < Parse(f, i).next <= |f|
    ensures var spec := Parse(f, i).spec;
      StandsFor(f[Parse(f, i).next - 1], spec.conversion, spec.caseAdjust == 0)
      && (spec.caseAdjust == 0 || spec.caseAdjust == 32)
  {
    var p := ParsedIsGrammatical(f, i);
    var next := Parse(f, i).next;
    var t := TextOf(p);
    assert t[|t| - 1] == p.letter && f[i..next][next - i - 1] == f[next - 1];
    hide *;
    MeaningIs(p);
  }

  lemma MeaningIs(p: Parts)
    requires Grammatical(p)
    ensures StandsFor(p.letter, Meaning(p).conversion, Meaning(p).caseAdjust == 0)
    ensures Meaning(p).caseAdjust == 0 || Meaning(p).caseAdjust == 32
  {
    hide StandsFor;
  }

  function SignText(negative: bool, s: Spec): string {
    if negative then "-" else if s.prepend == '+' then "+" else if s.prepend == ' ' then " " else ""
  }

  /** Spaces, sign, prefix, zeros, digits back to front, spaces; `least` is the precision. */
  predicate Laid(text: string, s: Spec, front: string, least: nat, digits: string, zero: bool,
                 before: nat, zeros: nat, after: nat)
  {
    && text == Repeat(' ', before) + (front + NumberText(zeros, digits, after))
    && |text| == Max(s.fieldWidth, |front| + Max(least, |digits|))
    && zeros >= Max(0, least - |digits|)
    && if s.leftJustified then before == 0 && zeros == Max(0, least - |digits|)
       else after == 0 && if ZeroPads(s, zero) then before == 0 else zeros == Max(0, least - |digits|)
  }

  /**
   Back to front, the digits of v in that base and case: as many as it has and `more` zeros in front, or none for
   a zero to the precision 0.
  */
  predicate IsNumeral(digits: string, s: Spec, v: nat, base: nat, upper: bool, more: nat) {
    && Decode(digits, base) == v
    && (forall c | c in digits :: c in Numerals(upper))
    && if v == 0 && !s.precOpt.Absent? && s.prec == 0 then digits == ""
       else |digits| >= more && DigitCount(v, base, |digits| - more)
            && forall k | |digits| - more <= k < |digits| :: digits[k] == '0'
  }

  /** "%d" and "%i" show the next argument, cut to the type that the modifier names. */
  lemma SignedShown(f: string, i: nat, args: seq<Arg>, n: nat)
    returns (s: Spec, v: int, digits: string, before: nat, zeros: nat, after: nat)
    requires i < |f| && f[i] == '%' && Parse(f, i).Parsed? && i < Parse(f, i).next <= |f|
    requires f[Parse(f, i).next - 1] in "di"
    ensures Parse(f, i).spec.caseAdjust <= 32 && IsResolved(Parse(f, i).spec, args, n, s)
    ensures IsSigned(Parse(f, i).spec.lengthModifier, IntAt(args, n + Stars(Parse(f, i).spec)), v)
    ensures var text := Convert(Parse(f, i).spec, Behind(args, n)).0;
      && ReadBack(text, 10) == v && IsNumeral(digits, s, if v < 0 then -v else v, 10, false, 0)
      && Laid(text, s, SignText(v < 0, s), s.prec, digits, v == 0, before, zeros, after)
  {
    hide *;
    LetterAt(f, i);
    ParsedWellFormed(f, i);
    var spec := Parse(f, i).spec;
    ConversionOfLetter(f[Parse(f, i).next - 1], spec.conversion, spec.caseAdjust == 0);
    StarsRead(spec, args, n);
    ConvertedAfterStars(spec, Behind(args, n));
    var r := Resolve(spec, Behind(args, n));
    s := r.0;
    SameParts(spec, args, n, s);
    FirstBehind(args, n + Stars(spec));
    v := Signed(s.lengthModifier, IntAt(args, n + Stars(spec)));
    Cut(s.lengthModifier, IntAt(args, n + Stars(spec)));
    SignedCase(s, r.1);
    digits := SignedConverted(s, v).digits;
    before, zeros, after := SignedLaid(s, v);
  }

  lemma ConversionOfLetter(letter: char, c: Conversion, upper: bool)
    requires StandsFor(letter, c, upper)
    ensures letter in "di" ==> c.SignedInt?
    ensures letter == 'u' ==> c.UnsignedInt?
    ensures letter == 'o' ==> c.Octal?
    ensures letter in "xX" ==> c.HexInt? && (letter == 'X' <==> upper)
    ensures letter == 'p' ==> c.Pointer?
    ensures letter == 'c' ==> c.Character?
    ensures letter == 's' ==> c.String?
    ensures letter == '%' ==> c.Percent?
    ensures letter in "fFeEgGaA" ==> IsFloat(c) && (letter in "FEGA" <==> upper)
    ensures letter in "uoxX" ==> IsPlainInt(c) && !c.SignedInt?
    ensures letter in "diuoxp" ==> !upper
  {
  }

  lemma SameParts(spec: Spec, args: seq<Arg>, n: nat, s: Spec)
    requires IsResolved(spec, args, n, s)
    ensures s.lengthModifier == spec.lengthModifier && s.caseAdjust == spec.caseAdjust
    ensures s.conversion == spec.conversion
  {
  }

  lemma SignedCase(s: Spec, a: seq<Arg>)
    requires s.conversion.SignedInt? && s.caseAdjust <= 32
    ensures ConvertResolved(s, a).0 == Assemble(s, SignedConverted(s, Signed(s.lengthModifier, NextInt(a))))
  {
    hide Assemble, SignedConverted, Signed;
  }

  lemma SignedLaid(s: Spec, v: int) returns (before: nat, zeros: nat, after: nat)
    requires WellFormed(s) && s.caseAdjust == 32
    ensures var c := SignedConverted(s, v); var text := Assemble(s, c);
      && ReadBack(text, 10) == v && IsNumeral(c.digits, s, if v < 0 then -v else v, 10, false, 0)
      && Laid(text, s, SignText(v < 0, s), s.prec, c.digits, v == 0, before, zeros, after)
  {
    hide *;
    SignedParts(s, v);
    SignedReadsBack(s, v);
    var c := SignedConverted(s, v);
    before, zeros, after := ConvertedLaid(s, c);
    OneFront(c);
    SameLeast(Assemble(s, c), s, c.sign, s.prec, c.digits, c.zero, before, zeros, after);
  }

  lemma SignedParts(s: Spec, v: int)
    requires WellFormed(s) && s.caseAdjust == 32
    ensures s.prepend == NUL || s.prepend == ' ' || s.prepend == '+'
    ensures s.widthOpt.Absent? ==> s.fieldWidth == 0
    ensures var c := SignedConverted(s, v);
      && c.sign == SignText(v < 0, s) && c.prefix == "" && c.zero == (v == 0)
      && c.precPad == Max(0, s.prec - |c.digits|)
      && IsNumeral(c.digits, s, if v < 0 then -v else v, 10, false, 0)
  {
    NumeralOf(s, if v < 0 then -v else v, 10, 0);
    hide ToDigits, IsNumeral;
  }

  lemma NumeralOf(s: Spec, v: nat, base: nat, more: nat)
    requires Base(base) && (s.caseAdjust == 0 || s.caseAdjust == 32) && more <= 1
    ensures IsNumeral(if NoDigits(s, v) then ""
                      else ToDigits(v, base, s.caseAdjust) + if more == 1 then "0" else "",
                      s, v, base, s.caseAdjust == 0, more)
    ensures ToDigits(v, base, s.caseAdjust) + "" == ToDigits(v, base, s.caseAdjust)
  {
    ToDigitsDecode(v, base, s.caseAdjust);
    LeadingZero(ToDigits(v, base, s.caseAdjust), base);
    SixteenNumerals(s.caseAdjust == 0);
    hide *;
    CountedNumeral(s, v, base, ToDigits(v, base, s.caseAdjust), more);
  }

  lemma SixteenNumerals(upper: bool)
    ensures |Numerals(upper)| == 16 && Numerals(upper)[0] == '0' && '0' in Numerals(upper)
  {
  }

  lemma CountedNumeral(s: Spec, v: nat, base: nat, d: string, more: nat)
    requires more <= 1 && DigitCount(v, base, |d|) && Decode(d, base) == Decode(d + "0", base) == v
    requires Decode("", base) == 0 && forall c | c in d || c == '0' :: c in Numerals(s.caseAdjust == 0)
    ensures IsNumeral(if NoDigits(s, v) then "" else d + if more == 1 then "0" else "",
                      s, v, base, s.caseAdjust == 0, more)
  {
    hide Decode, DigitCount, Numerals;
    assert d + "" == d;
    var t := d + "0";
    assert |t| == |d| + 1 && t[|d|] == '0';
    if more == 1 && !NoDigits(s, v) {
      assert |t| - more == |d|;
      forall c | c in t ensures c in Numerals(s.caseAdjust == 0) { assert c in d || c == '0'; }
      assert IsNumeral(t, s, v, base, s.caseAdjust == 0, more);
    } else if !NoDigits(s, v) {
      assert IsNumeral(d, s, v, base, s.caseAdjust == 0, more);
    } else {
      assert IsNumeral("", s, v, base, s.caseAdjust == 0, more);
    }
  }

  lemma OneFront(c: Converted)
    ensures c.prefix == "" ==> c.sign + c.prefix == c.sign
    ensures c.sign == "" ==> c.sign + c.prefix == c.prefix
  {
  }

  lemma SameLeast(text: string, s: Spec, front: string, least: nat, digits: string, zero: bool,
                  before: nat, zeros: nat, after: nat)
    requires Laid(text, s, front, Max(0, least - |digits|) + |digits|, digits, zero, before, zeros, after)
    ensures Laid(text, s, front, least, digits, zero, before, zeros, after)
  {
    hide Repeat, NumberText, ZeroPads;
  }

  lemma ConvertedLaid(s: Spec, c: Converted) returns (before: nat, zeros: nat, after: nat)
    requires s.widthOpt.Absent? ==> s.fieldWidth == 0
    requires c.sign == "" || c.prefix == ""
    ensures var text := Assemble(s, c); var least := c.precPad + |c.digits|;
      Laid(text, s, c.sign + c.prefix, least, c.digits, c.zero, before, zeros, after)
  {
    AssembledLength(s, c);
    before, zeros, after := NormalForm(s, c);
    hide Assemble, ZeroPads;
    assert |Assemble(s, c)| == before + |c.sign| + |c.prefix| + zeros + |c.digits| + after;
  }

  // ---- The other letters ----

  function BaseOf(letter: char): nat { if letter == 'o' then 8 else if letter == 'u' then 10 else 16 }

  function HexPrefix(letter: char): string { if letter == 'X' then "0X" else "0x" }

  /** Where "%#.0o" prints a zero, the precision counts as 1. */
  function LeastDigits(s: Spec, v: nat, letter: char): nat {
    if letter == 'o' && s.altForm && v == 0 && !s.precOpt.Absent? && s.prec == 0 then 1 else s.prec
  }

  /**
   "%u", "%o", "%x" and "%X" show it in base 10, 8 and 16, with a zero or "0x" in front in the alternative form,
   and "%p" as "%lx" does.
  */
  lemma UnsignedShown(f: string, i: nat, args: seq<Arg>, n: nat)
    returns (s: Spec, v: nat, digits: string, before: nat, zeros: nat, after: nat)
    requires i < |f| && f[i] == '%' && Parse(f, i).Parsed? && i < Parse(f, i).next <= |f|
    requires f[Parse(f, i).next - 1] in "uoxXp"
    ensures Parse(f, i).spec.caseAdjust <= 32 && IsResolved(Parse(f, i).spec, args, n, s)
    ensures IsUnsigned(if f[Parse(f, i).next - 1] == 'p' then Long else Parse(f, i).spec.lengthModifier,
                       IntAt(args, n + Stars(Parse(f, i).spec)), v)
    ensures var text := Convert(Parse(f, i).spec, Behind(args, n)).0;
      var letter := f[Parse(f, i).next - 1];
      && ReadBack(text, BaseOf(letter)) == v
      && IsNumeral(digits, s, v, BaseOf(letter), letter == 'X', if letter == 'o' && s.altForm && v > 0 then 1 else 0)
      && Laid(text, s.(prec := LeastDigits(s, v, letter)),
              if s.altForm && v > 0 && letter in "xXp" then HexPrefix(letter) else "",
              LeastDigits(s, v, letter), digits, v == 0, before, zeros, after)
  {
    hide *;
    LetterAt(f, i);
    ParsedWellFormed(f, i);
    var spec, letter := Parse(f, i).spec, f[Parse(f, i).next - 1];
    ConversionOfLetter(letter, spec.conversion, spec.caseAdjust == 0);
    StarsRead(spec, args, n);
    ConvertedAfterStars(spec, Behind(args, n));
    var r := Resolve(spec, Behind(args, n));
    s := r.0;
    SameParts(spec, args, n, s);
    FirstBehind(args, n + Stars(spec));
    var m := if letter == 'p' then Long else s.lengthModifier;
    v := Unsigned(m, IntAt(args, n + Stars(spec)));
    Cut(m, IntAt(args, n + Stars(spec)));
    UnsignedCase(s, r.1);
    digits := UnsignedConverted(s, v).digits;
    before, zeros, after := UnsignedLaid(s, v, letter);
  }

  lemma UnsignedCase(s: Spec, a: seq<Arg>)
    requires (IsPlainInt(s.conversion) && !s.conversion.SignedInt?) || s.conversion.Pointer?
    requires s.caseAdjust <= 32
    ensures ConvertResolved(s, a).0
         == UnsignedText(s, Unsigned(if s.conversion.Pointer? then Long else s.lengthModifier, NextInt(a)))
  {
    hide UnsignedText, Unsigned;
  }

  lemma UnsignedLaid(s: Spec, v: nat, letter: char) returns (before: nat, zeros: nat, after: nat)
    requires WellFormed(s) && StandsFor(letter, s.conversion, s.caseAdjust == 0) && letter in "uoxXp"
    ensures s.caseAdjust <= 32
    ensures var text, digits := UnsignedText(s, v), UnsignedConverted(s, v).digits;
      && ReadBack(text, BaseOf(letter)) == v
      && IsNumeral(digits, s, v, BaseOf(letter), letter == 'X', if letter == 'o' && s.altForm && v > 0 then 1 else 0)
      && Laid(text, s.(prec := LeastDigits(s, v, letter)),
              if s.altForm && v > 0 && letter in "xXp" then HexPrefix(letter) else "",
              LeastDigits(s, v, letter), digits, v == 0, before, zeros, after)
  {
    hide *;
    UnsignedParts(s, v, letter);
    UnsignedReadsBack(s, v);
    var c, t := UnsignedConverted(s, v), s.(prec := LeastDigits(s, v, letter));
    before, zeros, after := ConvertedLaid(t, c);
    OneFront(c);
    SameLeast(Assemble(t, c), t, c.prefix, t.prec, c.digits, c.zero, before, zeros, after);
  }

  lemma UnsignedParts(s: Spec, v: nat, letter: char)
    requires WellFormed(s) && StandsFor(letter, s.conversion, s.caseAdjust == 0) && letter in "uoxXp"
    ensures s.caseAdjust == 0 || s.caseAdjust == 32
    ensures NumberBase(s.conversion) == BaseOf(letter)
    ensures var c, t := UnsignedConverted(s, v), s.(prec := LeastDigits(s, v, letter));
      && UnsignedText(s, v) == Assemble(t, c) && (t.widthOpt.Absent? ==> t.fieldWidth == 0)
      && c.sign == "" && c.prefix == (if s.altForm && v > 0 && letter in "xXp" then HexPrefix(letter) else "")
      && c.zero == (v == 0) && c.precPad == Max(0, t.prec - |c.digits|)
      && IsNumeral(c.digits, s, v, BaseOf(letter), letter == 'X', if letter == 'o' && s.altForm && v > 0 then 1 else 0)
  {
    ConversionOfLetter(letter, s.conversion, s.caseAdjust == 0);
    hide StandsFor, Letters;
    BaseOfLetter(s, v, letter);
    NumeralOf(s, v, BaseOf(letter), if letter == 'o' && s.altForm && v > 0 then 1 else 0);
    hide BaseOf, NumberBase, Least, LeastDigits, ToDigits, IsNumeral, Assemble;
  }

  lemma BaseOfLetter(s: Spec, v: nat, letter: char)
    requires letter in "uoxXp" && (letter == 'u' ==> s.conversion.UnsignedInt?)
    requires (letter == 'o' ==> s.conversion.Octal?) && (letter in "xX" ==> s.conversion.HexInt?)
    requires letter == 'p' ==> s.conversion.Pointer?
    ensures NumberBase(s.conversion) == BaseOf(letter) && Base(NumberBase(s.conversion))
    ensures Least(s, v) == LeastDigits(s, v, letter)
  {
  }

  /** "%c" shows the character of the next argument, "%%" a percent sign; a NUL is no character. */
  lemma CharacterShown(f: string, i: nat, args: seq<Arg>, n: nat)
    returns (s: Spec, before: nat, zeros: nat, after: nat)
    requires i < |f| && f[i] == '%' && Parse(f, i).Parsed? && i < Parse(f, i).next <= |f|
    requires f[Parse(f, i).next - 1] in "c%"
    ensures Parse(f, i).spec.caseAdjust <= 32 && IsResolved(Parse(f, i).spec, args, n, s)
    ensures var text := Convert(Parse(f, i).spec, Behind(args, n)).0;
      var c := if f[Parse(f, i).next - 1] == '%' then '%'
               else (IntAt(args, n + Stars(Parse(f, i).spec)) % 256) as char;
      Laid(text, s, "", s.prec, if c == NUL then "" else [c], false, before, zeros, after)
  {
    hide *;
    LetterAt(f, i);
    ParsedWellFormed(f, i);
    var spec, letter := Parse(f, i).spec, f[Parse(f, i).next - 1];
    ConversionOfLetter(letter, spec.conversion, spec.caseAdjust == 0);
    StarsRead(spec, args, n);
    ConvertedAfterStars(spec, Behind(args, n));
    var r := Resolve(spec, Behind(args, n));
    s := r.0;
    SameParts(spec, args, n, s);
    FirstBehind(args, n + Stars(spec));
    var c := if letter == '%' then '%' else (IntAt(args, n + Stars(spec)) % 256) as char;
    CharacterCase(s, r.1, c);
    var converted := CharConverted(s, c);
    before, zeros, after := ConvertedLaid(s, converted);
    OneFront(converted);
    SameLeast(Assemble(s, converted), s, "", s.prec, converted.digits, false, before, zeros, after);
  }

  lemma CharacterCase(s: Spec, a: seq<Arg>, c: char)
    requires s.conversion.Character? || s.conversion.Percent?
    requires c == (if s.conversion.Percent? then '%' else (NextInt(a) % 256) as char) && WellFormed(s)
    ensures s.caseAdjust <= 32 && (s.widthOpt.Absent? ==> s.fieldWidth == 0)
    ensures ConvertResolved(s, a).0 == Assemble(s, CharConverted(s, c))
    ensures var converted := CharConverted(s, c);
      converted == Converted("", "", Max(0, s.prec - |converted.digits|), if c == NUL then "" else [c], false)
  {
    hide Assemble;
  }

  /** "%s" shows the longest prefix of the next argument without a NUL that the precision allows. */
  lemma StringShown(f: string, i: nat, args: seq<Arg>, n: nat)
    returns (s: Spec, body: string, before: nat, zeros: nat, after: nat)
    requires i < |f| && f[i] == '%' && Parse(f, i).Parsed? && i < Parse(f, i).next <= |f|
    requires f[Parse(f, i).next - 1] == 's'
    ensures Parse(f, i).spec.caseAdjust <= 32 && IsResolved(Parse(f, i).spec, args, n, s)
    ensures var text := Convert(Parse(f, i).spec, Behind(args, n)).0;
      Laid(text, s, "", 0, Reverse(body), false, before, zeros, after)
    ensures var t := TextAt(args, n + Stars(Parse(f, i).spec));
      && |body| <= |t| && body == t[..|body|] && NUL !in body && (!s.precOpt.Absent? ==> |body| <= s.prec)
      && (|body| < |t| && (s.precOpt.Absent? || |body| < s.prec) ==> t[|body|] == NUL)
  {
    hide *;
    LetterAt(f, i);
    ParsedWellFormed(f, i);
    var spec := Parse(f, i).spec;
    ConversionOfLetter('s', spec.conversion, spec.caseAdjust == 0);
    StarsRead(spec, args, n);
    ConvertedAfterStars(spec, Behind(args, n));
    var r := Resolve(spec, Behind(args, n));
    s := r.0;
    SameParts(spec, args, n, s);
    FirstBehind(args, n + Stars(spec));
    var t := TextAt(args, n + Stars(spec));
    body := StringBody(s, t);
    StringBodyIsPrefix(s, t);
    StringCase(s, r.1);
    var c := Converted("", "", 0, Reverse(body), false);
    before, zeros, after := ConvertedLaid(s, c);
    OneFront(c);
    NoLeast(Assemble(s, c), s, "", c.digits, false, before, zeros, after);
  }

  lemma StringCase(s: Spec, a: seq<Arg>)
    requires s.conversion.String? && WellFormed(s)
    ensures s.caseAdjust <= 32 && (s.widthOpt.Absent? ==> s.fieldWidth == 0)
    ensures ConvertResolved(s, a).0
         == Assemble(s, Converted("", "", 0, Reverse(StringBody(s, NextText(a))), false))
  {
    hide Assemble, StringBody, Reverse;
  }

  lemma NoLeast(text: string, s: Spec, front: string, digits: string, zero: bool, before: nat, zeros: nat, after: nat)
    requires Laid(text, s, front, 0 + |digits|, digits, zero, before, zeros, after)
    ensures Laid(text, s, front, 0, digits, zero, before, zeros, after)
  {
    hide Repeat, NumberText, ZeroPads;
  }

  /** What a double is printed as when it is no number or its digits have no room. */
  function WordOf(bits: nat, upper: bool): string {
    if bits / 0x10_0000_0000_0000 % 0x800 != 0x7FF then (if upper then "ERR" else "err")
    else if bits % 0x10_0000_0000_0000 == 0 then (if upper then "INF" else "inf")
    else if upper then "NAN" else "nan"
  }

  /**
   The letters of doubles show the sign of the next argument, and its digits or its word; a word gets no zeros.
   Infinities and NaNs are words, and so is a number for which 23 characters are too few.
  */
  lemma DoubleShown(f: string, i: nat, args: seq<Arg>, n: nat)
    returns (s: Spec, digits: string, number: bool, before: nat, zeros: nat, after: nat)
    requires i < |f| && f[i] == '%' && Parse(f, i).Parsed? && i < Parse(f, i).next <= |f|
    requires f[Parse(f, i).next - 1] in "fFeEgGaA"
    ensures Parse(f, i).spec.caseAdjust <= 32 && IsResolved(Parse(f, i).spec, args, n, s)
    ensures var text := Convert(Parse(f, i).spec, Behind(args, n)).0;
      var bits := BitsAt(args, n + Stars(Parse(f, i).spec));
      && Laid(text, if number then s else s.(leadingZeroPad := false), SignText(bits >= TWO_64 / 2, s), 0, digits,
              bits % (TWO_64 / 2) == 0, before, zeros, after)
      && (number <==> DoubleText.HasRoom(bits, s.prec, s.prec > 0 || s.altForm))
      && (bits / 0x10_0000_0000_0000 % 0x800 == 0x7FF ==> !number)
      && if number then
           var (whole, fraction) := DoubleText.Printed(bits, s.prec);
           digits == DoubleText.DecimalText(whole, fraction, s.prec, s.prec > 0 || s.altForm)
         else Reverse(digits) == WordOf(bits, f[Parse(f, i).next - 1] in "FEGA")
  {
    hide *;
    LetterAt(f, i);
    ParsedWellFormed(f, i);
    var spec, letter := Parse(f, i).spec, f[Parse(f, i).next - 1];
    ConversionOfLetter(letter, spec.conversion, spec.caseAdjust == 0);
    StarsRead(spec, args, n);
    ConvertedAfterStars(spec, Behind(args, n));
    var r := Resolve(spec, Behind(args, n));
    s := r.0;
    SameParts(spec, args, n, s);
    FirstBehind(args, n + Stars(spec));
    var bits := BitsAt(args, n + Stars(spec));
    DoubleCase(s, r.1);
    DoubleWords(bits, s.prec, s.altForm, s.caseAdjust);
    var text := DoubleText.FloatText(bits, s.prec, s.altForm, s.caseAdjust);
    digits, number := text.0, text.1;
    var c := FloatConverted(s, bits, digits);
    var t := if number then s else s.(leadingZeroPad := false);
    DoubleParts(s, bits, digits);
    before, zeros, after := ConvertedLaid(t, c);
    OneFront(c);
    NoLeast(Assemble(t, c), t, c.sign, digits, c.zero, before, zeros, after);
  }

  lemma DoubleCase(s: Spec, a: seq<Arg>)
    requires IsFloat(s.conversion) && WellFormed(s)
    ensures s.caseAdjust == 0 || s.caseAdjust == 32
    ensures s.widthOpt.Absent? ==> s.fieldWidth == 0
    ensures NextDouble(a) < TWO_64
    ensures var bits := NextDouble(a);
      var (text, number) := DoubleText.FloatText(bits, s.prec, s.altForm, s.caseAdjust);
      ConvertResolved(s, a).0
      == Assemble(if number then s else s.(leadingZeroPad := false), FloatConverted(s, bits, text))
  {
    hide Assemble, DoubleText.FloatText, FloatConverted;
  }

  lemma DoubleParts(s: Spec, bits: nat, text: string)
    requires WellFormed(s) && bits < TWO_64
    ensures var c := FloatConverted(s, bits, text);
      && c.sign == SignText(bits >= TWO_64 / 2, s) && c.prefix == "" && c.precPad == 0
      && c.digits == text && c.zero == (bits % (TWO_64 / 2) == 0)
  {
  }

  lemma DoubleWords(bits: nat, prec: nat, altForm: bool, caseAdjust: nat)
    requires caseAdjust == 0 || caseAdjust == 32
    ensures var (text, number) := DoubleText.FloatText(bits, prec, altForm, caseAdjust);
      && (number <==> DoubleText.HasRoom(bits, prec, prec > 0 || altForm))
      && (bits / 0x10_0000_0000_0000 % 0x800 == 0x7FF ==> !number)
      && if number then
           var (whole, fraction) := DoubleText.Printed(bits, prec);
           text == DoubleText.DecimalText(whole, fraction, prec, prec > 0 || altForm)
         else Reverse(text) == WordOf(bits, caseAdjust == 0)
  {
    hide DoubleText.Printed, DoubleText.DecimalText, ToDigits;
    WordBackwards("NAN", "nan", caseAdjust);
    WordBackwards("FNI", "fni", caseAdjust);
    WordBackwards("RRE", "rre", caseAdjust);
    Backwards();
    hide Reverse;
  }

  lemma WordBackwards(upper: string, lower: string, caseAdjust: nat)
    requires caseAdjust == 0 || caseAdjust == 32
    requires |upper| == |lower|
    requires forall k | 0 <= k < |upper| :: 'A' <= upper[k] <= 'Z' && lower[k] == upper[k] + 32 as char
    ensures DoubleText.Word(upper, caseAdjust) == if caseAdjust == 0 then upper else lower
  {
  }

  lemma Backwards()
    ensures Reverse("NAN") == "NAN" && Reverse("FNI") == "INF" && Reverse("RRE") == "ERR"
    ensures Reverse("nan") == "nan" && Reverse("fni") == "inf" && Reverse("rre") == "err"
  {
    ReverseThree("NAN");
    ReverseThree("FNI");
    ReverseThree("RRE");
    ReverseThree("nan");
    ReverseThree("fni");
    ReverseThree("rre");
  }

  lemma ReverseThree(s: string)
    requires |s| == 3
    ensures Reverse(s) == [s[2], s[1], s[0]]
  {
    assert s[1..][1..] == [s[2]] && s[2..][1..] == [];
    assert Reverse([s[2]]) == [s[2]];
  }

  // ---- A whole format ----

  /** A piece of a format: a character of its own, or a conversion and the number of its first argument. */
  datatype Piece = Copied(c: char) | Converting(spec: Spec, first: nat)

  /** The pieces from position i on, when n arguments have been taken. */
  function Pieces(f: string, i: nat, n: nat): seq<Piece>
    decreases |f| - i
  {
    if At(f, i) == NUL then []
    else
      var p := if f[i] == '%' then Parse(f, i) else NotASpec;
      ParseAdvances(f, i);
      match p
      case NotASpec => [Copied(f[i])] + Pieces(f, i + 1, n)
      case Parsed(spec, next) => [Converting(spec, n)] + Pieces(f, next, n + Taken(spec))
  }

  predicate Cased(p: Piece) { p.Converting? ==> p.spec.caseAdjust <= 32 }

  predicate AllCased(ps: seq<Piece>) { forall k | 0 <= k < |ps| :: Cased(ps[k]) }

  lemma FirstCased(p: Piece, ps: seq<Piece>)
    requires ps != [] && ps[0] == p && Cased(p) && AllCased(ps[1..])
    ensures AllCased(ps)
  {
    forall k | 0 <= k < |ps| ensures Cased(ps[k]) {
      if k > 0 { assert Cased(ps[1..][k - 1]); }
    }
  }

  function TextOfPiece(p: Piece, args: seq<Arg>): string
    requires Cased(p)
  {
    match p
    case Copied(c) => [c]
    case Converting(spec, first) => Convert(spec, Behind(args, first)).0
  }

  function TextOfPieces(ps: seq<Piece>, args: seq<Arg>): string
    requires AllCased(ps)
  {
    if ps == [] then "" else TextOfPiece(ps[0], args) + TextOfPieces(ps[1..], args)
  }

  /** What is printed is the texts of the pieces, each from the arguments behind those taken before it. */
  lemma {:induction false} ExpandsToPieces(f: string, i: nat, args: seq<Arg>, n: nat)
    ensures AllCased(Pieces(f, i, n))
    ensures Expand(f, i, Behind(args, n)) == TextOfPieces(Pieces(f, i, n), args)
    decreases |f| - i
  {
    if At(f, i) == NUL {
      NoPieces(f, i, args, n);
    } else {
      hide *;
      NextIsFurther(f, i);
      if f[i] == '%' && Parse(f, i).Parsed? {
        ExpandsToPieces(f, Parse(f, i).next, args, n + Taken(Parse(f, i).spec));
        ConversionExpands(f, i, args, n);
      } else {
        ExpandsToPieces(f, i + 1, args, n);
        CharacterExpands(f, i, args, n);
      }
    }
  }

  lemma ConversionExpands(f: string, i: nat, args: seq<Arg>, n: nat)
    requires At(f, i) != NUL && i < |f| && f[i] == '%' && Parse(f, i).Parsed?
    requires var spec, next := Parse(f, i).spec, Parse(f, i).next; var k := n + Taken(spec);
      AllCased(Pieces(f, next, k)) && Expand(f, next, Behind(args, k)) == TextOfPieces(Pieces(f, next, k), args)
    ensures AllCased(Pieces(f, i, n))
    ensures Expand(f, i, Behind(args, n)) == TextOfPieces(Pieces(f, i, n), args)
  {
    hide *;
    PiecesStep(f, i, n);
    ExpandsStep(f, i, Behind(args, n));
    var spec := Parse(f, i).spec;
    ConvertTakes(spec, args, n);
    FirstText(Pieces(f, i, n), args, Convert(spec, Behind(args, n)).0, Expand(f, i, Behind(args, n)));
  }

  lemma CharacterExpands(f: string, i: nat, args: seq<Arg>, n: nat)
    requires At(f, i) != NUL && i < |f| && !(f[i] == '%' && Parse(f, i).Parsed?)
    requires AllCased(Pieces(f, i + 1, n))
    requires Expand(f, i + 1, Behind(args, n)) == TextOfPieces(Pieces(f, i + 1, n), args)
    ensures AllCased(Pieces(f, i, n))
    ensures Expand(f, i, Behind(args, n)) == TextOfPieces(Pieces(f, i, n), args)
  {
    hide *;
    PiecesStep(f, i, n);
    ExpandsStep(f, i, Behind(args, n));
    FirstText(Pieces(f, i, n), args, [f[i]], Expand(f, i, Behind(args, n)));
  }

  lemma NextIsFurther(f: string, i: nat)
    requires At(f, i) != NUL
    ensures i < |f| && (Parse(f, i).Parsed? ==> i < Parse(f, i).next <= |f|)
  {
    ParseAdvances(f, i);
    hide Parse;
  }

  lemma NoPieces(f: string, i: nat, args: seq<Arg>, n: nat)
    requires At(f, i) == NUL
    ensures AllCased(Pieces(f, i, n)) && Expand(f, i, Behind(args, n)) == TextOfPieces(Pieces(f, i, n), args)
  {
  }

  lemma FirstText(ps: seq<Piece>, args: seq<Arg>, t: string, e: string)
    requires ps != [] && AllCased(ps[1..]) && (ps[0].Converting? ==> ps[0].spec.caseAdjust <= 32)
    requires ps[0].Copied? ==> t == [ps[0].c]
    requires ps[0].Converting? ==> t == Convert(ps[0].spec, Behind(args, ps[0].first)).0
    requires e == t + TextOfPieces(ps[1..], args)
    ensures AllCased(ps) && e == TextOfPieces(ps, args)
  {
    FirstCased(ps[0], ps);
    hide Convert;
  }

  lemma PiecesStep(f: string, i: nat, n: nat)
    requires At(f, i) != NUL
    ensures i < |f|
    ensures var ps := Pieces(f, i, n);
      if f[i] == '%' && Parse(f, i).Parsed? then
        var spec, next := Parse(f, i).spec, Parse(f, i).next;
        && i < next <= |f| && spec.caseAdjust <= 32
        && ps != [] && ps[0] == Converting(spec, n) && ps[1..] == Pieces(f, next, n + Taken(spec))
      else ps != [] && ps[0] == Copied(f[i]) && ps[1..] == Pieces(f, i + 1, n)
  {
    ParseAdvances(f, i);
    ParseCase(f, i);
    hide Parse, Taken;
  }

  lemma ExpandsStep(f: string, i: nat, args: seq<Arg>)
    requires At(f, i) != NUL
    ensures i < |f|
    ensures if f[i] == '%' && Parse(f, i).Parsed? then
        var spec, next := Parse(f, i).spec, Parse(f, i).next;
        && spec.caseAdjust <= 32
        && Expand(f, i, args) == Convert(spec, args).0 + Expand(f, next, Convert(spec, args).1)
      else Expand(f, i, args) == [f[i]] + Expand(f, i + 1, args)
  {
    ParseCase(f, i);
    hide Parse, Convert;
  }

  /** How many arguments the first k pieces take. */
  function TakenBy(ps: seq<Piece>, k: nat): nat
    requires k <= |ps|
  {
    if k == 0 then 0 else TakenBy(ps, k - 1) + if ps[k - 1].Converting? then Taken(ps[k - 1].spec) else 0
  }

  lemma {:induction false} TakenByRest(ps: seq<Piece>, k: nat)
    requires 0 < k <= |ps|
    ensures TakenBy(ps, k) == TakenBy(ps[1..], k - 1) + if ps[0].Converting? then Taken(ps[0].spec) else 0
  {
    hide Taken;
    if k > 1 { TakenByRest(ps, k - 1); }
  }

  /** A conversion's first argument is numbered by what the stars and values in front of it take. */
  lemma {:induction false} FirstArgument(f: string, i: nat, n: nat, k: nat)
    requires k < |Pieces(f, i, n)| && Pieces(f, i, n)[k].Converting?
    ensures Pieces(f, i, n)[k].first == n + TakenBy(Pieces(f, i, n), k)
    decreases |f| - i
  {
    hide *;
    var ps := Pieces(f, i, n);
    SomePieces(f, i, n);
    PiecesStep(f, i, n);
    NoneTaken(ps);
    if k > 0 {
      TakenByRest(ps, k);
      if f[i] == '%' && Parse(f, i).Parsed? {
        FirstArgument(f, Parse(f, i).next, n + Taken(Parse(f, i).spec), k - 1);
      } else {
        FirstArgument(f, i + 1, n, k - 1);
      }
    }
  }

  lemma SomePieces(f: string, i: nat, n: nat)
    requires Pieces(f, i, n) != []
    ensures At(f, i) != NUL
  {
  }

  lemma NoneTaken(ps: seq<Piece>)
    ensures TakenBy(ps, 0) == 0
  {
  }

  /** Text without a '%' or a NUL is copied. */
  lemma {:induction false} PlainCopied(f: string, i: nat, j: nat, args: seq<Arg>)
    requires i <= j <= |f| && '%' !in f[i..j] && NUL !in f[i..j]
    ensures Expand(f, i, args) == f[i..j] + Expand(f, j, args)
    decreases j - i
  {
    hide *;
    if i < j {
      NextPlain(f, i, j);
      PlainCopied(f, i + 1, j, args);
      ExpandsStep(f, i, args);
      FrontJoined(f[i], f[i + 1..j], Expand(f, j, args));
    } else {
      assert f[i..j] == "";
    }
  }

  lemma NextPlain(f: string, i: nat, j: nat)
    requires i < j <= |f| && '%' !in f[i..j] && NUL !in f[i..j]
    ensures f[i] != '%' && At(f, i) != NUL && '%' !in f[i + 1..j] && NUL !in f[i + 1..j]
    ensures f[i..j] == [f[i]] + f[i + 1..j]
  {
    assert f[i..j] == [f[i]] + f[i + 1..j];
  }

  lemma FrontJoined(c: char, s: string, t: string)
    ensures [c] + (s + t) == ([c] + s) + t
  {
  }

  /** No '%' and no NUL but at a and b. */
  predicate PlainBut(f: string, a: nat, b: nat) {
    forall k | 0 <= k < |f| && k != a && k != b :: f[k] != '%' && f[k] != NUL
  }

  /** Two "%d" with plain text in front, between and behind show the first two arguments. */
  lemma TwoNumbers(f: string, a: nat, b: nat, args: seq<Arg>) returns (x: string, y: string)
    requires a + 2 <= b && b + 2 <= |f| && f[a..a + 2] == "%d" && f[b..b + 2] == "%d"
    requires PlainBut(f, a, b)
    ensures Expand(f, 0, args) == f[0..a] + x + f[a + 2..b] + y + f[b + 2..|f|]
    ensures IsSigned(Plain, IntAt(args, 0), ReadBack(x, 10))
    ensures IsSigned(Plain, IntAt(args, 1), ReadBack(y, 10))
  {
    hide *;
    NonePlain(f, 0, a, a, b);
    NonePlain(f, a + 2, b, a, b);
    NonePlain(f, b + 2, |f|, a, b);
    AllArguments(args);
    PlainCopied(f, 0, a, args);
    x := NumberAndText(f, a, b, args, 0);
    y := NumberAndText(f, b, |f|, args, 1);
    NothingLeft(f, Behind(args, 2));
    var e0, e1, e2 := Expand(f, 0, args), Expand(f, a, args), Expand(f, b, Behind(args, 1));
    Concatenated(e0, f[0..a], e1, x, f[a + 2..b], e2, y, f[b + 2..|f|]);
  }

  lemma NonePlain(f: string, i: nat, j: nat, a: nat, b: nat)
    requires i <= j <= |f| && (j <= a || i > a) && (j <= b || i > b)
    requires PlainBut(f, a, b)
    ensures '%' !in f[i..j] && NUL !in f[i..j]
  {
  }

  lemma AllArguments(args: seq<Arg>)
    ensures Behind(args, 0) == args
  {
  }

  /** "%d" and the plain text behind it. */
  lemma NumberAndText(f: string, a: nat, b: nat, args: seq<Arg>, n: nat) returns (x: string)
    requires a + 2 <= b <= |f| && f[a..a + 2] == "%d" && '%' !in f[a + 2..b] && NUL !in f[a + 2..b]
    ensures Expand(f, a, Behind(args, n)) == x + (f[a + 2..b] + Expand(f, b, Behind(args, n + 1)))
    ensures IsSigned(Plain, IntAt(args, n), ReadBack(x, 10))
  {
    PercentD(f, a);
    var spec := EMPTY.(conversion := SignedInt);
    assert Stars(spec) == 0 && Taken(spec) == 1 && spec.caseAdjust <= 32 && spec.lengthModifier == Plain;
    assert f[Parse(f, a).next - 1] in "di";
    hide *;
    var s, v, digits, before, zeros, after := SignedShown(f, a, args, n);
    x := Convert(spec, Behind(args, n)).0;
    ConvertTakes(spec, args, n);
    ExpandsStep(f, a, Behind(args, n));
    PlainCopied(f, a + 2, b, Behind(args, n + 1));
  }

  lemma NothingLeft(f: string, args: seq<Arg>)
    ensures Expand(f, |f|, args) == ""
  {
  }

  lemma Concatenated(e0: string, a: string, e1: string, b: string, c: string, e2: string, d: string, e: string)
    requires e0 == a + e1 && e1 == b + (c + e2) && e2 == d + (e + "")
    ensures e0 == a + b + c + d + e
  {
  }

  lemma PercentD(f: string, i: nat)
    requires i + 2 <= |f| && f[i..i + 2] == "%d"
    ensures f[i] == '%' && f[i + 1] == 'd' && At(f, i) != NUL
    ensures Parse(f, i) == Parsed(EMPTY.(conversion := SignedInt), i + 2)
  {
    assert f[i..i + 2][0] == f[i] && f[i..i + 2][1] == f[i + 1];
  }
}
