/**
 The grammar of conversion specifications, stated on text alone: a specification is '%', flags, a
 width, a precision, a length modifier and a conversion character in that order. The parser accepts
 exactly these texts, and reads each as what its parts mean.
*/
module FormatGrammar {
  import opened Digits
  import opened FormatSpec

  // ---- Texts and their meaning ----

  /** The parts of a text, and what its conversion character stands for. */
  datatype Parts = Parts(flags: string, width: string, precision: string, modifier: LengthModifier, letter: char,
                         conversion: Conversion, upper: bool)

  /** The characters of a conversion: those for lower-case output, and the one for upper-case output. */
  function Letters(c: Conversion): (string, string) {
    match c
    case SignedInt => ("di", "")
    case UnsignedInt => ("u", "")
    case Octal => ("o", "")
    case HexInt => ("x", "X")
    case FloatDec => ("f", "F")
    case FloatSci => ("e", "E")
    case FloatShortest => ("g", "G")
    case FloatHex => ("a", "A")
    case Character => ("c", "")
    case String => ("s", "")
    case Pointer => ("p", "")
    case Percent => ("%", "")
  }

  predicate StandsFor(letter: char, c: Conversion, upper: bool) {
    letter in if upper then Letters(c).1 else Letters(c).0
  }

  /** The parser knows exactly these letters. */
  lemma LetterTable(letter: char, c: Conversion, upper: bool)
    ensures ConversionOf(letter) == Converts(c, upper) <==> StandsFor(letter, c, upper)
  {
  }

  function ModifierText(m: LengthModifier): string {
    match m case Plain => "" case Short => "h" case Char => "hh" case Long => "l" case LongDouble => "L"
  }

  function TextOf(p: Parts): string {
    "%" + p.flags + p.width + p.precision + ModifierText(p.modifier) + [p.letter]
  }

  predicate AllDigits(t: string) { forall k | 0 <= k < |t| :: IsDigit(t[k]) }

  predicate AllFlags(t: string) {
    forall k | 0 <= k < |t| :: t[k] == '-' || t[k] == '0' || t[k] == '+' || t[k] == ' ' || t[k] == '#'
  }

  /** A leading zero is a flag and not a part of the width. */
  predicate WidthForm(t: string) { t == "" || t == "*" || (t[0] != '0' && AllDigits(t)) }

  predicate Negative(t: string) { |t| > 1 && t[1] == '-' }

  predicate PrecisionForm(t: string) {
    t == "" || t == ".*" || (t[0] == '.' && AllDigits(if Negative(t) then t[2..] else t[1..]))
  }

  predicate Grammatical(p: Parts) {
    AllFlags(p.flags) && WidthForm(p.width) && PrecisionForm(p.precision) && StandsFor(p.letter, p.conversion, p.upper)
  }

  /** The number that decimal digits stand for. */
  function Value(t: string): nat {
    if t == "" then 0 else Value(t[..|t| - 1]) * 10 + if IsDigit(t[|t| - 1]) then (t[|t| - 1] - '0') as nat else 0
  }

  /** Flags may come in any order and more than once; '+' wins over ' '. */
  function WithFlags(s: Spec, t: string): Spec {
    s.(leftJustified := s.leftJustified || '-' in t, leadingZeroPad := s.leadingZeroPad || '0' in t,
       prepend := if '+' in t then '+' else if s.prepend == NUL && ' ' in t then ' ' else s.prepend,
       altForm := s.altForm || '#' in t)
  }

  function WithWidthText(s: Spec, t: string): Spec {
    s.(widthOpt := if t == "" then Absent else if t == "*" then Star else Literal,
       fieldWidth := if t == "*" then 0 else Value(t))
  }

  /** A negative literal counts as missing, and still has its digits as the precision. */
  function WithPrecisionText(s: Spec, t: string): Spec {
    s.(precOpt := if t == ".*" then Star else if t == "" || Negative(t) then Absent else Literal,
       prec := if t == "" || t == ".*" then 0 else Value(if Negative(t) then t[2..] else t[1..]))
  }

  function Meaning(p: Parts): Spec {
    WithPrecisionText(WithWidthText(WithFlags(EMPTY, p.flags), p.width), p.precision)
      .(lengthModifier := p.modifier, conversion := p.conversion, caseAdjust := if p.upper then 0 else 32)
  }

  // ---- What each part of the parser takes ----

  lemma {:induction false} FlagsTaken(f: string, i: nat, s: Spec)
    requires i <= |f|
    ensures var (r, j) := Flags(f, i, s);
      i <= j <= |f| && AllFlags(f[i..j]) && !IsFlag(At(f, j)) && r == WithFlags(s, f[i..j])
    decreases |f| - i
  {
    if i < |f| && IsFlag(f[i]) {
      FlagsTaken(f, i + 1, WithFlag(s, f[i]));
      var j := Flags(f, i + 1, WithFlag(s, f[i])).1;
      assert f[i..j] == [f[i]] + f[i + 1..j];
      FirstFlag(s, f[i], f[i + 1..j]);
      assert forall k | i < k < j :: f[k] == f[i + 1..j][k - i - 1];
    } else {
      NoFlags(s);
      assert f[i..i] == "";
    }
  }

  lemma NoFlags(s: Spec)
    ensures WithFlags(s, "") == s && !IsFlag(NUL)
  {
  }

  lemma FirstFlag(s: Spec, c: char, t: string)
    requires IsFlag(c)
    ensures WithFlags(WithFlag(s, c), t) == WithFlags(s, [c] + t)
  {
    assert forall d :: d in [c] + t <==> d == c || d in t;
  }

  /** The digits from `start` on have been read up to i. */
  lemma {:induction false} NumberTaken(f: string, start: nat, i: nat)
    requires start <= i <= |f| && AllDigits(f[start..i])
    ensures var (r, j) := Number(f, i, Value(f[start..i]));
      i <= j <= |f| && AllDigits(f[start..j]) && !IsDigit(At(f, j)) && r == Value(f[start..j])
    decreases |f| - i
  {
    if i < |f| && IsDigit(f[i]) {
      OneDigitMore(f, start, i);
      NumberTaken(f, start, i + 1);
    } else {
      assert !IsDigit(NUL);
    }
  }

  lemma OneDigitMore(f: string, start: nat, i: nat)
    requires start <= i < |f| && AllDigits(f[start..i]) && IsDigit(f[i])
    ensures AllDigits(f[start..i + 1])
    ensures Value(f[start..i + 1]) == Value(f[start..i]) * 10 + (f[i] - '0') as nat
  {
    var t := f[start..i + 1];
    assert t[..|t| - 1] == f[start..i] && t[|t| - 1] == f[i];
    assert forall k | 0 <= k < |t| - 1 :: t[k] == f[start..i][k];
  }

  lemma DigitsTaken(f: string, i: nat)
    requires i <= |f|
    ensures var (r, j) := Number(f, i, 0);
      i <= j <= |f| && AllDigits(f[i..j]) && !IsDigit(At(f, j)) && r == Value(f[i..j]) && (j > i <==> IsDigit(At(f, i)))
  {
    assert f[i..i] == "";
    NumberTaken(f, i, i);
    var j := Number(f, i, 0).1;
    assert j > i ==> f[i..j][0] == f[i];
  }

  lemma WidthTaken(f: string, i: nat, s: Spec)
    requires i <= |f| && !IsFlag(At(f, i))
    ensures var (r, j) := Width(f, i, s);
      i <= j <= |f| && WidthForm(f[i..j]) && r == WithWidthText(s, f[i..j])
  {
    if At(f, i) == '*' {
      assert f[i..i + 1] == "*";
    } else {
      DigitsTaken(f, i);
      var j := Number(f, i, 0).1;
      assert j > i ==> f[i..j][0] == f[i];
    }
  }

  lemma PrecisionTaken(f: string, i: nat, s: Spec)
    requires i <= |f|
    ensures var (r, j) := Precision(f, i, s);
      i <= j <= |f| && PrecisionForm(f[i..j]) && r == WithPrecisionText(s, f[i..j])
  {
    if At(f, i) != '.' {
      assert f[i..i] == "";
    } else if At(f, i + 1) == '*' {
      assert f[i..i + 2] == ".*";
    } else {
      var start := if At(f, i + 1) == '-' then i + 2 else i + 1;
      DigitsTaken(f, start);
      PointAndDigits(f, i, Number(f, start, 0).1);
    }
  }

  lemma PointAndDigits(f: string, i: nat, j: nat)
    requires i < |f| && f[i] == '.' && At(f, i + 1) != '*'
    requires (if At(f, i + 1) == '-' then i + 2 else i + 1) <= j <= |f|
    requires AllDigits(f[if At(f, i + 1) == '-' then i + 2 else i + 1..j])
    ensures var t := f[i..j];
      && t != "" && t != ".*" && t[0] == '.' && (Negative(t) <==> At(f, i + 1) == '-')
      && (if Negative(t) then t[2..] else t[1..]) == f[if At(f, i + 1) == '-' then i + 2 else i + 1..j]
  {
    var t := f[i..j];
    assert |t| > 1 ==> t[1] == f[i + 1];
    if At(f, i + 1) != '-' && |t| > 1 {
      assert f[i + 1..j][0] == t[1];
    }
  }

  lemma ModifierTaken(f: string, i: nat)
    requires i <= |f|
    ensures var (m, j) := Modifier(f, i); i <= j <= |f| && f[i..j] == ModifierText(m)
  {
  }

  /** Whatever parses is a text of the grammar, and has been read as what that text means. */
  lemma ParsedIsGrammatical(f: string, i: nat) returns (p: Parts)
    requires i < |f| && f[i] == '%' && Parse(f, i).Parsed?
    ensures Grammatical(p) && Parse(f, i).spec == Meaning(p)
    ensures i < Parse(f, i).next <= |f| && f[i..Parse(f, i).next] == TextOf(p)
  {
    hide Flags, Width, Precision, Modifier, WithFlags, WithWidthText, WithPrecisionText, AllFlags, WidthForm,
      PrecisionForm;
    FlagsTaken(f, i + 1, EMPTY);
    var (flagged, a) := Flags(f, i + 1, EMPTY);
    WidthTaken(f, a, flagged);
    var (wide, b) := Width(f, a, flagged);
    PrecisionTaken(f, b, wide);
    var (precise, c) := Precision(f, b, wide);
    ModifierTaken(f, c);
    var (modifier, d) := Modifier(f, c);
    var letter := ConversionOf(At(f, d));
    p := Parts(f[i + 1..a], f[a..b], f[b..c], modifier, At(f, d), letter.conversion, letter.upper);
    LetterTable(At(f, d), letter.conversion, letter.upper);
    hide Letters, StandsFor;
    assert d < |f| by { assert ConversionOf(NUL).NoConversion?; }
    hide *;
    Pieces(f, i, a, b, c, d);
    TextParts(p);
  }

  lemma TextParts(p: Parts)
    ensures TextOf(p) == "%" + p.flags + p.width + p.precision + ModifierText(p.modifier) + [p.letter]
  {
  }

  lemma Pieces(f: string, i: nat, a: nat, b: nat, c: nat, d: nat)
    requires i < a <= b <= c <= d < |f|
    ensures f[i..d + 1] == [f[i]] + f[i + 1..a] + f[a..b] + f[b..c] + f[c..d] + [f[d]]
  {
    Glued(f, i, i + 1, a);
    Glued(f, i, a, b);
    Glued(f, i, b, c);
    Glued(f, i, c, d);
    Glued(f, i, d, d + 1);
    assert f[i..i + 1] == [f[i]] && f[d..d + 1] == [f[d]];
  }

  lemma Glued(f: string, i: nat, j: nat, k: nat)
    requires i <= j <= k <= |f|
    ensures f[i..k] == f[i..j] + f[j..k]
  {
  }

  // ---- Every text of the grammar parses ----

  /** Where the parts of a text end. */
  ghost predicate StandsIn(f: string, i: nat, p: Parts, a: nat, b: nat, c: nat, d: nat) {
    && i < a <= b <= c <= d < |f| && f[i] == '%'
    && f[i + 1..a] == p.flags && f[a..b] == p.width && f[b..c] == p.precision && f[c..d] == ModifierText(p.modifier)
    && f[d] == p.letter
  }

  /** The first character of a part, or of what is behind it when it is empty. */
  lemma FirstOf(f: string, i: nat, j: nat)
    requires i <= j <= |f|
    ensures if i == j then f[i..j] == "" else f[i..j] != "" && At(f, i) == f[i..j][0]
  {
  }

  predicate StartsModifier(c: char) { c == 'h' || c == 'l' || c == 'L' }

  /** The character behind the width: it cannot be taken for a part of it. */
  lemma PartsApart(f: string, i: nat, p: Parts, a: nat, b: nat, c: nat, d: nat)
    requires StandsIn(f, i, p, a, b, c, d) && Grammatical(p)
    ensures ConversionOf(At(f, d)) == Converts(p.conversion, p.upper)
    ensures if c == d then At(f, c) == p.letter else StartsModifier(At(f, c))
    ensures var last := At(f, c); !IsFlag(last) && !IsDigit(last) && last != '*' && last != '.'
    ensures var next := At(f, b); !IsFlag(next) && !IsDigit(next) && next != '*' && (next == '.' <==> b < c)
    ensures !IsFlag(At(f, a)) && (At(f, a) == '*' <==> p.width == "*")
      && (IsDigit(At(f, a)) <==> a < b && p.width != "*")
  {
    FirstOf(f, a, b);
    FirstOf(f, b, c);
    FirstOf(f, c, d);
    LetterTable(p.letter, p.conversion, p.upper);
    hide Letters, StandsFor;
    LetterIsPlain(p.letter);
    hide ConversionOf;
  }

  lemma LetterIsPlain(c: char)
    requires ConversionOf(c).Converts?
    ensures !IsDigit(c) && !IsFlag(c) && c != '*' && c != '.' && c != '-' && !StartsModifier(c)
  {
  }

  /** A run of characters of one kind ends in one place. */
  lemma FlagsEnd(f: string, i: nat, a: nat)
    requires i <= a <= |f| && AllFlags(f[i..a]) && !IsFlag(At(f, a))
    ensures Flags(f, i, EMPTY) == (WithFlags(EMPTY, f[i..a]), a)
  {
    FlagsTaken(f, i, EMPTY);
    var j := Flags(f, i, EMPTY).1;
    assert forall k | i <= k < a :: f[k] == f[i..a][k - i];
    assert forall k | i <= k < j :: f[k] == f[i..j][k - i];
  }

  lemma DigitsEnd(f: string, i: nat, a: nat)
    requires i <= a <= |f| && AllDigits(f[i..a]) && !IsDigit(At(f, a))
    ensures Number(f, i, 0) == (Value(f[i..a]), a)
  {
    DigitsTaken(f, i);
    var j := Number(f, i, 0).1;
    assert forall k | i <= k < a :: f[k] == f[i..a][k - i];
    assert forall k | i <= k < j :: f[k] == f[i..j][k - i];
  }

  lemma WidthEnds(f: string, i: nat, a: nat, s: Spec)
    requires i <= a <= |f| && WidthForm(f[i..a]) && !IsDigit(At(f, a)) && At(f, a) != '*'
    ensures Width(f, i, s) == (WithWidthText(s, f[i..a]), a)
  {
    FirstOf(f, i, a);
    if f[i..a] == "*" {
      assert a == i + 1;
    } else {
      DigitsEnd(f, i, a);
    }
  }

  lemma PrecisionEnds(f: string, i: nat, a: nat, s: Spec)
    requires i <= a <= |f| && PrecisionForm(f[i..a]) && !IsDigit(At(f, a)) && At(f, a) != '*' && At(f, a) != '-'
    requires i == a ==> At(f, i) != '.'
    ensures Precision(f, i, s) == (WithPrecisionText(s, f[i..a]), a)
  {
    var t := f[i..a];
    FirstOf(f, i, a);
    if t == ".*" {
      assert a == i + 2 && f[i + 1] == t[1];
    } else if t != "" {
      assert |t| > 1 ==> At(f, i + 1) == t[1];
      assert |t| == 1 ==> a == i + 1;
      assert Negative(t) <==> At(f, i + 1) == '-';
      var start := if Negative(t) then i + 2 else i + 1;
      assert f[start..a] == if Negative(t) then t[2..] else t[1..];
      NoStar(f, i, a);
      DigitsEnd(f, start, a);
    }
  }

  lemma NoStar(f: string, i: nat, a: nat)
    requires i < a <= |f| && PrecisionForm(f[i..a]) && f[i..a] != ".*" && At(f, a) != '*'
    ensures At(f, i + 1) != '*'
  {
    var t := f[i..a];
    if |t| > 1 && !Negative(t) {
      assert t[1..][0] == t[1] == f[i + 1];
      assert IsDigit(t[1..][0]);
    }
  }

  lemma ModifierEnds(f: string, i: nat, a: nat, m: LengthModifier)
    requires i <= a < |f| && f[i..a] == ModifierText(m) && !StartsModifier(f[a])
    ensures Modifier(f, i) == (m, a)
  {
    assert a > i ==> f[i] == f[i..a][0];
    assert a > i + 1 ==> f[i + 1] == f[i..a][1];
  }

  /** Every text of the grammar parses, wherever it stands, and is read as what it means. */
  lemma GrammaticalParses(f: string, i: nat, p: Parts)
    requires Grammatical(p) && i + |TextOf(p)| <= |f| && f[i..i + |TextOf(p)|] == TextOf(p)
    ensures Parse(f, i) == Parsed(Meaning(p), i + |TextOf(p)|)
  {
    hide *;
    var a, b, c, d := Places(f, i, p);
    PartsApart(f, i, p, a, b, c, d);
    PartForms(f, i, p, a, b, c, d);
    FlagsEnd(f, i + 1, a);
    WidthEnds(f, a, b, WithFlags(EMPTY, p.flags));
    PrecisionEnds(f, b, c, WithWidthText(WithFlags(EMPTY, p.flags), p.width));
    ModifierEnds(f, c, d, p.modifier);
    ParseOfParts(f, i, p, a, b, c, d);
  }

  lemma PartForms(f: string, i: nat, p: Parts, a: nat, b: nat, c: nat, d: nat)
    requires StandsIn(f, i, p, a, b, c, d) && Grammatical(p)
    ensures i < a <= b <= c <= d < |f| && f[i + 1..a] == p.flags && f[a..b] == p.width && f[b..c] == p.precision
    ensures f[c..d] == ModifierText(p.modifier) && f[d] == At(f, d) == p.letter
    ensures AllFlags(p.flags) && WidthForm(p.width) && PrecisionForm(p.precision)
    ensures !StartsModifier(f[d]) && At(f, b) != '-' && At(f, c) != '-'
    ensures ConversionOf(p.letter) == Converts(p.conversion, p.upper)
  {
    LetterTable(p.letter, p.conversion, p.upper);
    hide Letters, StandsFor;
    LetterIsPlain(p.letter);
    PartsApart(f, i, p, a, b, c, d);
    hide ConversionOf;
  }

  lemma Places(f: string, i: nat, p: Parts) returns (a: nat, b: nat, c: nat, d: nat)
    requires i + |TextOf(p)| <= |f| && f[i..i + |TextOf(p)|] == TextOf(p)
    ensures StandsIn(f, i, p, a, b, c, d) && d + 1 == i + |TextOf(p)|
  {
    var t, m := TextOf(p), ModifierText(p.modifier);
    a := i + 1 + |p.flags|;
    b := a + |p.width|;
    c := b + |p.precision|;
    d := c + |m|;
    assert |t| == d + 1 - i;
    hide ModifierText, TextOf;
    TextParts(p);
    Fragments(f, i, "%", p.flags, p.width, p.precision, m, [p.letter]);
    assert f[i..i + 1][0] == f[i] && f[d..d + 1][0] == f[d];
  }

  lemma Fragments(f: string, i: nat, s: string, t: string, u: string, v: string, w: string, x: string)
    requires i + |s + t + u + v + w + x| <= |f| && f[i..i + |s + t + u + v + w + x|] == s + t + u + v + w + x
    ensures var a := i + |s|; var b := a + |t|; var c := b + |u|; var d := c + |v|; var e := d + |w|;
      f[i..a] == s && f[a..b] == t && f[b..c] == u && f[c..d] == v && f[d..e] == w && f[e..e + |x|] == x
  {
    Fragment(f, i, s + t + u + v + w, x);
    Fragment(f, i, s + t + u + v, w);
    Fragment(f, i, s + t + u, v);
    Fragment(f, i, s + t, u);
    Fragment(f, i, s, t);
  }

  lemma Fragment(f: string, i: nat, s: string, t: string)
    requires i + |s + t| <= |f| && f[i..i + |s + t|] == s + t
    ensures f[i..i + |s|] == s && f[i + |s|..i + |s| + |t|] == t
  {
    assert (s + t)[..|s|] == s && (s + t)[|s|..] == t;
    assert f[i..i + |s + t|][..|s|] == f[i..i + |s|];
    assert f[i..i + |s + t|][|s|..] == f[i + |s|..i + |s| + |t|];
  }

  lemma ParseOfParts(f: string, i: nat, p: Parts, a: nat, b: nat, c: nat, d: nat)
    requires ConversionOf(p.letter) == Converts(p.conversion, p.upper) && At(f, d) == p.letter
    requires Flags(f, i + 1, EMPTY) == (WithFlags(EMPTY, p.flags), a)
    requires Width(f, a, WithFlags(EMPTY, p.flags)) == (WithWidthText(WithFlags(EMPTY, p.flags), p.width), b)
    requires Precision(f, b, WithWidthText(WithFlags(EMPTY, p.flags), p.width))
          == (WithPrecisionText(WithWidthText(WithFlags(EMPTY, p.flags), p.width), p.precision), c)
    requires Modifier(f, c) == (p.modifier, d)
    ensures Parse(f, i) == Parsed(Meaning(p), d + 1)
  {
    hide Flags, Width, Precision, Modifier, ConversionOf, WithFlags, WithWidthText, WithPrecisionText;
  }

  // ---- Writing a specification down and reading it again ----

  function Decimal(n: nat): string {
    if n < 10 then ['0' + n as char] else Decimal(n / 10) + ['0' + (n % 10) as char]
  }

  function FlagsText(s: Spec): string {
    (if s.leftJustified then "-" else "") + (if s.leadingZeroPad then "0" else "")
    + (if s.prepend == NUL then "" else [s.prepend]) + (if s.altForm then "#" else "")
  }

  function WidthText(s: Spec): string {
    match s.widthOpt case Absent => "" case Literal => Decimal(s.fieldWidth) case Star => "*"
  }

  function PrecisionText(s: Spec): string {
    match s.precOpt case Absent => "" case Literal => "." + Decimal(s.prec) case Star => ".*"
  }

  /** The first letter of a conversion; those without an upper-case one have the same for both. */
  function ConversionChar(c: Conversion, upper: bool): char {
    if upper && HasUpperCase(c) then Letters(c).1[0] else Letters(c).0[0]
  }

  function PartsOf(s: Spec): Parts {
    Parts(FlagsText(s), WidthText(s), PrecisionText(s), s.lengthModifier,
      ConversionChar(s.conversion, s.caseAdjust == 0), s.conversion, s.caseAdjust == 0)
  }

  predicate HasUpperCase(c: Conversion) {
    c.HexInt? || c.FloatDec? || c.FloatSci? || c.FloatShortest? || c.FloatHex?
  }

  /** A specification that some text stands for. */
  predicate Expressible(s: Spec) {
    && (s.prepend == NUL || s.prepend == ' ' || s.prepend == '+')
    && (s.caseAdjust == 32 || (s.caseAdjust == 0 && HasUpperCase(s.conversion)))
    && (s.fieldWidth > 0 <==> s.widthOpt.Literal?)
    && (s.precOpt.Literal? || s.prec == 0)
  }

  lemma {:induction false} DecimalValue(n: nat)
    ensures var t := Decimal(n); t != "" && AllDigits(t) && Value(t) == n && (n > 0 ==> t[0] != '0')
  {
    var t := Decimal(n);
    if n >= 10 {
      DecimalValue(n / 10);
      assert t[..|t| - 1] == Decimal(n / 10) && t[0] == Decimal(n / 10)[0];
    } else {
      assert t[..0] == "";
    }
  }

  lemma FlagsMean(s: Spec)
    requires s.prepend == NUL || s.prepend == ' ' || s.prepend == '+'
    ensures AllFlags(FlagsText(s))
    ensures WithFlags(EMPTY, FlagsText(s))
         == EMPTY.(leftJustified := s.leftJustified, leadingZeroPad := s.leadingZeroPad,
                   prepend := s.prepend, altForm := s.altForm)
  {
    var t := FlagsText(s);
    FlagsIn(s, '-');
    FlagsIn(s, '0');
    FlagsIn(s, '+');
    FlagsIn(s, ' ');
    FlagsIn(s, '#');
    forall k | 0 <= k < |t| ensures IsFlag(t[k]) { FlagsIn(s, t[k]); }
    hide FlagsText;
  }

  lemma FlagsIn(s: Spec, c: char)
    ensures c in FlagsText(s) <==>
      (c == '-' && s.leftJustified) || (c == '0' && s.leadingZeroPad) || (c == s.prepend != NUL)
        || (c == '#' && s.altForm)
  {
    InEither(if s.leftJustified then "-" else "", if s.leadingZeroPad then "0" else "", c);
    InEither((if s.leftJustified then "-" else "") + (if s.leadingZeroPad then "0" else ""),
             if s.prepend == NUL then "" else [s.prepend], c);
  }

  lemma InEither(a: string, b: string, c: char)
    ensures c in a + b <==> c in a || c in b
  {
  }

  lemma WidthMeans(s: Spec, t: Spec)
    requires Expressible(s)
    ensures WidthForm(WidthText(s))
      && WithWidthText(t, WidthText(s)) == t.(widthOpt := s.widthOpt, fieldWidth := s.fieldWidth)
  {
    DecimalValue(s.fieldWidth);
    hide Decimal;
  }

  lemma PrecisionMeans(s: Spec, t: Spec)
    requires Expressible(s)
    ensures PrecisionForm(PrecisionText(s))
    ensures WithPrecisionText(t, PrecisionText(s)) == t.(precOpt := s.precOpt, prec := s.prec)
  {
    DecimalValue(s.prec);
    hide Decimal;
    var digits := "." + Decimal(s.prec);
    assert digits[1..] == Decimal(s.prec) && digits[1] == Decimal(s.prec)[0];
  }

  lemma LetterMeans(s: Spec)
    requires Expressible(s)
    ensures StandsFor(ConversionChar(s.conversion, s.caseAdjust == 0), s.conversion, s.caseAdjust == 0)
    ensures s.caseAdjust == 0 || s.caseAdjust == 32
  {
  }

  /** The text of an expressible specification means that specification. */
  lemma PartsMean(s: Spec)
    requires Expressible(s)
    ensures Grammatical(PartsOf(s)) && Meaning(PartsOf(s)) == s
  {
    FlagsMean(s);
    var flagged := WithFlags(EMPTY, FlagsText(s));
    WidthMeans(s, flagged);
    PrecisionMeans(s, WithWidthText(flagged, WidthText(s)));
    LetterMeans(s);
    hide FlagsText, WidthText, PrecisionText, ConversionChar, StandsFor, WithFlags, WithWidthText, WithPrecisionText,
         AllFlags, WidthForm, PrecisionForm;
  }

  /** Every expressible specification is read back from its text, wherever that text stands. */
  lemma ParseRendered(f: string, i: nat, s: Spec)
    requires Expressible(s)
    requires var text := TextOf(PartsOf(s)); i + |text| <= |f| && f[i..i + |text|] == text
    ensures Parse(f, i) == Parsed(s, i + |TextOf(PartsOf(s))|)
  {
    hide *;
    PartsMean(s);
    GrammaticalParses(f, i, PartsOf(s));
  }
}
