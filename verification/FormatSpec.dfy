/**
 The conversion specifications of a format string: flags, width, precision, length modifier and
 conversion character (section 7.21.6.1 of C11), as npf_parse_format_spec reads them.
*/
module FormatSpec {
  import opened Digits

  datatype Opt = Absent | Literal | Star

  datatype LengthModifier = Plain | Short | Char | Long | LongDouble

  datatype Conversion =
    | Percent | Character | String | SignedInt | Octal | HexInt | UnsignedInt | Pointer
    | FloatDec | FloatSci | FloatShortest | FloatHex

  const NUL: char := 0 as char

  /** `prepend` is NUL, ' ' or '+'; `caseAdjust` is 32 for lower case and 0 for upper case. */
  datatype Spec = Spec(
    leftJustified: bool, leadingZeroPad: bool, prepend: char, altForm: bool,
    widthOpt: Opt, fieldWidth: nat, precOpt: Opt, prec: nat,
    lengthModifier: LengthModifier, caseAdjust: nat, conversion: Conversion)

  /** What the parser reads at i; past the end it is the NUL that ends the string. */
  function At(f: string, i: nat): char {
    if i < |f| then f[i] else NUL
  }

  predicate IsFlag(c: char) { c == '-' || c == '0' || c == '+' || c == ' ' || c == '#' }

  // ---- The grammar ----

  function WithFlag(spec: Spec, c: char): Spec {
    match c
    case '-' => spec.(leftJustified := true)
    case '0' => spec.(leadingZeroPad := true)
    case '+' => spec.(prepend := '+')
    case ' ' => if spec.prepend == NUL then spec.(prepend := ' ') else spec
    case '#' => spec.(altForm := true)
    case _ => spec
  }

  function Flags(f: string, i: nat, spec: Spec): (r: (Spec, nat))
    decreases |f| - i
  {
    if i < |f| && IsFlag(f[i]) then Flags(f, i + 1, WithFlag(spec, f[i])) else (spec, i)
  }

  function Number(f: string, i: nat, value: nat): (r: (nat, nat))
    decreases |f| - i
  {
    if i < |f| && IsDigit(f[i]) then Number(f, i + 1, value * 10 + (f[i] - '0') as nat) else (value, i)
  }

  function Width(f: string, i: nat, spec: Spec): (Spec, nat) {
    if At(f, i) == '*' then (spec.(widthOpt := Star, fieldWidth := 0), i + 1)
    else
      var (value, j) := Number(f, i, 0);
      (spec.(widthOpt := if IsDigit(At(f, i)) then Literal else Absent, fieldWidth := value), j)
  }

  function Precision(f: string, i: nat, spec: Spec): (Spec, nat) {
    if At(f, i) != '.' then (spec.(precOpt := Absent, prec := 0), i)
    else if At(f, i + 1) == '*' then (spec.(precOpt := Star, prec := 0), i + 2)
    else
      var negative := At(f, i + 1) == '-';
      var (value, j) := Number(f, if negative then i + 2 else i + 1, 0);
      (spec.(precOpt := if negative then Absent else Literal, prec := value), j)
  }

  function Modifier(f: string, i: nat): (LengthModifier, nat) {
    match At(f, i)
    case 'h' => if At(f, i + 1) == 'h' then (Char, i + 2) else (Short, i + 1)
    case 'l' => (Long, i + 1)
    case 'L' => (LongDouble, i + 1)
    case _ => (Plain, i)
  }

  datatype Letter = NoConversion | Converts(conversion: Conversion, upper: bool)

  function ConversionOf(c: char): Letter {
    match c
    case '%' => Converts(Percent, false)
    case 'c' => Converts(Character, false)
    case 's' => Converts(String, false)
    case 'i' => Converts(SignedInt, false)
    case 'd' => Converts(SignedInt, false)
    case 'o' => Converts(Octal, false)
    case 'u' => Converts(UnsignedInt, false)
    case 'X' => Converts(HexInt, true)
    case 'x' => Converts(HexInt, false)
    case 'F' => Converts(FloatDec, true)
    case 'f' => Converts(FloatDec, false)
    case 'E' => Converts(FloatSci, true)
    case 'e' => Converts(FloatSci, false)
    case 'G' => Converts(FloatShortest, true)
    case 'g' => Converts(FloatShortest, false)
    case 'A' => Converts(FloatHex, true)
    case 'a' => Converts(FloatHex, false)
    case 'p' => Converts(Pointer, false)
    case _ => NoConversion
  }

  const EMPTY: Spec := Spec(false, false, NUL, false, Absent, 0, Absent, 0, Plain, 32, Percent)

  datatype Parsed = NotASpec | Parsed(spec: Spec, next: nat)

  /** The specification that starts at the '%' at i, and where the text goes on behind it. */
  function Parse(f: string, i: nat): Parsed {
    var (flagged, a) := Flags(f, i + 1, EMPTY);
    var (wide, b) := Width(f, a, flagged);
    var (precise, c) := Precision(f, b, wide);
    var (modifier, d) := Modifier(f, c);
    match ConversionOf(At(f, d))
    case NoConversion => NotASpec
    case Converts(conversion, upper) =>
      Parsed(precise.(lengthModifier := modifier, conversion := conversion, caseAdjust := if upper then 0 else 32),
        d + 1)
  }

  lemma {:induction false} FlagsAdvance(f: string, i: nat, spec: Spec)
    ensures Flags(f, i, spec).1 >= i && (i <= |f| ==> Flags(f, i, spec).1 <= |f|)
    decreases |f| - i
  {
    if i < |f| && IsFlag(f[i]) {
      FlagsAdvance(f, i + 1, WithFlag(spec, f[i]));
    }
  }

  lemma {:induction false} NumberAdvances(f: string, i: nat, value: nat)
    ensures Number(f, i, value).1 >= i && (i <= |f| ==> Number(f, i, value).1 <= |f|)
    decreases |f| - i
  {
    if i < |f| && IsDigit(f[i]) {
      NumberAdvances(f, i + 1, value * 10 + (f[i] - '0') as nat);
    }
  }

  /** A specification is at least two characters long and ends inside the format. */
  lemma ParseAdvances(f: string, i: nat)
    requires i < |f|
    ensures var p := Parse(f, i); p.Parsed? ==> i + 2 <= p.next <= |f|
  {
    var (flagged, a) := Flags(f, i + 1, EMPTY);
    FlagsAdvance(f, i + 1, EMPTY);
    NumberAdvances(f, a, 0);
    var (wide, b) := Width(f, a, flagged);
    NumberAdvances(f, b + 1, 0);
    NumberAdvances(f, b + 2, 0);
  }

  // ---- The parser, one method for each of its parts ----

  method ReadFlags(f: string, start: nat) returns (spec: Spec, cur: nat)
    ensures (spec, cur) == Flags(f, start, EMPTY)
  {
    spec, cur := EMPTY, start;
    while At(f, cur) != NUL
      invariant Flags(f, cur, spec) == Flags(f, start, EMPTY)
      decreases |f| - cur
    {
      match f[cur] {
        case '-' => spec := spec.(leftJustified := true);
        case '0' => spec := spec.(leadingZeroPad := true);
        case '+' => spec := spec.(prepend := '+');
        case ' ' => spec := if spec.prepend == NUL then spec.(prepend := ' ') else spec;
        case '#' => spec := spec.(altForm := true);
        case _ => break;
      }
      cur := cur + 1;
    }
  }

  method ReadNumber(f: string, start: nat) returns (value: nat, cur: nat)
    ensures (value, cur) == Number(f, start, 0)
    ensures cur > start <==> IsDigit(At(f, start))
  {
    value, cur := 0, start;
    while IsDigit(At(f, cur))
      invariant Number(f, cur, value) == Number(f, start, 0)
      invariant cur >= start && (cur > start ==> IsDigit(At(f, start)))
      decreases |f| - cur
    {
      value := value * 10 + (At(f, cur) - '0') as nat;
      cur := cur + 1;
    }
  }

  method ReadWidth(f: string, start: nat, flags: Spec) returns (spec: Spec, cur: nat)
    ensures (spec, cur) == Width(f, start, flags)
  {
    spec, cur := flags.(fieldWidth := 0, widthOpt := Absent), start;
    if At(f, cur) == '*' {
      spec := spec.(widthOpt := Star);
      cur := cur + 1;
    } else {
      var value;
      value, cur := ReadNumber(f, start);
      if cur > start {
        spec := spec.(widthOpt := Literal, fieldWidth := value);
      }
    }
  }

  method ReadPrecision(f: string, start: nat, wide: Spec) returns (spec: Spec, cur: nat)
    ensures (spec, cur) == Precision(f, start, wide)
  {
    spec, cur := wide.(prec := 0, precOpt := Absent), start;
    if At(f, cur) == '.' {
      cur := cur + 1;
      if At(f, cur) == '*' {
        spec := spec.(precOpt := Star);
        cur := cur + 1;
      } else {
        if At(f, cur) == '-' {
          cur := cur + 1;
        } else {
          spec := spec.(precOpt := Literal);
        }
        var value;
        value, cur := ReadNumber(f, cur);
        spec := spec.(prec := value);
      }
    }
  }

  method ReadModifier(f: string, start: nat) returns (modifier: LengthModifier, cur: nat)
    ensures (modifier, cur) == Modifier(f, start)
  {
    modifier, cur := Plain, start;
    if At(f, cur) == 'h' {
      modifier := Short;
      cur := cur + 1;
      if At(f, cur) == 'h' {
        modifier := Char;
        cur := cur + 1;
      }
    } else if At(f, cur) == 'l' {
      modifier := Long;
      cur := cur + 1;
    } else if At(f, cur) == 'L' {
      modifier := LongDouble;
      cur := cur + 1;
    }
  }

  /** How many characters the specification takes, 0 if it is none. */
  method ParseFormatSpec(f: string, start: nat) returns (len: nat, spec: Spec)
    requires start < |f|
    ensures match Parse(f, start)
            case NotASpec => len == 0
            case Parsed(s, next) => len == next - start && spec == s && len >= 2 && start + len <= |f|
  {
    ParseAdvances(f, start);
    hide Flags, Width, Precision, Modifier;
    var cur, modifier;
    spec, cur := ReadFlags(f, start + 1);
    spec, cur := ReadWidth(f, cur, spec);
    spec, cur := ReadPrecision(f, cur, spec);
    modifier, cur := ReadModifier(f, cur);
    spec := spec.(lengthModifier := modifier);
    match ConversionOf(At(f, cur)) {
      case NoConversion =>
        return 0, spec;
      case Converts(conversion, upper) =>
        spec := spec.(conversion := conversion, caseAdjust := if upper then 0 else 32);
        return cur + 1 - start, spec;
    }
  }
}
