/**
 The decimal text of a double, as a function of its bits: what npf_ftoa_rev's scaling in 32-bit
 arithmetic makes of it, and how far that is from the double's value.
*/
module DoubleText {
  import opened Digits
  import opened Machine

  const BUFFER_SIZE: nat := 23
  const MAN_BITS: nat := 52
  const SHIFT_BITS: nat := 31
  const TWO_28: nat := 0x1000_0000
  const TWO_31: nat := 0x8000_0000
  const TWO_52: nat := 0x10_0000_0000_0000

  /** (npf_ftoa_man_t)-4 / 5: up to here a multiplication by 5 and the carry fit in 32 bits. */
  const FIFTH: nat := 858993458

  function Pow2(k: nat): (p: nat)
    ensures p > 0
  {
    PowerPositive(2, k);
    Power(2, k)
  }

  /** x >> k. */
  function Shr(x: nat, k: nat): (q: nat)
    ensures q == x / Pow2(k)
  {
    QuotientIsNat(x, Pow2(k));
    x / Pow2(k)
  }

  lemma QuotientIsNat(x: nat, d: nat)
    requires d > 0
    ensures x / d >= 0
  {
  }

  lemma Powers()
    ensures Pow2(12) == 0x1000 && Pow2(20) == 0x10_0000 && Pow2(21) == 0x20_0000
    ensures Pow2(31) == TWO_31 && Pow2(52) == TWO_52 && Pow2(64) == TWO_64
  {
    assert Power(2, 1) == 2;
    PowerSum(2, 1, 1);
    PowerSum(2, 2, 2);
    PowerSum(2, 4, 4);
    PowerSum(2, 8, 4);
    PowerSum(2, 8, 8);
    PowerSum(2, 16, 4);
    PowerSum(2, 20, 1);
    PowerSum(2, 21, 10);
    PowerSum(2, 8, 2);
    PowerSum(2, 31, 21);
    PowerSum(2, 16, 16);
    PowerSum(2, 32, 32);
  }

  // ---- The parts of a double ----

  predicate IsSpecial(bits: nat) { bits / TWO_52 % 2048 == 2047 }

  /** The mantissa with its hidden bit, and the exponent without its bias. */
  function Mantissa(bits: nat): (m: nat)
    ensures m < 2 * TWO_52
  {
    bits % TWO_52 + if bits / TWO_52 % 2048 > 0 then TWO_52 else 0
  }

  function Exponent(bits: nat): (e: int)
    ensures -1022 <= e <= 1024 && (IsSpecial(bits) || e <= 1023)
  {
    (if bits / TWO_52 % 2048 > 0 then bits / TWO_52 % 2048 else 1) - 1023
  }

  // ---- The integer part ----

  /** The leading bits of the integer part, at most 32, and the bit below them. */
  function LeadingBits(bin: nat, exp: nat): (nat, nat) {
    if exp <= SHIFT_BITS then (Shr(bin, MAN_BITS - exp), 0)
    else (Shr(bin, MAN_BITS - SHIFT_BITS), Shr(bin, MAN_BITS - SHIFT_BITS - 1) % 2)
  }

  /**
   `steps` factors of two, each multiplied in while 32 bits allow it and otherwise traded for a
   division by five and one decimal zero: the mantissa and the carry that are left, and the zeros.
  */
  function Scaled(man: nat, carry: nat, steps: nat): (nat, nat, nat)
    decreases steps
  {
    if steps == 0 then (man, carry, 0)
    else if man < TWO_31 then Scaled(2 * man + carry, 0, steps - 1)
    else
      var (m, c, z) := Scaled(man / 5, if man % 5 + carry > 2 then 1 else 0, steps - 1);
      (m, c, z + 1)
  }

  /** The digits, the carry and the zeros of the integer part. */
  function Integer(bin: nat, exp: int): (nat, nat, nat) {
    if exp < 0 then (0, 0, 0)
    else
      var (man, carry) := LeadingBits(bin, exp);
      Scaled(man, carry, if exp > SHIFT_BITS then exp - SHIFT_BITS else 0)
  }

  // ---- The fraction part ----

  /** The bits of the fraction, moved to the top of 64 bits. */
  function FractionBits(bin: nat, exp: int): (top: nat)
    requires exp < MAN_BITS
    ensures top < TWO_64
  {
    bin * Pow2(12 + if exp < 0 then -1 else exp) % TWO_64
  }

  /** Scaling the fraction by powers of ten until it is 28 bits and one digit, or no digit is left. */
  function FractionScaled(man: nat, carry: nat, exp: int, left: nat, digit: bool): (nat, nat, int, nat)
    decreases 4 - exp
  {
    if left == 0 || exp >= 4 then (man, carry, exp, left)
    else if man > FIFTH || digit then FractionScaled(man / 2, man % 2, exp + 1, left, digit)
    else
      var more := man * 5 + if carry != 0 then 3 else 0;
      if exp < 0 then FractionScaled(more, 0, exp + 1, left - 1, false)
      else FractionScaled(more, 0, exp + 1, left, true)
  }

  /** The number that `left` digits of a scaled fraction stand for, and whether the rest rounds up. */
  function FractionEnd(man: nat, exp: int, left: nat): (nat, bool) {
    if left == 0 then (0, exp >= 0 && man >= TWO_31)
    else
      var t := man * Power(10, left - 1);
      (t / TWO_28, exp >= 0 && t % TWO_28 * 16 >= TWO_31)
  }

  function Fraction(bin: nat, exp: int, prec: nat): (nat, bool)
    requires exp <= SHIFT_BITS
  {
    var top := FractionBits(bin, exp);
    var steps := if exp < 0 then exp + 1 else 0;
    var (man, carry, exp', left) := FractionScaled(top / TWO_32, top / TWO_31 % 2, steps, prec, false);
    FractionEnd((man + carry) % TWO_32, exp', left)
  }

  // ---- The number and its text ----

  /** What is printed: the number before the point, and the one that the `prec` digits behind it make. */
  function Printed(bits: nat, prec: nat): (nat, nat) {
    var bin, exp := Mantissa(bits), Exponent(bits);
    var (man, carry, zeros) := Integer(bin, exp);
    if exp > SHIFT_BITS then ((man + carry) * Power(10, zeros), 0)
    else
      var (fraction, up) := Fraction(bin, exp, prec);
      Raised(man, fraction, up, prec)
  }

  /** A number after its last digit has been rounded. */
  function Raised(whole: nat, fraction: nat, up: bool, prec: nat): (nat, nat) {
    if !up then (whole, fraction)
    else if fraction + 1 == Power(10, prec) then (whole + 1, 0)
    else (whole, fraction + 1)
  }

  /** n digits, back to front. */
  function FixedDigits(v: nat, n: nat): (s: string)
    ensures |s| == n
  {
    if n == 0 then "" else [DigitChar(Low(v, 10), 0)] + FixedDigits(High(v, 10), n - 1)
  }

  function Point(point: bool): string { if point then "." else "" }

  /** A number with `prec` digits behind the point, back to front. */
  function DecimalText(whole: nat, fraction: nat, prec: nat, point: bool): string {
    FixedDigits(fraction, prec) + Point(point) + ToDigits(whole, 10, 0)
  }

  /** Upper-case letters in the asked case. */
  function Word(text: string, caseAdjust: nat): (s: string)
    requires caseAdjust <= 32 && forall k | 0 <= k < |text| :: 'A' <= text[k] <= 'Z'
    ensures |s| == |text|
  {
    seq(|text|, k requires 0 <= k < |text| => text[k] + caseAdjust as char)
  }

  predicate HasRoom(bits: nat, prec: nat, point: bool) {
    && !IsSpecial(bits) && prec <= BUFFER_SIZE - 2
    && prec + |Point(point)| + |ToDigits(Printed(bits, prec).0, 10, 0)| <= BUFFER_SIZE
  }

  /** A double's text, back to front; `false` says that it is a word: NAN, INF, or ERR where 23 bytes are too few. */
  function FloatText(bits: nat, prec: nat, altForm: bool, caseAdjust: nat): (string, bool)
    requires caseAdjust <= 32
  {
    if IsSpecial(bits) then (Word(if bits % TWO_52 != 0 then "NAN" else "FNI", caseAdjust), false)
    else if !HasRoom(bits, prec, prec > 0 || altForm) then (Word("RRE", caseAdjust), false)
    else
      var (whole, fraction) := Printed(bits, prec);
      (DecimalText(whole, fraction, prec, prec > 0 || altForm), true)
  }

  // ---- 32 bits are enough ----

  /** `bin >> (52 - s)` fits in 32 bits for s below 32. */
  lemma MantissaFits(bin: nat, s: nat)
    requires bin < 2 * TWO_52 && s <= SHIFT_BITS
    ensures Shr(bin, MAN_BITS - s) < TWO_32
  {
    PowerGrows(2, 21, MAN_BITS - s);
    Powers();
    Quotient(bin, Pow2(MAN_BITS - s), 0x20_0000, TWO_32);
  }

  lemma Quotient(x: nat, d: nat, a: nat, b: nat)
    requires 0 < a <= d && x < a * b
    ensures x / d < b
  {
  }

  /** Scaling keeps most of 32 bits: a mantissa with its top bit set never falls below a fifth of 2^31. */
  lemma {:induction false} ScaledStaysLarge(man: nat, carry: nat, steps: nat)
    requires man >= TWO_31 / 5
    ensures Scaled(man, carry, steps).0 >= TWO_31 / 5
    decreases steps
  {
    if steps > 0 {
      if man < TWO_31 {
        ScaledStaysLarge(2 * man + carry, 0, steps - 1);
      } else {
        ScaledStaysLarge(man / 5, if man % 5 + carry > 2 then 1 else 0, steps - 1);
      }
    }
  }

  /** A double of 2^32 and more has its hidden bit at the top of 32 bits. */
  lemma LargeLeadingBits(bits: nat)
    requires Exponent(bits) > SHIFT_BITS
    ensures Mantissa(bits) >= TWO_52
    ensures LeadingBits(Mantissa(bits), Exponent(bits)).0 >= TWO_31
  {
    Powers();
    hide Power;
    AtLeast(Mantissa(bits), 0x20_0000, TWO_31);
  }

  lemma AtLeast(x: nat, d: nat, q: nat)
    requires d > 0 && x >= d * q
    ensures x / d >= q
  {
    var m := x / d;
    assert m < q ==> d * (m + 1) <= d * q;
  }

  lemma LargeInteger(bits: nat)
    requires Exponent(bits) > SHIFT_BITS
    ensures Integer(Mantissa(bits), Exponent(bits)).0 >= TWO_31 / 5
  {
    LargeLeadingBits(bits);
    hide LeadingBits, Mantissa, Exponent;
    var (man, carry) := LeadingBits(Mantissa(bits), Exponent(bits));
    ScaledStaysLarge(man, carry, Exponent(bits) - SHIFT_BITS);
  }

  lemma {:induction false} ScaledCarry(man: nat, carry: nat, steps: nat)
    requires carry <= 1
    ensures Scaled(man, carry, steps).1 <= 1
    decreases steps
  {
    if steps > 0 {
      if man < TWO_31 {
        ScaledCarry(2 * man + carry, 0, steps - 1);
      } else {
        ScaledCarry(man / 5, if man % 5 + carry > 2 then 1 else 0, steps - 1);
      }
    }
  }

  // ---- Digits behind the point ----

  lemma {:induction false} FixedDecode(v: nat, n: nat)
    requires v < Power(10, n)
    ensures Decode(FixedDigits(v, n), 10) == v
    ensures forall k | 0 <= k < n :: IsDigit(FixedDigits(v, n)[k])
  {
    if n > 0 {
      Halves(v, 10);
      DigitRoundTrip(Low(v, 10), 0);
      FixedDecode(High(v, 10), n - 1);
    }
  }

  /** Decimal digits are those of the number they decode to. */
  lemma {:induction false} DigitsAreFixed(s: string)
    requires forall k | 0 <= k < |s| :: IsDigit(s[k])
    ensures s == FixedDigits(Decode(s, 10), |s|)
  {
    if s != [] {
      DigitsAreFixed(s[1..]);
      LastDigit(s[0], Decode(s[1..], 10));
      assert s == [s[0]] + s[1..];
    }
  }

  lemma LastDigit(c: char, rest: nat)
    requires IsDigit(c)
    ensures var v := DigitValue(c) + 10 * rest; Low(v, 10) == DigitValue(c) && High(v, 10) == rest
    ensures DigitValue(c) < 10 && DigitChar(DigitValue(c), 0) == c
  {
  }

  /** Zeros in front of a number, which is behind it here. */
  lemma {:induction false} FixedExtends(v: nat, n: nat, more: nat)
    requires v < Power(10, n)
    ensures FixedDigits(v, n + more) == FixedDigits(v, n) + FixedDigits(0, more)
    ensures n == 0 ==> v == 0
  {
    if n > 0 {
      Halves(v, 10);
      FixedExtends(High(v, 10), n - 1, more);
      assert FixedDigits(v, n + more) == [DigitChar(Low(v, 10), 0)] + FixedDigits(High(v, 10), n - 1 + more);
    }
  }

  lemma {:induction false} ZeroDigits(n: nat)
    ensures forall k | 0 <= k < n :: FixedDigits(0, n)[k] == '0'
  {
    if n > 0 { ZeroDigits(n - 1); }
  }

  /** Decimal zeros make a power of ten. */
  lemma {:induction false} ScaledDigits(v: nat, zeros: nat, w: nat)
    requires v > 0 && w == v * Power(10, zeros)
    ensures w > 0 && ToDigits(w, 10, 0) == FixedDigits(0, zeros) + ToDigits(v, 10, 0)
  {
    if zeros == 0 {
      assert Power(10, 0) == 1 && w == v;
    } else {
      var u := v * Power(10, zeros - 1);
      TenfoldProduct(v, Power(10, zeros - 1), Power(10, zeros));
      hide *;
      ScaledDigits(v, zeros - 1, u);
      OneMoreZero(v, zeros, u);
    }
  }

  lemma OneMoreZero(v: nat, zeros: nat, u: nat)
    requires u > 0 && zeros > 0 && ToDigits(u, 10, 0) == FixedDigits(0, zeros - 1) + ToDigits(v, 10, 0)
    ensures ToDigits(10 * u, 10, 0) == FixedDigits(0, zeros) + ToDigits(v, 10, 0)
  {
    TenTimesText(u);
    TenTimes(0);
    assert FixedDigits(0, zeros) == ['0'] + FixedDigits(0, zeros - 1);
    hide *;
    Prepended('0', FixedDigits(0, zeros - 1), ToDigits(v, 10, 0));
  }

  lemma TenTimesText(u: nat)
    requires u > 0
    ensures ToDigits(10 * u, 10, 0) == ['0'] + ToDigits(u, 10, 0)
  {
    TenTimes(u);
    hide Low, High;
  }

  lemma Prepended(c: char, a: string, b: string)
    ensures [c] + (a + b) == [c] + a + b
  {
  }

  lemma TenfoldProduct(v: nat, p: nat, q: nat)
    requires q == 10 * p
    ensures v * q == 10 * (v * p) && v * p >= 0
  {
  }

  lemma TenTimes(w: nat)
    ensures Low(10 * w, 10) == 0 && High(10 * w, 10) == w && DigitChar(0, 0) == '0'
  {
  }

  // ---- What the text looks like ----

  /** What a 32-bit value has shrunk to after `steps` halvings. */
  function Halved(steps: int): nat {
    if steps <= 0 then TWO_32 else if steps == 1 then TWO_31 else if steps == 2 then 0x4000_0000
    else if steps == 3 then 0x2000_0000 else TWO_28
  }

  /** Where digits are still wanted after scaling, the first one is at most 9. */
  lemma {:induction false} ScaledFirstDigit(man: nat, carry: nat, exp: int, left: nat, digit: bool)
    requires man < TWO_32 && carry <= 1 && exp <= 4 && (digit ==> exp > 0) && (!digit ==> man < Halved(exp))
    requires exp == 4 ==> man + carry < 10 * TWO_28
    ensures var (m, c, e, l) := FractionScaled(man, carry, exp, left, digit);
      l <= left && (l > 0 ==> m + c < 10 * TWO_28)
    decreases 4 - exp
  {
    if left > 0 && exp < 4 {
      if man > FIFTH || digit {
        ScaledFirstDigit(man / 2, man % 2, exp + 1, left, digit);
      } else if exp < 0 {
        ScaledFirstDigit(man * 5 + if carry != 0 then 3 else 0, 0, exp + 1, left - 1, false);
      } else {
        ScaledFirstDigit(man * 5 + if carry != 0 then 3 else 0, 0, exp + 1, left, true);
      }
    }
  }

  lemma FractionFits(bin: nat, exp: int, prec: nat)
    requires exp <= SHIFT_BITS
    ensures Fraction(bin, exp, prec).0 < Power(10, prec)
  {
    var top := FractionBits(bin, exp);
    var high, bit: nat := top / TWO_32, top / TWO_31 % 2;
    var e := if exp < 0 then exp + 1 else 0;
    TopParts(top);
    var (man, carry, exp', left) := FractionScaled(high, bit, e, prec, false);
    assert Fraction(bin, exp, prec) == FractionEnd((man + carry) % TWO_32, exp', left);
    FirstDigitFits(high, bit, e, prec);
    hide *;
    EndFits((man + carry) % TWO_32, exp', left);
    PowerGrows(10, left, prec);
  }

  lemma FirstDigitFits(high: nat, bit: nat, e: int, prec: nat)
    requires high < TWO_32 && bit <= 1 && e <= 0
    ensures var (man, carry, exp', left) := FractionScaled(high, bit, e, prec, false);
      left <= prec && (left > 0 ==> (man + carry) % TWO_32 < 10 * TWO_28)
  {
    ScaledFirstDigit(high, bit, e, prec, false);
    var all := FractionScaled(high, bit, e, prec, false);
    var man: nat, carry: nat := all.0, all.1;
    hide FractionScaled;
    assert all.3 > 0 ==> (man + carry) % TWO_32 == man + carry;
  }

  lemma TopParts(top: nat)
    requires top < TWO_64
    ensures 0 <= top / TWO_32 < TWO_32 && 0 <= top / TWO_31 % 2 <= 1
  {
  }

  lemma EndFits(man: nat, exp: int, left: nat)
    requires left > 0 ==> man < 10 * TWO_28
    ensures FractionEnd(man, exp, left).0 < Power(10, left)
  {
    PowerPositive(10, left);
    if left > 0 {
      TenfoldProduct(man, Power(10, left - 1), Power(10, left));
      Tenth(man, Power(10, left - 1));
    }
  }

  lemma Tenth(man: nat, p: nat)
    requires man < 10 * TWO_28 && p > 0
    ensures man * p / TWO_28 < 10 * p
  {
    assert man * p < 10 * TWO_28 * p;
  }

  lemma PrintedFits(bits: nat, prec: nat)
    ensures Printed(bits, prec).1 < Power(10, prec)
  {
    PowerPositive(10, prec);
    if Exponent(bits) <= SHIFT_BITS { FractionFits(Mantissa(bits), Exponent(bits), prec); }
    hide Power, Fraction, Integer, Mantissa, Exponent;
  }

  /** Decimal digits with the point at the precision; they stand for the printed number and its fraction. */
  lemma TextShape(bits: nat, prec: nat, point: bool)
    ensures var (whole, fraction) := Printed(bits, prec);
            var t := DecimalText(whole, fraction, prec, point); var start := prec + |Point(point)|;
      && start < |t| && (forall k | 0 <= k < |t| :: if point && k == prec then t[k] == '.' else IsDigit(t[k]))
      && Decode(t[..prec], 10) == fraction < Power(10, prec) && Decode(t[start..], 10) == whole
      && DigitCount(whole, 10, |t| - start)
  {
    assert Base(10);
    hide *;
    PrintedFits(bits, prec);
    var (whole, fraction) := Printed(bits, prec);
    FixedDecode(fraction, prec);
    WholeDigits(whole);
    ShapeOf(FixedDigits(fraction, prec), point, ToDigits(whole, 10, 0));
    TextDefined(whole, fraction, prec, point);
  }

  lemma TextDefined(whole: nat, fraction: nat, prec: nat, point: bool)
    ensures DecimalText(whole, fraction, prec, point) ==
      FixedDigits(fraction, prec) + Point(point) + ToDigits(whole, 10, 0)
    ensures Base(10)
  {
    hide FixedDigits, Point, ToDigits;
  }

  lemma WholeDigits(v: nat)
    ensures Decode(ToDigits(v, 10, 0), 10) == v && DigitCount(v, 10, |ToDigits(v, 10, 0)|)
    ensures forall k | 0 <= k < |ToDigits(v, 10, 0)| :: IsDigit(ToDigits(v, 10, 0)[k])
  {
    ToDigitsDecode(v, 10, 0);
    hide ToDigits, Decode, DigitCount;
  }

  lemma ShapeOf(a: string, point: bool, b: string)
    requires forall k | 0 <= k < |a| :: IsDigit(a[k])
    requires b != "" && forall k | 0 <= k < |b| :: IsDigit(b[k])
    ensures var t := a + Point(point) + b; var start := |a| + |Point(point)|;
      && t[..|a|] == a && t[start..] == b && start < |t|
      && forall k | 0 <= k < |t| :: if point && k == |a| then t[k] == '.' else IsDigit(t[k])
  {
    hide IsDigit;
  }

  /** Whatever it says, the text takes at most 23 bytes. */
  lemma FloatTextFits(bits: nat, prec: nat, altForm: bool, caseAdjust: nat)
    requires caseAdjust <= 32
    ensures 0 < |FloatText(bits, prec, altForm, caseAdjust).0| <= BUFFER_SIZE
  {
    hide Printed, IsSpecial, ToDigits;
  }
}
