/**
 How far the printed number is from the double: integers below 2^32 are printed as they are, numbers
 below 2^32 to half a unit of the last digit and the loss of 28 bits, larger ones to 29 bits a digit.
*/
module DoubleValue {
  import opened Digits
  import opened DoubleText
  import opened Machine

  // ---- Zero and integers below 2^32 ----

  predicate IsWhole(bits: nat) {
    || Mantissa(bits) == 0
    || (0 <= Exponent(bits) <= SHIFT_BITS && Mantissa(bits) % Pow2(MAN_BITS - Exponent(bits)) == 0)
  }

  function Whole(bits: nat): nat
    requires IsWhole(bits)
  {
    if Mantissa(bits) == 0 then 0 else Shr(Mantissa(bits), MAN_BITS - Exponent(bits))
  }

  /** They are printed exactly, and they are printed whenever their digits have room. */
  lemma WholeIsPrinted(bits: nat, prec: nat, point: bool)
    requires IsWhole(bits)
    ensures Printed(bits, prec) == (Whole(bits), 0)
    ensures !IsSpecial(bits) ==>
      (HasRoom(bits, prec, point) <==>
         prec <= BUFFER_SIZE - 2 && prec + |Point(point)| + |ToDigits(Whole(bits), 10, 0)| <= BUFFER_SIZE)
  {
    var bin, exp := Mantissa(bits), Exponent(bits);
    WholeHasNoFraction(bits);
    hide FractionBits, Pow2, Mantissa, IsSpecial, ToDigits;
    NothingScaled(if exp < 0 then exp + 1 else 0, prec);
    hide FractionScaled;
    if bin == 0 {
      assert Exponent(bits) == -1022 by { NoExponent(bits); }
    }
  }

  lemma NoExponent(bits: nat)
    requires Mantissa(bits) == 0
    ensures Exponent(bits) == -1022
  {
  }

  lemma WholeHasNoFraction(bits: nat)
    requires IsWhole(bits) && Exponent(bits) <= SHIFT_BITS
    ensures FractionBits(Mantissa(bits), Exponent(bits)) == 0
  {
    if Mantissa(bits) != 0 {
      var exp := Exponent(bits);
      PowerSum(2, MAN_BITS - exp, 12 + exp);
      Powers();
      Multiple(Mantissa(bits), Pow2(MAN_BITS - exp), Pow2(12 + exp));
    }
  }

  lemma Multiple(m: nat, d: nat, p: nat)
    requires d > 0 && m % d == 0 && d * p == TWO_64
    ensures m * p % TWO_64 == 0
  {
    var q := m / d;
    assert m * p == q * TWO_64 by {
      assert m == q * d;
      assert q * d * p == q * (d * p);
    }
    MultipleOf(q);
  }

  lemma MultipleOf(q: nat)
    ensures q * TWO_64 % TWO_64 == 0
  {
  }

  /** Scaling nothing leaves nothing. */
  lemma {:induction false} NothingScaled(exp: int, left: nat)
    ensures var (man, carry, exp', left') := FractionScaled(0, 0, exp, left, false); man == 0 && carry == 0
    decreases 4 - exp
  {
    if left > 0 && exp < 4 {
      if exp < 0 {
        NothingScaled(exp + 1, left - 1);
      } else {
        NothingHalved(exp + 1, left);
      }
    }
  }

  lemma {:induction false} NothingHalved(exp: int, left: nat)
    ensures var (man, carry, exp', left') := FractionScaled(0, 0, exp, left, true); man == 0 && carry == 0
    decreases 4 - exp
  {
    if left > 0 && exp < 4 { NothingHalved(exp + 1, left); }
  }

  // ---- Numbers below 2^32 ----

  /** The scaled value with its carry as half a unit, doubled. */
  function Twice(man: nat, carry: nat): nat { 2 * man + carry }

  /** What n halvings leave of a value, rounded down; the bit that was shifted out last stays in the carry. */
  function Halvings(s: nat, n: nat): nat
    requires n <= 3
  {
    if n == 0 then s else if n == 1 then s / 2 else if n == 2 then s / 4 else s / 8
  }

  /** Behind the multiplication by five there are only halvings. */
  lemma {:induction false} HalvedToTheEnd(man: nat, carry: nat, exp: nat, left: nat)
    requires left > 0 && 1 <= exp <= 4 && carry <= 1
    ensures var (m, c, e, l) := FractionScaled(man, carry, exp, left, true);
      e == 4 && l == left && c <= 1 && Twice(m, c) == Halvings(Twice(man, carry), 4 - exp)
    decreases 4 - exp
  {
    if exp < 4 {
      HalfStep(man, carry);
      HalvedToTheEnd(man / 2, man % 2, exp + 1, left);
      HalfOfHalf(Twice(man, carry), 3 - exp);
    }
  }

  lemma HalfStep(man: nat, carry: nat)
    requires carry <= 1
    ensures man % 2 <= 1 && Twice(man / 2, man % 2) == Twice(man, carry) / 2
  {
  }

  lemma HalfOfHalf(s: nat, n: nat)
    requires n <= 2
    ensures Halvings(s / 2, n) == Halvings(s, n + 1)
  {
  }

  /** Before it there are at most three, and then the value is small enough to be multiplied. */
  lemma {:induction false} FirstDigitScaled(man: nat, carry: nat, exp: nat, left: nat) returns (a: nat)
    requires left > 0 && exp <= 3 && carry <= 1 && Twice(man, carry) < Halvings(2 * TWO_32, exp)
    ensures a <= 3 - exp && (a == 0 <==> 5 * man + 3 < 0x1_0000_0000)
    ensures var (m, c, e, l) := FractionScaled(man, carry, exp, left, false);
      e == 4 && l == left && c <= 1 && Twice(m, c) == FiveEighths(Twice(man, carry), a, 3 - exp - a)
    decreases 3 - exp
  {
    ScaleStep(man, carry, exp, left);
    HalfStep(man, carry);
    hide FractionScaled, Twice;
    if man > FIFTH {
      TooLarge(man, carry, exp);
      a := FirstDigitScaled(man / 2, man % 2, exp + 1, left);
      HalfFirst(Twice(man, carry), a, 3 - exp - (a + 1));
      a := a + 1;
    } else {
      a := 0;
      var more := man * 5 + if carry != 0 then 3 else 0;
      HalvedToTheEnd(more, 0, exp + 1, left);
      FiveTimes(man, carry, 3 - exp);
    }
  }

  lemma ScaleStep(man: nat, carry: nat, exp: nat, left: nat)
    requires left > 0 && exp < 4
    ensures FractionScaled(man, carry, exp, left, false)
         == if man > FIFTH then FractionScaled(man / 2, man % 2, exp + 1, left, false)
            else FractionScaled(man * 5 + if carry != 0 then 3 else 0, 0, exp + 1, left, true)
  {
  }

  lemma TooLarge(man: nat, carry: nat, exp: nat)
    requires man > FIFTH && carry <= 1 && exp <= 3 && Twice(man, carry) < Halvings(2 * TWO_32, exp)
    ensures exp < 3 && Twice(man, carry) / 2 < Halvings(2 * TWO_32, exp + 1)
  {
  }

  lemma HalfFirst(s: nat, a: nat, b: nat)
    requires a <= 2 && b <= 3
    ensures FiveEighths(s / 2, a, b) == FiveEighths(s, a + 1, b)
  {
    HalfOfHalf(s, a);
  }

  lemma FiveTimes(man: nat, carry: nat, b: nat)
    requires carry <= 1 && b <= 3
    ensures Halvings(Twice(man * 5 + if carry != 0 then 3 else 0, 0), b) == FiveEighths(Twice(man, carry), 0, b)
  {
    var s := Twice(man, carry);
    assert s % 2 == carry;
    assert Twice(man * 5 + if carry != 0 then 3 else 0, 0) == 5 * s + s % 2;
  }

  /** a halvings, a multiplication by five, and b halvings. */
  function FiveEighths(s: nat, a: nat, b: nat): nat
    requires a <= 3 && b <= 3
  {
    var h := Halvings(s, a);
    Halvings(5 * h + h % 2, b)
  }

  lemma FiveEighthsClose(s: nat, a: nat)
    requires a <= 3
    ensures 5 * s - 35 <= 8 * FiveEighths(s, a, 3 - a) <= 5 * s + 8
  {
  }

  /** The first digit and its 28 bits stand for ten times the fraction, to two and a half units. */
  lemma FirstDigitClose(top: nat, prec: nat)
    requires top < TWO_64 && prec > 0
    ensures var (man, carry, exp, left) := FractionScaled(top / TWO_32, top / TWO_31 % 2, 0, prec, false);
      && exp == 4 && left == prec && man + carry < TWO_32
      && -0x28_0000_0000 <= (man + carry) * 0x10_0000_0000 - 10 * top <= 0x10_0000_0000
  {
    TopBitsOf(top);
    hide FractionScaled, Twice, FiveEighths;
    var a := FirstDigitScaled(top / TWO_32, top / TWO_31 % 2, 0, prec);
    FiveEighthsClose(top / TWO_31, a);
    var (man, carry, _, _) := FractionScaled(top / TWO_32, top / TWO_31 % 2, 0, prec, false);
    HalfUp(man, carry, top);
  }

  lemma TopBitsOf(top: nat)
    requires top < TWO_64
    ensures top / TWO_31 % 2 <= 1 && Twice(top / TWO_32, top / TWO_31 % 2) == top / TWO_31 < Halvings(2 * TWO_32, 0)
  {
  }

  lemma HalfUp(man: nat, carry: nat, top: nat)
    requires carry <= 1 && top < TWO_64
    requires 5 * (top / TWO_31) - 35 <= 8 * Twice(man, carry) <= 5 * (top / TWO_31) + 8
    ensures man + carry < TWO_32 && -0x28_0000_0000 <= (man + carry) * 0x10_0000_0000 - 10 * top <= 0x10_0000_0000
  {
    assert top / TWO_31 * TWO_31 <= top < top / TWO_31 * TWO_31 + TWO_31;
    assert 16 * (man + carry) <= 8 * Twice(man, carry) + 8;
  }

  /** A fraction part with its last digit rounded. */
  function RoundedFraction(fraction: nat, up: bool): nat { fraction + if up then 1 else 0 }

  /** Ignoring the digits' limits, the last digit is rounded to nearest, and a tie up. */
  lemma LastDigitNearest(man: nat, prec: nat)
    requires prec > 0
    ensures var (fraction, up) := FractionEnd(man, 4, prec);
      && -0x800_0000 <= RoundedFraction(fraction, up) * TWO_28 - man * Power(10, prec - 1) <= 0x800_0000
      && RoundedFraction(fraction, up) == (man * Power(10, prec - 1) + 0x800_0000) / 0x1000_0000
  {
    var t := man * Power(10, prec - 1);
    assert t == t / TWO_28 * TWO_28 + t % TWO_28;
    hide Power;
  }

  lemma DigitsClose(u: int, t: int, p: nat, man: int, top: int)
    requires t == man * p && -0x800_0000 <= u * TWO_28 - t <= 0x800_0000
    requires -0x28_0000_0000 <= man * 0x10_0000_0000 - 10 * top <= 0x10_0000_0000
    ensures Within(u * TWO_64 - 10 * p * top, TWO_64 / 2 + 0x28_0000_0000 * p)
  {
    var d := man * 0x10_0000_0000 - 10 * top;
    assert t * 0x10_0000_0000 - 10 * p * top == d * p by {
      assert d * p == man * 0x10_0000_0000 * p - 10 * top * p;
    }
    Scale(d, p);
  }

  lemma Scale(d: int, p: nat)
    requires -0x28_0000_0000 <= d <= 0x10_0000_0000
    ensures -0x28_0000_0000 * p <= d * p <= 0x28_0000_0000 * p
  {
  }

  predicate Within(d: int, bound: int) { -bound <= d <= bound }

  /** A double from 1/2 to 2^32 in units of 2^-64. */
  function Fixed64(bits: nat): nat
    requires -1 <= Exponent(bits) <= SHIFT_BITS
  {
    Mantissa(bits) * Pow2(12 + Exponent(bits))
  }

  /** Integer part and fraction bits are the whole of it. */
  lemma Parts(bits: nat)
    requires -1 <= Exponent(bits) <= SHIFT_BITS
    ensures var (man, carry, zeros) := Integer(Mantissa(bits), Exponent(bits));
      carry == 0 && zeros == 0 && Fixed64(bits) == man * TWO_64 + FractionBits(Mantissa(bits), Exponent(bits))
  {
    var bin, exp := Mantissa(bits), Exponent(bits);
    Powers();
    if exp < 0 {
      assert Pow2(12) == 2 * Pow2(11);
      Unwrapped(bin * 0x800);
    } else {
      PowerSum(2, MAN_BITS - exp, 12 + exp);
      hide Power, Mantissa, Exponent;
      Shifted(bin, Pow2(MAN_BITS - exp), Pow2(12 + exp));
    }
  }

  lemma Unwrapped(x: nat)
    requires x < TWO_64
    ensures x % TWO_64 == x
  {
  }

  lemma Shifted(x: nat, d: nat, p: nat)
    requires d > 0 && d * p == TWO_64
    ensures x * p == x / d * TWO_64 + x * p % TWO_64
  {
    var q, r := x / d, x % d;
    assert x * p == q * TWO_64 + r * p by {
      assert x == q * d + r;
      assert (q * d + r) * p == q * (d * p) + r * p;
    }
    assert r * p < TWO_64 by { BelowUnit(d, r, p); }
    Remainder(q, r * p);
  }

  lemma BelowUnit(d: nat, r: nat, p: nat)
    requires r < d && d * p == TWO_64
    ensures r * p < TWO_64
  {
    assert p > 0;
    assert r * p < d * p;
  }

  lemma Remainder(q: nat, r: nat)
    requires r < TWO_64
    ensures (q * TWO_64 + r) % TWO_64 == r
  {
  }

  /**
   With digits behind the point, the printed number is within half a unit of its last digit of the
   double, and two and a half parts in 2^28 of its first digit behind the point.
  */
  lemma NearestDigits(bits: nat, prec: nat)
    requires -1 <= Exponent(bits) <= SHIFT_BITS && prec > 0
    ensures var (whole, fraction) := Printed(bits, prec);
      Within((whole * Power(10, prec) + fraction) * TWO_64 - Power(10, prec) * Fixed64(bits),
             TWO_64 / 2 + 0x28_0000_0000 * Power(10, prec - 1))
  {
    var bin, exp := Mantissa(bits), Exponent(bits);
    var top := FractionBits(bin, exp);
    Parts(bits);
    FirstDigitClose(top, prec);
    var (man, carry, _, _) := FractionScaled(top / TWO_32, top / TWO_31 % 2, 0, prec, false);
    LastDigitNearest(man + carry, prec);
    var p := Power(10, prec - 1);
    assert Power(10, prec) == 10 * p;
    var (fraction, up) := FractionEnd(man + carry, 4, prec);
    var whole := Integer(bin, exp).0;
    assert Fraction(bin, exp, prec) == (fraction, up) by { Unscaled(man + carry); }
    assert Printed(bits, prec) == Raised(whole, fraction, up, prec);
    hide *;
    DigitsClose(RoundedFraction(fraction, up), (man + carry) * p, p, man + carry, top);
    RaisedValue(whole, fraction, up, prec, 10 * p);
    SameDistance(whole, RoundedFraction(fraction, up), 10 * p, top, Fixed64(bits));
  }

  lemma Unscaled(x: nat)
    requires x < TWO_32
    ensures x % TWO_32 == x
  {
  }

  lemma RaisedValue(whole: nat, fraction: nat, up: bool, prec: nat, q: nat)
    requires q == Power(10, prec)
    ensures var (w, f) := Raised(whole, fraction, up, prec); w * q + f == whole * q + RoundedFraction(fraction, up)
  {
    hide Power;
  }

  lemma SameDistance(whole: nat, u: nat, q: nat, top: nat, value: nat)
    requires value == whole * TWO_64 + top
    ensures (whole * q + u) * TWO_64 - q * value == u * TWO_64 - q * top
  {
  }

  /** A whole number is at most 1/2 + 2^-33 away from a double below 2^32, which is Mantissa(bits) / d. */
  ghost predicate WholeIsNear(whole: nat, bits: nat)
    requires Exponent(bits) <= SHIFT_BITS
  {
    var d := Pow2(MAN_BITS - Exponent(bits));
    Within((whole * d - Mantissa(bits)) * (2 * TWO_32), (TWO_32 + 1) * d)
  }

  /** From 1/2 on, the first 33 bits of the fraction are all ones. */
  predicate LosesCarry(bits: nat)
    requires Exponent(bits) <= SHIFT_BITS
  {
    Exponent(bits) >= -1 && FractionBits(Mantissa(bits), Exponent(bits)) >= TWO_64 - TWO_31
  }

  /**
   With none, it is the nearest integer, save that the carry is lost where the first 33 bits of the
   fraction are all ones: exactly then a number just below the next integer is printed one too low.
  */
  lemma NearestInteger(bits: nat)
    requires Exponent(bits) <= SHIFT_BITS
    ensures WholeIsNear(Printed(bits, 0).0, bits) <==> !LosesCarry(bits)
    ensures Exponent(bits) < 0 ==>
      Printed(bits, 0) == (if Exponent(bits) == -1 && !LosesCarry(bits) then 1 else 0, 0)
  {
    if Exponent(bits) < -1 {
      PrintsZero(bits);
    } else {
      IntegerRounded(bits);
      var bin, exp := Mantissa(bits), Exponent(bits);
      PowerSum(2, MAN_BITS - exp, 12 + exp);
      Powers();
      var whole := Printed(bits, 0).0;
      hide *;
      SameBound(whole, bin, Pow2(MAN_BITS - exp), Pow2(12 + exp));
    }
  }

  /** Below 1/2 there is nothing to round up. */
  lemma PrintsZero(bits: nat)
    requires Exponent(bits) < -1
    ensures Printed(bits, 0) == (0, 0) && WholeIsNear(0, bits)
  {
    var bin, exp := Mantissa(bits), Exponent(bits);
    PowerGrows(2, 54, MAN_BITS - exp);
    assert Pow2(54) == 4 * Pow2(52);
    Powers();
    hide Power;
    assert Fraction(bin, exp, 0) == (0, false);
  }

  lemma SameBound(whole: nat, m: nat, d: nat, p: nat)
    requires d > 0 && p > 0 && d * p == TWO_64
    ensures Within(whole * TWO_64 - m * p, TWO_64 / 2 + TWO_31)
       <==> Within((whole * d - m) * (2 * TWO_32), (TWO_32 + 1) * d)
  {
    var x := whole * d - m;
    assert whole * TWO_64 - m * p == x * p by {
      assert whole * TWO_64 == whole * d * p;
    }
    BoundTimes(x, d, p);
    BoundTimes(-x, d, p);
  }

  lemma BoundTimes(x: int, d: nat, p: nat)
    requires d > 0 && p > 0 && d * p == TWO_64
    ensures x * p <= TWO_64 / 2 + TWO_31 <==> x * (2 * TWO_32) <= (TWO_32 + 1) * d
  {
    var a, b := x * (2 * TWO_32), (TWO_32 + 1) * d;
    assert a * p == x * p * (2 * TWO_32);
    assert b * p == (TWO_32 + 1) * TWO_64;
    Cancelled(a, b, p);
  }

  lemma Cancelled(a: int, b: int, p: nat)
    requires p > 0
    ensures a <= b <==> a * p <= b * p
  {
    if a <= b {
      NotNegative(b - a, p);
    } else {
      NotNegative(a - b - 1, p);
    }
  }

  lemma NotNegative(k: nat, p: nat)
    ensures k * p >= 0
  {
  }

  lemma IntegerRounded(bits: nat)
    requires -1 <= Exponent(bits) <= SHIFT_BITS
    ensures Within(Printed(bits, 0).0 * TWO_64 - Fixed64(bits), TWO_64 / 2 + TWO_31) <==> !LosesCarry(bits)
    ensures Exponent(bits) < 0 ==> Printed(bits, 0) == (if LosesCarry(bits) then 0 else 1, 0)
  {
    var bin, exp := Mantissa(bits), Exponent(bits);
    var top := FractionBits(bin, exp);
    Parts(bits);
    assert Power(10, 0) == 1;
    var man, carry := top / TWO_32, top / TWO_31 % 2;
    assert Fraction(bin, exp, 0) == (0, (man + carry) % TWO_32 >= TWO_31);
    assert exp < 0 ==> Integer(bin, exp).0 == 0;
    assert exp < 0 ==> Fixed64(bits) >= TWO_64 / 2 by { if exp < 0 { AtLeastHalf(bits); } }
    hide Power, FractionBits, Mantissa, Exponent, Fixed64, Integer;
    TopRounded(top);
  }

  lemma AtLeastHalf(bits: nat)
    requires Exponent(bits) == -1
    ensures Fixed64(bits) >= TWO_64 / 2
  {
    Powers();
    assert Pow2(12) == 2 * Pow2(11);
  }

  lemma TopRounded(top: nat)
    requires top < TWO_64
    ensures var up := (top / TWO_32 + top / TWO_31 % 2) % TWO_32 >= TWO_31;
      && (Within((if up then TWO_64 else 0) - top, TWO_64 / 2 + TWO_31) <==> top < TWO_64 - TWO_31)
      && (top >= TWO_64 / 2 ==> (up <==> top < TWO_64 - TWO_31))
  {
    var half := top / TWO_31;
    assert half * TWO_31 <= top < half * TWO_31 + TWO_31 && top / TWO_32 == half / 2;
    HalfRounded(half);
  }

  lemma HalfRounded(half: nat)
    requires half < 2 * TWO_32
    ensures (half / 2 + half % 2) % TWO_32 >= TWO_31 <==> TWO_32 - 1 <= half < 2 * TWO_32 - 1
  {
  }

  /** The double below 2 is such a number: "%.0f" makes it "1". */
  lemma BelowTwo()
    ensures Exponent(0x3FFF_FFFF_FFFF_FFFF) == 0 && Fixed64(0x3FFF_FFFF_FFFF_FFFF) == 2 * TWO_64 - 0x1000
    ensures Printed(0x3FFF_FFFF_FFFF_FFFF, 0) == (1, 0)
  {
    var bits: nat := 0x3FFF_FFFF_FFFF_FFFF;
    assert Mantissa(bits) == 0x1F_FFFF_FFFF_FFFF && Exponent(bits) == 0;
    assert Pow2(12) == 0x1000 by { Powers(); }
    assert Fixed64(bits) == 2 * TWO_64 - 0x1000;
    Parts(bits);
    hide Mantissa, Exponent, Fixed64, FractionBits, Integer, Pow2;
    var top := FractionBits(Mantissa(bits), 0);
    assert Integer(Mantissa(bits), 0).0 == 1 && top == TWO_64 - 0x1000;
    NoCarry(Mantissa(bits), top);
    hide Fraction;
  }

  lemma NoCarry(bin: nat, top: nat)
    requires top == TWO_64 - 0x1000 && FractionBits(bin, 0) == top
    ensures Fraction(bin, 0, 0) == (0, false)
  {
    hide FractionBits;
    assert top / TWO_32 == 0xFFFF_FFFF && top / TWO_31 % 2 == 1;
  }

  /** So is the double below 1: "%.0f" makes it "0". */
  lemma BelowOne()
    ensures Exponent(0x3FEF_FFFF_FFFF_FFFF) == -1 && Fixed64(0x3FEF_FFFF_FFFF_FFFF) == TWO_64 - 0x800
    ensures Printed(0x3FEF_FFFF_FFFF_FFFF, 0) == (0, 0)
  {
    var bits: nat := 0x3FEF_FFFF_FFFF_FFFF;
    assert Mantissa(bits) == 0x1F_FFFF_FFFF_FFFF && Exponent(bits) == -1;
    assert Pow2(12) == 2 * Pow2(11) && Pow2(12) == 0x1000 by { Powers(); }
    assert Fixed64(bits) == TWO_64 - 0x800;
    Parts(bits);
    NearestInteger(bits);
  }

  // ---- Numbers of 2^32 and more ----

  const FINE: nat := 0x2000_0000

  /** a and b differ by at most n relative steps of 2^-29. */
  ghost predicate Near(a: nat, b: nat, n: nat) {
    Power(FINE - 1, n) * a <= Power(FINE, n) * b && Power(FINE - 1, n) * b <= Power(FINE, n) * a
  }

  lemma NearBoth(a: nat, b: nat, c: nat, n: nat, k: nat)
    requires Near(a, b, n) && Near(b, c, k)
    ensures Near(a, c, n + k)
  {
    PowerSum(FINE - 1, n, k);
    PowerSum(FINE, n, k);
    hide Power;
    Chained(Power(FINE - 1, n), Power(FINE, n), Power(FINE - 1, k), Power(FINE, k), a, b, c);
    Chained(Power(FINE - 1, k), Power(FINE, k), Power(FINE - 1, n), Power(FINE, n), c, b, a);
  }

  lemma Chained(p: nat, q: nat, r: nat, s: nat, a: nat, b: nat, c: nat)
    requires p * a <= q * b && r * b <= s * c
    ensures p * r * a <= q * s * c && r * p * a <= s * q * c
  {
    Product(r, p * a, r, q * b);
    Product(q, r * b, q, s * c);
    Reordered(r, p, a);
    Reordered(q, r, b);
    Reordered(r, q, b);
    Reordered(q, s, c);
  }

  lemma Reordered(x: nat, y: nat, z: nat)
    ensures x * (y * z) == x * y * z == y * x * z
  {
  }

  lemma NearTimes(a: nat, b: nat, n: nat, k: nat)
    requires Near(a, b, n)
    ensures Near(a * k, b * k, n)
  {
    hide Power;
    TimesBoth(Power(FINE - 1, n), a, Power(FINE, n), b, k);
    TimesBoth(Power(FINE - 1, n), b, Power(FINE, n), a, k);
  }

  lemma TimesBoth(p: nat, a: nat, q: nat, b: nat, k: nat)
    requires p * a <= q * b
    ensures p * (a * k) <= q * (b * k)
  {
    Product(p * a, k, q * b, k);
    assert p * (a * k) == p * a * k && q * (b * k) == q * b * k;
  }

  /** Values that differ by d are near where d is below 2^-29 of them. */
  lemma NearOnce(a: nat, b: nat, d: nat)
    requires (b <= a <= b + d && d * FINE <= a) || (a <= b <= a + d && d * FINE <= b)
    ensures Near(a, b, 1)
  {
    assert Power(FINE, 1) == FINE && Power(FINE - 1, 1) == FINE - 1;
  }

  /** Every decimal zero costs one step at most. */
  lemma {:induction false} ScaledIsNear(man: nat, carry: nat, steps: nat)
    requires carry <= 1
    ensures var (m, c, z) := Scaled(man, carry, steps);
      c <= 1 && Near(Twice(man, carry) * Pow2(steps), Twice(m, c) * Power(10, z), z)
    decreases steps
  {
    if steps == 0 {
      assert Power(FINE, 0) == 1 && Power(FINE - 1, 0) == 1 && Power(10, 0) == 1 && Pow2(0) == 1;
    } else {
      assert Pow2(steps) == 2 * Pow2(steps - 1);
      if man < TWO_31 {
        assert Scaled(man, carry, steps) == Scaled(Twice(man, carry), 0, steps - 1);
        hide *;
        ScaledIsNear(Twice(man, carry), 0, steps - 1);
        Doubled(Twice(man, carry), Pow2(steps - 1));
      } else {
        var carry' := if man % 5 + carry > 2 then 1 else 0;
        var (m, c, z: nat) := Scaled(man / 5, carry', steps - 1);
        assert Scaled(man, carry, steps) == (m, c, z + 1) && Power(10, z + 1) == 10 * Power(10, z);
        hide *;
        ScaledIsNear(man / 5, carry', steps - 1);
        Fifth(man, carry);
        TradedIsNear(Twice(man, carry), Twice(man / 5, carry'), Pow2(steps - 1), Twice(m, c), Power(10, z), z);
      }
    }
  }

  /**
   With the carry for half a unit, a value below 2^31 is doubled exactly, and a larger one is divided by
   five and rounded down to a whole number of halves.
  */
  lemma ScaledByHalves(man: nat, carry: nat, steps: nat)
    requires carry <= 1 && steps > 0
    ensures var twice := 2 * man + carry;
      Scaled(man, carry, steps)
      == if man < 0x8000_0000 then Scaled(twice, 0, steps - 1)
         else var (m, c, z) := Scaled(twice / 5 / 2, twice / 5 % 2, steps - 1); (m, c, z + 1)
  {
    if man >= TWO_31 {
      assert man == 5 * (man / 5) + man % 5;
      var carry' := if man % 5 + carry > 2 then 1 else 0;
      assert (2 * man + carry) / 5 == 2 * (man / 5) + carry';
    }
  }

  lemma TradedIsNear(t: nat, b: nat, p: nat, m: nat, q: nat, z: nat)
    requires Near(b * p, m * q, z) && Near(2 * t, 10 * b, 1)
    ensures Near(t * (2 * p), m * (10 * q), z + 1)
  {
    hide *;
    NearTimes(2 * t, 10 * b, 1, p);
    NearTimes(b * p, m * q, z, 10);
    Grouped(t, b, p, m, q);
    NearBoth(2 * t * p, 10 * b * p, m * q * 10, 1, z);
  }

  lemma Doubled(t: nat, p: nat)
    ensures Twice(t, 0) * p == t * (2 * p)
  {
  }

  lemma Grouped(t: nat, b: nat, p: nat, m: nat, q: nat)
    ensures 2 * t * p == t * (2 * p) && 10 * b * p == b * p * 10 && m * q * 10 == m * (10 * q)
  {
  }

  /** A division by five is right to four units of a value of 32 bits. */
  lemma Fifth(man: nat, carry: nat)
    requires man >= TWO_31 && carry <= 1
    ensures Near(2 * Twice(man, carry), 10 * Twice(man / 5, if man % 5 + carry > 2 then 1 else 0), 1)
  {
    NearOnce(2 * Twice(man, carry), 10 * Twice(man / 5, if man % 5 + carry > 2 then 1 else 0), 8);
  }

  /** A number of 2^32 and more is printed to z + 2 steps of 2^-29, z being the zeros at its end. */
  lemma LargeIsNear(bits: nat, prec: nat)
    requires !IsSpecial(bits) && Exponent(bits) > SHIFT_BITS
    ensures var (whole, fraction) := Printed(bits, prec);
      && fraction == 0
      && Near(Mantissa(bits) * Pow2(Exponent(bits)), whole * TWO_52, Integer(Mantissa(bits), Exponent(bits)).2 + 2)
  {
    hide Near, Integer, Scaled, LeadingBits, Pow2, Power;
    var bin, exp: nat := Mantissa(bits), Exponent(bits);
    var (m, c, z) := Integer(bin, exp);
    var whole := Printed(bits, prec).0;
    assert whole == (m + c) * Power(10, z);
    hide Printed, Mantissa, Exponent;
    LargeLeadingBits(bits);
    LargeInteger(bits);
    LeadingTwice(bin, exp);
    LargeIsScaled(bin, exp);
    var (man, carry) := LeadingBits(bin, exp);
    LargeChain(bin, exp, man, carry, m, c, z, whole);
  }

  lemma LargeIsScaled(bin: nat, exp: nat)
    requires exp > SHIFT_BITS
    ensures var (man, carry) := LeadingBits(bin, exp); Integer(bin, exp) == Scaled(man, carry, exp - SHIFT_BITS)
  {
    hide Scaled, LeadingBits;
  }

  /** From the double to its leading bits, to the scaled digits, to the rounded ones. */
  lemma LargeChain(bin: nat, exp: nat, man: nat, carry: nat, m: nat, c: nat, z: nat, whole: nat)
    requires exp > SHIFT_BITS && bin >= TWO_52 && carry <= 1 && Twice(man, carry) == bin / 0x10_0000
    requires Scaled(man, carry, exp - SHIFT_BITS) == (m, c, z) && m >= TWO_31 / 5 && whole == (m + c) * Power(10, z)
    ensures Near(bin * Pow2(exp), whole * TWO_52, z + 2)
  {
    hide *;
    ScaledIsNear(man, carry, exp - SHIFT_BITS);
    var low := 0x10_0000 * (bin / 0x10_0000);
    Cut20(bin);
    NearTimes(bin, low, 1, Pow2(exp));
    NearTimes(Twice(man, carry) * Pow2(exp - SHIFT_BITS), Twice(m, c) * Power(10, z), z, 0x8_0000_0000_0000);
    SamePowers(bin / 0x10_0000, exp);
    NearBoth(bin * Pow2(exp), low * Pow2(exp), Twice(m, c) * Power(10, z) * 0x8_0000_0000_0000, 1, z);
    CarryIsNear(m, c);
    NearTimes(Twice(m, c), Twice(m + c, 0), 1, Power(10, z) * 0x8_0000_0000_0000);
    SameProducts(m, c, Power(10, z), whole);
    NearBoth(bin * Pow2(exp), Twice(m, c) * Power(10, z) * 0x8_0000_0000_0000, whole * TWO_52, z + 1, 1);
  }

  lemma LeadingTwice(bin: nat, exp: nat)
    requires exp > SHIFT_BITS
    ensures var (man, carry) := LeadingBits(bin, exp); carry <= 1 && Twice(man, carry) == bin / 0x10_0000
  {
    Powers();
    hide Pow2;
    assert bin / 0x20_0000 == bin / 0x10_0000 / 2;
  }

  lemma Cut20(bin: nat)
    requires bin >= TWO_52
    ensures 0 <= bin / 0x10_0000 && Near(bin, 0x10_0000 * (bin / 0x10_0000), 1)
  {
    NearOnce(bin, 0x10_0000 * (bin / 0x10_0000), 0x10_0000);
  }

  lemma CarryIsNear(m: nat, c: nat)
    requires m >= TWO_31 / 5 && c <= 1
    ensures Near(Twice(m, c), Twice(m + c, 0), 1)
  {
    NearOnce(Twice(m, c), Twice(m + c, 0), c);
  }

  lemma SamePowers(t: nat, exp: nat)
    requires exp > SHIFT_BITS
    ensures t * Pow2(exp - SHIFT_BITS) * 0x8_0000_0000_0000 == 0x10_0000 * t * Pow2(exp)
  {
    PowerSum(2, SHIFT_BITS, exp - SHIFT_BITS);
    Powers();
    hide Power, Pow2;
  }

  lemma SameProducts(m: nat, c: nat, p: nat, whole: nat)
    requires whole == (m + c) * p
    ensures Twice(m, c) * (p * 0x8_0000_0000_0000) == Twice(m, c) * p * 0x8_0000_0000_0000
    ensures Twice(m + c, 0) * (p * 0x8_0000_0000_0000) == whole * TWO_52
  {
  }
}
