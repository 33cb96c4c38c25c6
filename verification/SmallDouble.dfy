/**
 Doubles below 1/2: their fraction is first brought up by powers of ten and of two in 32 bits, which costs
 a relative step of 2^-29 a turn, and then printed like the fraction of a larger one.
*/
module SmallDouble {
  import opened Digits
  import opened DoubleText
  import opened DoubleValue
  import opened Machine

  /** The turns of the scaling loop below exponent 0. */
  function BroughtUp(man: nat, carry: nat, exp: int, left: nat): (nat, nat, int, nat)
    decreases -exp
  {
    if left == 0 || exp >= 0 then (man, carry, exp, left)
    else if man > FIFTH then BroughtUp(man / 2, man % 2, exp + 1, left)
    else BroughtUp(man * 5 + if carry != 0 then 3 else 0, 0, exp + 1, left - 1)
  }

  lemma {:induction false} BroughtUpFirst(man: nat, carry: nat, exp: int, left: nat)
    requires exp <= 0
    ensures var (m, c, e, l) := BroughtUp(man, carry, exp, left);
      FractionScaled(man, carry, exp, left, false) == FractionScaled(m, c, e, l, false)
    decreases -exp
  {
    if left > 0 && exp < 0 {
      if man > FIFTH {
        BroughtUpFirst(man / 2, man % 2, exp + 1, left);
      } else {
        BroughtUpFirst(man * 5 + if carry != 0 then 3 else 0, 0, exp + 1, left - 1);
      }
    }
  }

  /** a times t is near twice b, and one more turn follows the others. */
  lemma TurnIsNear(a: nat, t: nat, b: nat, p: nat, m: nat, q: nat, n: nat)
    requires Near(a * t, 2 * b, 1) && Near(b * p, m * q, n)
    ensures Near(t * (a * p), m * (2 * q), n + 1)
  {
    hide *;
    NearTimes(a * t, 2 * b, 1, p);
    NearTimes(b * p, m * q, n, 2);
    assert a * t * p == t * (a * p) && 2 * b * p == b * p * 2 && m * q * 2 == m * (2 * q) by {
      Reordered(a, t, p);
      Reordered(2, b, p);
      Reordered(2, m, q);
    }
    NearBoth(a * t * p, 2 * b * p, m * q * 2, 1, n);
  }

  lemma HalvingIsNear(man: nat, carry: nat)
    requires TWO_28 <= man && carry <= 1
    ensures Near(1 * Twice(man, carry), 2 * Twice(man / 2, man % 2), 1)
  {
    NearOnce(1 * Twice(man, carry), 2 * Twice(man / 2, man % 2), 1);
  }

  lemma TenthIsNear(man: nat, carry: nat)
    requires TWO_28 <= man && carry <= 1
    ensures Near(10 * Twice(man, carry), 2 * Twice(man * 5 + if carry != 0 then 3 else 0, 0), 1)
  {
    NearOnce(10 * Twice(man, carry), 2 * Twice(man * 5 + if carry != 0 then 3 else 0, 0), 2);
  }

  /** Every turn costs one relative step at most, and the mantissa stays between 2^28 and 2^32. */
  lemma {:induction false} BroughtUpNear(man: nat, carry: nat, exp: int, left: nat)
    requires TWO_28 <= man < TWO_32 && carry <= 1 && exp <= 0 && (left > 0 || carry == 0)
    ensures var (m, c, e, l) := BroughtUp(man, carry, exp, left);
      && TWO_28 <= m < TWO_32 && c <= 1 && exp <= e <= 0 && l <= left && (if l > 0 then e == 0 else c == 0)
      && Near(Twice(man, carry) * Power(10, left - l), Twice(m, c) * Pow2(e - exp), e - exp)
    decreases -exp
  {
    var (m, c, e, l) := BroughtUp(man, carry, exp, left);
    if left == 0 || exp >= 0 {
      NearSelf(Twice(man, carry));
    } else if man > FIFTH {
      BroughtUpNear(man / 2, man % 2, exp + 1, left);
      HalvingIsNear(man, carry);
      assert Pow2(e - exp) == 2 * Pow2(e - exp - 1);
      var n: nat := e - exp - 1;
      assert (m, c, e, l) == BroughtUp(man / 2, man % 2, exp + 1, left);
      hide *;
      TurnIsNear(1, Twice(man, carry), Twice(man / 2, man % 2), Power(10, left - l), Twice(m, c), Pow2(n), n);
    } else {
      var more := man * 5 + if carry != 0 then 3 else 0;
      BroughtUpNear(more, 0, exp + 1, left - 1);
      TenthIsNear(man, carry);
      assert Pow2(e - exp) == 2 * Pow2(e - exp - 1) && Power(10, left - l) == 10 * Power(10, left - 1 - l);
      var n: nat := e - exp - 1;
      assert (m, c, e, l) == BroughtUp(more, 0, exp + 1, left - 1);
      hide *;
      TurnIsNear(10, Twice(man, carry), Twice(more, 0), Power(10, left - 1 - l), Twice(m, c), Pow2(n), n);
    }
  }

  lemma NearSelf(t: nat)
    ensures Near(t * Power(10, 0), t * Pow2(0), 0)
  {
  }

  lemma {:induction false} NearMore(a: nat, b: nat, n: nat, k: nat)
    requires Near(a, b, n) && n <= k
    ensures Near(a, b, k)
    decreases k
  {
    if n < k {
      NearMore(a, b, n, k - 1);
      var p, q := Power(FINE - 1, k - 1), Power(FINE, k - 1);
      assert Power(FINE - 1, k) == (FINE - 1) * p && Power(FINE, k) == FINE * q;
      hide *;
      OneStepMore(p, q, a, b);
      OneStepMore(p, q, b, a);
    }
  }

  lemma OneStepMore(p: nat, q: nat, a: nat, b: nat)
    requires p * a <= q * b
    ensures (FINE - 1) * p * a <= FINE * q * b
  {
    assert (FINE - 1) * p * a == FINE * (p * a) - p * a && FINE * q * b == FINE * (q * b);
  }

  // ---- The digits of what was brought up ----

  /** A scaled fraction, m with its carry at exponent -n, in units of 2^-64 at that exponent. */
  function InUnits(m: nat, c: nat): nat { Twice(m, c) * TWO_31 }

  /** No digit was left: the one in front of them is rounded. */
  lemma NoDigitLeft(m: nat, c: nat, e: int, lead: nat)
    requires c == 0 && m < TWO_32 && e <= 0 && e + lead >= 0
    ensures var (fraction, up) := FractionEnd((m + c) % TWO_32, e, 0);
      Within(RoundedFraction(fraction, up) * TWO_64 * Pow2(lead) - InUnits(m, c) * Pow2(e + lead),
        TWO_64 / 2 * Pow2(lead))
  {
    if e == 0 {
      assert (m + c) % TWO_32 == m by { Unwrapped(m); }
      HalfRoundedAt(m, Pow2(lead));
    } else {
      assert Pow2(lead) == 2 * Pow2(lead - 1);
      PowerGrows(2, e + lead, lead - 1);
      var x, y := Pow2(e + lead), Pow2(lead - 1);
      var (fraction, up) := FractionEnd((m + c) % TWO_32, e, 0);
      assert RoundedFraction(fraction, up) == 0 && InUnits(m, c) == m * 2 * TWO_31;
      hide *;
      Smaller(m, x, y);
    }
  }

  lemma HalfRoundedAt(m: nat, k: nat)
    requires m < TWO_32
    ensures Within((if m >= TWO_31 then 1 else 0) * TWO_64 * k - InUnits(m, 0) * k, TWO_64 / 2 * k)
  {
    var u := if m >= TWO_31 then 1 else 0;
    assert InUnits(m, 0) == m * TWO_32;
    Spread(u * TWO_64 - m * TWO_32, TWO_64 / 2, k);
    assert (u * TWO_64 - m * TWO_32) * k == u * TWO_64 * k - m * TWO_32 * k;
  }

  lemma Spread(d: int, bound: nat, k: nat)
    requires Within(d, bound)
    ensures Within(d * k, bound * k)
  {
    NotNegative(bound - d, k);
    NotNegative(bound + d, k);
  }

  lemma Smaller(m: nat, x: nat, y: nat)
    requires m < TWO_32 && x <= y
    ensures m * 2 * TWO_31 * x <= TWO_64 * y
  {
    Product(m * TWO_32, x, TWO_64, y);
    assert m * 2 * TWO_31 == m * TWO_32;
  }

  /** With digits left, exponent 0 was reached, and the rest is like the fraction of a larger double. */
  lemma DigitsLeft(m: nat, c: nat, left: nat)
    requires m < TWO_32 && c <= 1 && left > 0
    ensures var (man, carry, exp, l) := FractionScaled(m, c, 0, left, false);
      var (fraction, up) := FractionEnd((man + carry) % TWO_32, exp, l);
      Within(RoundedFraction(fraction, up) * TWO_64 - Power(10, left) * InUnits(m, c),
             TWO_64 / 2 + 0x28_0000_0000 * Power(10, left - 1))
  {
    var top := InUnits(m, c);
    UnitsParts(m, c);
    FirstDigitClose(top, left);
    var (man, carry, _, _) := FractionScaled(m, c, 0, left, false);
    LastDigitNearest(man + carry, left);
    var p := Power(10, left - 1);
    assert Power(10, left) == 10 * p;
    var (fraction, up) := FractionEnd(man + carry, 4, left);
    assert (man + carry) % TWO_32 == man + carry by { Unwrapped(man + carry); }
    assert (man, carry, 4, left) == FractionScaled(m, c, 0, left, false);
    hide *;
    DigitsClose(RoundedFraction(fraction, up), (man + carry) * p, p, man + carry, top);
  }

  lemma UnitsParts(m: nat, c: nat)
    requires m < TWO_32 && c <= 1
    ensures InUnits(m, c) < TWO_64 && InUnits(m, c) / TWO_32 == m && InUnits(m, c) / TWO_31 % 2 == c
  {
    assert InUnits(m, c) == m * TWO_32 + c * TWO_31;
  }

  // ---- How near the printed number is ----

  /** The double's leading 33 bits are it to one step. */
  lemma LeadingIsNear(bin: nat)
    requires TWO_52 <= bin < 2 * TWO_52
    ensures var top := bin * 0x800;
      && top < TWO_64 && TWO_28 <= top / TWO_32 < TWO_32 && top / TWO_31 % 2 <= 1
      && Twice(top / TWO_32, top / TWO_31 % 2) == bin / 0x10_0000
      && Near(bin, 0x10_0000 * (bin / 0x10_0000), 1)
  {
    Cut20(bin);
    hide Near;
    var top := bin * 0x800;
    assert top / TWO_31 == bin / 0x10_0000;
    assert top / TWO_32 == top / TWO_31 / 2;
  }

  /** The double's distance from what the digits were made of, in steps. */
  lemma SourceIsNear(bin: nat, t0: nat, tf: nat, a: nat, b: nat, p: nat, q: nat, v: nat, n: nat)
    requires q == a * b && v == tf * TWO_31 * p * b
    requires Near(bin, 0x10_0000 * t0, 1) && Near(t0 * a, tf * p, n)
    ensures Near(bin * 0x800 * q, v, n + 1)
  {
    hide *;
    NearTimes(bin, 0x10_0000 * t0, 1, 0x800 * q);
    NearTimes(t0 * a, tf * p, n, TWO_31 * b);
    Regrouped(bin, t0, tf, a, b, p);
    NearBoth(bin * (0x800 * q), t0 * a * (TWO_31 * b), tf * p * (TWO_31 * b), 1, n);
  }

  lemma Regrouped(bin: nat, t0: nat, tf: nat, a: nat, b: nat, p: nat)
    ensures bin * (0x800 * (a * b)) == bin * 0x800 * (a * b)
    ensures 0x10_0000 * t0 * (0x800 * (a * b)) == t0 * a * (TWO_31 * b)
    ensures tf * p * (TWO_31 * b) == tf * TWO_31 * p * b
  {
  }

  /** A double of exponent -1 - e times 10^prec, in units of 2^-(64 + e). */
  function Wanted(bin: nat, prec: nat): nat { bin * 0x800 * Power(10, prec) }

  /** What the digits are made of in these units, l of them being left after n turns. */
  function Made(m: nat, c: nat, n: nat, l: nat): nat { InUnits(m, c) * Pow2(n) * Power(10, l) }

  /**
   The printed number of a double from 2^-1022 to 1/2 is within half a unit of its last digit, and two and a
   half parts in 2^28 of its first digit behind the point, of a value v that is the double to e + 1 relative
   steps of 2^-29: one for each turn of the loop below exponent 0, and one for the bits behind the first 33.
  */
  lemma NearestBelowHalf(bits: nat, prec: nat, e: nat) returns (v: nat)
    requires Exponent(bits) == -1 - e && e > 0 && Mantissa(bits) >= TWO_52 && prec > 0
    ensures Near(Wanted(Mantissa(bits), prec), v, e + 1)
    ensures var (whole, fraction) := Printed(bits, prec);
      Within((whole * Power(10, prec) + fraction) * TWO_64 * Pow2(e) - v,
             (TWO_64 / 2 + 0x28_0000_0000 * Power(10, prec - 1)) * Pow2(e))
  {
    hide *;
    var m, c, e', l := Source(Mantissa(bits), prec, e);
    v := Made(m, c, e' + e, l);
    var fraction, up := DigitsOf(bits, prec, e, m, c, e', l);
    NearMore(Wanted(Mantissa(bits), prec), v, e' + e + 1, e + 1);
    RaisedValue(0, fraction, up, prec, Power(10, prec));
  }

  /** What is brought up from the double. */
  lemma Source(bin: nat, prec: nat, e: nat) returns (m: nat, c: nat, e': int, l: nat)
    requires TWO_52 <= bin < 2 * TWO_52 && prec > 0
    ensures m < TWO_32 && c <= 1 && 0 - e <= e' <= 0 && l <= prec && if l > 0 then e' == 0 else c == 0
    ensures var top := bin * 0x800;
      && top < TWO_64
      && FractionScaled(top / TWO_32, top / TWO_31 % 2, 0 - e, prec, false) == FractionScaled(m, c, e', l, false)
    ensures Near(Wanted(bin, prec), Made(m, c, e' + e, l), e' + e + 1)
  {
    LeadingIsNear(bin);
    var top := bin * 0x800;
    var man, carry := top / TWO_32, top / TWO_31 % 2;
    hide Twice, FractionScaled, Pow2, Power, Near;
    BroughtUpNear(man, carry, 0 - e, prec);
    BroughtUpFirst(man, carry, 0 - e, prec);
    var r := BroughtUp(man, carry, 0 - e, prec);
    m, c, e', l := r.0, r.1, r.2, r.3;
    SourceChain(bin, Twice(man, carry), m, c, e' + e, prec, l);
  }

  lemma SourceChain(bin: nat, t0: nat, m: nat, c: nat, n: nat, prec: nat, l: nat)
    requires Near(bin, 0x10_0000 * t0, 1) && l <= prec
    requires Near(t0 * Power(10, prec - l), Twice(m, c) * Pow2(n), n)
    ensures Near(Wanted(bin, prec), Made(m, c, n, l), n + 1)
  {
    PowerSum(10, prec - l, l);
    assert Wanted(bin, prec) == bin * 0x800 * Power(10, prec);
    assert Made(m, c, n, l) == Twice(m, c) * TWO_31 * Pow2(n) * Power(10, l);
    hide *;
    SourceIsNear(bin, t0, Twice(m, c), Power(10, prec - l), Power(10, l), Pow2(n), Power(10, prec), Made(m, c, n, l),
      n);
  }

  /** What the last digits are made of. */
  lemma DigitsOf(bits: nat, prec: nat, e: nat, m: nat, c: nat, e': int, l: nat) returns (fraction: nat, up: bool)
    requires Exponent(bits) == -1 - e && e > 0 && prec > 0 && l <= prec
    requires var top := Mantissa(bits) * 0x800;
      && top < TWO_64
      && FractionScaled(top / TWO_32, top / TWO_31 % 2, 0 - e, prec, false)
         == FractionScaled(m, c, e', l, false)
    requires m < TWO_32 && c <= 1 && 0 - e <= e' <= 0 && if l > 0 then e' == 0 else c == 0
    ensures Printed(bits, prec) == Raised(0, fraction, up, prec)
    ensures Within(RoundedFraction(fraction, up) * TWO_64 * Pow2(e) - Made(m, c, e' + e, l),
                   (TWO_64 / 2 + 0x28_0000_0000 * Power(10, prec - 1)) * Pow2(e))
  {
    var bin := Mantissa(bits);
    var top := FractionBits(bin, Exponent(bits));
    assert top == bin * 0x800 by { TopIs(bin); }
    var (man, carry, exp, left) := FractionScaled(m, c, e', l, false);
    var end := FractionEnd((man + carry) % TWO_32, exp, left);
    fraction, up := end.0, end.1;
    assert Printed(bits, prec) == Raised(0, fraction, up, prec);
    var unit := Pow2(e);
    assert Made(m, c, e' + e, l) == InUnits(m, c) * Pow2(e' + e) * Power(10, l);
    if l == 0 {
      NoDigitLeft(m, c, e', e);
      assert (man, carry, exp, left) == (m, c, e', 0) && Power(10, 0) == 1;
      hide *;
      var printed := RoundedFraction(fraction, up) * TWO_64;
      Wider(printed * unit - InUnits(m, c) * Pow2(e' + e), TWO_64 / 2, Power(10, prec - 1), unit);
    } else {
      DigitsLeft(m, c, l);
      PowerGrows(10, l - 1, prec - 1);
      hide *;
      var printed := RoundedFraction(fraction, up) * TWO_64;
      Rescaled(printed, InUnits(m, c), Power(10, l), Power(10, l - 1), Power(10, prec - 1), unit);
    }
  }

  lemma Wider(d: int, half: nat, p: nat, unit: nat)
    requires Within(d, half * unit)
    ensures Within(d, (half + 0x28_0000_0000 * p) * unit)
  {
    Product(half, unit, half + 0x28_0000_0000 * p, unit);
  }

  lemma Rescaled(x: nat, t: nat, q: nat, r: nat, p: nat, unit: nat)
    requires r <= p && Within(x - q * t, TWO_64 / 2 + 0x28_0000_0000 * r)
    ensures Within(x * unit - t * unit * q, (TWO_64 / 2 + 0x28_0000_0000 * p) * unit)
  {
    Spread(x - q * t, TWO_64 / 2 + 0x28_0000_0000 * r, unit);
    assert (x - q * t) * unit == x * unit - t * unit * q by {
      assert q * t * unit == t * unit * q;
    }
    Product(TWO_64 / 2 + 0x28_0000_0000 * r, unit, TWO_64 / 2 + 0x28_0000_0000 * p, unit);
  }

  lemma TopIs(bin: nat)
    requires bin * 0x800 < TWO_64
    ensures bin * Pow2(11) % TWO_64 == bin * 0x800
  {
    Powers();
    assert Pow2(12) == 2 * Pow2(11);
    Unwrapped(bin * 0x800);
  }

  // ---- Too small for its digits ----

  /** Every fourth turn at least multiplies by ten, so no digit is left when the exponent is still negative. */
  lemma {:induction false} DigitsRunOut(man: nat, carry: nat, exp: int, left: nat, halved: nat)
    requires halved <= 3 && man < Halvings(TWO_32, halved) && (if left == 0 then exp < 0 else exp + 4 * left < halved)
    ensures var (m, c, e, l) := BroughtUp(man, carry, exp, left); l == 0 && e < 0
    decreases -exp
  {
    if left > 0 {
      if man > FIFTH {
        DigitsRunOut(man / 2, man % 2, exp + 1, left, halved + 1);
      } else {
        DigitsRunOut(man * 5 + if carry != 0 then 3 else 0, 0, exp + 1, left - 1, 0);
      }
    }
  }

  /** Below half a unit of its last digit a double is printed as zeros; so is any below 2^-1022, up to 255 digits. */
  lemma TinyIsZero(bits: nat, prec: nat)
    requires Exponent(bits) + 1 + 4 * prec < 0
    ensures Printed(bits, prec) == (0, 0)
    ensures 2 * Mantissa(bits) * Power(10, prec) <= Pow2(MAN_BITS - Exponent(bits))
  {
    var bin, exp := Mantissa(bits), Exponent(bits);
    var top := FractionBits(bin, exp);
    BroughtUpFirst(top / TWO_32, top / TWO_31 % 2, exp + 1, prec);
    DigitsRunOut(top / TWO_32, top / TWO_31 % 2, exp + 1, prec, 0);
    BelowHalfUnit(bin, exp, prec);
  }

  lemma BelowHalfUnit(bin: nat, exp: int, prec: nat)
    requires bin < 2 * TWO_52 && exp + 1 + 4 * prec < 0
    ensures 2 * bin * Power(10, prec) <= Pow2(MAN_BITS - exp)
  {
    TenIsBelow(prec);
    PowerSum(2, 54, 4 * prec);
    assert Pow2(54) == 4 * Pow2(52);
    Powers();
    PowerGrows(2, 54 + 4 * prec, MAN_BITS - exp);
    hide *;
    Product(2 * bin, Power(10, prec), 4 * TWO_52, Power(2, 4 * prec));
  }

  lemma {:induction false} TenIsBelow(n: nat)
    ensures Power(10, n) <= Power(2, 4 * n)
  {
    if n > 0 {
      TenIsBelow(n - 1);
      assert Power(2, 4 * n) == 16 * Power(2, 4 * (n - 1)) by {
        assert Power(2, 4) == 16;
        PowerSum(2, 4, 4 * (n - 1));
      }
    }
  }
}
