/**
 Printing a double without floating point: npf_ftoa_rev scales its bits from base 2 to base 10 in
 32-bit arithmetic and stores the digits back to front in a buffer of 23 bytes.
*/
module Ftoa {
  import opened Arithmetic
  import opened Digits
  import opened DoubleText
  import opened Machine

  ghost predicate DigitsIn(s: seq<char>, lo: nat, hi: nat) {
    hi <= |s| && forall k | lo <= k < hi :: IsDigit(s[k])
  }

  ghost predicate ZeroesIn(s: seq<char>, lo: nat, hi: nat) {
    hi <= |s| && forall k | lo <= k < hi :: s[k] == '0'
  }

  // ---- The integer part ----

  /** The top bits of the integer part, at most 32, the bit below them, and how many are left out. */
  method TopBits(bin: nat, exp: nat) returns (man: nat, carry: nat, steps: nat)
    requires bin < 2 * TWO_52
    ensures man < TWO_32 && carry <= 1 && steps == (if exp > SHIFT_BITS then exp - SHIFT_BITS else 0)
    ensures (man, carry) == LeadingBits(bin, exp)
  {
    var shift := if exp > SHIFT_BITS then SHIFT_BITS else exp;
    steps := exp - shift;
    MantissaFits(bin, shift);
    shift := MAN_BITS - shift;
    man := Shr(bin, shift);
    carry := 0;
    if steps != 0 {
      carry := Shr(bin, shift - 1) % 2;
    }
  }

  /**
   Scales the integer part: every division by ten is a zero digit stored and a division by five. It
   fails exactly when the zeros have no room.
  */
  method ScaleInteger(buf: array<char>, man: nat, carry: nat, steps: nat, start: nat)
    returns (ok: bool, man': nat, carry': nat, dec: nat)
    requires buf.Length == BUFFER_SIZE && start <= BUFFER_SIZE && man < TWO_32 && carry <= 1
    modifies buf
    ensures start <= dec <= BUFFER_SIZE && man' < TWO_32 && carry' <= 1
    ensures ZeroesIn(buf[..], start, dec) && forall k | 0 <= k < start :: buf[k] == old(buf[k])
    ensures ok <==> start + Scaled(man, carry, steps).2 <= BUFFER_SIZE
    ensures ok ==> (man', carry', dec - start) == Scaled(man, carry, steps)
  {
    man', carry', dec := man, carry, start;
    var exp := steps;
    while exp > 0
      invariant start <= dec <= BUFFER_SIZE && man' < TWO_32 && carry' <= 1
      invariant ZeroesIn(buf[..], start, dec) && forall k | 0 <= k < start :: buf[k] == old(buf[k])
      invariant StillScaled(Scaled(man, carry, steps), Scaled(man', carry', exp), dec - start)
    {
      if man' < TWO_31 {
        man' := 2 * man' + carry';
        carry' := 0;
      } else {
        if dec >= BUFFER_SIZE {
          OneZeroMore(man', carry', exp);
          return false, man', carry', dec;
        }
        buf[dec] := '0';
        dec := dec + 1;
        carry' := if man' % 5 + carry' > 2 then 1 else 0;
        man' := man' / 5;
      }
      exp := exp - 1;
    }
    ok := true;
  }

  lemma OneZeroMore(man: nat, carry: nat, steps: nat)
    requires steps > 0 && man >= TWO_31
    ensures Scaled(man, carry, steps).2 > 0
  {
    var rest: nat := Scaled(man / 5, if man % 5 + carry > 2 then 1 else 0, steps - 1).2;
    assert Scaled(man, carry, steps).2 == rest + 1;
  }

  /** The scaling that is left adds to the zeros that are there. */
  predicate StillScaled(all: (nat, nat, nat), rest: (nat, nat, nat), zeros: nat) {
    all == (rest.0, rest.1, zeros + rest.2)
  }

  /** Prints the digits of man; it fails exactly when they have no room. */
  method PrintInteger(buf: array<char>, man: nat, dec: nat) returns (ok: bool, end: nat)
    requires buf.Length == BUFFER_SIZE && dec <= BUFFER_SIZE
    modifies buf
    ensures ok <==> dec + |ToDigits(man, 10, 0)| <= BUFFER_SIZE
    ensures ok ==> end == dec + |ToDigits(man, 10, 0)| && buf[dec..end] == ToDigits(man, 10, 0)
    ensures buf[..dec] == old(buf[..dec])
  {
    assert Base(10);
    hide *;
    ghost var all := ToDigits(man, 10, 0);
    ghost var text := buf[..];
    var m: nat := man;
    end := dec;
    while true
      invariant dec <= end <= BUFFER_SIZE && end - dec < |all| && all[end - dec..] == ToDigits(m, 10, 0)
      invariant text == buf[..] && text[..dec] == old(buf[..dec]) && text[dec..end] == all[..end - dec]
      decreases m
    {
      if end >= BUFFER_SIZE {
        return false, end;
      }
      NextDigit(all, end - dec, m, 10, 0);
      buf[end] := DigitChar(Low(m, 10), 0);
      DigitStored(text, dec, end, all);
      text := buf[..];
      end := end + 1;
      m := High(m, 10);
      if m == 0 {
        break;
      }
    }
    ok := true;
  }

  lemma DigitStored(text: seq<char>, dec: nat, end: nat, all: string)
    requires dec <= end < |text| && end - dec < |all| && text[dec..end] == all[..end - dec]
    ensures var after := text[end := all[end - dec]];
            after[..dec] == text[..dec] && after[dec..end + 1] == all[..end + 1 - dec]
  {
    var after := text[end := all[end - dec]];
    assert all[..end + 1 - dec] == all[..end - dec] + [all[end - dec]];
    assert after[dec..end + 1] == text[dec..end] + [after[end]];
  }

  /** The integer part: its zeros and its digits, and the place from which the carry is to be added. */
  method IntegerPart(buf: array<char>, bin: nat, exp: int, start: nat)
    returns (ok: bool, dec: nat, end: nat, carry: nat, exp': int)
    requires buf.Length == BUFFER_SIZE && start <= BUFFER_SIZE && bin < 2 * TWO_52
    modifies buf
    ensures exp' == (if exp > SHIFT_BITS then MAN_BITS else exp)
    ensures forall k | 0 <= k < start :: buf[k] == old(buf[k])
    ensures var (man, c, zeros) := Integer(bin, exp);
      && (ok <==> start + zeros + |ToDigits(man, 10, 0)| <= BUFFER_SIZE)
      && (ok ==> carry == c <= 1 && dec == start + zeros && end == dec + |ToDigits(man, 10, 0)|
                 && buf[start..end] == FixedDigits(0, zeros) + ToDigits(man, 10, 0))
  {
    hide IsDigit, ToDigits, Scaled, LeadingBits, FixedDigits;
    exp', carry, dec, end := exp, 0, start, start;
    var man := 0;
    ok := true;
    if exp >= 0 {
      var steps;
      man, carry, steps := TopBits(bin, exp);
      if steps != 0 {
        exp' := MAN_BITS;
      }
      ok, man, carry, dec := ScaleInteger(buf, man, carry, steps, dec);
    }
    if !ok {
      return;
    }
    ghost var scaled := buf[..];
    ok, end := PrintInteger(buf, man, dec);
    if ok { DigitsJoined(scaled, buf[..], start, dec, end, man); }
  }

  lemma DigitsJoined(scaled: seq<char>, text: seq<char>, start: nat, dec: nat, end: nat, man: nat)
    requires start <= dec <= end <= |text| == |scaled| && ZeroesIn(scaled, start, dec)
    requires text[..dec] == scaled[..dec] && text[dec..end] == ToDigits(man, 10, 0)
    ensures text[start..end] == FixedDigits(0, dec - start) + ToDigits(man, 10, 0)
    ensures forall k | 0 <= k < start :: text[k] == scaled[k]
  {
    hide ToDigits;
    ZeroDigits(dec - start);
    hide FixedDigits;
    assert forall k | 0 <= k < dec :: text[k] == text[..dec][k] == scaled[..dec][k] == scaled[k];
    assert text[start..dec] == FixedDigits(0, dec - start);
    assert text[start..end] == text[start..dec] + text[dec..end];
  }

  // ---- The fraction part ----

  /**
   Scales the fraction part by powers of ten; each step below the point is a zero digit. When digits
   are still wanted afterwards, the first one is at most 9: man' is below 10 * 2^28.
  */
  method ScaleFraction(buf: array<char>, man: nat, carry: nat, exp: int, prec: nat)
    returns (man': nat, carry': nat, exp': int, left: nat)
    requires buf.Length == BUFFER_SIZE && prec <= BUFFER_SIZE && man < TWO_32 && carry <= 1 && exp <= 0
    modifies buf
    ensures left <= prec && man' < TWO_32 && carry' <= 1
    ensures left > 0 ==> exp' == 4 && man' + carry' < 10 * TWO_28
    ensures ZeroesIn(buf[..], left, prec) && forall k | prec <= k < BUFFER_SIZE :: buf[k] == old(buf[k])
    ensures (man', carry', exp', left) == FractionScaled(man, carry, exp, prec, false)
  {
    man', carry', exp', left := man, carry, exp, prec;
    var digit := false;
    while left > 0 && exp' < 4
      invariant left <= prec && man' < TWO_32 && carry' <= 1 && exp' <= 4
      invariant digit ==> 0 < exp'
      invariant !digit ==> man' < Halved(exp')
      invariant exp' == 4 ==> man' + carry' < 10 * TWO_28
      invariant ZeroesIn(buf[..], left, prec) && forall k | prec <= k < BUFFER_SIZE :: buf[k] == old(buf[k])
      invariant FractionScaled(man', carry', exp', left, digit) == FractionScaled(man, carry, exp, prec, false)
      decreases 4 - exp'
    {
      if man' > FIFTH || digit {
        carry' := man' % 2;
        man' := man' / 2;
      } else {
        man' := man' * 5;
        if carry' != 0 {
          man' := man' + 3;
          carry' := 0;
        }
        if exp' < 0 {
          left := left - 1;
          buf[left] := '0';
        } else {
          digit := true;
        }
      }
      exp' := exp' + 1;
    }
  }

  /** The digits of a fraction: man * 10^(left-1) / 2^28, rounded down, with `rest` left over. */
  ghost predicate FractionDigits(digits: seq<char>, man: nat, rest: nat) {
    |digits| > 0 && rest < TWO_28 && Decode(digits, 10) * TWO_28 + rest == man * Power(10, |digits| - 1)
  }

  /** The next digit character of a scaled mantissa. */
  function TopDigit(man: nat): (c: char)
    requires man < 10 * TWO_28
    ensures IsDigit(c)
  {
    DigitRoundTrip(man / TWO_28, 0);
    DigitChar(man / TWO_28, 0)
  }

  /** With the digit that man' has in front of it, the text will hold the fraction so far. */
  ghost predicate NextFraction(digits: seq<char>, man: nat, man': nat) {
    man' < 10 * TWO_28 && FractionDigits([TopDigit(man')] + digits, man, man' % TWO_28)
  }

  lemma FirstFraction(man: nat)
    requires man < 10 * TWO_28
    ensures NextFraction([], man, man)
  {
    var s := [TopDigit(man)] + [];
    DigitRoundTrip(man / TWO_28, 0);
    assert s[1..] == [] && Decode([], 10) == 0 && Power(10, 0) == 1;
  }

  /** The digit in front of the ones that are there is taken from ten times the rest. */
  lemma FractionStep(digits: seq<char>, man: nat, rest: nat)
    requires FractionDigits(digits, man, rest)
    ensures rest < TWO_28 && NextFraction(digits, man, rest * 10)
  {
    var d := rest * 10 / TWO_28;
    DigitRoundTrip(d, 0);
    var s := [TopDigit(rest * 10)] + digits;
    assert s[1..] == digits;
    var v, p := Decode(digits, 10), Power(10, |digits| - 1);
    assert Decode(s, 10) == d + 10 * v && Power(10, |s| - 1) == 10 * p;
    hide Decode, Power, TopDigit;
    TenfoldProduct(man, p, 10 * p);
    TenfoldFraction(v, rest, man * p);
  }

  lemma TenfoldFraction(v: nat, rest: nat, t: nat)
    requires v * TWO_28 + rest == t && rest < TWO_28
    ensures rest * 10 / TWO_28 < 10
    ensures (rest * 10 / TWO_28 + 10 * v) * TWO_28 + rest * 10 % TWO_28 == 10 * t
  {
  }

  lemma FractionTaken(digits: seq<char>, man: nat, man': nat)
    requires NextFraction(digits, man, man')
    ensures man' < 10 * TWO_28 && FractionDigits([TopDigit(man')] + digits, man, man' % TWO_28)
    ensures man' % TWO_28 < TWO_28
  {
  }

  /** Four more bits are shifted out to the left of a rest, and none is lost. */
  lemma ShiftedOut(rest: nat)
    requires rest < TWO_28
    ensures TWO_32 > 0 && rest * 16 % TWO_32 < TWO_32 && rest * 16 % TWO_32 % 16 == 0 && rest * 16 % TWO_32 / 16 == rest
  {
  }

  lemma FractionShape(text: seq<char>, left: nat)
    requires left <= |text| && forall k | 0 <= k < left :: IsDigit(text[..left][k])
    ensures DigitsIn(text, 0, left)
  {
    assert forall k | 0 <= k < left :: text[..left][k] == text[k];
  }

  /** Prints the `left` digits of the fraction exactly, all of them decimal because the first one is. */
  method PrintFraction(buf: array<char>, man: nat, left: nat) returns (man': nat)
    requires buf.Length == BUFFER_SIZE && left <= BUFFER_SIZE && man < TWO_32
    requires left > 0 ==> man < 10 * TWO_28
    modifies buf
    ensures man' < TWO_32 && (left == 0 ==> man' == man)
    ensures DigitsIn(buf[..], 0, left) && forall k | left <= k < BUFFER_SIZE :: buf[k] == old(buf[k])
    ensures left > 0 ==> man' % 16 == 0 && FractionDigits(buf[..left], man, man' / 16)
  {
    hide *;
    man' := man;
    if left > 0 {
      var dec := left;
      FirstFraction(man);
      ghost var digits: seq<char> := [];
      while true
        invariant 0 < dec <= left && digits == buf[dec..left] && NextFraction(digits, man, man') && man' < 10 * TWO_28
        invariant forall k | 0 <= k < |digits| :: IsDigit(digits[k])
        invariant forall k | left <= k < BUFFER_SIZE :: buf[k] == old(buf[k])
        decreases dec
      {
        FractionTaken(digits, man, man');
        dec := dec - 1;
        buf[dec] := TopDigit(man');
        digits := [TopDigit(man')] + digits;
        assert buf[dec..left] == digits;
        man' := man' % TWO_28;
        if dec == 0 {
          break;
        }
        FractionStep(digits, man, man');
        man' := man' * 10;
      }
      assert buf[..left] == digits;
      ShiftedOut(man');
      man' := man' * 16 % TWO_32;
    }
    FractionShape(buf[..], left);
  }

  /** The digits of a fraction are those of the quotient, and what is left over is the remainder. */
  lemma FractionIs(digits: string, man: nat, rest: nat)
    requires FractionDigits(digits, man, rest) && forall k | 0 <= k < |digits| :: IsDigit(digits[k])
    ensures var t := man * Power(10, |digits| - 1);
      && t / TWO_28 == Decode(digits, 10) < Power(10, |digits|) && t % TWO_28 == rest
      && digits == FixedDigits(t / TWO_28, |digits|)
  {
    DigitsAreFixed(digits);
    DecodeBelow(digits, 10);
    hide Decode, Power, FixedDigits;
    DivisionIs(man * Power(10, |digits| - 1), TWO_28, Decode(digits, 10), rest);
  }

  /** The printed digits and the zeros that were stored while scaling are the fraction. */
  lemma FractionText(text: seq<char>, man: nat, man': nat, exp: int, left: nat, prec: nat)
    requires left <= prec && DigitsIn(text, 0, left) && ZeroesIn(text, left, prec) && left <= |text|
    requires if left == 0 then man' == man else man' % 16 == 0 && FractionDigits(text[..left], man, man' / 16)
    ensures prec <= |text|
    ensures var (fraction, up) := FractionEnd(man, exp, left);
      && fraction < Power(10, prec) && text[..prec] == FixedDigits(fraction, prec)
      && (up <==> exp >= 0 && man' >= TWO_31)
  {
    assert left > 0 ==> forall k | 0 <= k < left :: IsDigit(text[..left][k]);
    FractionDone(text[..left], man, man', exp);
    hide *;
    var fraction := FractionEnd(man, exp, left).0;
    PowerGrows(10, left, prec);
    FixedExtends(fraction, left, prec - left);
    ZerosBehind(text, FixedDigits(fraction, left), left, prec);
  }

  lemma FractionDone(digits: string, man: nat, man': nat, exp: int)
    requires forall k | 0 <= k < |digits| :: IsDigit(digits[k])
    requires if digits == [] then man' == man else man' % 16 == 0 && FractionDigits(digits, man, man' / 16)
    ensures var (fraction, up) := FractionEnd(man, exp, |digits|);
      && fraction < Power(10, |digits|) && digits == FixedDigits(fraction, |digits|)
      && (up <==> exp >= 0 && man' >= TWO_31)
  {
    assert Power(10, 0) == 1;
    hide Power, Decode, FixedDigits, IsDigit, FractionDigits;
    if digits == [] {
      assert FixedDigits(0, 0) == [];
    } else {
      FractionIs(digits, man, man' / 16);
    }
  }

  lemma ZerosBehind(text: seq<char>, digits: string, left: nat, prec: nat)
    requires left <= prec && ZeroesIn(text, left, prec) && left <= |text| && text[..left] == digits
    ensures prec <= |text| && text[..prec] == digits + FixedDigits(0, prec - left)
  {
    ZeroDigits(prec - left);
    hide FixedDigits;
    assert text[left..prec] == FixedDigits(0, prec - left);
    assert text[..prec] == text[..left] + text[left..prec];
  }

  /**
   The fraction part fills the first `prec` places, with zeros when there is none; from `dec'` on
   the carry is to be added.
  */
  method FractionPart(buf: array<char>, bin: nat, exp: int, prec: nat, dec: nat, carry: nat)
    returns (dec': nat, carry': nat)
    requires buf.Length == BUFFER_SIZE && prec <= BUFFER_SIZE && (exp <= SHIFT_BITS || exp == MAN_BITS)
    modifies buf
    ensures forall k | prec <= k < BUFFER_SIZE :: buf[k] == old(buf[k])
    ensures exp == MAN_BITS ==> dec' == dec && carry' == carry && buf[..prec] == FixedDigits(0, prec)
    ensures exp <= SHIFT_BITS ==>
      var (fraction, up) := Fraction(bin, exp, prec);
      && dec' == 0 && (carry' != 0 <==> up)
      && fraction < Power(10, prec) && buf[..prec] == FixedDigits(fraction, prec)
  {
    hide IsDigit, FixedDigits, Power, Decode, FractionScaled, FractionDigits, FractionBits;
    var man, left := 0, prec;
    dec', carry' := dec, carry;
    var steps := 0;
    if exp < MAN_BITS {
      var shift := if exp < 0 then -1 else exp;
      var top := FractionBits(bin, exp);
      TopParts(top);
      man := top / TWO_32;
      carry' := top / TWO_31 % 2;
      man, carry', steps, left := ScaleFraction(buf, man, carry', exp - shift, prec);
      man := (man + carry') % TWO_32;
      carry' := if steps >= 0 then 1 else 0;
      dec' := 0;
    }
    var rest := PrintFraction(buf, man, left);
    FractionText(buf[..], man, rest, steps, left, prec);
    if exp < MAN_BITS {
      carry' := if carry' != 0 && rest >= TWO_31 then 1 else 0;
    }
  }

  // ---- Rounding ----

  /** The number a back-to-front text stands for when its point is left out. */
  function Units(s: seq<char>): nat {
    if s == [] then 0
    else if s[0] == '.' then Units(s[1..])
    else DigitValue(s[0]) + 10 * Units(s[1..])
  }

  /** The text after the rounding loop: nines become zeros up to the first digit below nine. */
  function Increment(s: seq<char>): seq<char> {
    if s == [] then ['1']
    else if s[0] == '.' then ['.'] + Increment(s[1..])
    else if s[0] == '9' then ['0'] + Increment(s[1..])
    else if IsDigit(s[0]) then [s[0] + 1 as char] + s[1..]
    else s
  }

  /** Rounding adds one unit in the last place, whatever carries it takes. */
  lemma {:induction false} IncrementAddsOne(s: seq<char>)
    requires forall k | 0 <= k < |s| :: IsDigit(s[k]) || s[k] == '.'
    ensures Units(Increment(s)) == Units(s) + 1
    ensures |s| <= |Increment(s)| <= |s| + 1
  {
    if s != [] && (s[0] == '.' || s[0] == '9') {
      IncrementAddsOne(s[1..]);
      assert Increment(s)[1..] == Increment(s[1..]);
    } else if s != [] {
      assert Increment(s)[1..] == s[1..];
    }
  }

  lemma IncrementStep(s: seq<char>)
    ensures s == [] ==> Increment(s) == ['1']
    ensures s != [] && s[0] == '.' ==> Increment(s) == ['.'] + Increment(s[1..])
    ensures s != [] && s[0] == '9' ==> Increment(s) == ['0'] + Increment(s[1..])
    ensures s != [] && IsDigit(s[0]) && s[0] != '9' ==>
      s[0] < '9' && IsDigit(s[0] + 1 as char) && Increment(s) == [s[0] + 1 as char] + s[1..]
  {
  }

  predicate IsNumeric(c: char) { IsDigit(c) || c == '.' }

  /** Rounding leaves digits where there are digits and the point where it is. */
  lemma {:induction false} IncrementShape(s: seq<char>)
    requires forall k | 0 <= k < |s| :: IsNumeric(s[k])
    ensures var t := Increment(s);
            && |s| <= |t| <= |s| + 1
            && (forall k | 0 <= k < |s| :: IsNumeric(t[k]) && (t[k] == '.' <==> s[k] == '.'))
            && (|t| > |s| ==> IsDigit(t[|s|]))
  {
    IncrementStep(s);
    if s != [] && (s[0] == '.' || s[0] == '9') {
      IncrementShape(s[1..]);
      var u := Increment(s[1..]);
      hide Increment;
      forall k | 0 < k < |s| ensures IsNumeric(Increment(s)[k]) && (Increment(s)[k] == '.' <==> s[k] == '.') {
        assert Increment(s)[k] == u[k - 1] && s[k] == s[1..][k - 1];
      }
    }
  }

  predicate AllNines(s: seq<char>) {
    forall k | 0 <= k < |s| :: s[k] == '9' || s[k] == '.'
  }

  /** Rounding takes one more digit exactly when there is nothing but nines. */
  lemma {:induction false} NinesGrow(s: seq<char>)
    requires forall k | 0 <= k < |s| :: IsNumeric(s[k])
    ensures |Increment(s)| == |s| + if AllNines(s) then 1 else 0
  {
    IncrementStep(s);
    if s != [] && (s[0] == '.' || s[0] == '9') {
      NinesGrow(s[1..]);
      assert AllNines(s) <==> AllNines(s[1..]) by {
        assert forall k | 0 < k < |s| :: s[k] == s[1..][k - 1];
      }
    }
  }

  /** The rounding loop at position dec of a text of `end` characters that has grown to end'. */
  ghost predicate Rounding(text: seq<char>, c: bool, dec: nat, end: nat, end': nat, all: seq<char>) {
    && end <= end' <= |text|
    && if c then
         && dec <= end == end' && (forall k | dec <= k < end :: IsNumeric(text[k]))
         && all == text[..dec] + Increment(text[dec..end])
       else text[..end'] == all
  }

  lemma RoundingStep(text: seq<char>, dec: nat, end: nat, all: seq<char>)
    requires Rounding(text, true, dec, end, end, all)
    ensures dec < end && text[dec] == '.' ==> Rounding(text, true, dec + 1, end, end, all)
    ensures dec < end && text[dec] == '9' ==> Rounding(text[dec := '0'], true, dec + 1, end, end, all)
    ensures dec < end && text[dec] != '9' && text[dec] != '.' ==>
      text[dec] < '9' && Rounding(text[dec := text[dec] + 1 as char], false, dec + 1, end, end, all)
    ensures dec == end < |text| ==> Rounding(text[end := '1'], false, dec + 1, end, end + 1, all)
  {
  }

  lemma RoundingEnds(text: seq<char>, carry: bool, first: nat, end: nat)
    requires first <= end <= |text| && forall k | 0 <= k < end :: IsNumeric(text[k])
    ensures var all := if carry then text[..first] + Increment(text[first..end]) else text[..end];
            Rounding(text, carry, first, end, end, all)
  {
  }

  /**
   Adds the carry to the number from position `first` on; it fails exactly when there are only
   nines and the buffer is full, so that the new digit has no room.
  */
  method Round(buf: array<char>, carry: bool, first: nat, end: nat) returns (ok: bool, end': nat)
    requires buf.Length == BUFFER_SIZE && first <= end <= BUFFER_SIZE && forall k | 0 <= k < end :: IsNumeric(buf[k])
    modifies buf
    ensures !ok <==> carry && end == BUFFER_SIZE && AllNines(old(buf[first..end]))
    ensures ok ==> end' <= BUFFER_SIZE
    ensures ok ==> buf[..end'] == if carry then old(buf[..first]) + Increment(old(buf[first..end])) else old(buf[..end])
  {
    var c, dec := carry, first;
    end' := end;
    ghost var text := buf[..];
    ghost var all := if c then text[..first] + Increment(text[first..end]) else text[..end];
    RoundingEnds(text, carry, first, end);
    RoundedLength(text, carry, first, end);
    assert text[..first] == buf[..first] && text[first..end] == buf[first..end] && text[..end] == buf[..end];
    hide Increment, IsDigit, IsNumeric, Rounding, AllNines;
    while c
      invariant text == buf[..] && Rounding(text, c, dec, end, end', all) && end' <= BUFFER_SIZE
      invariant c ==> dec <= end == end'
      decreases BUFFER_SIZE - dec, c
    {
      RoundingStep(text, dec, end, all);
      if dec >= BUFFER_SIZE {
        RoundingStuck(text, dec, all);
        return false, end';
      }
      if dec >= end' {
        buf[end'] := '0';
        end' := end' + 1;
      }
      if buf[dec] == '.' {
        dec := dec + 1;
        continue;
      }
      c := buf[dec] == '9';
      buf[dec] := if c then '0' else buf[dec] + 1 as char;
      text := text[dec := buf[dec]];
      dec := dec + 1;
    }
    RoundingDone(text, dec, end, end', all);
    ok := true;
  }

  lemma RoundedLength(text: seq<char>, carry: bool, first: nat, end: nat)
    requires first <= end <= |text| && forall k | 0 <= k < end :: IsNumeric(text[k])
    ensures var all := if carry then text[..first] + Increment(text[first..end]) else text[..end];
            |all| == end + if carry && AllNines(text[first..end]) then 1 else 0
  {
    if carry { NinesGrow(text[first..end]); }
  }

  /** A carry at the end of a full buffer makes a text that is longer than the buffer. */
  lemma RoundingStuck(text: seq<char>, dec: nat, all: seq<char>)
    requires Rounding(text, true, dec, dec, dec, all) && dec == |text|
    ensures |all| == |text| + 1
  {
    assert text[dec..dec] == [];
    IncrementStep([]);
  }

  lemma RoundingDone(text: seq<char>, dec: nat, end: nat, end': nat, all: seq<char>)
    requires Rounding(text, false, dec, end, end', all)
    ensures end' <= |text| && text[..end'] == all
  {
  }

  // ---- The rounded text ----

  /** The incremented digits of a number are the digits of the next one. */
  lemma {:induction false} IncrementDigits(v: nat)
    ensures Increment(ToDigits(v, 10, 0)) == ToDigits(v + 1, 10, 0)
    decreases v
  {
    NextNumber(v);
    if Low(v, 10) == 9 && High(v, 10) > 0 {
      IncrementDigits(High(v, 10));
    }
    hide Low, High;
    DigitSteps(Low(v, 10));
    assert Increment([]) == ['1'] == ToDigits(1, 10, 0) by { One(); }
  }

  lemma One()
    ensures ToDigits(1, 10, 0) == ['1']
  {
  }

  lemma NextNumber(v: nat)
    ensures Low(v + 1, 10) == if Low(v, 10) == 9 then 0 else Low(v, 10) + 1
    ensures High(v + 1, 10) == if Low(v, 10) == 9 then High(v, 10) + 1 else High(v, 10)
  {
  }

  lemma DigitSteps(d: nat)
    requires d < 10
    ensures var c := DigitChar(d, 0);
            IsDigit(c) && (c == '9' <==> d == 9) && (d < 9 ==> DigitChar(d + 1, 0) == c + 1 as char)
    ensures DigitChar(0, 0) == '0'
  {
  }

  /** Rounding up n digits carries into what is in front of them exactly when they are all nines. */
  lemma {:induction false} IncrementFixed(v: nat, n: nat, rest: string)
    requires v < Power(10, n)
    ensures Increment(FixedDigits(v, n) + rest)
         == if v + 1 == Power(10, n) then FixedDigits(0, n) + Increment(rest) else FixedDigits(v + 1, n) + rest
  {
    assert Base(10) && (n == 0 ==> v == 0);
    hide *;
    if n == 0 {
      NoDigits(v, rest);
    } else {
      var d, h := Low(v, 10), High(v, 10);
      FixedStep(v, n);
      DigitSteps(d);
      IncrementFixed(h, n - 1, rest);
      var carried := h + 1 == Power(10, n - 1);
      var next := if d == 9 && carried then 0 else v + 1;
      FixedUnfold(v, n);
      FixedUnfold(next, n);
      IncrementMore(DigitChar(d, 0), FixedDigits(h, n - 1), rest, FixedDigits(if carried then 0 else h + 1, n - 1),
                    carried, FixedDigits(v, n), FixedDigits(next, n));
    }
  }

  lemma NoDigits(v: nat, rest: string)
    ensures Power(10, 0) == 1 && FixedDigits(v, 0) + rest == rest
      && FixedDigits(0, 0) + Increment(rest) == Increment(rest)
  {
    hide Increment;
  }

  /** One more digit in front of digits a that become b. */
  lemma IncrementMore(c: char, a: string, rest: string, b: string, carried: bool, all: string, next: string)
    requires IsDigit(c) && Increment(a + rest) == if carried then b + Increment(rest) else b + rest
    requires all == [c] + a && next == if c != '9' then [c + 1 as char] + a else ['0'] + b
    ensures Increment(all + rest) == next + if c == '9' && carried then Increment(rest) else rest
  {
    IncrementPrepended(c, a + rest);
    hide Increment;
    Prepended(c, a, rest);
    assert c != '9' ==> [c + 1 as char] + (a + rest) == [c + 1 as char] + a + rest;
    Prepended('0', b, rest);
    Prepended('0', b, Increment(rest));
  }

  lemma FixedUnfold(v: nat, n: nat)
    requires n > 0
    ensures FixedDigits(v, n) == [DigitChar(Low(v, 10), 0)] + FixedDigits(High(v, 10), n - 1)
  {
  }

  lemma IncrementPrepended(c: char, s: string)
    requires IsDigit(c)
    ensures Increment([c] + s) == if c == '9' then ['0'] + Increment(s) else [c + 1 as char] + s
  {
    IncrementStep([c] + s);
    hide Increment;
    assert ([c] + s)[1..] == s;
  }

  lemma FixedStep(v: nat, n: nat)
    requires n > 0 && v < Power(10, n)
    ensures High(v, 10) < Power(10, n - 1) && Low(v, 10) < 10
    ensures v + 1 == Power(10, n) <==> Low(v, 10) == 9 && High(v, 10) + 1 == Power(10, n - 1)
    ensures Low(v + 1, 10) == if Low(v, 10) == 9 then 0 else Low(v, 10) + 1
    ensures High(v + 1, 10) == if Low(v, 10) == 9 then High(v, 10) + 1 else High(v, 10)
    ensures High(0, 10) == 0 && Low(0, 10) == 0
  {
    NextNumber(v);
    DivideByTen(v, Power(10, n - 1));
  }

  lemma DivideByTen(v: nat, p: nat)
    requires v < 10 * p
    ensures High(v, 10) < p && (v + 1 == 10 * p <==> Low(v, 10) == 9 && High(v, 10) + 1 == p)
  {
  }

  /** The text before it is rounded. */
  ghost function Unrounded(bin: nat, exp: int, prec: nat, point: bool): string {
    var (man, _, zeros) := Integer(bin, exp);
    FixedDigits(if exp > SHIFT_BITS then 0 else Fraction(bin, exp, prec).0, prec) + Point(point)
    + (FixedDigits(0, zeros) + ToDigits(man, 10, 0))
  }

  /** The digits of the fraction part and the integer part, and the carry that is to be added from `dec` on. */
  method PrintDigits(buf: array<char>, bin: nat, expIn: int, prec: nat, point: bool)
    returns (ok: bool, dec: nat, end: nat, carry: nat)
    requires buf.Length == BUFFER_SIZE && prec <= BUFFER_SIZE - 2 && bin < 2 * TWO_52
    modifies buf
    ensures ok <==> |Unrounded(bin, expIn, prec, point)| <= BUFFER_SIZE
    ensures ok ==> dec <= end <= BUFFER_SIZE && buf[..end] == Unrounded(bin, expIn, prec, point)
    ensures ok ==> CarryAt(bin, expIn, prec, point, carry, dec)
  {
    dec := prec;
    if point {
      buf[dec] := '.';
      dec := dec + 1;
    }
    ghost var start := dec;
    var exp;
    hide Integer, Fraction, FixedDigits, Power, ToDigits;
    ok, dec, end, carry, exp := IntegerPart(buf, bin, expIn, dec);
    if !ok {
      return;
    }
    ghost var was := buf[..];
    assert was[start..end] == buf[start..end];
    dec, carry := FractionPart(buf, bin, exp, prec, dec, carry);
    Assembled(was, buf[..], prec, point, end);
    assert buf[..][..end] == buf[..end] && buf[..][..prec] == buf[..prec];
  }

  /** Fraction digits, point and integer digits stand behind each other. */
  lemma Assembled(was: seq<char>, now: seq<char>, prec: nat, point: bool, end: nat)
    requires var start := prec + |Point(point)|;
      && |was| == |now| && start <= end <= |was| && (point ==> was[prec] == '.')
      && forall k | prec <= k < |was| :: now[k] == was[k]
    ensures now[..end] == now[..prec] + Point(point) + was[prec + |Point(point)|..end]
  {
  }

  /** Rounding a text whose carry comes from the digits behind it raises the number by one. */
  lemma RaisedText(whole: nat, fraction: nat, prec: nat, point: bool)
    requires fraction < Power(10, prec)
    ensures var (w, f) := Raised(whole, fraction, true, prec);
            Increment(DecimalText(whole, fraction, prec, point)) == DecimalText(w, f, prec, point)
  {
    assert Base(10);
    hide *;
    IncrementFixed(fraction, prec, Point(point) + ToDigits(whole, 10, 0));
    IncrementRest(whole, point);
    TextParts(whole, fraction, prec, point);
    TextParts(whole, fraction + 1, prec, point);
    TextParts(whole + 1, 0, prec, point);
    RaisedCases(whole, fraction, prec);
  }

  lemma RaisedCases(whole: nat, fraction: nat, prec: nat)
    ensures Raised(whole, fraction, true, prec)
         == if fraction + 1 == Power(10, prec) then (whole + 1, 0) else (whole, fraction + 1)
  {
  }

  lemma TextParts(whole: nat, fraction: nat, prec: nat, point: bool)
    ensures DecimalText(whole, fraction, prec, point) ==
      FixedDigits(fraction, prec) + (Point(point) + ToDigits(whole, 10, 0))
  {
    hide FixedDigits, ToDigits, Point;
  }

  lemma IncrementRest(whole: nat, point: bool)
    ensures Increment(Point(point) + ToDigits(whole, 10, 0)) == Point(point) + ToDigits(whole + 1, 10, 0)
  {
    var digits := ToDigits(whole, 10, 0);
    IncrementDigits(whole);
    IncrementStep(['.'] + digits);
    hide ToDigits, Increment;
    assert (['.'] + digits)[1..] == digits && "" + digits == digits;
    assert "" + ToDigits(whole + 1, 10, 0) == ToDigits(whole + 1, 10, 0);
  }

  lemma Regroup(a: string, b: string, c: string)
    ensures a + (b + c) == a + b + c
  {
  }

  /** A large number is rounded in front of its zeros. */
  lemma RaisedZeros(man: nat, carry: nat, zeros: nat, front: string, whole: nat)
    requires man > 0 && carry <= 1 && whole == (man + carry) * Power(10, zeros)
    ensures var digits := if carry != 0 then Increment(ToDigits(man, 10, 0)) else ToDigits(man, 10, 0);
            front + FixedDigits(0, zeros) + digits == front + ToDigits(whole, 10, 0)
  {
    assert Base(10);
    hide *;
    IncrementDigits(man);
    ScaledDigits(man + carry, zeros, whole);
    Regroup(front, FixedDigits(0, zeros), ToDigits(man + carry, 10, 0));
  }

  /** Where the carry is added to the unrounded text. */
  ghost predicate CarryAt(bin: nat, exp: int, prec: nat, point: bool, carry: nat, dec: nat) {
    if exp > SHIFT_BITS then
      carry == Integer(bin, exp).1 <= 1 && dec == prec + |Point(point)| + Integer(bin, exp).2
    else
      dec == 0 && (carry != 0 <==> Fraction(bin, exp, prec).1) && Fraction(bin, exp, prec).0 < Power(10, prec)
  }

  ghost function Rounded(text: string, carry: nat, dec: nat): string
    requires dec <= |text|
  {
    if carry != 0 then text[..dec] + Increment(text[dec..]) else text
  }

  ghost function PrintedText(bits: nat, prec: nat, point: bool): string {
    var (whole, fraction) := Printed(bits, prec);
    DecimalText(whole, fraction, prec, point)
  }

  /** The unrounded text, rounded from the place that the carry belongs to, is the text of the printed number. */
  lemma RoundedText(bits: nat, prec: nat, point: bool, carry: nat, dec: nat)
    requires CarryAt(Mantissa(bits), Exponent(bits), prec, point, carry, dec)
    ensures dec <= |Unrounded(Mantissa(bits), Exponent(bits), prec, point)|
    ensures Rounded(Unrounded(Mantissa(bits), Exponent(bits), prec, point), carry, dec) ==
      PrintedText(bits, prec, point)
  {
    if Exponent(bits) > SHIFT_BITS {
      LargeInteger(bits);
      LargeRounded(bits, prec, point, carry, dec);
    } else {
      SmallRounded(bits, prec, point, carry);
    }
  }

  lemma LargeRounded(bits: nat, prec: nat, point: bool, carry: nat, dec: nat)
    requires var bin, exp := Mantissa(bits), Exponent(bits);
      exp > SHIFT_BITS && CarryAt(bin, exp, prec, point, carry, dec) && Integer(bin, exp).0 > 0
    ensures dec <= |Unrounded(Mantissa(bits), Exponent(bits), prec, point)|
    ensures Rounded(Unrounded(Mantissa(bits), Exponent(bits), prec, point), carry, dec) ==
      PrintedText(bits, prec, point)
  {
    var (man, _, zeros) := Integer(Mantissa(bits), Exponent(bits));
    var front := FixedDigits(0, prec) + Point(point);
    var whole := (man + carry) * Power(10, zeros);
    assert PrintedText(bits, prec, point) == front + ToDigits(whole, 10, 0);
    assert Unrounded(Mantissa(bits), Exponent(bits), prec, point) ==
      front + (FixedDigits(0, zeros) + ToDigits(man, 10, 0));
    assert dec == |front| + |FixedDigits(0, zeros)|;
    RaisedZeros(man, carry, zeros, front, whole);
    hide Printed, Unrounded, Integer, Power, Increment, FixedDigits, ToDigits, Point, PrintedText, Mantissa, Exponent;
    SplitBehind(front, FixedDigits(0, zeros), ToDigits(man, 10, 0));
  }

  lemma SplitBehind(a: string, b: string, c: string)
    ensures var text := a + (b + c); text == a + b + c && text[..|a| + |b|] == a + b && text[|a| + |b|..] == c
  {
  }

  lemma SmallRounded(bits: nat, prec: nat, point: bool, carry: nat)
    requires Exponent(bits) <= SHIFT_BITS && CarryAt(Mantissa(bits), Exponent(bits), prec, point, carry, 0)
    ensures Rounded(Unrounded(Mantissa(bits), Exponent(bits), prec, point), carry, 0) == PrintedText(bits, prec, point)
  {
    var (man, _, zeros) := Integer(Mantissa(bits), Exponent(bits));
    var fraction := Fraction(Mantissa(bits), Exponent(bits), prec).0;
    var text := DecimalText(man, fraction, prec, point);
    assert zeros == 0;
    assert FixedDigits(0, 0) + ToDigits(man, 10, 0) == ToDigits(man, 10, 0);
    assert Unrounded(Mantissa(bits), Exponent(bits), prec, point) == text;
    RaisedText(man, fraction, prec, point);
    hide Increment, FixedDigits, ToDigits, Point, DecimalText, Integer, Fraction, Unrounded, Mantissa, Exponent;
    assert text[0..] == text && text[..0] + Increment(text) == Increment(text);
  }

  lemma {:induction false} IncrementLonger(s: string)
    ensures |Increment(s)| >= |s|
  {
    if s != [] && (s[0] == '.' || s[0] == '9') { IncrementLonger(s[1..]); }
  }

  lemma UnroundedIsNumeric(bin: nat, exp: int, prec: nat, point: bool)
    requires exp <= SHIFT_BITS ==> Fraction(bin, exp, prec).0 < Power(10, prec)
    ensures forall c | c in Unrounded(bin, exp, prec, point) :: IsNumeric(c)
  {
    var (man, _, zeros) := Integer(bin, exp);
    var fraction := if exp > SHIFT_BITS then 0 else Fraction(bin, exp, prec).0;
    PowerPositive(10, prec);
    PowerPositive(10, zeros);
    FixedDecode(fraction, prec);
    FixedDecode(0, zeros);
    WholeDigits(man);
    hide Integer, Fraction, FixedDigits, ToDigits, Power, Decode;
  }

  /** The digits of a number, rounded; they fail to be printed exactly when they are too many. */
  method PrintNumber(buf: array<char>, bin: nat, exp: int, prec: nat, point: bool, ghost bits: nat)
    returns (ok: bool, end: nat)
    requires buf.Length == BUFFER_SIZE && prec <= BUFFER_SIZE - 2
    requires !IsSpecial(bits) && bin == Mantissa(bits) && exp == Exponent(bits)
    modifies buf
    ensures ok <==> HasRoom(bits, prec, point)
    ensures ok ==>
      end == |PrintedText(bits, prec, point)| <= BUFFER_SIZE && buf[..end] == PrintedText(bits, prec, point)
  {
    assert bin < 2 * TWO_52;
    hide *;
    var dec, carry;
    ok, dec, end, carry := PrintDigits(buf, bin, exp, prec, point);
    if !ok {
      NoRoom(bits, prec, point);
      return;
    }
    ghost var text := buf[..end];
    RoundedText(bits, prec, point, carry, dec);
    RoundedRoom(bits, prec, point, carry, dec);
    assert text[..dec] == buf[..dec] && text[dec..] == buf[dec..end];
    assert forall k | 0 <= k < end :: buf[k] == text[k];
    ok, end := Round(buf, carry != 0, dec, end);
    RoundedIs(text, carry, dec);
  }

  lemma RoundedIs(text: string, carry: nat, dec: nat)
    requires dec <= |text|
    ensures Rounded(text, carry, dec) == if carry != 0 then text[..dec] + Increment(text[dec..]) else text
  {
  }

  /** The rounded text has room unless a carry goes through nothing but nines to the end of a full buffer. */
  lemma RoundedRoom(bits: nat, prec: nat, point: bool, carry: nat, dec: nat)
    requires !IsSpecial(bits) && prec <= BUFFER_SIZE - 2
    requires CarryAt(Mantissa(bits), Exponent(bits), prec, point, carry, dec)
    requires |Unrounded(Mantissa(bits), Exponent(bits), prec, point)| <= BUFFER_SIZE
    ensures var text := Unrounded(Mantissa(bits), Exponent(bits), prec, point);
      && dec <= |text| && (forall k | 0 <= k < |text| :: IsNumeric(text[k]))
      && (HasRoom(bits, prec, point) <==> |PrintedText(bits, prec, point)| <= BUFFER_SIZE)
      && (HasRoom(bits, prec, point) <==> !(carry != 0 && |text| == BUFFER_SIZE && AllNines(text[dec..])))
  {
    var text := Unrounded(Mantissa(bits), Exponent(bits), prec, point);
    UnroundedIsNumeric(Mantissa(bits), Exponent(bits), prec, point);
    RoundedText(bits, prec, point, carry, dec);
    TextLength(bits, prec, point);
    hide Unrounded, PrintedText, Printed, Mantissa, Exponent, Increment, IsNumeric, CarryAt, AllNines, ToDigits, Point,
      IsSpecial;
    NumericFrom(text, dec);
    if carry != 0 { NinesGrow(text[dec..]); }
  }

  lemma NumericFrom(text: string, dec: nat)
    requires dec <= |text| && forall c | c in text :: IsNumeric(c)
    ensures forall k | 0 <= k < |text| :: IsNumeric(text[k])
    ensures forall k | 0 <= k < |text[dec..]| :: IsNumeric(text[dec..][k])
  {
    hide IsNumeric;
  }

  lemma TextLength(bits: nat, prec: nat, point: bool)
    ensures |PrintedText(bits, prec, point)| == prec + |Point(point)| + |ToDigits(Printed(bits, prec).0, 10, 0)|
  {
    hide Printed, ToDigits;
  }

  /** Rounding never shortens the integer part. */
  lemma NoRoom(bits: nat, prec: nat, point: bool)
    requires |Unrounded(Mantissa(bits), Exponent(bits), prec, point)| > BUFFER_SIZE
    ensures !HasRoom(bits, prec, point)
  {
    WholeIsLonger(bits, prec);
    hide ToDigits, FixedDigits, Fraction, Integer, Mantissa, Exponent, Power, Printed;
  }

  lemma WholeIsLonger(bits: nat, prec: nat)
    ensures var (man, _, zeros) := Integer(Mantissa(bits), Exponent(bits));
            |ToDigits(Printed(bits, prec).0, 10, 0)| >= zeros + |ToDigits(man, 10, 0)|
  {
    var bin, exp := Mantissa(bits), Exponent(bits);
    var (man, carry, zeros) := Integer(bin, exp);
    var whole := Printed(bits, prec).0;
    if exp > SHIFT_BITS {
      LargeInteger(bits);
      ScaledCarry(LeadingBits(bin, exp).0, LeadingBits(bin, exp).1, exp - SHIFT_BITS);
      assert whole == (man + carry) * Power(10, zeros);
      hide *;
      RaisedZeros(man, carry, zeros, "", whole);
      IncrementLonger(ToDigits(man, 10, 0));
    } else {
      assert zeros == 0 && (whole == man || whole == man + 1);
      hide *;
      IncrementDigits(man);
      IncrementLonger(ToDigits(man, 10, 0));
    }
  }


  /** The exit of a conversion that is not a number: three letters, back to front. */
  method PutText(buf: array<char>, text: seq<char>, caseAdjust: nat) returns (r: int)
    requires buf.Length == BUFFER_SIZE && |text| == 3 && caseAdjust <= 32
      && forall k | 0 <= k < 3 :: 'A' <= text[k] <= 'Z'
    modifies buf
    ensures r == -3 && buf[..3] == Word(text, caseAdjust)
  {
    var i := 0;
    while i < |text|
      invariant i <= 3 && forall k | 0 <= k < i :: buf[k] == text[k] + caseAdjust as char
    {
      buf[i] := text[i] + caseAdjust as char;
      i := i + 1;
    }
    return -i;
  }

  /**
   Stores the text of a double back to front. The result is its length; a negative one says that the
   buffer holds a word: not a number, infinity, or a number that has no room.
  */
  method FtoaRev(buf: array<char>, prec: nat, altForm: bool, caseAdjust: nat, bits: nat) returns (r: int)
    requires buf.Length == BUFFER_SIZE && bits < TWO_64 && caseAdjust <= 32
    modifies buf
    ensures r > 0 <==> HasRoom(bits, prec, prec > 0 || altForm)
    ensures var (text, number) := FloatText(bits, prec, altForm, caseAdjust);
            0 < |text| <= BUFFER_SIZE && r == (if number then |text| else -|text|) && buf[..|text|] == text
  {
    var bin := bits % TWO_52;
    var exp: int := bits / TWO_52 % 2048;
    if exp == 2047 {
      r := PutText(buf, if bin != 0 then "NAN" else "FNI", caseAdjust);
      return;
    }
    if prec > BUFFER_SIZE - 2 {
      r := PutText(buf, "RRE", caseAdjust);
      return;
    }
    if exp != 0 {
      bin := bin + TWO_52;
    } else {
      exp := exp + 1;
    }
    exp := exp - 1023;
    assert bin == Mantissa(bits) && exp == Exponent(bits) && !IsSpecial(bits);
    hide Mantissa, Exponent, IsSpecial, Printed, DecimalText;
    var ok, end := PrintNumber(buf, bin, exp, prec, prec > 0 || altForm, bits);
    if !ok {
      r := PutText(buf, "RRE", caseAdjust);
      return;
    }
    TextLength(bits, prec, prec > 0 || altForm);
    r := end;
  }
}
