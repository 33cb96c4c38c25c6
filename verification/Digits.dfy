/**
 Numbers as digit characters stored back to front, as npf_utoa_rev leaves them in the conversion buffer.
*/
module Digits {
  import opened Machine

  /** The character of a digit; letters start at 'A' plus the case adjustment. */
  function DigitChar(d: nat, caseAdjust: nat): char
    requires d < 16 && caseAdjust <= 32
  {
    if d < 10 then '0' + d as char else 'A' + (d - 10 + caseAdjust) as char
  }

  predicate IsDigit(c: char) { '0' <= c <= '9' }

  /** The digit a character stands for, in either case; other characters stand for 0. */
  function DigitValue(c: char): nat {
    if '0' <= c <= '9' then (c - '0') as nat
    else if 'A' <= c <= 'F' then (c - 'A') as nat + 10
    else if 'a' <= c <= 'f' then (c - 'a') as nat + 10
    else 0
  }

  function Numerals(upper: bool): string { if upper then "0123456789ABCDEF" else "0123456789abcdef" }

  lemma DigitRoundTrip(d: nat, caseAdjust: nat)
    requires d < 16 && (caseAdjust == 0 || caseAdjust == 32)
    ensures DigitValue(DigitChar(d, caseAdjust)) == d
    ensures d < 10 ==> IsDigit(DigitChar(d, caseAdjust))
    ensures DigitChar(d, caseAdjust) == Numerals(caseAdjust == 0)[d]
  {
  }

  /** The number that a back-to-front text stands for. */
  function Decode(s: seq<char>, base: nat): nat {
    if s == [] then 0 else DigitValue(s[0]) + base * Decode(s[1..], base)
  }

  function Power(base: nat, k: nat): nat {
    if k == 0 then 1 else base * Power(base, k - 1)
  }

  lemma {:induction false} DecodeAppend(s: seq<char>, c: char, base: nat)
    ensures Decode(s + [c], base) == Decode(s, base) + Power(base, |s|) * DigitValue(c)
  {
    hide DigitValue;
    if s == [] {
      assert ([] + [c])[1..] == [];
    } else {
      assert (s + [c])[1..] == s[1..] + [c];
      DecodeAppend(s[1..], c, base);
      Distribute(base, Decode(s[1..], base), Power(base, |s| - 1), DigitValue(c), Power(base, |s|));
    }
  }

  lemma Distribute(b: nat, x: nat, p: nat, d: nat, q: nat)
    requires q == b * p
    ensures b * (x + p * d) == b * x + q * d
  {
    assert b * (p * d) == b * p * d;
  }

  lemma {:induction false} PowerPositive(base: nat, k: nat)
    requires base > 0
    ensures Power(base, k) > 0
  {
    if k > 0 { PowerPositive(base, k - 1); }
  }

  lemma {:induction false} PowerGrows(base: nat, i: nat, j: nat)
    requires base > 0 && i <= j
    ensures Power(base, i) <= Power(base, j)
  {
    if i < j {
      PowerGrows(base, i, j - 1);
      Product(1, Power(base, j - 1), base, Power(base, j - 1));
    }
  }

  lemma {:induction false} PowerSum(base: nat, i: nat, j: nat)
    ensures Power(base, i + j) == Power(base, i) * Power(base, j)
  {
    if i > 0 {
      PowerSum(base, i - 1, j);
      var p, q := Power(base, i - 1), Power(base, j);
      assert base * (p * q) == base * p * q;
    }
  }

  lemma {:induction false} PowerOfLarger(b: nat, c: nat, n: nat)
    requires b <= c
    ensures Power(b, n) <= Power(c, n)
  {
    if n > 0 {
      PowerOfLarger(b, c, n - 1);
      Product(b, Power(b, n - 1), c, Power(c, n - 1));
    }
  }

  lemma Product(a: nat, b: nat, c: nat, d: nat)
    requires a <= c && b <= d
    ensures a * b <= c * d
  {
  }

  /** A 64-bit number has at most 22 octal digits. */
  lemma OctalDigits()
    ensures Power(8, 22) == 4 * TWO_64
  {
    assert Power(8, 1) == 8;
    PowerSum(8, 1, 1);
    PowerSum(8, 2, 2);
    PowerSum(8, 4, 4);
    PowerSum(8, 8, 8);
    PowerSum(8, 16, 4);
    PowerSum(8, 20, 2);
  }

  lemma {:induction false} DecodeBelow(s: seq<char>, base: nat)
    requires forall k | 0 <= k < |s| :: DigitValue(s[k]) < base
    ensures Decode(s, base) < Power(base, |s|)
  {
    hide DigitValue;
    if s != [] {
      DecodeBelow(s[1..], base);
      Below(base, DigitValue(s[0]), Decode(s[1..], base), Power(base, |s| - 1));
    }
  }

  lemma Below(b: nat, d: nat, x: nat, p: nat)
    requires d < b && x < p
    ensures d + b * x < b * p
  {
    Product(b, x + 1, b, p);
    assert b * (x + 1) == b * x + b;
  }

  /** How many digits a number has: base^(n-1) <= val < base^n, and one digit for 0. */
  predicate DigitCount(val: nat, base: nat, n: nat) {
    n > 0 && val < Power(base, n) && (n > 1 ==> Power(base, n - 1) <= val)
  }

  predicate Base(base: nat) { base == 8 || base == 10 || base == 16 }

  /** The lowest digit of a number, and what is left without it. */
  function Low(v: nat, base: nat): (d: nat)
    requires Base(base)
    ensures d < base <= 16
  {
    v % base
  }

  function High(v: nat, base: nat): (h: nat)
    requires Base(base)
    ensures h < v || h == 0
  {
    Halves(v, base);
    v / base
  }

  /** The text of a number, back to front and with no leading zero. */
  function ToDigits(v: nat, base: nat, caseAdjust: nat): (s: string)
    requires Base(base) && caseAdjust <= 32
    ensures s != []
  {
    [DigitChar(Low(v, base), caseAdjust)] + if High(v, base) == 0 then [] else ToDigits(High(v, base), base, caseAdjust)
  }

  lemma Halves(v: nat, base: nat)
    requires Base(base)
    ensures 0 <= v / base && 0 <= v % base < base && v == v % base + base * (v / base)
    ensures v / base < v || v / base == 0
  {
  }

  /** The digits decode to the number, and there are as many as it has. */
  lemma {:induction false} ToDigitsDecode(v: nat, base: nat, caseAdjust: nat)
    requires Base(base) && (caseAdjust == 0 || caseAdjust == 32)
    ensures Decode(ToDigits(v, base, caseAdjust), base) == v
    ensures DigitCount(v, base, |ToDigits(v, base, caseAdjust)|)
    ensures forall c | c in ToDigits(v, base, caseAdjust) ::
      DigitValue(c) < base && DigitChar(DigitValue(c), caseAdjust) == c == Numerals(caseAdjust == 0)[DigitValue(c)]
    decreases v
  {
    var s, d, h := ToDigits(v, base, caseAdjust), Low(v, base), High(v, base);
    Halves(v, base);
    assert v == d + base * h;
    hide Low, High;
    DigitRoundTrip(d, caseAdjust);
    if h == 0 {
      assert s == [DigitChar(d, caseAdjust)];
      OneDigit(s, v, base);
    } else {
      var t := ToDigits(h, base, caseAdjust);
      assert s[1..] == t;
      ToDigitsDecode(h, base, caseAdjust);
      hide DigitValue, DigitChar;
      MoreDigits(v, base, d, h, |t|);
    }
  }

  lemma OneDigit(s: string, v: nat, base: nat)
    requires |s| == 1 && DigitValue(s[0]) == v < base
    ensures Decode(s, base) == v && DigitCount(v, base, 1)
  {
  }

  lemma MoreDigits(v: nat, base: nat, d: nat, h: nat, n: nat)
    requires d < base && h > 0 && v == d + base * h && DigitCount(h, base, n)
    ensures DigitCount(v, base, n + 1)
  {
    Below(base, d, h, Power(base, n));
    if n > 1 {
      Product(base, Power(base, n - 1), base, h);
    } else {
      assert Power(base, 0) == 1;
      Product(base, 1, base, h);
    }
  }

  /** A 64-bit number has at most 22 digits. */
  lemma ToDigitsFit(v: nat, base: nat, caseAdjust: nat)
    requires Base(base) && (caseAdjust == 0 || caseAdjust == 32) && v < TWO_64
    ensures |ToDigits(v, base, caseAdjust)| <= 22
  {
    ToDigitsDecode(v, base, caseAdjust);
    hide *;
    CountFits(v, base, |ToDigits(v, base, caseAdjust)|);
  }

  lemma CountFits(v: nat, base: nat, n: nat)
    requires Base(base) && v < TWO_64 && DigitCount(v, base, n)
    ensures n <= 22
  {
    if n > 22 {
      OctalDigits();
      PowerGrows(8, 22, n - 1);
      PowerOfLarger(8, base, n - 1);
    }
    hide Power;
  }

  /** The digits from place n on are those of v: the next one is the lowest of v. */
  lemma NextDigit(all: string, n: nat, v: nat, base: nat, caseAdjust: nat)
    requires Base(base) && caseAdjust <= 32 && n < |all| && all[n..] == ToDigits(v, base, caseAdjust)
    ensures all[n] == DigitChar(Low(v, base), caseAdjust)
    ensures if High(v, base) == 0 then n + 1 == |all|
            else n + 1 < |all| && all[n + 1..] == ToDigits(High(v, base), base, caseAdjust)
  {
    assert all[n..][0] == all[n] && all[n..][1..] == all[n + 1..];
  }

  /** Stores the digits of val back to front; the rest of the buffer stays as it was. */
  method UtoaRev(val: nat, buf: array<char>, base: nat, caseAdjust: nat) returns (n: nat)
    requires Base(base) && val < TWO_64 && (caseAdjust == 0 || caseAdjust == 32) && buf.Length >= 22
    modifies buf
    ensures n <= 22 && buf[..n] == ToDigits(val, base, caseAdjust)
    ensures forall k | n <= k < buf.Length :: buf[k] == old(buf[k])
  {
    ToDigitsFit(val, base, caseAdjust);
    hide *;
    ghost var all := ToDigits(val, base, caseAdjust);
    var v: nat := val;
    n := 0;
    while true
      invariant n < |all| <= 22 && all[n..] == ToDigits(v, base, caseAdjust)
      invariant forall k | 0 <= k < n :: buf[k] == all[k]
      invariant forall k | n <= k < buf.Length :: buf[k] == old(buf[k])
      decreases v
    {
      NextDigit(all, n, v, base, caseAdjust);
      buf[n] := DigitChar(Low(v, base), caseAdjust);
      n := n + 1;
      v := High(v, base);
      if v == 0 {
        break;
      }
    }
  }

  /** Equal texts for equal numbers: the digit count is the only one possible. */
  lemma DigitCountIsUnique(val: nat, base: nat, n: nat, m: nat)
    requires base > 0 && DigitCount(val, base, n) && DigitCount(val, base, m)
    ensures n == m
  {
    if n < m {
      PowerGrows(base, n, m - 1);
    } else if m < n {
      PowerGrows(base, m, n - 1);
    }
  }
}
