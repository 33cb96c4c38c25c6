/**
 A literal negative precision, as in "%.-5d", is no precision for C11, but its digits are still the number of
 zeros to pad to: when that shows in the text of a number, and when it does not.
*/
module NegativePrecision {
  import opened Digits
  import opened FormatSpec
  import opened Printf

  /** Neither "-", "+" and " " nor "0x" end in a zero. */
  predicate EndsNotInZero(front: string) { front != [] ==> front[|front| - 1] != '0' }

  lemma LeftDiffers(front: string, d: string, zeros: nat, x: nat)
    requires 0 < zeros <= x && ' ' !in d
    ensures front + d + Repeat(' ', x) != front + (Repeat('0', zeros) + d) + Repeat(' ', x - zeros)
  {
    var t, u := front + d + Repeat(' ', x), front + (Repeat('0', zeros) + d) + Repeat(' ', x - zeros);
    var at := |front| + |d|;
    AllOf(x, ' ');
    AllOf(zeros, '0');
    assert t[at] == Repeat(' ', x)[0];
    assert u[at] == (Repeat('0', zeros) + d)[|d|];
    if |d| >= zeros {
      assert u[at] == d[|d| - zeros] && d[|d| - zeros] in d;
    }
  }

  lemma RightDiffers(front: string, d: string, zeros: nat, x: nat)
    requires 0 < zeros <= x && EndsNotInZero(front)
    ensures Repeat(' ', x) + front + d != Repeat(' ', x - zeros) + front + (Repeat('0', zeros) + d)
  {
    var t, u := Repeat(' ', x) + front + d, Repeat(' ', x - zeros) + front + (Repeat('0', zeros) + d);
    var at := x + |front| - 1;
    AllOf(x, ' ');
    AllOf(zeros, '0');
    assert u[at] == (Repeat('0', zeros) + d)[zeros - 1];
    assert t[at] == if front == [] then Repeat(' ', x)[x - 1] else front[|front| - 1];
  }

  /** A conversion in a wider field: q characters of padding, and z zeros in front of the digits. */
  function Padded(left: bool, pad: char, front: string, d: string, q: nat, z: nat): string {
    if left then front + (Repeat('0', z) + d) + Repeat(' ', q)
    else if pad == '0' then front + Repeat('0', q) + (Repeat('0', z) + d)
    else Repeat(' ', q) + front + (Repeat('0', z) + d)
  }

  lemma Assembled(s: Spec, c: Converted, front: string, d: string)
    requires front == c.sign + c.prefix == c.prefix + c.sign && d == Reverse(c.digits)
    requires s.widthOpt.Absent? ==> s.fieldWidth == 0
    requires s.fieldWidth > 0
    ensures var pad := PadChar(s, c.zero);
      && (pad == ' ' || (pad == '0' && !s.leftJustified))
      && Assemble(s, c) == Padded(s.leftJustified, pad, front, d, FieldPad(s, c), c.precPad)
  {
    hide FieldPad, Repeat, Reverse;
    var pad := Repeat(' ', FieldPad(s, c));
    assert pad + c.prefix + c.sign == pad + front;
  }

  /** Zeros in place of padding show unless that is zeros, too. */
  lemma PaddedDiffer(left: bool, pad: char, front: string, d: string, x: nat, zeros: nat)
    requires 0 < zeros <= x && ' ' !in d && EndsNotInZero(front) && (pad == ' ' || (pad == '0' && !left))
    ensures Padded(left, pad, front, d, x - zeros, zeros) == Padded(left, pad, front, d, x, 0) <==> pad == '0'
  {
    assert Repeat('0', 0) + d == d;
    if left {
      LeftDiffers(front, d, zeros, x);
    } else if pad == '0' {
      RepeatSum('0', x - zeros, zeros);
      hide Repeat;
      Joined(front, Repeat('0', x - zeros), Repeat('0', zeros), d);
    } else {
      RightDiffers(front, d, zeros, x);
    }
  }

  lemma Joined(front: string, p: string, z: string, d: string)
    ensures front + p + (z + d) == front + (p + z) + d
  {
  }

  /** More zeros in front of the digits show, unless they take the place of zeros that pad to the width. */
  lemma ZerosShow(s: Spec, c: Converted, zeros: nat)
    requires s.widthOpt.Absent? ==> s.fieldWidth == 0
    requires zeros > 0 && c.precPad == 0 && (c.sign == "" || c.prefix == "") && ' ' !in c.digits
    requires EndsNotInZero(c.sign) && EndsNotInZero(c.prefix)
    ensures Assemble(s, c.(precPad := zeros)) == Assemble(s, c)
       <==> PadChar(s, c.zero) == '0' && s.fieldWidth >= Length(c) + zeros
  {
    var more := c.(precPad := zeros);
    if s.fieldWidth >= Length(c) + zeros {
      var front, d := c.sign + c.prefix, Reverse(c.digits);
      ReverseSame(c.digits);
      assert c.prefix + c.sign == front && EndsNotInZero(front);
      Assembled(s, c, front, d);
      Assembled(s, more, front, d);
      assert FieldPad(s, more) == FieldPad(s, c) - zeros && FieldPad(s, c) >= zeros;
      assert ' ' !in d;
      hide *;
      PaddedDiffer(s.leftJustified, PadChar(s, c.zero), front, d, FieldPad(s, c), zeros);
    } else {
      AssembledLength(s, c);
      AssembledLength(s, more);
    }
  }

  /** Zeros up to `prec` digits show unless the digits or the padding reach as far. */
  lemma PrecisionShows(s: Spec, c: Converted, prec: nat)
    requires s.widthOpt.Absent? ==> s.fieldWidth == 0
    requires c.precPad == 0 && (c.sign == "" || c.prefix == "") && ' ' !in c.digits
    requires EndsNotInZero(c.sign) && EndsNotInZero(c.prefix)
    ensures Assemble(s, c.(precPad := Max(0, prec - |c.digits|))) == Assemble(s, c)
       <==> prec <= |c.digits| || (PadChar(s, c.zero) == '0' && s.fieldWidth >= |c.sign| + |c.prefix| + prec)
  {
    hide Assemble, PadChar;
    if prec > |c.digits| {
      ZerosShow(s, c, prec - |c.digits|);
    } else {
      assert c.(precPad := 0) == c;
    }
  }

  // ---- Numbers ----

  /** "%d" and "%i": a precision that is not there shows unless the digits or the zero padding reach as far. */
  lemma SignedShows(s: Spec, v: int)
    requires WellFormed(s) && s.precOpt.Absent?
    ensures var c := SignedConverted(s, v);
      Assemble(s, c) == Assemble(s.(prec := 0), SignedConverted(s.(prec := 0), v))
      <==> s.prec <= |c.digits| || (PadChar(s, c.zero) == '0' && s.fieldWidth >= |c.sign| + s.prec)
  {
    var c := SignedConverted(s.(prec := 0), v);
    AssembledAnyway(s, c);
    SignedAnyway(s, v);
    hide *;
    PrecisionShows(s, c, s.prec);
  }

  lemma SignedAnyway(s: Spec, v: int)
    requires WellFormed(s) && s.precOpt.Absent?
    ensures var c := SignedConverted(s.(prec := 0), v);
      && SignedConverted(s, v) == c.(precPad := Max(0, s.prec - |c.digits|))
      && c.precPad == 0 && c.prefix == "" && ' ' !in c.digits && EndsNotInZero(c.sign) && EndsNotInZero(c.prefix)
      && (s.widthOpt.Absent? ==> s.fieldWidth == 0)
  {
    DigitsNotBlank(if v < 0 then -v else v, 10, s.caseAdjust);
    hide ToDigits;
  }

  /** Without a precision, assembling does not look at its value. */
  lemma AssembledAnyway(s: Spec, c: Converted)
    requires s.precOpt.Absent?
    ensures forall p: nat :: Assemble(s.(prec := p), c) == Assemble(s, c)
  {
  }

  lemma DigitsNotBlank(v: nat, base: nat, caseAdjust: nat)
    requires Base(base) && (caseAdjust == 0 || caseAdjust == 32)
    ensures ' ' !in ToDigits(v, base, caseAdjust) && ' ' !in ToDigits(v, base, caseAdjust) + "0"
    ensures ToDigits(v, base, caseAdjust) + "" == ToDigits(v, base, caseAdjust)
  {
    DigitsRead(v, base, caseAdjust);
    hide ToDigits;
    assert !IsBaseDigit(' ', base);
  }

  /** The same for "%u", "%x" and "%o". */
  lemma UnsignedShows(s: Spec, v: nat)
    requires WellFormed(s) && s.precOpt.Absent?
    ensures var c := UnsignedConverted(s, v);
      UnsignedText(s, v) == UnsignedText(s.(prec := 0), v)
      <==> s.prec <= |c.digits| || (PadChar(s, c.zero) == '0' && s.fieldWidth >= |c.prefix| + s.prec)
  {
    var c := UnsignedConverted(s.(prec := 0), v);
    UnsignedAnyway(s, v);
    AssembledAnyway(s, c);
    AssembledAnyway(s, UnsignedConverted(s, v));
    hide Assemble, PadChar, UnsignedConverted;
    PrecisionShows(s, c, s.prec);
  }

  lemma UnsignedAnyway(s: Spec, v: nat)
    requires WellFormed(s) && s.precOpt.Absent?
    ensures var c := UnsignedConverted(s.(prec := 0), v);
      && UnsignedConverted(s, v) == c.(precPad := Max(0, s.prec - |c.digits|))
      && c.precPad == 0 && c.sign == "" && ' ' !in c.digits && EndsNotInZero(c.prefix)
      && Least(s, v) == s.prec && Least(s.(prec := 0), v) == 0
  {
    DigitsNotBlank(v, NumberBase(s.conversion), s.caseAdjust);
    hide ToDigits;
  }

  lemma NoPrefix(s: Spec, v: int)
    requires s.caseAdjust <= 32
    ensures SignedConverted(s, v).prefix == ""
  {
  }

  lemma NoSign(s: Spec, v: nat)
    requires s.caseAdjust <= 32
    ensures UnsignedConverted(s, v).sign == ""
  {
  }

  // ---- Formats ----

  /** What a literal negative precision does to the arguments and the other parts: nothing. */
  lemma ResolvedAnyway(spec: Spec, args: seq<Arg>)
    requires spec.precOpt.Absent? && IsPlainInt(spec.conversion)
    ensures var (s, a) := Resolve(spec, args);
      && s.precOpt.Absent? && s.prec == spec.prec && Resolve(spec.(prec := 0), args) == (s.(prec := 0), a)
  {
    hide Signed;
  }

  /** The argument of a number's conversion, converted. */
  function NumberOf(s: Spec, v: int): Converted
    requires s.caseAdjust <= 32
  {
    if s.conversion.SignedInt? then SignedConverted(s, Signed(s.lengthModifier, v))
    else UnsignedConverted(s, Unsigned(s.lengthModifier, v))
  }

  /** A precision that is not there does not show in the text of a number. */
  predicate Unseen(s: Spec, c: Converted) {
    || s.prec <= |c.digits|
    || (PadChar(s, c.zero) == '0' && s.fieldWidth >= |c.sign| + |c.prefix| + s.prec)
  }

  lemma ResolvedShows(s: Spec, a: seq<Arg>)
    requires WellFormed(s) && s.precOpt.Absent? && IsPlainInt(s.conversion)
    ensures ConvertResolved(s, a) == ConvertResolved(s.(prec := 0), a) <==> Unseen(s, NumberOf(s, NextInt(a)))
  {
    hide Assemble, PadChar, SignedConverted, UnsignedConverted, UnsignedText, Signed, Unsigned;
    if s.conversion.SignedInt? {
      SignedShows(s, Signed(s.lengthModifier, NextInt(a)));
      NoPrefix(s, Signed(s.lengthModifier, NextInt(a)));
    } else {
      UnsignedShows(s, Unsigned(s.lengthModifier, NextInt(a)));
      NoSign(s, Unsigned(s.lengthModifier, NextInt(a)));
    }
  }

  /**
   A format with a literal negative precision gives the text of the same format without one exactly if its value
   is at most the number of digits, or the field is padded with zeros to at least as many digits.
  */
  lemma NegativePrecisionShows(f: string, i: nat, args: seq<Arg>)
    requires Parse(f, i).Parsed? && IsPlainInt(Parse(f, i).spec.conversion) && Parse(f, i).spec.precOpt.Absent?
    ensures WellFormed(Parse(f, i).spec)
    ensures var spec := Parse(f, i).spec;
      var (s, a) := Resolve(spec, args);
      && WellFormed(s) && s.prec == spec.prec
      && (Convert(spec, args) == Convert(spec.(prec := 0), args) <==> Unseen(s, NumberOf(s, NextInt(a))))
  {
    ParsedWellFormed(f, i);
    hide Parse;
    var spec := Parse(f, i).spec;
    ConvertedAfterStars(spec, args);
    ConvertedAfterStars(spec.(prec := 0), args);
    ResolvedAnyway(spec, args);
    ResolveKeeps(spec, args);
    hide Convert, Resolve, ConvertResolved, Unseen, NumberOf;
    var (s, a) := Resolve(spec, args);
    ResolvedShows(s, a);
  }

  /** Such a text: "%.-5d" makes 7 "00007", as if the precision were 5. */
  lemma MinusFive()
    ensures var p := Parse("%.-5d", 0);
      && p.Parsed? && p.spec.precOpt.Absent? && p.spec.prec == 5 && p.spec.conversion.SignedInt?
      && Convert(p.spec, [Int(7)]).0 == "00007" && Convert(p.spec.(prec := 0), [Int(7)]).0 == "7"
  {
    MinusFiveParsed();
    FourZeros();
    hide Convert, Parse, Repeat, Max;
    var s := Parse("%.-5d", 0).spec;
    SevenPadded(s);
    SevenPadded(s.(prec := 0));
  }

  lemma MinusFiveParsed()
    ensures Parse("%.-5d", 0) == Parsed(EMPTY.(prec := 5, conversion := SignedInt), 5)
  {
    assert Number("%.-5d", 3, 0) == (5, 4) by {
      assert Number("%.-5d", 4, 5) == (5, 4);
    }
    assert Precision("%.-5d", 1, EMPTY) == (EMPTY.(prec := 5), 4);
    hide Number, Precision;
  }

  lemma SevenPadded(s: Spec)
    requires s == EMPTY.(prec := s.prec, conversion := SignedInt)
    ensures Convert(s, [Int(7)]).0 == Repeat('0', Max(0, s.prec - 1)) + "7"
  {
    hide Convert, Assemble, SignedConverted, Repeat;
    SevenResolved(s);
    SevenDigits(s);
  }

  lemma SevenResolved(s: Spec)
    requires s == EMPTY.(prec := s.prec, conversion := SignedInt)
    ensures Convert(s, [Int(7)]).0 == Assemble(s, SignedConverted(s, 7))
  {
    var args := [Int(7)];
    assert WellFormed(s) && NextInt(args) == 7 && s.lengthModifier == Plain;
    assert Signed(Plain, 7) == 7;
    ResolvedPlainly(s, args);
    SignedCase(s, args);
    hide *;
    ConvertedAfterStars(s, args);
  }

  lemma SignedCase(s: Spec, a: seq<Arg>)
    requires s.conversion.SignedInt? && s.caseAdjust <= 32
    ensures ConvertResolved(s, a).0 == Assemble(s, SignedConverted(s, Signed(s.lengthModifier, NextInt(a))))
  {
    hide Assemble, SignedConverted, Signed;
  }

  lemma ResolvedPlainly(s: Spec, args: seq<Arg>)
    requires s == EMPTY.(prec := s.prec, conversion := SignedInt)
    ensures Resolve(s, args) == (s, args)
  {
    hide Signed;
  }

  lemma SevenDigits(s: Spec)
    requires s.caseAdjust == 32 && s.prepend == NUL && s.precOpt.Absent? && s.widthOpt.Absent? && !s.leftJustified
    ensures Assemble(s, SignedConverted(s, 7)) == Repeat('0', Max(0, s.prec - 1)) + "7"
  {
    Seven();
    hide ToDigits, Reverse;
    var c := SignedConverted(s, 7);
    assert c == Converted("", "", Max(0, s.prec - 1), "7", false);
    hide SignedConverted;
    assert Repeat(NUL, 0) == "";
    hide Repeat, FieldPad;
    assert PadChar(s, false) == NUL;
  }

  lemma Seven()
    ensures ToDigits(7, 10, 32) == "7" && Reverse("7") == "7"
  {
    assert High(7, 10) == 0;
    assert Reverse("") == "";
  }

  lemma FourZeros()
    ensures Repeat('0', Max(0, 5 - 1)) + "7" == "00007" && Repeat('0', Max(0, 0 - 1)) + "7" == "7"
  {
    assert Repeat('0', 2) == "00";
    RepeatSum('0', 2, 2);
  }
}
