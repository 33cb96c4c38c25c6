/**
 npf_vsnprintf: the formatting loop writes one character at a time to a sink that counts all of
 them and stores the ones that fit (section 7.21.6.5 of C11).
*/
module Vsnprintf {
  import opened Digits
  import opened FormatSpec
  import opened Printf
  import DoubleText
  import Ftoa
  import opened Machine

  /** npf_cnt_putc_ctx and npf_bufputc_ctx; `emitted` is everything that was ever put. */
  class Sink {
    const dst: array?<char>
    const len: nat
    var cur: nat
    var n: nat
    ghost var emitted: string
    ghost const before: seq<char>

    constructor (dst: array?<char>, len: nat)
      requires dst != null ==> len <= dst.Length
      ensures Valid() && emitted == "" && this.dst == dst && this.len == len
      ensures dst != null ==> before == dst[..]
    {
      this.dst, this.len, cur, n, emitted := dst, len, 0, 0, "";
      before := if dst == null then [] else dst[..];
    }

    /** The buffer holds what was put, as far as it fits, and is untouched behind that. */
    ghost predicate Valid()
      reads this, dst
    {
      && n == |emitted|
      && (dst != null ==>
            && |before| == dst.Length && len <= dst.Length && cur == (if n < len then n else len)
            && dst[..cur] == emitted[..cur] && dst[cur..] == before[cur..])
    }

    method PutC(c: char)
      requires Valid()
      modifies this, dst
      ensures Valid() && emitted == old(emitted) + [c]
    {
      n := n + 1;
      emitted := emitted + [c];
      if dst != null && cur < len {
        ghost var was := dst[..];
        dst[cur] := c;
        assert dst[..] == was[cur := c];
        assert was[cur := c][..cur + 1] == was[..cur] + [c];
        assert was[cur := c][cur + 1..] == was[cur..][1..] && before[cur..][1..] == before[cur + 1..];
        cur := cur + 1;
      }
    }

    method PutTimes(c: char, times: nat)
      requires Valid()
      modifies this, dst
      ensures Valid() && emitted == old(emitted) + Repeat(c, times)
    {
      var left := times;
      while left > 0
        invariant Valid() && old(emitted) + Repeat(c, times) == emitted + Repeat(c, left)
      {
        PutC(c);
        left := left - 1;
      }
    }

    method PutText(s: string)
      requires Valid()
      modifies this, dst
      ensures Valid() && emitted == old(emitted) + s
    {
      var i := 0;
      while i < |s|
        invariant i <= |s| && Valid() && emitted == old(emitted) + s[..i]
      {
        PutC(s[i]);
        i := i + 1;
      }
    }

    method PutReversed(s: string)
      requires Valid()
      modifies this, dst
      ensures Valid() && emitted == old(emitted) + Reverse(s)
    {
      var len := |s|;
      assert s[..len] == s;
      while len > 0
        invariant len <= |s| && Valid() && old(emitted) + Reverse(s) == emitted + Reverse(s[..len])
      {
        ReverseAppend(s[..len - 1], s[len - 1]);
        assert s[..len] == s[..len - 1] + [s[len - 1]];
        len := len - 1;
        PutC(s[len]);
      }
    }
  }

  function Optional(c: char): string { if c == NUL then "" else [c] }

  function Prefix(need0x: char): string { if need0x == NUL then "" else ['0', need0x] }

  method PadCharOf(s: Spec, zero: bool) returns (pad: char)
    ensures pad == PadChar(s, zero)
  {
    pad := NUL;
    if s.widthOpt != Absent {
      if s.leadingZeroPad && !s.leftJustified {
        if s.precOpt != Absent && s.prec == 0 && zero {
          pad := ' ';
        } else {
          pad := '0';
        }
      } else {
        pad := ' ';
      }
    }
  }

  /** What stands before the payload, and the sign that is left for the payload. */
  function Front(left: bool, pad: char, sign: char, prefix: string, fieldPad: nat): string {
    if !left && pad == '0' then Optional(sign) + prefix + Repeat(pad, fieldPad)
    else if !left && pad != NUL then Repeat(pad, fieldPad) + prefix
    else prefix
  }

  function SignLeft(left: bool, pad: char, sign: char): char {
    if !left && pad == '0' then NUL else sign
  }

  function Middle(sign: char, precPad: nat, body: string): string {
    Optional(sign) + Repeat('0', precPad) + body
  }

  lemma AssembledParts(s: Spec, sign: char, prefix: string, precPad: nat, digits: string, zero: bool)
    ensures var c := Converted(Optional(sign), prefix, precPad, digits, zero);
            var pad := PadChar(s, zero);
            Assemble(s, c) == Front(s.leftJustified, pad, sign, prefix, FieldPad(s, c))
                              + Middle(SignLeft(s.leftJustified, pad, sign), precPad, Reverse(digits))
                              + if s.leftJustified && pad != NUL then Repeat(pad, FieldPad(s, c)) else ""
  {
    var c := Converted(Optional(sign), prefix, precPad, digits, zero);
    var pad, q := PadChar(s, zero), FieldPad(s, c);
    var z, d := Repeat('0', precPad), Reverse(digits);
    assert Repeat(pad, 0) == "";
    hide Repeat, Reverse, PadChar, FieldPad, Optional;
    assert Optional(NUL) == "" by { NoSign(); }
    if !s.leftJustified && pad == '0' {
      ZerosInFront(Optional(sign) + prefix + Repeat(pad, q), z, d);
    } else if !s.leftJustified {
      SpacesInFront(if pad == NUL then "" else Repeat(pad, q), prefix, Optional(sign), z, d);
    } else {
      PaddingBehind(prefix, Optional(sign), z, d, if pad == NUL then "" else Repeat(pad, q));
    }
  }

  lemma NoSign()
    ensures Optional(NUL) == ""
  {
  }

  lemma ZerosInFront(front: string, z: string, d: string)
    ensures front + (z + d) == front + ("" + z + d) + ""
  {
  }

  lemma SpacesInFront(p: string, prefix: string, sign: string, z: string, d: string)
    ensures p + prefix + sign + (z + d) == (p + prefix) + (sign + z + d) + ""
    ensures "" + prefix == prefix
  {
  }

  lemma PaddingBehind(prefix: string, sign: string, z: string, d: string, p: string)
    ensures prefix + sign + (z + d) + p == prefix + (sign + z + d) + p
  {
  }

  method PutPrefix(out: Sink, need0x: char)
    requires out.Valid()
    modifies out, out.dst
    ensures out.Valid() && out.emitted == old(out.emitted) + Prefix(need0x)
  {
    if need0x != NUL {
      out.PutC('0');
      out.PutC(need0x);
    }
  }

  method PutFront(out: Sink, left: bool, padC: char, signC: char, need0x: char, fieldPad: nat) returns (sign: char)
    requires out.Valid()
    modifies out, out.dst
    ensures out.Valid() && out.emitted == old(out.emitted) + Front(left, padC, signC, Prefix(need0x), fieldPad)
    ensures sign == SignLeft(left, padC, signC)
  {
    hide Repeat, Prefix;
    sign := signC;
    if !left && padC != NUL {
      if padC == '0' {
        if sign != NUL {
          out.PutC(sign);
          sign := NUL;
        }
        PutPrefix(out, need0x);
      }
      out.PutTimes(padC, fieldPad);
      if padC != '0' {
        PutPrefix(out, need0x);
      }
    } else {
      PutPrefix(out, need0x);
    }
  }

  method PutMiddle(out: Sink, sign: char, precPad: nat, payload: string, isString: bool)
    requires out.Valid() && (isString ==> sign == NUL && precPad == 0)
    modifies out, out.dst
    ensures out.Valid()
    ensures out.emitted == old(out.emitted) + Middle(sign, precPad, if isString then payload else Reverse(payload))
  {
    assert Repeat('0', 0) == "";
    hide Repeat, Reverse;
    if isString {
      out.PutText(payload);
      assert "" + "" + payload == payload;
    } else {
      ghost var start := out.emitted;
      if sign != NUL {
        out.PutC(sign);
      }
      out.PutTimes('0', precPad);
      out.PutReversed(payload);
      Joined(start, Optional(sign), Repeat('0', precPad), Reverse(payload));
      assert start + "" == start;
    }
  }

  /** Writes a converted payload with its padding; a string is stored forwards, a number back to front. */
  method Emit(out: Sink, s: Spec, signC: char, need0x: char, payload: string, isString: bool, precPad: nat, zero: bool)
    requires out.Valid() && (isString ==> signC == NUL && precPad == 0)
    modifies out, out.dst
    ensures out.Valid()
    ensures out.emitted
         == old(out.emitted) + Assemble(s, Converted(Optional(signC), Prefix(need0x), precPad,
                                                     if isString then Reverse(payload) else payload, zero))
  {
    hide *;
    var padC := PadCharOf(s, zero);
    var fieldPad := FieldPadOf(s, signC, need0x, |payload|, precPad);
    EmitPlan(s, signC, need0x, payload, isString, precPad, zero, padC, fieldPad);
    ghost var start := out.emitted;
    var sign := PutFront(out, s.leftJustified, padC, signC, need0x, fieldPad);
    PutMiddle(out, sign, precPad, payload, isString);
    if s.leftJustified && padC != NUL {
      out.PutTimes(padC, fieldPad);
    }
    Joined(start, Front(s.leftJustified, padC, signC, Prefix(need0x), fieldPad),
           Middle(sign, precPad, if isString then payload else Reverse(payload)),
           if s.leftJustified && padC != NUL then Repeat(padC, fieldPad) else "");
  }

  lemma EmitPlan(s: Spec, signC: char, need0x: char, payload: string, isString: bool, precPad: nat, zero: bool,
                 padC: char, fieldPad: nat)
    requires padC == PadChar(s, zero)
    requires fieldPad == Max(0, s.fieldWidth - (|Optional(signC)| + |Prefix(need0x)| + precPad + |payload|))
    ensures signC == NUL ==> SignLeft(s.leftJustified, padC, signC) == NUL
    ensures Assemble(s, Converted(Optional(signC), Prefix(need0x), precPad,
                                  if isString then Reverse(payload) else payload, zero))
         == Front(s.leftJustified, padC, signC, Prefix(need0x), fieldPad)
            + Middle(SignLeft(s.leftJustified, padC, signC), precPad, if isString then payload else Reverse(payload))
            + if s.leftJustified && padC != NUL then Repeat(padC, fieldPad) else ""
  {
    AssembledParts(s, signC, Prefix(need0x), precPad, if isString then Reverse(payload) else payload, zero);
    ReverseTwice(payload);
    hide Assemble, Front, Middle, Repeat, PadChar;
  }

  lemma Joined(start: string, a: string, b: string, c: string)
    ensures start + a + b + c == start + (a + b + c) && start + a + b + "" == start + a + b
  {
  }

  method FieldPadOf(s: Spec, signC: char, need0x: char, len: nat, precPad: nat) returns (fieldPad: nat)
    ensures fieldPad == Max(0, s.fieldWidth - (|Optional(signC)| + |Prefix(need0x)| + precPad + len))
  {
    var pad: int := s.fieldWidth - len - (if signC != NUL then 1 else 0);
    if need0x != NUL {
      pad := pad - 2;
    }
    pad := pad - precPad;
    fieldPad := Max(0, pad);
  }

  lemma {:induction false} ReverseTwice(s: string)
    ensures Reverse(Reverse(s)) == s
  {
    if s != [] {
      ReverseTwice(s[1..]);
      ReverseAppend(Reverse(s[1..]), s[0]);
    }
  }

  // ---- Conversions ----

  const CONVERSION_BUFFER_SIZE: nat := 23

  method ResolveStars(spec: Spec, args: seq<Arg>) returns (s: Spec, rest: seq<Arg>)
    ensures (s, rest) == Resolve(spec, args)
  {
    s, rest := spec, args;
    if s.widthOpt == Star {
      var w := Signed(Plain, NextInt(rest));
      rest := Rest(rest);
      s := s.(fieldWidth := if w < 0 then -w else w);
      if w < 0 {
        s := s.(leftJustified := true);
      }
    }
    assert (s, rest) == WithWidth(spec, args);
    hide WithWidth;
    if s.precOpt == Star {
      var p := Signed(Plain, NextInt(rest));
      rest := Rest(rest);
      s := if p < 0 then s.(prec := 0, precOpt := Absent) else s.(prec := p);
    }
    hide WithPrecision, WithDefaults;
    s := FillDefaults(s);
  }

  method FillDefaults(precise: Spec) returns (s: Spec)
    ensures s == WithDefaults(precise)
  {
    s := precise;
    if s.precOpt == Absent && IsFloat(s.conversion) {
      s := s.(prec := 6);
    }
    if s.precOpt == Absent && s.conversion == Pointer {
      s := s.(prec := 16);
    }
    if s.precOpt != Absent && IsPlainInt(s.conversion) {
      s := s.(leadingZeroPad := false);
    }
  }

  /** The digits of a signed number; its magnitude is taken in unsigned 64-bit arithmetic. */
  method ConvertSigned(s: Spec, v: int, cbuf: array<char>) returns (signC: char, len: nat, zero: bool)
    requires cbuf.Length == CONVERSION_BUFFER_SIZE && (s.caseAdjust == 0 || s.caseAdjust == 32)
    requires -0x8000_0000_0000_0000 <= v < 0x8000_0000_0000_0000
    modifies cbuf
    ensures len <= CONVERSION_BUFFER_SIZE
    ensures SignedConverted(s, v) == Converted(Optional(signC), "", Max(0, s.prec - len), cbuf[..len], zero)
  {
    signC := if v < 0 then '-' else s.prepend;
    zero := v == 0;
    if v == 0 && s.precOpt != Absent && s.prec == 0 {
      len := 0;
    } else {
      var uval := v % TWO_64;
      if v < 0 {
        uval := (0 - uval) % TWO_64;
      }
      Magnitude(v);
      len := UtoaRev(uval, cbuf, 10, s.caseAdjust);
    }
  }

  /** Negating in 64-bit arithmetic gives the magnitude, also of the least number. */
  lemma Magnitude(v: int)
    requires -0x8000_0000_0000_0000 <= v < 0x8000_0000_0000_0000
    ensures v >= 0 ==> v % TWO_64 == v
    ensures v < 0 ==> v % TWO_64 == v + TWO_64 && (0 - v % TWO_64) % TWO_64 == -v
  {
  }

  /** The digits of an unsigned number, the second character of its prefix, and its precision. */
  method ConvertUnsigned(s: Spec, v: nat, cbuf: array<char>) returns (need0x: char, len: nat, zero: bool, prec: nat)
    requires cbuf.Length == CONVERSION_BUFFER_SIZE && v < TWO_64 && (s.caseAdjust == 0 || s.caseAdjust == 32)
    modifies cbuf
    ensures len <= CONVERSION_BUFFER_SIZE && prec == Least(s, v)
    ensures UnsignedConverted(s, v) == Converted("", Prefix(need0x), Max(0, prec - len), cbuf[..len], zero)
  {
    zero := v == 0;
    prec := s.prec;
    len := 0;
    if v == 0 && s.precOpt != Absent && s.prec == 0 {
      if s.conversion == Octal && s.altForm {
        prec := 1;
      }
    } else {
      var base := if s.conversion == Octal then 8
                  else if s.conversion == UnsignedInt || s.conversion == SignedInt then 10 else 16;
      len := UtoaRev(v, cbuf, base, s.caseAdjust);
    }
    ghost var digits := cbuf[..len];
    assert NoDigits(s, v) ==> digits == "";
    assert !NoDigits(s, v) ==> digits == ToDigits(v, NumberBase(s.conversion), s.caseAdjust);
    hide ToDigits, Base;
    if v > 0 && s.altForm && s.conversion == Octal {
      cbuf[len] := '0';
      len := len + 1;
      assert cbuf[..len] == digits + "0";
    }
    need0x := NUL;
    if v > 0 && s.altForm && NumberBase(s.conversion) == 16 {
      need0x := 'X' + s.caseAdjust as char;
    }
  }

  method PutSigned(out: Sink, s: Spec, v: int)
    requires out.Valid() && (s.caseAdjust == 0 || s.caseAdjust == 32)
    requires -0x8000_0000_0000_0000 <= v < 0x8000_0000_0000_0000
    modifies out, out.dst
    ensures out.Valid() && out.emitted == old(out.emitted) + Assemble(s, SignedConverted(s, v))
  {
    hide Assemble, SignedConverted, UnsignedConverted, UnsignedText, Least, Prefix, Optional;
    var cbuf := new char[CONVERSION_BUFFER_SIZE];
    var signC, len, zero := ConvertSigned(s, v, cbuf);
    NoPrefix();
    Emit(out, s, signC, NUL, cbuf[..len], false, Max(0, s.prec - len), zero);
  }

  method PutUnsigned(out: Sink, s: Spec, v: nat)
    requires out.Valid() && v < TWO_64 && (s.caseAdjust == 0 || s.caseAdjust == 32)
    modifies out, out.dst
    ensures out.Valid() && out.emitted == old(out.emitted) + UnsignedText(s, v)
  {
    assert UnsignedText(s, v) == Assemble(s.(prec := Least(s, v)), UnsignedConverted(s, v));
    hide Assemble, SignedConverted, UnsignedConverted, UnsignedText, Least, Prefix, Optional;
    var cbuf := new char[CONVERSION_BUFFER_SIZE];
    var need0x, len, zero, prec := ConvertUnsigned(s, v, cbuf);
    NoPrefix();
    Emit(out, s.(prec := prec), NUL, need0x, cbuf[..len], false, Max(0, prec as int - len), zero);
  }

  lemma NoPrefix()
    ensures Prefix(NUL) == "" && Optional(NUL) == ""
  {
  }

  method PutChar(out: Sink, s: Spec, c: char)
    requires out.Valid()
    modifies out, out.dst
    ensures out.Valid() && out.emitted == old(out.emitted) + Assemble(s, CharConverted(s, c))
  {
    var payload := if c == NUL then "" else [c];
    Emit(out, s, NUL, NUL, payload, false, Max(0, s.prec - |payload|), false);
  }

  method PutString(out: Sink, s: Spec, t: string)
    requires out.Valid()
    modifies out, out.dst
    ensures out.Valid() && out.emitted ==
      old(out.emitted) + Assemble(s, Converted("", "", 0, Reverse(StringBody(s, t)), false))
  {
    hide *;
    var len := StringLength(s, t);
    NoPrefix();
    Emit(out, s, NUL, NUL, t[..len], true, 0, false);
  }

  method StringLength(s: Spec, t: string) returns (len: nat)
    ensures len <= |t| && t[..len] == StringBody(s, t)
  {
    len := 0;
    BodyStart(s, t);
    hide StringBody, Shortened, BodySoFar;
    while (s.precOpt == Absent || len < s.prec) && len < |t| && t[len] != NUL
      invariant len <= |t| && (s.precOpt == Absent || len <= s.prec)
      invariant BodySoFar(s, t, len)
    {
      BodyStep(s, t, len);
      len := len + 1;
    }
    BodyEnd(s, t, len);
  }

  /** The first len characters are shown, and the rest is what is shown behind them. */
  predicate BodySoFar(s: Spec, t: string, len: nat)
    requires len <= |t| && (s.precOpt == Absent || len <= s.prec)
  {
    StringBody(s, t) == t[..len] + StringBody(Shortened(s, len), t[len..])
  }

  lemma BodyStart(s: Spec, t: string)
    ensures BodySoFar(s, t, 0)
  {
    assert t[0..] == t && Shortened(s, 0) == s;
    hide StringBody;
    assert t[..0] + StringBody(s, t) == StringBody(s, t);
  }

  lemma BodyEnd(s: Spec, t: string, len: nat)
    requires len <= |t| && (s.precOpt == Absent || len <= s.prec) && BodySoFar(s, t, len)
    requires !((s.precOpt == Absent || len < s.prec) && len < |t| && t[len] != NUL)
    ensures t[..len] == StringBody(s, t)
  {
    assert StringBody(Shortened(s, len), t[len..]) == "";
    hide StringBody, Shortened;
    assert t[..len] + "" == t[..len];
  }

  /** The precision that is left after len characters. */
  function Shortened(s: Spec, len: nat): Spec
    requires s.precOpt == Absent || len <= s.prec
  {
    if s.precOpt == Absent then s else s.(prec := s.prec - len)
  }

  lemma BodyStep(s: Spec, t: string, len: nat)
    requires (s.precOpt == Absent || len < s.prec) && len < |t| && t[len] != NUL && BodySoFar(s, t, len)
    ensures BodySoFar(s, t, len + 1)
  {
    BodyUnfold(s, t, len);
    hide StringBody, Shortened;
    var rest := StringBody(Shortened(s, len + 1), t[len + 1..]);
    assert t[..len + 1] + rest == t[..len] + ([t[len]] + rest);
  }

  lemma BodyUnfold(s: Spec, t: string, len: nat)
    requires (s.precOpt == Absent || len < s.prec) && len < |t| && t[len] != NUL
    ensures StringBody(Shortened(s, len), t[len..]) == [t[len]] + StringBody(Shortened(s, len + 1), t[len + 1..])
  {
    assert t[len..][1..] == t[len + 1..] && t[len..][0] == t[len];
  }

  /** A double's digits and point, or its word, which no zeros are put in front of. */
  method PutDouble(out: Sink, spec: Spec, bits: nat)
    requires out.Valid() && bits < TWO_64 && spec.caseAdjust <= 32
    modifies out, out.dst
    ensures var (text, number) := DoubleText.FloatText(bits, spec.prec, spec.altForm, spec.caseAdjust);
            out.Valid() && out.emitted == old(out.emitted)
              + Assemble(if number then spec else spec.(leadingZeroPad := false), FloatConverted(spec, bits, text))
  {
    hide DoubleText.FloatText, DoubleText.HasRoom, Assemble;
    var signC := if bits / 0x8000_0000_0000_0000 % 2 == 1 then '-' else spec.prepend;
    var cbuf := new char[CONVERSION_BUFFER_SIZE];
    var len := Ftoa.FtoaRev(cbuf, spec.prec, spec.altForm, spec.caseAdjust, bits);
    var s := spec;
    if len < 0 {
      len := -len;
      s := s.(leadingZeroPad := false);
    }
    Emit(out, s, signC, NUL, cbuf[..len], false, 0, bits % 0x8000_0000_0000_0000 == 0);
  }

  /** One specification: its text is written and its arguments are taken. */
  method FormatOne(out: Sink, spec: Spec, args: seq<Arg>) returns (rest: seq<Arg>)
    requires out.Valid() && (spec.caseAdjust == 0 || spec.caseAdjust == 32)
    modifies out, out.dst
    ensures out.Valid() && out.emitted == old(out.emitted) + Convert(spec, args).0
    ensures rest == Convert(spec, args).1
  {
    ResolveKeeps(spec, args);
    var s, a := ResolveStars(spec, args);
    assert Convert(spec, args) == ConvertResolved(s, a);
    hide Convert, Resolve, Assemble, SignedConverted, UnsignedText, CharConverted, StringBody, FloatConverted;
    rest := Rest(a);
    if s.conversion == Percent {
      PutChar(out, s, '%');
      rest := a;
    } else if s.conversion == Character {
      PutChar(out, s, (NextInt(a) % 256) as char);
    } else if s.conversion == String {
      PutString(out, s, NextText(a));
    } else if s.conversion == SignedInt {
      SignedRange(s.lengthModifier, NextInt(a));
      PutSigned(out, s, Signed(s.lengthModifier, NextInt(a)));
      rest := IntArgs(s.lengthModifier, a);
    } else if s.conversion == Pointer {
      PutUnsigned(out, s, Unsigned(Long, NextInt(a)));
    } else if IsFloat(s.conversion) {
      PutDouble(out, s, NextDouble(a));
    } else {
      PutUnsigned(out, s, Unsigned(s.lengthModifier, NextInt(a)));
      rest := IntArgs(s.lengthModifier, a);
    }
  }

  lemma SignedRange(m: LengthModifier, v: int)
    ensures -0x8000_0000_0000_0000 <= Signed(m, v) < 0x8000_0000_0000_0000
  {
  }

  /** Writes the whole text that the format and its arguments stand for, and returns its length. */
  method VpPrintf(out: Sink, f: string, args: seq<Arg>) returns (n: nat)
    requires out.Valid() && out.emitted == ""
    modifies out, out.dst
    ensures out.Valid() && out.emitted == Expand(f, 0, args) && n == |out.emitted|
  {
    hide Expand, Convert, Parse;
    var i, rest := 0, args;
    while At(f, i) != NUL
      invariant out.Valid() && Expand(f, 0, args) == out.emitted + Expand(f, i, rest)
      decreases |f| - i
    {
      ExpandStep(f, i, rest);
      var len, spec := 0, EMPTY;
      if f[i] == '%' {
        len, spec := ParseFormatSpec(f, i);
      }
      if len == 0 {
        out.PutC(f[i]);
        i := i + 1;
        continue;
      }
      i := i + len;
      rest := FormatOne(out, spec, rest);
    }
    ExpandEnd(f, i, rest);
    n := out.n;
  }

  lemma ExpandEnd(f: string, i: nat, args: seq<Arg>)
    requires At(f, i) == NUL
    ensures Expand(f, i, args) == ""
  {
  }

  lemma ExpandStep(f: string, i: nat, args: seq<Arg>)
    requires At(f, i) != NUL
    ensures i < |f|
    ensures f[i] != '%' || Parse(f, i).NotASpec? ==> Expand(f, i, args) == [f[i]] + Expand(f, i + 1, args)
    ensures f[i] == '%' && Parse(f, i).Parsed? ==>
      (Parse(f, i).spec.caseAdjust == 0 || Parse(f, i).spec.caseAdjust == 32)
      && var (text, rest) := Convert(Parse(f, i).spec, args);
         Expand(f, i, args) == text + Expand(f, Parse(f, i).next, rest)
  {
  }

  /**
   The result is the length of the whole text, whatever the buffer. A buffer of some size holds as
   much of the text as fits before a NUL, and nothing behind that NUL is touched.
  */
  method Vsnprintf(buffer: array?<char>, bufsz: nat, f: string, args: seq<Arg>) returns (n: nat)
    requires buffer != null ==> bufsz <= buffer.Length
    modifies buffer
    ensures n == |Expand(f, 0, args)|
    ensures buffer != null && bufsz > 0 ==>
      var k := if n < bufsz then n else bufsz - 1;
      buffer[..k] == Expand(f, 0, args)[..k] && buffer[k] == NUL && buffer[k + 1..] == old(buffer[k + 1..])
    ensures buffer != null && bufsz == 0 ==> buffer[..] == old(buffer[..])
  {
    var out := new Sink(buffer, bufsz);
    hide Expand;
    n := VpPrintf(out, f, args);
    if buffer != null && bufsz > 0 {
      var k := if n < bufsz then n else bufsz - 1;
      Terminated(buffer[..], out.before, out.emitted, out.cur, k, NUL);
      buffer[k] := NUL;
    }
  }

  /** The NUL goes behind the last character, or over it when the buffer is full. */
  lemma Terminated(text: seq<char>, before: seq<char>, emitted: string, cur: nat, k: nat, c: char)
    requires |text| == |before| && k < |text| && (k == cur || k + 1 == cur) && cur <= |text| && cur <= |emitted|
    requires text[..cur] == emitted[..cur] && text[cur..] == before[cur..]
    ensures var after := text[k := c];
      after[..k] == emitted[..k] && after[k] == c && after[k + 1..] == before[k + 1..]
  {
    var after := text[k := c];
    assert after[..k] == text[..cur][..k] && emitted[..cur][..k] == emitted[..k];
    assert after[k + 1..] == text[cur..][k + 1 - cur..];
    assert before[cur..][k + 1 - cur..] == before[k + 1..];
  }
}
