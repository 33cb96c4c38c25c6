/**
 bit_copy of uACPI's io.c: moves a bit span of one byte buffer into a bit span of another,
 eight bits a turn, with independent shifts on the two sides.
*/
module BitCopy {
  import opened Bits

  /** struct bit_span: `length` bits of `data`, from bit `index` on. */
  class BitSpan {
    var data: array<bv8>
    var index: nat
    var length: nat

    constructor (data: array<bv8>, index: nat, length: nat)
      ensures this.data == data && this.index == index && this.length == length
    {
      this.data, this.index, this.length := data, index, length;
    }

    predicate Valid()
      reads this
    {
      index + length <= 8 * data.Length
    }

    /** bit_span_offset: drop the first `bits` bits, or all of them when there are fewer. */
    method Offset(bits: nat) returns (delta: nat)
      modifies this`index, this`length
      ensures delta == if old(length) < bits then old(length) else bits
      ensures index == old(index) + delta && length == old(length) - delta
    {
      delta := if length < bits then length else bits;
      index := index + delta;
      length := length - delta;
    }
  }

  /** The bytes a span touches, as a half-open interval of byte positions. */
  function FirstByte(index: nat): nat { index / 8 }
  function EndByte(index: nat, length: nat): nat { (index + length + 7) / 8 }

  /** Where in its first byte a span starts. */
  function Shift(index: nat): nat { index % 8 }

  lemma ByteAndShift(index: nat)
    ensures Shift(index) < 8 && 8 * FirstByte(index) + Shift(index) == index
  {
  }

  /** The two spans share no byte. */
  predicate ApartIn(i: nat, m: nat, j: nat, n: nat) {
    EndByte(i, m) <= FirstByte(j) || EndByte(j, n) <= FirstByte(i)
  }

  /** Bit i of a source span of m bits starting at `from`, zero past its end. */
  ghost predicate SourceBit(source: seq<bv8>, from: nat, m: nat, i: nat)
    requires from + m <= 8 * |source|
  {
    i < m && BitAt(source, from + i)
  }

  /**
   What copying m source bits into an n-bit span at `at` means: the span holds the source
   bits, zero-extended or cut; every other bit is as before.
  */
  ghost predicate Copied(before: seq<bv8>, after: seq<bv8>, at: nat, n: nat,
                         source: seq<bv8>, from: nat, m: nat)
    requires from + m <= 8 * |source|
  {
    && |after| == |before|
    && forall p: nat | p < 8 * |before| ::
         BitAt(after, p) == if at <= p < at + n then SourceBit(source, from, m, p - at) else BitAt(before, p)
  }

  /** *src_ptr >> src_shift, joined with the low bits of the next byte. */
  function Joined(low: bv8, next: bv8, shift: nat): bv8
    requires 0 < shift < 8
  {
    (low >> shift) | (next << (8 - shift))
  }

  function Cut(bits: bv8, count: nat): bv8
    requires count < 8
  {
    bits & ((1 << count) - 1)
  }

  /** The next (up to) eight source bits: io.c:69-75, `next` being *(src_ptr + 1). */
  function Fetched(low: bv8, next: bv8, shift: nat, count: nat): bv8
    requires shift < 8
  {
    var bits := if shift != 0 && count > 8 - shift then Joined(low, next, shift) else low >> shift;
    if count < 8 then Cut(bits, count) else bits
  }

  lemma JoinedBit(low: bv8, next: bv8, shift: nat, k: nat)
    requires 0 < shift < 8 && k < 8
    ensures Bit(Joined(low, next, shift), k) == if shift + k < 8 then Bit(low, shift + k) else Bit(next, shift + k - 8)
  {
    assert Upto7(shift);
    assert Upto7(k);
  }

  lemma CutBit(bits: bv8, count: nat, k: nat)
    requires count < 8 && k < 8
    ensures Bit(Cut(bits, count), k) == (k < count && Bit(bits, k))
  {
  }

  lemma FetchedBit(low: bv8, next: bv8, shift: nat, count: nat, k: nat)
    requires shift < 8 && k < 8
    ensures Bit(Fetched(low, next, shift, count), k)
         == (k < count && if shift + k < 8 then Bit(low, shift + k) else Bit(next, shift + k - 8))
  {
    hide Bit, Joined, Cut;
    var bits := low >> shift;
    if shift != 0 && count > 8 - shift {
      bits := Joined(low, next, shift);
      JoinedBit(low, next, shift, k);
    } else {
      ShrBit(low, shift, k);
    }
    if count < 8 {
      CutBit(bits, count, k);
    }
  }

  /** dst_mask, a u16: the bits of the two destination bytes that this turn writes. */
  function SpanMask(count: nat, shift: nat): bv16
    requires shift < 8
  {
    (if count < 8 then (1 << count) - 1 else 0xFF) << shift
  }

  /** *dst_ptr after io.c:84. */
  function StoredLow(d: bv8, bits: bv8, shift: nat, mask: bv16): bv8
    requires shift < 8
  {
    Lo8(((d as bv16) & !mask) | (((bits as bv16) << shift) & mask))
  }

  /** *(dst_ptr + 1) after io.c:87-89. */
  function StoredHigh(d: bv8, bits: bv8, shift: nat, mask: bv16): bv8
    requires 0 < shift < 8
  {
    var high := mask >> 8;
    Lo8((d as bv16) & !high) | Lo8(((bits as bv16) >> (8 - shift)) & high)
  }

  /** The bits of e where the mask is set, those of d elsewhere. */
  function Merged(d: bv8, e: bv8, m: bv8): bv8 {
    (d & !m) | (e & m)
  }

  lemma MergedBit(d: bv8, e: bv8, m: bv8, k: nat)
    requires k < 8
    ensures Bit(Merged(d, e, m), k) == Bit(if Bit(m, k) then e else d, k)
  {
    PowIsOneBit(k);
    hide Pow;
    MergedUnder(d, e, m, Pow(k));
  }

  lemma MergedUnder(d: bv8, e: bv8, m: bv8, bit: bv8)
    requires bit & (bit - 1) == 0 && bit != 0
    ensures (Merged(d, e, m) & bit != 0) == if m & bit != 0 then e & bit != 0 else d & bit != 0
  {
  }

  lemma StoredLowIsMerged(d: bv8, bits: bv8, shift: nat, mask: bv16)
    requires shift < 8
    ensures StoredLow(d, bits, shift, mask) == Merged(d, bits << shift, Lo8(mask))
  {
    assert Upto7(shift);
  }

  lemma LowMaskBit(count: nat, shift: nat, k: nat)
    requires shift < 8 && k < 8
    ensures Bit(Lo8(SpanMask(count, shift)), k) == (shift <= k < shift + count)
  {
  }

  lemma StoredLowBit(d: bv8, bits: bv8, shift: nat, count: nat, k: nat)
    requires shift < 8 && k < 8
    ensures Bit(StoredLow(d, bits, shift, SpanMask(count, shift)), k)
         == if shift <= k < shift + count then Bit(bits, k - shift) else Bit(d, k)
  {
    hide Bit, Lo8, SpanMask, StoredLow, Merged;
    var mask := SpanMask(count, shift);
    StoredLowIsMerged(d, bits, shift, mask);
    MergedBit(d, bits << shift, Lo8(mask), k);
    LowMaskBit(count, shift, k);
    ShlBit(bits, shift, k);
  }

  /** The next byte's share of the mask. */
  lemma HighMask(count: nat, shift: nat)
    requires 0 < shift < 8
    ensures SpanMask(count, shift) >> 8
         == if count <= 8 - shift then 0 else ((1 << (shift + (if count < 8 then count else 8) - 8)) - 1)
  {
    if count < 8 {
      PartMask(count, shift);
    } else {
      assert Upto7(shift);
    }
  }

  lemma PartMask(count: nat, shift: nat)
    requires 0 < shift < 8 && count < 8
    ensures SpanMask(count, shift) >> 8 == if count <= 8 - shift then 0 else ((1 << (shift + count - 8)) - 1)
  {
    assert Upto7(count);
    if shift < 4 {
      assert shift == 1 || shift == 2 || shift == 3;
    } else {
      assert shift == 4 || shift == 5 || shift == 6 || shift == 7;
    }
  }

  /** The low `ones` bits of e over the bits of d. */
  function Blended(d: bv8, e: bv8, ones: nat): bv8
    requires ones < 8
  {
    (d & !((1 << ones) - 1)) | (e & ((1 << ones) - 1))
  }

  lemma BlendedBit(d: bv8, e: bv8, ones: nat, k: nat)
    requires ones < 8 && k < 8
    ensures Bit(Blended(d, e, ones), k) == Bit(if k < ones then e else d, k)
  {
    assert Upto7(ones);
    assert Upto7(k);
  }

  lemma StoredHighIsBlended(d: bv8, bits: bv8, shift: nat, ones: nat, mask: bv16)
    requires 0 < shift < 8 && ones <= shift && mask >> 8 == (1 << ones) - 1
    ensures StoredHigh(d, bits, shift, mask) == Blended(d, bits >> (8 - shift), ones)
  {
    assert Upto7(shift);
    assert Upto7(ones);
  }

  lemma StoredHighBit(d: bv8, bits: bv8, shift: nat, count: nat, k: nat)
    requires 0 < shift < 8 && k < 8
    ensures Bit(StoredHigh(d, bits, shift, SpanMask(count, shift)), k)
         == if k + 8 < shift + (if count < 8 then count else 8) then Bit(bits, k + 8 - shift) else Bit(d, k)
  {
    hide Bit, StoredHigh, Blended;
    HighMask(count, shift);
    var past := shift + if count < 8 then count else 8;
    var ones := if past < 8 then 0 else past - 8;
    StoredHighIsBlended(d, bits, shift, ones, SpanMask(count, shift));
    BlendedBit(d, bits >> (8 - shift), ones, k);
    ShrBit(bits, 8 - shift, k);
  }

  /** The destination buffer after one turn of the loop. */
  function Stored(s: seq<bv8>, at: nat, shift: nat, count: nat, bits: bv8): (t: seq<bv8>)
    requires shift < 8 && 0 < count && 8 * at + shift + count <= 8 * |s|
    ensures |t| == |s|
  {
    var mask := SpanMask(count, shift);
    var t := s[at := StoredLow(s[at], bits, shift, mask)];
    if shift != 0 && count > 8 - shift then t[at + 1 := StoredHigh(s[at + 1], bits, shift, mask)] else t
  }

  /** One turn writes the next min(count, 8) bits and no other bit. */
  lemma StoredBits(s: seq<bv8>, at: nat, shift: nat, count: nat, bits: bv8)
    requires shift < 8 && 0 < count && 8 * at + shift + count <= 8 * |s|
    ensures var t := Stored(s, at, shift, count, bits);
      forall p: nat | p < 8 * |s| ::
        BitAt(t, p) == var i := p - (8 * at + shift);
                       if 0 <= i < count && i < 8 then Bit(bits, i) else BitAt(s, p)
  {
    hide Bit, StoredLow, StoredHigh, SpanMask;
    var t := Stored(s, at, shift, count, bits);
    forall p: nat | p < 8 * |s|
      ensures BitAt(t, p) == var i := p - (8 * at + shift);
                             if 0 <= i < count && i < 8 then Bit(bits, i) else BitAt(s, p)
    {
      if p / 8 == at {
        StoredLowBit(s[at], bits, shift, count, p % 8);
      } else if p / 8 == at + 1 && shift != 0 {
        StoredHighBit(s[at + 1], bits, shift, count, p % 8);
      }
    }
  }

  /** The byte a turn fetches holds the source bits done .. done + 8, zero past the source's end. */
  lemma FetchedBits(s: seq<bv8>, from: nat, m: nat, done: nat, bits: bv8, next: bv8)
    requires from + m <= 8 * |s|
    requires var at, shift := (from + done) / 8, (from + done) % 8;
      if done < m then
        && bits == Fetched(s[at], next, shift, m - done)
        && (shift != 0 && m - done > 8 - shift ==> next == s[at + 1])
      else bits == 0
    ensures forall k: nat | k < 8 :: Bit(bits, k) == SourceBit(s, from, m, done + k)
  {
    hide Bit, Fetched;
    forall k: nat | k < 8
      ensures Bit(bits, k) == SourceBit(s, from, m, done + k)
    {
      if done < m {
        FetchedBit(s[(from + done) / 8], next, (from + done) % 8, m - done, k);
      } else {
        ZeroBit(k);
      }
    }
  }

  lemma ZeroBit(k: nat)
    requires k < 8
    ensures !Bit(0, k)
  {
    assert Upto7(k);
  }

  lemma CopiedNone(before: seq<bv8>, at: nat, source: seq<bv8>, from: nat, m: nat)
    requires from + m <= 8 * |source|
    ensures Copied(before, before, at, 0, source, from, m)
  {
  }

  /** One turn takes a copy of `done` bits to a copy of min(8, rest) bits more. */
  lemma CopiedMore(before: seq<bv8>, now: seq<bv8>, at: nat, n: nat, done: nat,
                   source: seq<bv8>, from: nat, m: nat, bits: bv8)
    requires from + m <= 8 * |source| && done < n && at + n <= 8 * |before|
    requires Copied(before, now, at, done, source, from, m)
    requires forall k: nat | k < 8 :: Bit(bits, k) == SourceBit(source, from, m, done + k)
    ensures var more := if n - done > 8 then done + 8 else n;
      Copied(before, Stored(now, (at + done) / 8, (at + done) % 8, n - done, bits), at, more, source, from, m)
  {
    hide Bit, BitAt, SourceBit, Stored, StoredLow, StoredHigh, SpanMask;
    var t := Stored(now, (at + done) / 8, (at + done) % 8, n - done, bits);
    var more := if n - done > 8 then done + 8 else n;
    StoredBits(now, (at + done) / 8, (at + done) % 8, n - done, bits);
    forall p: nat | p < 8 * |before|
      ensures BitAt(t, p) == if at <= p < at + more then SourceBit(source, from, m, p - at) else BitAt(before, p)
    {
      var i := p - (at + done);
      if 0 <= i < n - done && i < 8 {
        assert Bit(bits, i) == SourceBit(source, from, m, done + i);
      }
    }
  }

  lemma EndByteInside(index: nat, length: nat, bytes: nat)
    requires index + length <= 8 * bytes
    ensures EndByte(index, length) <= bytes
  {
  }

  lemma InsideSpan(index: nat, length: nat, done: nat, shift: nat, ptr: nat)
    requires done < length && shift < 8 && 8 * ptr + shift == index + done
    ensures FirstByte(index) <= ptr < EndByte(index, length)
    ensures shift != 0 && length - done > 8 - shift ==> ptr + 1 < EndByte(index, length)
  {
  }

  /** The bytes from lo to hi are the same ones. */
  ghost predicate SameIn(s: seq<bv8>, t: seq<bv8>, lo: nat, hi: nat) {
    |s| == |t| && hi <= |s| && forall b | lo <= b < hi :: s[b] == t[b]
  }

  lemma SameInItself(s: seq<bv8>, lo: nat, hi: nat)
    requires hi <= |s|
    ensures SameIn(s, s, lo, hi)
  {
  }

  lemma SameInBoth(s: seq<bv8>, t: seq<bv8>, u: seq<bv8>, lo: nat, hi: nat)
    requires SameIn(t, s, lo, hi) && SameIn(u, t, lo, hi)
    ensures SameIn(u, s, lo, hi)
  {
  }

  /** The bytes of a turn are none of the source's when the spans share no byte. */
  lemma OutsideSource(start: nat, m: nat, at: nat, n: nat, ptr: nat, next: nat)
    requires FirstByte(at) <= ptr && ptr + next < EndByte(at, n) && next <= 1
    ensures ApartIn(start, m, at, n) ==> EndByte(start, m) <= ptr || ptr + next < FirstByte(start)
  {
    hide FirstByte, EndByte;
  }

  method BitCopy(dst: BitSpan, src: BitSpan)
    requires dst.Valid() && src.Valid()
    requires dst.data == src.data ==> ApartIn(src.index, src.length, dst.index, dst.length)
    modifies dst.data
    ensures Copied(old(dst.data[..]), dst.data[..], dst.index, dst.length,
                   old(src.data[..]), src.index, src.length)
  {
    hide Bit, BitAt, SourceBit, Copied, Fetched, Stored, FirstByte, EndByte, ApartIn, SameIn, Shift;
    var to, from := dst.data, src.data;
    var dstPtr, srcPtr := FirstByte(dst.index), FirstByte(src.index);
    var dstCount, dstShift := dst.length, Shift(dst.index);
    var srcCount, srcShift := src.length, Shift(src.index);
    ByteAndShift(dst.index);
    ByteAndShift(src.index);
    ghost var source, before := from[..], to[..];
    ghost var at, n, start, m := dst.index, dst.length, src.index, src.length;
    ghost var lo, hi := FirstByte(start), EndByte(start, m);
    ghost var done := 0;
    CopiedNone(before, at, source, start, m);
    EndByteInside(start, m, from.Length);
    SameInItself(source, lo, hi);
    while dstCount != 0
      invariant done <= n && dstCount == n - done
      invariant dstCount > 0 ==> 8 * dstPtr + dstShift == at + done
      invariant dstCount > 0 ==> srcCount == if done < m then m - done else 0
      invariant dstCount > 0 && srcCount > 0 ==> 8 * srcPtr + srcShift == start + done
      invariant Copied(before, to[..], at, done, source, start, m)
      invariant SameIn(from[..], source, lo, hi)
    {
      InsideSpan(at, n, done, dstShift, dstPtr);
      var bits := FetchTurn(from, srcPtr, srcShift, srcCount, source, start, m, done);
      if srcCount < 8 {
        srcCount := 0;
      } else {
        srcCount := srcCount - 8;
        srcPtr := srcPtr + 1;
      }
      ghost var now := to[..];
      OutsideSource(start, m, at, n, dstPtr, if dstShift != 0 && dstCount > 8 - dstShift then 1 else 0);
      ghost var held := from[..];
      StoreTurn(to, from, dstPtr, dstShift, dstCount, bits, lo, hi);
      SameInBoth(source, held, from[..], lo, hi);
      CopiedMore(before, now, at, n, done, source, start, m, bits);
      done := if dstCount > 8 then done + 8 else n;
      dstCount := if dstCount > 8 then dstCount - 8 else 0;
      dstPtr := dstPtr + 1;
    }
  }

  /** io.c:66-81: this turn's source bits, or zero when the source is used up. */
  method FetchTurn(from: array<bv8>, ptr: nat, shift: nat, count: nat,
                   ghost source: seq<bv8>, ghost start: nat, ghost m: nat, ghost done: nat)
    returns (bits: bv8)
    requires shift < 8 && start + m <= 8 * |source| && |source| == from.Length
    requires count == if done < m then m - done else 0
    requires count > 0 ==> 8 * ptr + shift == start + done
    requires SameIn(from[..], source, FirstByte(start), EndByte(start, m))
    ensures forall k: nat | k < 8 :: Bit(bits, k) == SourceBit(source, start, m, done + k)
  {
    hide Bit, BitAt, SourceBit, Fetched, FirstByte, EndByte;
    bits := 0;
    var next := 0;
    if count != 0 {
      InsideSpan(start, m, done, shift, ptr);
      if shift != 0 && count > 8 - shift {
        next := from[ptr + 1];
      }
      bits := Fetched(from[ptr], next, shift, count);
    }
    FetchedBits(source, start, m, done, bits, next);
  }

  /** io.c:83-90: write this turn's bits into one or two destination bytes. */
  method StoreTurn(to: array<bv8>, ghost from: array<bv8>, ptr: nat, shift: nat, count: nat, bits: bv8,
                   ghost first: nat, ghost end: nat)
    requires shift < 8 && 0 < count && 8 * ptr + shift + count <= 8 * to.Length
    requires end <= from.Length
    requires to == from ==> end <= ptr || ptr + (if shift != 0 && count > 8 - shift then 1 else 0) < first
    modifies to
    ensures to[..] == Stored(old(to[..]), ptr, shift, count, bits)
    ensures SameIn(from[..], old(from[..]), first, end)
  {
    hide Bit, StoredLow, StoredHigh, SpanMask;
    var mask := SpanMask(count, shift);
    to[ptr] := StoredLow(to[ptr], bits, shift, mask);
    if shift != 0 && count > 8 - shift {
      to[ptr + 1] := StoredHigh(to[ptr + 1], bits, shift, mask);
    }
  }
}
