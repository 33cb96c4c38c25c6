/**
 AML buffer fields: a bit range of a buffer, read and written either through a byte copy
 (the range starts on a byte) or through bit_copy.  Both paths meet one specification.
*/
module BufferField {
  import opened Bits
  import opened BitCopy

  class Field {
    const backing: array<bv8>
    const bitIndex: nat
    const bitLength: nat

    constructor (backing: array<bv8>, bitIndex: nat, bitLength: nat)
      ensures this.backing == backing && this.bitIndex == bitIndex && this.bitLength == bitLength
    {
      this.backing, this.bitIndex, this.bitLength := backing, bitIndex, bitLength;
    }

    /** What handle_create_buffer_field admits. */
    predicate Valid() {
      0 < bitLength && bitIndex + bitLength <= 8 * backing.Length
    }
  }

  function RoundUpBitsToBytes(bitLength: nat): nat {
    (bitLength + 7) / 8
  }

  function Min(a: nat, b: nat): nat { if a <= b then a else b }

  /** memcpy: `count` bytes of src from `from` on, to the bytes of dst from `at` on. */
  method Memcpy(dst: array<bv8>, at: nat, src: array<bv8>, from: nat, count: nat)
    requires dst != src && at + count <= dst.Length && from + count <= src.Length
    modifies dst
    ensures forall i | 0 <= i < dst.Length ::
      dst[i] == if at <= i < at + count then src[from + i - at] else old(dst[i])
  {
    for k := 0 to count
      invariant forall i | 0 <= i < dst.Length ::
        dst[i] == if at <= i < at + k then src[from + i - at] else old(dst[i])
    {
      dst[at + k] := src[from + k];
    }
  }

  /** uacpi_memcpy_zerout: the common prefix, then zeroes up to dstSize bytes. */
  method MemcpyZerout(dst: array<bv8>, at: nat, src: array<bv8>, dstSize: nat, srcSize: nat)
    requires dst != src && at + dstSize <= dst.Length && srcSize <= src.Length
    modifies dst
    ensures forall i | 0 <= i < dst.Length ::
      dst[i] == if at <= i < at + dstSize then if i - at < srcSize then src[i - at] else 0 else old(dst[i])
  {
    var bytesToCopy := Min(srcSize, dstSize);
    Memcpy(dst, at, src, 0, bytesToCopy);
    for k := bytesToCopy to dstSize
      invariant forall i | 0 <= i < dst.Length ::
        dst[i] == if at <= i < at + k then if i - at < srcSize then src[i - at] else 0 else old(dst[i])
    {
      dst[at + k] := 0;
    }
  }

  lemma {:induction false} CutTail(s: seq<bv8>, last: nat, bitLength: nat, t: seq<bv8>)
    requires last < |s| && bitLength % 8 != 0 && t == s[last := Cut(s[last], bitLength % 8)]
    ensures forall p: nat | p < 8 * |s| ::
      BitAt(t, p) == (BitAt(s, p) && !(8 * last + bitLength % 8 <= p < 8 * last + 8))
  {
  }

  /** cut_misaligned_tail; with no tail it reads nothing, so `offset` may then be -1. */
  method CutMisalignedTail(data: array<bv8>, offset: int, bitLength: nat)
    requires bitLength % 8 != 0 ==> 0 <= offset < data.Length
    modifies data
    ensures forall p: nat | p < 8 * data.Length ::
      BitAt(data[..], p) == (old(BitAt(data[..], p))
        && !(bitLength % 8 != 0 && 8 * offset + bitLength % 8 <= p < 8 * offset + 8))
  {
    hide Bit, Cut;
    var remainder := bitLength % 8;
    if remainder == 0 {
      return;
    }
    ghost var before := data[..];
    data[offset] := Cut(data[offset], remainder);
    CutTail(before, offset, bitLength, data[..]);
  }

  /** dst gets the field's bits, and zeroes up to the next whole byte; nothing else of dst changes. */
  method ReadBufferField(field: Field, dst: array<bv8>)
    requires field.Valid() && field.backing != dst
    requires RoundUpBitsToBytes(field.bitLength) <= dst.Length
    modifies dst
    ensures Copied(old(dst[..]), dst[..], 0, 8 * RoundUpBitsToBytes(field.bitLength),
                   field.backing[..], field.bitIndex, field.bitLength)
  {
    hide Bit;
    if field.bitIndex % 8 == 0 {
      var count := RoundUpBitsToBytes(field.bitLength);
      ghost var before := dst[..];
      Memcpy(dst, 0, field.backing, field.bitIndex / 8, count);
      ghost var copy := dst[..];
      CutMisalignedTail(dst, count - 1, field.bitLength);
      AlignedRead(before, copy, dst[..], field.backing[..], field.bitIndex, field.bitLength);
      return;
    }
    var srcSpan := new BitSpan(field.backing, field.bitIndex, field.bitLength);
    var dstSpan := new BitSpan(dst, 0, 8 * RoundUpBitsToBytes(field.bitLength));
    BitCopy.BitCopy(dstSpan, srcSpan);
  }

  lemma AlignedRead(before: seq<bv8>, copy: seq<bv8>, after: seq<bv8>, data: seq<bv8>, index: nat, n: nat)
    requires index % 8 == 0 && 0 < n && index + n <= 8 * |data|
    requires var count := RoundUpBitsToBytes(n);
      && count <= |before| == |copy| == |after|
      && (forall i | 0 <= i < |copy| :: copy[i] == if i < count then data[index / 8 + i] else before[i])
      && (forall p: nat | p < 8 * |copy| ::
            BitAt(after, p) == (BitAt(copy, p) && !(n % 8 != 0 && 8 * (count - 1) + n % 8 <= p < 8 * count)))
    ensures Copied(before, after, 0, 8 * RoundUpBitsToBytes(n), data, index, n)
  {
    hide Bit;
    var count := RoundUpBitsToBytes(n);
    forall p: nat | p < 8 * |before|
      ensures BitAt(after, p) == if p < 8 * count then SourceBit(data, index, n, p) else BitAt(before, p)
    {
      assert BitAt(after, p) == (BitAt(copy, p) && !(n % 8 != 0 && 8 * (count - 1) + n % 8 <= p < 8 * count));
      if p < n {
        assert (index + p) / 8 == index / 8 + p / 8 && (index + p) % 8 == p % 8;
      }
    }
  }

  /** io.c:165-170: the tail_shift low bits of the new byte under the rest of the old one. */
  function MergedTail(byte: bv8, lastByte: bv8, tailShift: nat): bv8
    requires 0 < tailShift < 8
  {
    ((byte << (8 - tailShift)) >> (8 - tailShift)) | ((lastByte >> tailShift) << tailShift)
  }

  lemma MergedTailBit(byte: bv8, lastByte: bv8, tailShift: nat, k: nat)
    requires 0 < tailShift < 8 && k < 8
    ensures Bit(MergedTail(byte, lastByte, tailShift), k) == Bit(if k < tailShift then byte else lastByte, k)
  {
    assert Upto7(tailShift);
    assert Upto7(k);
  }

  /** The field takes the source's bits, zero-extended or cut; no other bit of the buffer changes. */
  method WriteBufferField(field: Field, src: array<bv8>, size: nat)
    requires field.Valid() && field.backing != src && size <= src.Length
    modifies field.backing
    ensures Copied(old(field.backing[..]), field.backing[..], field.bitIndex, field.bitLength, src[..], 0, 8 * size)
  {
    hide Bit, MergedTail;
    if field.bitIndex % 8 == 0 {
      var dst, at := field.backing, field.bitIndex / 8;
      ghost var before := dst[..];
      var count := RoundUpBitsToBytes(field.bitLength);
      var lastByte := dst[at + count - 1];
      var tailShift := field.bitLength % 8;
      MemcpyZerout(dst, at, src, count, size);
      ghost var copy := dst[..];
      if tailShift != 0 {
        dst[at + count - 1] := MergedTail(dst[at + count - 1], lastByte, tailShift);
      }
      AlignedWrite(before, copy, dst[..], src[..], size, field.bitIndex, field.bitLength);
      return;
    }
    var srcSpan := new BitSpan(src, 0, 8 * size);
    var dstSpan := new BitSpan(field.backing, field.bitIndex, field.bitLength);
    BitCopy.BitCopy(dstSpan, srcSpan);
  }

  lemma AlignedWrite(before: seq<bv8>, copy: seq<bv8>, after: seq<bv8>, src: seq<bv8>, size: nat, index: nat, n: nat)
    requires index % 8 == 0 && 0 < n && index + n <= 8 * |before| && size <= |src|
    requires var at, count := index / 8, RoundUpBitsToBytes(n);
      && |before| == |copy| == |after|
      && (forall i | 0 <= i < |copy| ::
            copy[i] == if at <= i < at + count then if i - at < size then src[i - at] else 0 else before[i])
      && after == if n % 8 == 0 then copy
                  else copy[at + count - 1 := MergedTail(copy[at + count - 1], before[at + count - 1], n % 8)]
    ensures Copied(before, after, index, n, src, 0, 8 * size)
  {
    forall p: nat | p < 8 * |before|
      ensures BitAt(after, p) == if index <= p < index + n then SourceBit(src, 0, 8 * size, p - index)
        else BitAt(before, p)
    {
      var at, count := index / 8, RoundUpBitsToBytes(n);
      var i := p / 8;
      assert copy[i] == if at <= i < at + count then if i - at < size then src[i - at] else 0 else before[i];
      AlignedWriteBit(before[i], copy[i], after[i], src, size, index, n, p);
    }
  }

  /** One bit of a byte-aligned write, in the byte that holds it. */
  lemma AlignedWriteBit(before: bv8, copy: bv8, after: bv8, src: seq<bv8>, size: nat, index: nat, n: nat, p: nat)
    requires index % 8 == 0 && 0 < n && size <= |src|
    requires var at, count, i := index / 8, RoundUpBitsToBytes(n), p / 8;
      && copy == (if at <= i < at + count then if i - at < size then src[i - at] else 0 else before)
      && after == (if i == at + count - 1 && n % 8 != 0 then MergedTail(copy, before, n % 8) else copy)
    ensures Bit(after, p % 8) == if index <= p < index + n then SourceBit(src, 0, 8 * size, p - index)
      else Bit(before, p % 8)
  {
    if p / 8 == index / 8 + RoundUpBitsToBytes(n) - 1 && n % 8 != 0 {
      MergedTailBit(copy, before, n % 8, p % 8);
    }
    ZeroBit(p % 8);
    hide Bit, MergedTail;
  }

  // ----- what the two operations mean together

  /** A copy is determined by what it is a copy of: the byte path and the bit path agree. */
  lemma CopyIsUnique(before: seq<bv8>, a: seq<bv8>, b: seq<bv8>, at: nat, n: nat, source: seq<bv8>, from: nat, m: nat)
    requires from + m <= 8 * |source|
    requires Copied(before, a, at, n, source, from, m) && Copied(before, b, at, n, source, from, m)
    ensures a == b
  {
    hide Bit;
    forall p: nat | p < 8 * |a| ensures BitAt(a, p) == BitAt(b, p) {
      assert BitAt(a, p) == if at <= p < at + n then SourceBit(source, from, m, p - at) else BitAt(before, p);
    }
    SameBytes(a, b);
  }

  /** Writing a field and reading it back gives the source, cut to or zero-extended over the field. */
  lemma WriteThenRead(before: seq<bv8>, after: seq<bv8>, index: nat, n: nat, src: seq<bv8>, size: nat,
                      dst: seq<bv8>, read: seq<bv8>)
    requires 0 < n && index + n <= 8 * |before| && size <= |src| && RoundUpBitsToBytes(n) <= |dst|
    requires Copied(before, after, index, n, src, 0, 8 * size)
    requires Copied(dst, read, 0, 8 * RoundUpBitsToBytes(n), after, index, n)
    ensures forall p: nat | p < 8 * RoundUpBitsToBytes(n) ::
      BitAt(read, p) == (p < n && p < 8 * size && BitAt(src, p))
  {
  }

  /** Writing back what was read changes nothing. */
  lemma ReadThenWrite(data: seq<bv8>, index: nat, n: nat, dst: seq<bv8>, read: seq<bv8>, after: seq<bv8>)
    requires 0 < n && index + n <= 8 * |data| && RoundUpBitsToBytes(n) <= |dst|
    requires Copied(dst, read, 0, 8 * RoundUpBitsToBytes(n), data, index, n)
    requires Copied(data, after, index, n, read, 0, 8 * RoundUpBitsToBytes(n))
    ensures after == data
  {
    hide Bit;
    forall p: nat | p < 8 * |data| ensures BitAt(after, p) == BitAt(data, p) {
      if index <= p < index + n {
        assert BitAt(after, p) == SourceBit(read, 0, 8 * RoundUpBitsToBytes(n), p - index);
        assert BitAt(read, p - index) == SourceBit(data, index, n, p - index);
      }
    }
    SameBytes(after, data);
  }

  /** A write followed by a read gives the source, cut to or zero-extended over the field. */
  method WriteAndReadBack(field: Field, src: array<bv8>, size: nat, dst: array<bv8>)
    requires field.Valid() && field.backing != src && field.backing != dst && src != dst && size <= src.Length
    requires RoundUpBitsToBytes(field.bitLength) <= dst.Length
    modifies field.backing, dst
    ensures forall p: nat | p < 8 * RoundUpBitsToBytes(field.bitLength) ::
      BitAt(dst[..], p) == (p < field.bitLength && p < 8 * size && BitAt(src[..], p))
  {
    hide BitAt, Copied;
    ghost var before := field.backing[..];
    ghost var was := dst[..];
    WriteBufferField(field, src, size);
    ghost var after := field.backing[..];
    SameLength(before, after, field.bitIndex, field.bitLength, src[..], 0, 8 * size);
    ReadBufferField(field, dst);
    WriteThenRead(before, after, field.bitIndex, field.bitLength, src[..], size, was, dst[..]);
  }

  lemma SameLength(before: seq<bv8>, after: seq<bv8>, at: nat, n: nat, source: seq<bv8>, from: nat, m: nat)
    requires from + m <= 8 * |source| && Copied(before, after, at, n, source, from, m)
    ensures |after| == |before|
  {
  }

  /** A read followed by a write of what was read leaves the buffer as it was. */
  method ReadAndWriteBack(field: Field, dst: array<bv8>)
    requires field.Valid() && field.backing != dst && RoundUpBitsToBytes(field.bitLength) <= dst.Length
    modifies field.backing, dst
    ensures field.backing[..] == old(field.backing[..])
  {
    hide BitAt, Copied;
    ghost var data := field.backing[..];
    ghost var was := dst[..];
    ReadBufferField(field, dst);
    ghost var read := dst[..];
    SameLength(was, read, 0, 8 * RoundUpBitsToBytes(field.bitLength), data, field.bitIndex, field.bitLength);
    WriteBufferField(field, dst, RoundUpBitsToBytes(field.bitLength));
    ReadThenWrite(data, field.bitIndex, field.bitLength, was, read, field.backing[..]);
  }
}
