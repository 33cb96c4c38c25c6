/**
 AML field units: a bit range of an operation region that may only be accessed in whole
 units of 1, 2, 4 or 8 bytes.  Reads gather the range unit by unit; writes read, modify and
 write each unit under the field's update rule.
*/
module FieldUnit {
  import opened Bits
  import opened BitCopy
  import opened BufferField
  import opened Arithmetic

  datatype UpdateRule = Preserve | WriteAsOnes | WriteAsZeroes | Unknown

  datatype Status = Ok | AccessFailed | InvalidArgument

  datatype Unit = Unit(byteOffset: nat, bitLength: nat, bitOffset: nat, accessWidth: nat, rule: UpdateRule) {

    /** What the interpreter's field parser produces. */
    predicate Valid() {
      && (accessWidth == 1 || accessWidth == 2 || accessWidth == 4 || accessWidth == 8)
      && bitOffset < Width()
    }

    function Width(): nat { 8 * accessWidth }

    /** The field's first bit in the region. */
    function Base(): nat { 8 * byteOffset + bitOffset }

    /** One past the last bit of the units that hold the field. */
    function End(): nat
      requires Valid()
    {
      8 * byteOffset + RoundUp(bitOffset + bitLength, Width())
    }
  }

  /** ALIGN_UP. */
  function RoundUp(x: nat, width: nat): nat
    requires width > 0
  {
    (x + width - 1) / width * width
  }

  lemma RoundUpStep(x: nat, width: nat)
    requires width > 0
    ensures 0 < x <= width ==> RoundUp(x, width) == width && RoundUp(x, width) / width == 1
    ensures x > width ==> RoundUp(x, width) == width + RoundUp(x - width, width)
    ensures x > width ==> RoundUp(x, width) / width == 1 + RoundUp(x - width, width) / width
    ensures x > 0 ==> RoundUp(x, width) / width > 0
  {
    if x > 0 {
      var q, r := DivisionOf(x - 1, width);
      hide *;
      RoundUpIs(x, width, q, r);
      OneMore(q, width);
      if x <= width {
        DivisionIs(x - 1, width, 0, x - 1);
      } else {
        Earlier(x - 1, width, q, r);
        RoundUpIs(x - width, width, q - 1, r);
      }
    }
  }

  lemma Earlier(x: nat, width: nat, q: nat, r: nat)
    requires x == width * q + r && width <= x && r < width
    ensures q > 0 && x - width == width * (q - 1) + r
  {
  }

  lemma RoundUpIs(x: nat, width: nat, q: nat, r: nat)
    requires x > 0 && r < width && x - 1 == width * q + r
    ensures RoundUp(x, width) == (q + 1) * width && RoundUp(x, width) / width == q + 1
  {
    OneMore(q, width);
    DivisionIs(x + width - 1, width, q + 1, r);
    DivisionIs((q + 1) * width, width, q + 1, 0);
  }

  /**
   A region backed by bytes.  An access outside it fails, and so does one at an offset the
   region's handler rejects.
  */
  class Region {
    const bytes: array<bv8>
    const readFaults: set<nat>
    const writeFaults: set<nat>

    constructor (bytes: array<bv8>, readFaults: set<nat>, writeFaults: set<nat>)
      ensures this.bytes == bytes && this.readFaults == readFaults && this.writeFaults == writeFaults
    {
      this.bytes, this.readFaults, this.writeFaults := bytes, readFaults, writeFaults;
    }

    predicate CanRead(offset: nat, width: nat) {
      offset + width <= bytes.Length && offset !in readFaults
    }

    predicate CanWrite(offset: nat, width: nat) {
      offset + width <= bytes.Length && offset !in writeFaults
    }

    /** A read access into a little-endian u64. */
    method Read(offset: nat, width: nat, out: array<bv8>) returns (ok: bool)
      requires width <= 8 == out.Length && out != bytes
      modifies out
      ensures ok == CanRead(offset, width)
      ensures ok ==> forall i | 0 <= i < 8 :: out[i] == if i < width then bytes[offset + i] else 0
    {
      ok := CanRead(offset, width);
      if ok {
        Memcpy(out, 0, bytes, offset, width);
        for k := width to 8
          invariant forall i | 0 <= i < k :: out[i] == if i < width then bytes[offset + i] else 0
        {
          out[k] := 0;
        }
      }
    }

    /** A write access from a little-endian u64. */
    method Write(offset: nat, width: nat, value: array<bv8>) returns (ok: bool)
      requires width <= 8 == value.Length && value != bytes
      modifies bytes
      ensures ok == CanWrite(offset, width)
      ensures bytes[..] == if ok then old(bytes[..offset]) + value[..width] + old(bytes[offset + width..])
        else old(bytes[..])
    {
      ok := CanWrite(offset, width);
      if ok {
        Memcpy(bytes, offset, value, 0, width);
      }
    }
  }

  /** Every unit that covers `bits` bits from the start of the unit at `offset` can be read. */
  predicate AllReadable(region: Region, offset: nat, bits: nat, width: nat)
    requires width > 0
    decreases bits
  {
    region.CanRead(offset, width) && (bits <= 8 * width || AllReadable(region, offset + width, bits - 8 * width, width))
  }

  lemma AllReadableStep(region: Region, offset: nat, bits: nat, width: nat)
    requires width > 0
    ensures AllReadable(region, offset, bits, width)
         == (region.CanRead(offset, width)
           && (bits <= 8 * width || AllReadable(region, offset + width, bits - 8 * width, width)))
  {
  }

  // ----- reading

  /** How far the chunked read is: `done` field bits gathered, the rest of dst zeroed. */
  lemma GatherMore(before: seq<bv8>, now: seq<bv8>, after: seq<bv8>, n: nat, region: seq<bv8>, base: nat, done: nat,
                   out: seq<bv8>, offset: nat, index: nat, take: nat, at: nat, left: nat)
    requires base + done + take <= 8 * |region| && index + take <= 8 * |out| && n <= 8 * |before|
    requires (done == 0 && now == before) || Copied(before, now, 0, n, region, base, done)
    requires 8 * offset + index == base + done
    requires forall q: nat | q < index + take :: BitAt(out, q) == BitAt(region, 8 * offset + q)
    requires at == Min(done, n) && left == n - at
    requires Copied(now, after, at, left, out, index, take)
    ensures Copied(before, after, 0, n, region, base, done + take)
  {
  }

  lemma OutBits(out: seq<bv8>, region: seq<bv8>, offset: nat, width: nat)
    requires |out| == 8 && width <= 8 && offset + width <= |region|
    requires forall i | 0 <= i < width :: out[i] == region[offset + i]
    ensures forall q: nat | q < 8 * width :: BitAt(out, q) == BitAt(region, 8 * offset + q)
  {
  }

  /** What the chunked read has done once `done` bits are gathered; before the first unit, nothing. */
  ghost predicate Gathered(before: seq<bv8>, now: seq<bv8>, n: nat, region: seq<bv8>, base: nat, done: nat,
                           started: bool) {
    && |now| == |before|
    && if started then base + done <= 8 * |region| && Copied(before, now, 0, n, region, base, done)
    else done == 0 && now == before
  }

  lemma GatheredNone(before: seq<bv8>, n: nat, region: seq<bv8>, base: nat)
    ensures Gathered(before, before, n, region, base, 0, false)
  {
  }

  lemma GatheredAll(before: seq<bv8>, now: seq<bv8>, n: nat, region: seq<bv8>, base: nat, done: nat)
    requires Gathered(before, now, n, region, base, done, true)
    ensures base + done <= 8 * |region| && Copied(before, now, 0, n, region, base, done)
  {
  }

  /** One turn of the chunked read. */
  method ReadUnit(region: Region, byteOffset: nat, width: nat, out: array<bv8>, srcSpan: BitSpan, dstSpan: BitSpan,
                  ghost before: seq<bv8>, ghost n: nat, ghost base: nat, ghost done: nat, ghost started: bool)
    returns (ok: bool)
    requires out.Length == 8 && srcSpan.data == out && srcSpan != dstSpan
    requires dstSpan.data != out && dstSpan.data != region.bytes && out != region.bytes
    requires srcSpan.index + srcSpan.length <= 8 * width <= 64
    requires 8 * byteOffset + srcSpan.index == base + done
    requires n <= 8 * dstSpan.data.Length && dstSpan.index == Min(done, n) && dstSpan.length == n - dstSpan.index
    requires Gathered(before, dstSpan.data[..], n, region.bytes[..], base, done, started)
    modifies out, dstSpan.data, dstSpan`index, dstSpan`length
    ensures ok == region.CanRead(byteOffset, width)
    ensures ok ==>
      && Gathered(before, dstSpan.data[..], n, region.bytes[..], base, done + srcSpan.length, true)
      && dstSpan.index == Min(done + srcSpan.length, n) && dstSpan.length == n - dstSpan.index
  {
    hide Bit, BitAt, Copied;
    ok := region.Read(byteOffset, width, out);
    if ok {
      OutBits(out[..], region.bytes[..], byteOffset, width);
      ghost var now := dstSpan.data[..];
      BitCopy.BitCopy(dstSpan, srcSpan);
      GatherMore(before, now, dstSpan.data[..], n, region.bytes[..], base, done,
                 out[..], byteOffset, srcSpan.index, srcSpan.length, dstSpan.index, dstSpan.length);
      var _ := dstSpan.Offset(srcSpan.length);
    }
  }

  /** How many units of `width` bits hold `bits` bits. */
  function UnitCount(bits: nat, width: nat): int
    requires width > 0
  {
    RoundUp(bits, width) / width
  }

  /** One access takes the rest of a field that ends in this unit, and the rest of the unit otherwise. */
  lemma ReadsLeft(index: nat, left: nat, width: nat)
    requires (width == 8 || width == 16 || width == 32 || width == 64) && index < width && index + left > 0
    ensures var count, take := UnitCount(index + left, width), Min(left, width - index);
      && count > 0 && take <= left
      && (index + left <= width ==> count == 1 && take == left)
      && (index + left > width ==>
            && take == width - index && index + left - width == left - take
            && count - 1 == UnitCount(left - take, width) && count - 1 > 0)
  {
    RoundUpStep(index + left, width);
    if index + left > width { RoundUpStep(index + left - width, width); }
    hide RoundUp;
  }

  /** The chunked read: succeeds exactly when every covering unit can be read. */
  method ReadMisaligned(field: Unit, region: Region, dst: array<bv8>, size: nat) returns (status: Status)
    requires field.Valid() && field.bitOffset + field.bitLength > 0
    requires dst != region.bytes && size <= dst.Length
    modifies dst
    ensures status == if AllReadable(region, field.byteOffset, field.bitOffset + field.bitLength, field.accessWidth)
                      then Ok else AccessFailed
    ensures status == Ok ==>
      && field.Base() + field.bitLength <= 8 * region.bytes.Length
      && Copied(old(dst[..]), dst[..], 0, 8 * size, region.bytes[..], field.Base(), field.bitLength)
  {
    hide Bit, BitAt, Copied, UnitCount, AllReadable, Gathered;
    var byteOffset: nat, bitsLeft: nat := field.byteOffset, field.bitLength;
    var widthBits := field.Width();
    var out := new bv8[8];
    var srcSpan := new BitSpan(out, field.bitOffset, 0);
    var dstSpan := new BitSpan(dst, 0, 8 * size);
    var readsToDo := UnitCount(field.bitOffset + field.bitLength, widthBits);
    ghost var before := dst[..];
    ghost var done: nat := 0;
    ReadsLeft(field.bitOffset, field.bitLength, widthBits);
    GatheredNone(before, 8 * size, region.bytes[..], field.Base());
    while readsToDo > 0
      invariant srcSpan.data == out && dstSpan.data == dst
      invariant done + bitsLeft == field.bitLength
      invariant dstSpan.index == Min(done, 8 * size) && dstSpan.length == 8 * size - dstSpan.index
      invariant 0 <= readsToDo && (readsToDo == 0 ==> bitsLeft == 0)
      invariant readsToDo > 0 ==>
        && srcSpan.index < widthBits && 8 * byteOffset + srcSpan.index == field.Base() + done
        && srcSpan.index + bitsLeft > 0
        && readsToDo == UnitCount(srcSpan.index + bitsLeft, widthBits)
      invariant AllReadable(region, field.byteOffset, field.bitOffset + field.bitLength, field.accessWidth)
             == (readsToDo == 0 || AllReadable(region, byteOffset, srcSpan.index + bitsLeft, field.accessWidth))
      invariant Gathered(before, dst[..], 8 * size, region.bytes[..], field.Base(), done, readsToDo == 0 || done > 0)
      decreases readsToDo
    {
      AllReadableStep(region, byteOffset, srcSpan.index + bitsLeft, field.accessWidth);
      ReadsLeft(srcSpan.index, bitsLeft, widthBits);
      readsToDo := readsToDo - 1;
      srcSpan.length := Min(bitsLeft, widthBits - srcSpan.index);
      var ok := ReadUnit(region, byteOffset, field.accessWidth, out, srcSpan, dstSpan,
                         before, 8 * size, field.Base(), done, done > 0);
      if !ok {
        return AccessFailed;
      }
      bitsLeft := bitsLeft - srcSpan.length;
      done := done + srcSpan.length;
      srcSpan.index := 0;
      byteOffset := byteOffset + field.accessWidth;
    }
    GatheredAll(before, dst[..], 8 * size, region.bytes[..], field.Base(), done);
    return Ok;
  }

  /** io.c:488-506: one access, a byte copy, and the unused bits of the last byte cleared. */
  lemma AlignedUnitRead(before: seq<bv8>, copy: seq<bv8>, after: seq<bv8>, size: nat, out: seq<bv8>,
                        region: seq<bv8>, offset: nat, width: nat, n: nat)
    requires |before| == |copy| == |after| && size <= |before| && |out| == 8
    requires width <= 8 && RoundUpBitsToBytes(n) <= width && offset + width <= |region|
    requires forall i | 0 <= i < width :: out[i] == region[offset + i]
    requires forall i | 0 <= i < |copy| ::
      copy[i] == if i < size then if i < RoundUpBitsToBytes(n) then out[i] else 0 else before[i]
    requires forall p: nat | p < 8 * |copy| ::
      BitAt(after, p) == (BitAt(copy, p)
        && !(size >= RoundUpBitsToBytes(n) && n % 8 != 0 && n <= p < 8 * RoundUpBitsToBytes(n)))
    ensures Copied(before, after, 0, 8 * size, region, 8 * offset, n)
  {
  }

  /** uacpi_read_field_unit on an ordinary region: a field that fills part of one unit takes one access. */
  method ReadFieldUnit(field: Unit, region: Region, dst: array<bv8>, size: nat) returns (status: Status)
    requires field.Valid()
    requires dst != region.bytes && size <= dst.Length
    modifies dst
    ensures status == if AllReadable(region, field.byteOffset, field.bitOffset + field.bitLength, field.accessWidth)
                      then Ok else AccessFailed
    ensures status == Ok ==>
      && field.Base() + field.bitLength <= 8 * region.bytes.Length
      && Copied(old(dst[..]), dst[..], 0, 8 * size, region.bytes[..], field.Base(), field.bitLength)
  {
    hide Bit, BitAt, Copied;
    var fieldByteLength := RoundUpBitsToBytes(field.bitLength);
    if field.bitOffset == 0 && fieldByteLength <= field.accessWidth {
      var out := new bv8[8];
      ghost var before := dst[..];
      var ok := region.Read(field.byteOffset, field.accessWidth, out);
      if !ok {
        return AccessFailed;
      }
      MemcpyZerout(dst, 0, out, size, fieldByteLength);
      ghost var copy := dst[..];
      if size >= fieldByteLength {
        CutMisalignedTail(dst, fieldByteLength - 1, field.bitLength);
      }
      AlignedUnitRead(before, copy, dst[..], size, out[..], region.bytes[..], field.byteOffset, field.accessWidth,
                      field.bitLength);
      return Ok;
    }
    status := ReadMisaligned(field, region, dst, size);
  }

  // ----- writing

  /** The bits around the field in a partly covered unit. */
  ghost predicate Filler(rule: UpdateRule, before: seq<bv8>, p: nat)
    requires p < 8 * |before|
  {
    match rule
    case Preserve => BitAt(before, p)
    case WriteAsOnes => true
    case WriteAsZeroes => false
    case Unknown => BitAt(before, p)
  }

  /** One past the last bit of the units written once `done` field bits are stored. */
  function WrittenEnd(field: Unit, done: nat): nat
    requires field.Valid()
  {
    if done == 0 then 8 * field.byteOffset
    else if done < field.bitLength then field.Base() + done
    else field.End()
  }

  /**
   The region after the units holding the first `done` field bits were written: those bits
   are the source's, the rest of those units follows the update rule, all else is as before.
  */
  ghost predicate Written(before: seq<bv8>, after: seq<bv8>, field: Unit, src: seq<bv8>, size: nat, done: nat)
    requires field.Valid() && size <= |src|
  {
    && |after| == |before|
    && forall p: nat | p < 8 * |before| ::
         BitAt(after, p) ==
           if field.Base() <= p < field.Base() + done then SourceBit(src, 0, 8 * size, p - field.Base())
           else if 8 * field.byteOffset <= p < WrittenEnd(field, done) then Filler(field.rule, before, p)
           else BitAt(before, p)
  }

  /** Bit p lies in a unit that holds one of the first `done` field bits. */
  predicate InWrittenUnit(field: Unit, done: nat, p: nat)
    requires field.Valid()
  {
    && done > 0 && 8 * field.byteOffset <= p
    && (p - 8 * field.byteOffset) / field.Width() * field.Width() < field.bitOffset + done
  }

  /** The first `done` bits are the whole field, or they end where a unit does. */
  predicate EndsUnit(field: Unit, done: nat)
    requires field.Valid()
  {
    0 < done < field.bitLength ==> (field.bitOffset + done) % field.Width() == 0
  }

  /**
   A bit of the region after the units of the first `done` field bits were written: the source's in the
   field, 1 or 0 around it under WRITE_AS_ONES and WRITE_AS_ZEROES, and everywhere else what it was.
  */
  ghost predicate BitWritten(was: bool, field: Unit, src: seq<bv8>, size: nat, done: nat, p: nat)
    requires field.Valid() && size <= |src|
  {
    var k := p - field.Base();
    if 0 <= k < done then k < 8 * size && BitAt(src, k)
    else if InWrittenUnit(field, done, p) && field.rule == WriteAsOnes then true
    else if InWrittenUnit(field, done, p) && field.rule == WriteAsZeroes then false
    else was
  }

  /** The region after a write, bit by bit. */
  ghost predicate AllWritten(before: seq<bv8>, after: seq<bv8>, field: Unit, src: seq<bv8>, size: nat, done: nat)
    requires field.Valid() && size <= |src|
  {
    && |after| == |before| && done <= field.bitLength
    && forall p: nat | p < 8 * |before| ::
         BitAt(after, p) == BitWritten(BitAt(before, p), field, src, size, done, p)
  }

  lemma RoundUpReaches(x: nat, width: nat, q: nat)
    requires width > 0 && x > 0
    ensures q < RoundUp(x, width) <==> q / width * width < x
  {
    var a, s := DivisionOf(x - 1, width);
    var b, t := DivisionOf(q, width);
    RoundUpIs(x, width, a, s);
    hide *;
    UnitReached(x, width, q, a, s, b, t);
  }

  lemma UnitReached(x: nat, width: nat, q: nat, a: nat, s: nat, b: nat, t: nat)
    requires x > 0 && s < width && t < width && x - 1 == width * a + s && q == width * b + t
    ensures q < (a + 1) * width <==> b * width < x
  {
    OneMore(a, width);
    OneMore(b, width);
    if b <= a { Larger(width, b, a); } else { Larger(width, a + 1, b); }
  }

  /** Where the written units end, from the unit that a bit is in. */
  lemma WrittenEndReaches(field: Unit, done: nat, p: nat)
    requires field.Valid() && done <= field.bitLength && EndsUnit(field, done) && 8 * field.byteOffset <= p
    ensures p < WrittenEnd(field, done) <==> InWrittenUnit(field, done, p)
  {
    var q := p - 8 * field.byteOffset;
    if done > 0 {
      RoundUpReaches(field.bitOffset + done, field.Width(), q);
      if done < field.bitLength { RoundUpWhole(field.bitOffset + done, field.Width()); }
    }
    hide RoundUp;
  }

  lemma RoundUpWhole(x: nat, width: nat)
    requires width > 0 && x > 0 && x % width == 0
    ensures RoundUp(x, width) == x
  {
    var q, r := DivisionOf(x, width);
    assert q > 0;
    assert x - 1 == width * (q - 1) + (width - 1);
    RoundUpIs(x, width, q - 1, width - 1);
  }

  /** What Written says of a bit, without the predicate for the bits around the field. */
  lemma WrittenBit(before: seq<bv8>, after: seq<bv8>, field: Unit, src: seq<bv8>, size: nat, done: nat, p: nat)
    requires field.Valid() && size <= |src| && p < 8 * |before| && done <= field.bitLength && EndsUnit(field, done)
    requires Written(before, after, field, src, size, done)
    ensures |after| == |before| && BitAt(after, p) == BitWritten(BitAt(before, p), field, src, size, done, p)
  {
    if 8 * field.byteOffset <= p { WrittenEndReaches(field, done, p); }
    hide Bit, WrittenEnd, InWrittenUnit;
  }

  lemma NoneEndsUnit(field: Unit)
    requires field.Valid()
    ensures EndsUnit(field, 0)
  {
  }

  lemma NextUnitEnd(field: Unit, done: nat, left: nat, offset: nat, index: nat)
    requires field.Valid() && done + left == field.bitLength && left > 0 && EndsUnit(field, done)
    requires AtUnit(field, done, left, offset, index)
    ensures EndsUnit(field, done + Min(field.Width() - index, left))
  {
    var width := field.Width();
    hide RoundUp;
    if width - index < left && done > 0 {
      var q, rest := DivisionOf(field.bitOffset + done, width);
      DivisionIs(field.bitOffset + done + width, width, q + 1, 0);
    }
  }

  /** What becomes of one unit that takes `take` field bits; one that is filled by them is not read first. */
  function UnitStatus(region: Region, rule: UpdateRule, offset: nat, take: nat, width: nat): Status {
    if take < 8 * width && rule == Unknown then InvalidArgument
    else if take < 8 * width && rule == Preserve && !region.CanRead(offset, width) then AccessFailed
    else if region.CanWrite(offset, width) then Ok
    else AccessFailed
  }

  /** Every access of a write from the unit at `offset` on succeeds; `index` bits of it precede the field. */
  predicate AllWritable(region: Region, rule: UpdateRule, offset: nat, index: nat, left: nat, width: nat)
    requires width > 0 && index < 8 * width
    decreases left
  {
    left == 0 ||
    var take := Min(8 * width - index, left);
    UnitStatus(region, rule, offset, take, width) == Ok
      && AllWritable(region, rule, offset + width, 0, left - take, width)
  }

  /** How a write from the unit at `offset` on ends, and the field bits in front of the first unit that fails. */
  function Outcome(region: Region, rule: UpdateRule, offset: nat, index: nat, left: nat, width: nat): (Status, nat)
    requires width > 0 && index < 8 * width
    decreases left
  {
    if left == 0 then (Ok, 0)
    else
      var take := Min(8 * width - index, left);
      var status := UnitStatus(region, rule, offset, take, width);
      if status != Ok then (status, 0)
      else
        var (rest, bits) := Outcome(region, rule, offset + width, 0, left - take, width);
        (rest, take + bits)
  }

  /** The unit behind `units` whole units, which hold `bits` bits of the field, gives this status. */
  predicate FailsAt(region: Region, rule: UpdateRule, offset: nat, index: nat, left: nat, width: nat,
                    units: nat, bits: nat, status: Status)
    requires index < 8 * width && bits <= left
  {
    && (if units == 0 then bits == 0 else index + bits == units * (8 * width))
    && UnitStatus(region, rule, offset + units * width,
      Min(8 * width - (if units == 0 then index else 0), left - bits), width)
       == status
  }

  /**
   A write that fails has written some units, all of them writable, and none from the next one on,
   which is the one that gives the status.
  */
  lemma {:induction false} FirstFailure(region: Region, rule: UpdateRule, offset: nat, index: nat, left: nat,
                                        width: nat)
    returns (units: nat)
    requires width > 0 && index < 8 * width
    ensures var (status, bits) := Outcome(region, rule, offset, index, left, width);
      && bits <= left && (status == Ok <==> bits == left)
      && (status == Ok <==> AllWritable(region, rule, offset, index, left, width))
      && AllWritable(region, rule, offset, index, bits, width)
      && (status != Ok ==> FailsAt(region, rule, offset, index, left, width, units, bits, status))
    decreases left
  {
    hide *;
    units := 0;
    NothingToDo(region, rule, offset, index, width);
    if left > 0 {
      OutcomeStep(region, rule, offset, index, left, width);
      AllWritableStep(region, rule, offset, index, left, width);
      var take := Min(8 * width - index, left);
      MinIs(8 * width - index, left);
      if UnitStatus(region, rule, offset, take, width) == Ok {
        units := FirstFailure(region, rule, offset + width, 0, left - take, width);
        var (status, bits) := Outcome(region, rule, offset + width, 0, left - take, width);
        StillEndsIs(Outcome(region, rule, offset, index, left, width), (status, bits), take);
        MinIs(8 * width - index, take + bits);
        AllWritableStep(region, rule, offset, index, take + bits, width);
        if status != Ok {
          FailsLater(region, rule, offset, index, left, width, units, bits, status);
        }
        units := units + 1;
      } else {
        FailsFirst(region, rule, offset, index, left, width);
      }
    }
  }

  lemma MinIs(a: nat, b: nat)
    ensures Min(a, b) == if a <= b then a else b
  {
  }

  lemma NothingToDo(region: Region, rule: UpdateRule, offset: nat, index: nat, width: nat)
    requires width > 0 && index < 8 * width
    ensures Outcome(region, rule, offset, index, 0, width) == (Ok, 0)
      && AllWritable(region, rule, offset, index, 0, width)
  {
  }

  lemma FailsFirst(region: Region, rule: UpdateRule, offset: nat, index: nat, left: nat, width: nat)
    requires index < 8 * width
    ensures FailsAt(region, rule, offset, index, left, width, 0, 0,
                    UnitStatus(region, rule, offset, Min(8 * width - index, left), width))
  {
    hide UnitStatus;
  }

  lemma FailsLater(region: Region, rule: UpdateRule, offset: nat, index: nat, left: nat, width: nat,
                   units: nat, bits: nat, status: Status)
    requires index < 8 * width <= left + index && bits <= left - (8 * width - index)
    requires FailsAt(region, rule, offset + width, 0, left - (8 * width - index), width, units, bits, status)
    ensures FailsAt(region, rule, offset, index, left, width, units + 1, 8 * width - index + bits, status)
  {
    hide UnitStatus;
    OneMore(units, width);
    OneMore(units, 8 * width);
  }

  lemma AllWritableStep(region: Region, rule: UpdateRule, offset: nat, index: nat, left: nat, width: nat)
    requires width > 0 && index < 8 * width && left > 0
    ensures var take := Min(8 * width - index, left);
      AllWritable(region, rule, offset, index, left, width)
      <==> (UnitStatus(region, rule, offset, take, width) == Ok
            && AllWritable(region, rule, offset + width, 0, left - take, width))
  {
    hide UnitStatus;
  }

  /** Bits of the unit value about to be written. */
  ghost predicate UnitValue(value: seq<bv8>, index: nat, take: nat, width: nat, rule: UpdateRule, now: seq<bv8>,
                            offset: nat, src: seq<bv8>, size: nat, done: nat)
    requires |value| == 8 && width <= 8 && offset + width <= |now| && size <= |src|
  {
    forall q: nat | q < 8 * width ::
      BitAt(value, q) == if index <= q < index + take then SourceBit(src, 0, 8 * size, done + q - index)
                         else Filler(rule, now, 8 * offset + q)
  }

  /** Bit `index` of the unit at `offset` is where the field goes on behind its first `done` bits. */
  predicate AtUnit(field: Unit, done: nat, left: nat, offset: nat, index: nat)
    requires field.Valid()
  {
    && index == (if done == 0 then field.bitOffset else 0) && 8 * offset + index == field.Base() + done
    && field.End() == 8 * offset + RoundUp(index + left, field.Width())
  }

  lemma AtFirstUnit(field: Unit)
    requires field.Valid()
    ensures AtUnit(field, 0, field.bitLength, field.byteOffset, field.bitOffset)
  {
  }

  lemma AtNextUnit(field: Unit, done: nat, left: nat, offset: nat, index: nat)
    requires field.Valid() && left > 0 && index < field.Width() && AtUnit(field, done, left, offset, index)
    ensures var take := Min(field.Width() - index, left);
      take < left ==> AtUnit(field, done + take, left - take, offset + field.accessWidth, 0)
  {
    RoundUpStep(index + left, field.Width());
    hide RoundUp;
  }

  lemma WriteMore(before: seq<bv8>, now: seq<bv8>, after: seq<bv8>, field: Unit, src: seq<bv8>, size: nat,
                  done: nat, value: seq<bv8>, offset: nat, index: nat, take: nat)
    requires field.Valid() && size <= |src| && |value| == 8
    requires Written(before, now, field, src, size, done)
    requires done < field.bitLength && index < field.Width()
    requires AtUnit(field, done, field.bitLength - done, offset, index)
    requires take == Min(field.Width() - index, field.bitLength - done)
    requires offset + field.accessWidth <= |before|
    requires UnitValue(value, index, take, field.accessWidth, field.rule, now, offset, src, size, done)
    requires after == now[..offset] + value[..field.accessWidth] + now[offset + field.accessWidth..]
    ensures Written(before, after, field, src, size, done + take)
  {
    hide Bit, RoundUp;
    UnitEnd(field, done, index, offset, take);
    forall p: nat | p < 8 * |before|
      ensures BitAt(after, p) ==
           if field.Base() <= p < field.Base() + done + take then SourceBit(src, 0, 8 * size, p - field.Base())
           else if 8 * field.byteOffset <= p < WrittenEnd(field, done + take) then Filler(field.rule, before, p)
           else BitAt(before, p)
    {
      if offset <= p / 8 < offset + field.accessWidth {
        var q := p - 8 * offset;
        assert q / 8 == p / 8 - offset && q % 8 == p % 8;
        assert BitAt(after, p) == BitAt(value, q);
        assert BitAt(now, p) == BitAt(before, p) || field.Base() <= p < field.Base() + done;
      } else {
        assert BitAt(after, p) == BitAt(now, p);
      }
    }
  }

  /** The unit that takes the field's last bit ends where the field's units end. */
  lemma UnitEnd(field: Unit, done: nat, index: nat, offset: nat, take: nat)
    requires field.Valid() && done < field.bitLength && index < field.Width()
    requires AtUnit(field, done, field.bitLength - done, offset, index)
    requires take == Min(field.Width() - index, field.bitLength - done)
    ensures WrittenEnd(field, done) == 8 * offset
    ensures WrittenEnd(field, done + take) == 8 * offset + field.Width()
  {
    RoundUpStep(index + field.bitLength - done, field.Width());
    hide RoundUp;
  }

  /** io.c:536-561: the destination unit starts as zero, ones, or what the region holds. */
  method UnitBackground(field: Unit, region: Region, byteOffset: nat, partly: bool, value: array<bv8>)
    returns (status: Status)
    requires field.Valid() && value.Length == 8 && value != region.bytes
    modifies value
    ensures status == if !partly then Ok
                      else if field.rule == Unknown then InvalidArgument
                      else if field.rule == Preserve && !region.CanRead(byteOffset, field.accessWidth) then AccessFailed
                      else Ok
    ensures status == Ok && partly && byteOffset + field.accessWidth <= region.bytes.Length ==>
      forall q: nat | q < field.Width() ::
        BitAt(value[..], q) == Filler(field.rule, region.bytes[..], 8 * byteOffset + q)
  {
    hide Bit;
    forall i | 0 <= i < 8 { value[i] := 0; }
    status := Ok;
    if partly {
      match field.rule
      case Preserve =>
        var ok := region.Read(byteOffset, field.accessWidth, value);
        if !ok {
          return AccessFailed;
        }
        OutBits(value[..], region.bytes[..], byteOffset, field.accessWidth);
      case WriteAsOnes =>
        forall i | 0 <= i < 8 { value[i] := !value[i]; }
        OnesBits(value[..]);
      case WriteAsZeroes =>
        ZeroBits(value[..]);
      case Unknown =>
        return InvalidArgument;
    }
  }

  lemma OnesBits(s: seq<bv8>)
    requires forall i | 0 <= i < |s| :: s[i] == 0xFF
    ensures forall q: nat | q < 8 * |s| :: BitAt(s, q)
  {
  }

  lemma ZeroBits(s: seq<bv8>)
    requires forall i | 0 <= i < |s| :: s[i] == 0
    ensures forall q: nat | q < 8 * |s| :: !BitAt(s, q)
  {
  }

  /** One turn of the write. */
  method WriteUnit(field: Unit, region: Region, byteOffset: nat, value: array<bv8>, srcSpan: BitSpan, dstSpan: BitSpan,
                   ghost before: seq<bv8>, ghost size: nat, ghost done: nat)
    returns (status: Status)
    requires field.Valid() && value.Length == 8 && dstSpan.data == value && srcSpan != dstSpan
    requires value != region.bytes && srcSpan.data != value && srcSpan.data != region.bytes
    requires size <= srcSpan.data.Length && |before| == region.bytes.Length
    requires srcSpan.index == Min(done, 8 * size) && srcSpan.length == 8 * size - srcSpan.index
    requires done < field.bitLength && dstSpan.index < field.Width()
    requires AtUnit(field, done, field.bitLength - done, byteOffset, dstSpan.index)
    requires dstSpan.length == Min(field.Width() - dstSpan.index, field.bitLength - done)
    requires Written(before, region.bytes[..], field, srcSpan.data[..], size, done)
    modifies value, region.bytes, srcSpan`index, srcSpan`length
    ensures status == UnitStatus(region, field.rule, byteOffset, dstSpan.length, field.accessWidth)
    ensures status == Ok ==>
      && Written(before, region.bytes[..], field, srcSpan.data[..], size, done + dstSpan.length)
      && srcSpan.index == Min(done + dstSpan.length, 8 * size) && srcSpan.length == 8 * size - srcSpan.index
    ensures status != Ok ==> region.bytes[..] == old(region.bytes[..])
  {
    hide Bit, BitAt, Written, Filler, AtUnit, UnitValue;
    var partly := dstSpan.index != 0 || dstSpan.length < field.Width();
    status := UnitBackground(field, region, byteOffset, partly, value);
    if status != Ok {
      return;
    }
    ghost var background := value[..];
    BitCopy.BitCopy(dstSpan, srcSpan);
    ghost var now := region.bytes[..];
    ghost var src := srcSpan.data[..];
    if byteOffset + field.accessWidth <= |now| {
      ValueOfUnit(background, value[..], dstSpan.index, dstSpan.length, field, now, byteOffset, src, size, done,
                  srcSpan.index, srcSpan.length, partly);
    }
    var _ := srcSpan.Offset(dstSpan.length);
    var ok := region.Write(byteOffset, field.accessWidth, value);
    if !ok {
      return AccessFailed;
    }
    WriteMore(before, now, region.bytes[..], field, src, size, done, value[..], byteOffset, dstSpan.index,
      dstSpan.length);
  }

  lemma ValueOfUnit(background: seq<bv8>, value: seq<bv8>, index: nat, take: nat, field: Unit, now: seq<bv8>,
                    offset: nat, src: seq<bv8>, size: nat, done: nat, at: nat, left: nat, partly: bool)
    requires field.Valid() && |background| == |value| == 8 && offset + field.accessWidth <= |now| && size <= |src|
    requires index + take <= field.Width() && partly == (index != 0 || take < field.Width())
    requires partly ==>
      forall q: nat | q < field.Width() :: BitAt(background, q) == Filler(field.rule, now, 8 * offset + q)
    requires at == Min(done, 8 * size) && left == 8 * size - at
    requires Copied(background, value, index, take, src, at, left)
    ensures UnitValue(value, index, take, field.accessWidth, field.rule, now, offset, src, size, done)
  {
    hide Bit, BitAt, Filler;
  }

  /**
   The write: succeeds exactly when every access it makes can.  Otherwise the units up to
   the failing one are written, the rest of the region is as before, and that unit's error is returned.
  */
  method WriteGeneric(field: Unit, region: Region, src: array<bv8>, size: nat) returns (status: Status, ghost done: nat)
    requires field.Valid()
    requires src != region.bytes && size <= src.Length
    modifies region.bytes
    ensures (status, done) ==
      Outcome(region, field.rule, field.byteOffset, field.bitOffset, field.bitLength, field.accessWidth)
    ensures AllWritten(old(region.bytes[..]), region.bytes[..], field, src[..], size, done)
  {
    hide Bit, BitAt, Written, AtUnit, Outcome, AllWritten, EndsUnit;
    var bitsLeft: nat, byteOffset: nat := field.bitLength, field.byteOffset;
    var value := new bv8[8];
    var srcSpan := new BitSpan(src, 0, 8 * size);
    var dstSpan := new BitSpan(value, field.bitOffset, 0);
    ghost var before := region.bytes[..];
    ghost var all := Outcome(region, field.rule, byteOffset, field.bitOffset, bitsLeft, field.accessWidth);
    done := 0;
    WrittenNone(before, field, src[..], size);
    AtFirstUnit(field);
    assert EndsUnit(field, 0) by { NoneEndsUnit(field); }
    while bitsLeft != 0
      invariant srcSpan.data == src && dstSpan.data == value
      invariant done + bitsLeft == field.bitLength
      invariant srcSpan.index == Min(done, 8 * size) && srcSpan.length == 8 * size - srcSpan.index
      invariant bitsLeft > 0 ==> AtUnit(field, done, bitsLeft, byteOffset, dstSpan.index)
      invariant EndsUnit(field, done)
      invariant dstSpan.index < field.Width()
      invariant StillEnds(all, Outcome(region, field.rule, byteOffset, dstSpan.index, bitsLeft, field.accessWidth),
                          done)
      invariant Written(before, region.bytes[..], field, src[..], size, done)
      decreases bitsLeft
    {
      OutcomeStep(region, field.rule, byteOffset, dstSpan.index, bitsLeft, field.accessWidth);
      AtNextUnit(field, done, bitsLeft, byteOffset, dstSpan.index);
      dstSpan.length := Min(field.Width() - dstSpan.index, bitsLeft);
      status := WriteUnit(field, region, byteOffset, value, srcSpan, dstSpan, before, size, done);
      if status != Ok {
        BitsWritten(before, region.bytes[..], field, src[..], size, done);
        return;
      }
      NextUnitEnd(field, done, bitsLeft, byteOffset, dstSpan.index);
      bitsLeft := bitsLeft - dstSpan.length;
      done := done + dstSpan.length;
      dstSpan.index := 0;
      byteOffset := byteOffset + field.accessWidth;
    }
    NothingToDo(region, field.rule, byteOffset, dstSpan.index, field.accessWidth);
    BitsWritten(before, region.bytes[..], field, src[..], size, done);
    return Ok, done;
  }

  lemma BitsWritten(before: seq<bv8>, after: seq<bv8>, field: Unit, src: seq<bv8>, size: nat, done: nat)
    requires field.Valid() && size <= |src| && done <= field.bitLength && EndsUnit(field, done)
    requires Written(before, after, field, src, size, done)
    ensures AllWritten(before, after, field, src, size, done)
  {
    hide Bit, BitAt, Written, BitWritten, EndsUnit;
    WrittenLength(before, after, field, src, size, done);
    forall p: nat | p < 8 * |before|
      ensures BitAt(after, p) == BitWritten(BitAt(before, p), field, src, size, done, p)
    {
      WrittenBit(before, after, field, src, size, done, p);
    }
  }

  lemma WrittenLength(before: seq<bv8>, after: seq<bv8>, field: Unit, src: seq<bv8>, size: nat, done: nat)
    requires field.Valid() && size <= |src| && Written(before, after, field, src, size, done)
    ensures |after| == |before|
  {
  }

  predicate StillEnds(all: (Status, nat), rest: (Status, nat), done: nat) {
    all == (rest.0, done + rest.1)
  }

  lemma StillEndsIs(all: (Status, nat), rest: (Status, nat), done: nat)
    requires StillEnds(all, rest, done)
    ensures all == (rest.0, done + rest.1)
  {
  }

  lemma OutcomeStep(region: Region, rule: UpdateRule, offset: nat, index: nat, left: nat, width: nat)
    requires width > 0 && index < 8 * width && left > 0
    ensures var take := Min(8 * width - index, left);
      var status := UnitStatus(region, rule, offset, take, width);
      var all := Outcome(region, rule, offset, index, left, width);
      if status != Ok then all == (status, 0)
      else StillEnds(all, Outcome(region, rule, offset + width, 0, left - take, width), take)
  {
    hide UnitStatus;
  }

  lemma WrittenNone(before: seq<bv8>, field: Unit, src: seq<bv8>, size: nat)
    requires field.Valid() && size <= |src|
    ensures Written(before, before, field, src, size, 0)
  {
    hide Bit;
  }

  // ----- what the two operations mean together

  /** A field that was written and then read gives the source, cut to or zero-extended over the field. */
  lemma WriteThenRead(before: seq<bv8>, after: seq<bv8>, field: Unit, src: seq<bv8>, size: nat, dst: seq<bv8>,
                      read: seq<bv8>, n: nat)
    requires field.Valid() && size <= |src| && n <= |dst|
    requires field.Base() + field.bitLength <= 8 * |after|
    requires AllWritten(before, after, field, src, size, field.bitLength)
    requires Copied(dst, read, 0, 8 * n, after, field.Base(), field.bitLength)
    ensures forall p: nat | p < 8 * n :: BitAt(read, p) == (p < field.bitLength && p < 8 * size && BitAt(src, p))
  {
    hide Bit, InWrittenUnit;
  }

  lemma WrittenSameLength(before: seq<bv8>, after: seq<bv8>, field: Unit, src: seq<bv8>, size: nat, done: nat)
    requires field.Valid() && size <= |src| && AllWritten(before, after, field, src, size, done)
    ensures |after| == |before|
  {
  }

  /** Under PRESERVE a write leaves every bit outside the field alone, also when it stops after `done` bits. */
  lemma PreserveKeepsNeighbours(before: seq<bv8>, after: seq<bv8>, field: Unit, src: seq<bv8>, size: nat, done: nat,
                                p: nat)
    requires field.Valid() && size <= |src| && field.rule == Preserve && p < 8 * |before|
    requires AllWritten(before, after, field, src, size, done)
    requires !(field.Base() <= p < field.Base() + field.bitLength)
    ensures |after| == |before| && BitAt(after, p) == BitAt(before, p)
  {
    hide Bit, InWrittenUnit;
  }

  /** Under the other two rules the bits around the field in its units are ones or zeroes. */
  lemma OthersFilled(before: seq<bv8>, after: seq<bv8>, field: Unit, src: seq<bv8>, size: nat, p: nat)
    requires field.Valid() && size <= |src| && p < 8 * |before| && field.bitLength > 0
    requires field.rule == WriteAsOnes || field.rule == WriteAsZeroes
    requires AllWritten(before, after, field, src, size, field.bitLength)
    requires !(field.Base() <= p < field.Base() + field.bitLength)
    ensures |after| == |before|
    ensures var first, end := 8 * field.byteOffset, 8 * field.byteOffset + field.bitOffset + field.bitLength;
      BitAt(after, p) == if first <= p && p - (p - first) % field.Width() < end then field.rule == WriteAsOnes
                         else BitAt(before, p)
  {
    if 8 * field.byteOffset <= p {
      var q, rest := DivisionOf(p - 8 * field.byteOffset, field.Width());
    }
    hide Bit;
  }

  /**
   A write followed by a read of the same field.  When both succeed, the read gives the source, cut to or
   zero-extended over the field; under PRESERVE, and also when the write fails, all other bits stay.
  */
  method WriteAndReadBack(field: Unit, region: Region, src: array<bv8>, size: nat, dst: array<bv8>, n: nat)
    returns (wrote: Status, got: Status)
    requires field.Valid() && src != region.bytes && dst != region.bytes && dst != src
    requires size <= src.Length && n <= dst.Length
    modifies region.bytes, dst
    ensures wrote == Ok <==>
      AllWritable(region, field.rule, field.byteOffset, field.bitOffset, field.bitLength, field.accessWidth)
    ensures got == Ok <==> AllReadable(region, field.byteOffset, field.bitOffset + field.bitLength, field.accessWidth)
    ensures wrote == Ok && got == Ok ==>
      forall p: nat | p < 8 * n :: BitAt(dst[..], p) == (p < field.bitLength && p < 8 * size && BitAt(src[..], p))
    ensures field.rule == Preserve ==>
      forall p: nat | p < 8 * region.bytes.Length && !(field.Base() <= p < field.Base() + field.bitLength) ::
        BitAt(region.bytes[..], p) == old(BitAt(region.bytes[..], p))
    ensures wrote == Ok && field.bitLength > 0 && (field.rule == WriteAsOnes || field.rule == WriteAsZeroes) ==>
      forall p: nat | p < 8 * region.bytes.Length && !(field.Base() <= p < field.Base() + field.bitLength) ::
        BitAt(region.bytes[..], p)
        == var first, end := 8 * field.byteOffset, 8 * field.byteOffset + field.bitOffset + field.bitLength;
           if first <= p && p - (p - first) % field.Width() < end then field.rule == WriteAsOnes
           else old(BitAt(region.bytes[..], p))
  {
    ghost var before := region.bytes[..];
    ghost var was := dst[..];
    ghost var units := FirstFailure(region, field.rule, field.byteOffset, field.bitOffset, field.bitLength,
                                    field.accessWidth);
    hide BitAt, AllWritten, Copied, Outcome, AllWritable, AllReadable, FailsAt;
    ghost var done;
    wrote, done := WriteGeneric(field, region, src, size);
    ghost var after := region.bytes[..];
    WrittenSameLength(before, after, field, src[..], size, done);
    if wrote == Ok && field.bitLength > 0 && (field.rule == WriteAsOnes || field.rule == WriteAsZeroes) {
      forall p: nat | p < 8 * |before| && !(field.Base() <= p < field.Base() + field.bitLength)
        ensures |after| == |before|
        ensures var first, end := 8 * field.byteOffset, 8 * field.byteOffset + field.bitOffset + field.bitLength;
          BitAt(after, p) == if first <= p && p - (p - first) % field.Width() < end then field.rule == WriteAsOnes
                             else BitAt(before, p)
      {
        OthersFilled(before, after, field, src[..], size, p);
      }
    }
    if field.rule == Preserve {
      forall p: nat | p < 8 * |before| && !(field.Base() <= p < field.Base() + field.bitLength)
        ensures |after| == |before| && BitAt(after, p) == BitAt(before, p)
      {
        PreserveKeepsNeighbours(before, after, field, src[..], size, done, p);
      }
    }
    got := ReadFieldUnit(field, region, dst, n);
    if wrote == Ok && got == Ok {
      WriteThenRead(before, after, field, src[..], size, was, dst[..], n);
    }
  }
}
