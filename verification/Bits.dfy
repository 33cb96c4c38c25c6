/**
 Bits of bytes, and byte sequences read as little-endian bit strings: bit p of a
 sequence is bit p % 8 of byte p / 8.
*/
module Bits {

  /** 1 << k, as a table: the verifier then never meets a shift by a variable amount. */
  function Pow(k: nat): bv8
    requires k < 8
  {
    if k == 0 then 0x1 else if k == 1 then 0x2 else if k == 2 then 0x4 else if k == 3 then 0x8
    else if k == 4 then 0x10 else if k == 5 then 0x20 else if k == 6 then 0x40 else 0x80
  }

  predicate Bit(b: bv8, k: nat)
    requires k < 8
  {
    b & Pow(k) != 0
  }

  predicate BitAt(s: seq<bv8>, p: nat)
    requires p < 8 * |s|
  {
    Bit(s[p / 8], p % 8)
  }

  /** A C int stored into a u8. */
  function Lo8(x: bv16): bv8 {
    (x & 0xFF) as bv8
  }

  /** Asserting this splits a proof into one case per shift amount or bit number. */
  predicate Upto7(k: nat) {
    k == 0 || k == 1 || k == 2 || k == 3 || k == 4 || k == 5 || k == 6 || k == 7
  }

  lemma PowIsOneBit(k: nat)
    requires k < 8
    ensures Pow(k) & (Pow(k) - 1) == 0 && Pow(k) != 0
  {
  }

  lemma ShlBit(b: bv8, s: nat, k: nat)
    requires s < 8 && k < 8
    ensures Bit(b << s, k) == (s <= k && Bit(b, k - s))
  {
  }

  lemma ShrBit(b: bv8, s: nat, k: nat)
    requires s < 8 && k < 8
    ensures Bit(b >> s, k) == (k + s < 8 && Bit(b, k + s))
  {
  }

  /** Two bytes with the same bits are the same byte. */
  lemma SameByte(x: bv8, y: bv8)
    requires forall k: nat | k < 8 :: Bit(x, k) == Bit(y, k)
    ensures x == y
  {
    assert Bit(x, 0) == Bit(y, 0) && Bit(x, 1) == Bit(y, 1) && Bit(x, 2) == Bit(y, 2);
    assert Bit(x, 3) == Bit(y, 3) && Bit(x, 4) == Bit(y, 4) && Bit(x, 5) == Bit(y, 5);
    assert Bit(x, 6) == Bit(y, 6) && Bit(x, 7) == Bit(y, 7);
  }

  /** Two byte sequences of one length with the same bits are the same sequence. */
  lemma SameBytes(s: seq<bv8>, t: seq<bv8>)
    requires |s| == |t|
    requires forall p: nat | p < 8 * |s| :: BitAt(s, p) == BitAt(t, p)
    ensures s == t
  {
    forall i | 0 <= i < |s| ensures s[i] == t[i] {
      var x, y := s[i], t[i];
      forall k: nat | k < 8 ensures Bit(x, k) == Bit(y, k) {
        assert BitAt(s, 8 * i + k) == BitAt(t, 8 * i + k);
      }
      SameByte(x, y);
    }
  }
}
