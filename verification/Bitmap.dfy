/** Bits packed eight to a byte, bit i % 8 of byte i / 8. */
module Bitmap {

  /** 1 << k, written out so that proofs need not shift by a variable amount. */
  function Mask(k: nat): (m: bv8)
    requires k < 8
    ensures m != 0
  {
    if k < 4 then (if k < 2 then (if k == 0 then 0x01 else 0x02) else (if k == 2 then 0x04 else 0x08))
    else (if k < 6 then (if k == 4 then 0x10 else 0x20) else (if k == 6 then 0x40 else 0x80))
  }

  lemma MaskIsShift(k: nat)
    requires k < 8
    ensures Mask(k) == (1 as bv8) << k
  {
    if k == 0 {} else if k == 1 {} else if k == 2 {} else if k == 3 {} else if k == 4 {} else if k == 5 {} else if k == 6 {}
  }

  predicate Bit(b: bv8, k: nat)
    requires k < 8
  {
    b & Mask(k) != 0
  }

  lemma SetOneBit(b: bv8, k: nat, j: nat)
    requires k < 8 && j < 8
    ensures Bit(b | Mask(k), j) == (j == k || Bit(b, j))
  {
  }

  lemma ClearOneBit(b: bv8, k: nat, j: nat)
    requires k < 8 && j < 8
    ensures Bit(b & !Mask(k), j) == (j != k && Bit(b, j))
  {
  }

  /** Bit i of a byte string. */
  predicate BitAt(bytes: seq<bv8>, i: nat)
    requires i < 8 * |bytes|
  {
    Bit(bytes[i / 8], i % 8)
  }

  /** Bit k of byte j, shifted down to the end of the byte. */
  lemma BitAtIs(bytes: seq<bv8>, j: nat, k: nat)
    requires j < |bytes| && k < 8
    ensures BitAt(bytes, 8 * j + k) <==> (bytes[j] >> k) & 1 == 1
  {
    assert (8 * j + k) / 8 == j && (8 * j + k) % 8 == k;
    BitIsShift(bytes[j], k);
  }

  lemma BitIsShift(b: bv8, k: nat)
    requires k < 8
    ensures Bit(b, k) <==> (b >> k) & 1 == 1
  {
    if k < 4 {
      if k == 0 {} else if k == 1 {} else if k == 2 {} else {}
    } else {
      if k == 4 {} else if k == 5 {} else if k == 6 {} else {}
    }
  }

  /** bitmap[i / 8] |= 1 << i % 8 */
  function SetAt(bytes: seq<bv8>, i: nat): (r: seq<bv8>)
    requires i < 8 * |bytes|
    ensures |r| == |bytes|
  {
    bytes[i / 8 := bytes[i / 8] | Mask(i % 8)]
  }

  /** bitmap[i / 8] &= ~(1 << i % 8) */
  function ClearAt(bytes: seq<bv8>, i: nat): (r: seq<bv8>)
    requires i < 8 * |bytes|
    ensures |r| == |bytes|
  {
    bytes[i / 8 := bytes[i / 8] & !Mask(i % 8)]
  }

  lemma SetAtBit(bytes: seq<bv8>, i: nat, j: nat)
    requires i < 8 * |bytes| && j < 8 * |bytes|
    ensures BitAt(SetAt(bytes, i), j) == (j == i || BitAt(bytes, j))
  {
    SetOneBit(bytes[i / 8], i % 8, j % 8);
  }

  lemma ClearAtBit(bytes: seq<bv8>, i: nat, j: nat)
    requires i < 8 * |bytes| && j < 8 * |bytes|
    ensures BitAt(ClearAt(bytes, i), j) == (j != i && BitAt(bytes, j))
  {
    ClearOneBit(bytes[i / 8], i % 8, j % 8);
  }

  /** `bits` is what the bytes store. */
  ghost predicate Stores(bytes: seq<bv8>, bits: seq<bool>)
  {
    |bits| == 8 * |bytes| && forall i {:trigger BitAt(bytes, i)} :: 0 <= i < |bits| ==> bits[i] == BitAt(bytes, i)
  }

  lemma SetStores(bytes: seq<bv8>, bits: seq<bool>, i: nat)
    requires Stores(bytes, bits) && i < |bits|
    ensures Stores(SetAt(bytes, i), bits[i := true])
  {
    forall j | 0 <= j < |bits| ensures bits[i := true][j] == BitAt(SetAt(bytes, i), j) {
      SetAtBit(bytes, i, j);
    }
  }

  lemma ClearStores(bytes: seq<bv8>, bits: seq<bool>, i: nat)
    requires Stores(bytes, bits) && i < |bits|
    ensures Stores(ClearAt(bytes, i), bits[i := false])
  {
    forall j | 0 <= j < |bits| ensures bits[i := false][j] == BitAt(ClearAt(bytes, i), j) {
      ClearAtBit(bytes, i, j);
    }
  }

  /** Every byte string stores exactly one bit string. */
  ghost function BitsOf(bytes: seq<bv8>): (bits: seq<bool>)
    ensures Stores(bytes, bits)
  {
    seq(8 * |bytes|, i requires 0 <= i < 8 * |bytes| => BitAt(bytes, i))
  }

  lemma ByteFromBits(a: bv8, b: bv8)
    requires (a & 0x01 != 0) == (b & 0x01 != 0) && (a & 0x02 != 0) == (b & 0x02 != 0)
    requires (a & 0x04 != 0) == (b & 0x04 != 0) && (a & 0x08 != 0) == (b & 0x08 != 0)
    requires (a & 0x10 != 0) == (b & 0x10 != 0) && (a & 0x20 != 0) == (b & 0x20 != 0)
    requires (a & 0x40 != 0) == (b & 0x40 != 0) && (a & 0x80 != 0) == (b & 0x80 != 0)
    ensures a == b
  {
  }

  /** Two bytes with the same eight bits are the same byte. */
  lemma SameBitsSameByte(a: bv8, b: bv8)
    requires forall k :: 0 <= k < 8 ==> Bit(a, k) == Bit(b, k)
    ensures a == b
  {
    EightBits(a);
    EightBits(b);
    assert Bit(a, 0) == Bit(b, 0) && Bit(a, 1) == Bit(b, 1) && Bit(a, 2) == Bit(b, 2) && Bit(a, 3) == Bit(b, 3);
    assert Bit(a, 4) == Bit(b, 4) && Bit(a, 5) == Bit(b, 5) && Bit(a, 6) == Bit(b, 6) && Bit(a, 7) == Bit(b, 7);
    ByteFromBits(a, b);
  }

  lemma EightBits(a: bv8)
    ensures Bit(a, 0) == (a & 0x01 != 0) && Bit(a, 1) == (a & 0x02 != 0) && Bit(a, 2) == (a & 0x04 != 0)
    ensures Bit(a, 3) == (a & 0x08 != 0) && Bit(a, 4) == (a & 0x10 != 0) && Bit(a, 5) == (a & 0x20 != 0)
    ensures Bit(a, 6) == (a & 0x40 != 0) && Bit(a, 7) == (a & 0x80 != 0)
  {
  }

  /** A bit string is stored by at most one byte string. */
  lemma StoresInjective(a: seq<bv8>, b: seq<bv8>, bits: seq<bool>)
    requires Stores(a, bits) && Stores(b, bits)
    ensures a == b
  {
    forall q | 0 <= q < |a| ensures a[q] == b[q] {
      forall k | 0 <= k < 8 ensures Bit(a[q], k) == Bit(b[q], k) {
        assert BitAt(a, 8 * q + k) == bits[8 * q + k] == BitAt(b, 8 * q + k);
      }
      SameBitsSameByte(a[q], b[q]);
    }
  }
}
