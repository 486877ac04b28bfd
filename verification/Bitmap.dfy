/** The packed allocation bitmap: one bit per heap block, eight blocks per byte. */
module Bitmap {

  /** `1 << (bit % 8)` as the byte the bitmap helpers combine with. */
  function Mask(k: nat): bv8
    requires k < 8
  {
    1 << k
  }

  predicate BitIn(b: bv8, k: nat)
    requires k < 8
  {
    b & Mask(k) != 0
  }

  function WithBit(b: bv8, k: nat): bv8
    requires k < 8
  {
    b | Mask(k)
  }

  function WithoutBit(b: bv8, k: nat): bv8
    requires k < 8
  {
    b & !Mask(k)
  }

  predicate TestBit(bits: seq<bv8>, i: nat)
    requires i < 8 * |bits|
  {
    BitIn(bits[i / 8], i % 8)
  }

  /** What the packed bytes mean: a flag for every block. */
  function Unpack(bits: seq<bv8>): (flags: seq<bool>)
    ensures |flags| == 8 * |bits|
    ensures forall i :: 0 <= i < |flags| ==> flags[i] == TestBit(bits, i)
  {
    seq(8 * |bits|, i requires 0 <= i < 8 * |bits| => TestBit(bits, i))
  }

  /** Block `i` is the bit of weight 2^(i mod 8) in byte `i / 8`. */
  lemma BitWeight(bits: seq<bv8>, i: nat)
    requires i < 8 * |bits|
    ensures Unpack(bits)[i] <==> (bits[i / 8] >> (i % 8)) & 1 == 1
  {
    MaskCases(i % 8);
  }

  lemma SetInByte(b: bv8, k: nat, j: nat)
    requires k < 8 && j < 8
    ensures BitIn(WithBit(b, k), j) == (j == k || BitIn(b, j))
  {
    MaskCases(k);
    MaskCases(j);
  }

  lemma ClearInByte(b: bv8, k: nat, j: nat)
    requires k < 8 && j < 8
    ensures BitIn(WithoutBit(b, k), j) == (j != k && BitIn(b, j))
  {
    MaskCases(k);
    MaskCases(j);
  }

  lemma MaskCases(k: nat)
    requires k < 8
    ensures Mask(k) == [1, 2, 4, 8, 16, 32, 64, 128][k]
  {
  }

  /** Setting one bit of the packed bytes sets exactly that block's flag. */
  lemma SetBit(bits: seq<bv8>, i: nat)
    requires i < 8 * |bits|
    ensures Unpack(bits[i / 8 := WithBit(bits[i / 8], i % 8)]) == Unpack(bits)[i := true]
  {
    hide BitIn, WithBit, WithoutBit;
    var after := bits[i / 8 := WithBit(bits[i / 8], i % 8)];
    forall j | 0 <= j < 8 * |bits|
      ensures TestBit(after, j) == (j == i || TestBit(bits, j))
    {
      SetInByte(bits[i / 8], i % 8, j % 8);
    }
  }

  /** Clearing one bit of the packed bytes clears exactly that block's flag. */
  lemma ClearBit(bits: seq<bv8>, i: nat)
    requires i < 8 * |bits|
    ensures Unpack(bits[i / 8 := WithoutBit(bits[i / 8], i % 8)]) == Unpack(bits)[i := false]
  {
    hide BitIn, WithBit, WithoutBit;
    var after := bits[i / 8 := WithoutBit(bits[i / 8], i % 8)];
    forall j | 0 <= j < 8 * |bits|
      ensures TestBit(after, j) == (j != i && TestBit(bits, j))
    {
      ClearInByte(bits[i / 8], i % 8, j % 8);
    }
  }

  lemma ByteFromBits(b: bv8, c: bv8)
    requires forall k :: 0 <= k < 8 ==> BitIn(b, k) == BitIn(c, k)
    ensures b == c
  {
    assert Mask(0) == 1 && Mask(1) == 2 && Mask(2) == 4 && Mask(3) == 8;
    assert Mask(4) == 16 && Mask(5) == 32 && Mask(6) == 64 && Mask(7) == 128;
    assert BitIn(b, 0) == BitIn(c, 0) && BitIn(b, 1) == BitIn(c, 1);
    assert BitIn(b, 2) == BitIn(c, 2) && BitIn(b, 3) == BitIn(c, 3);
    assert BitIn(b, 4) == BitIn(c, 4) && BitIn(b, 5) == BitIn(c, 5);
    assert BitIn(b, 6) == BitIn(c, 6) && BitIn(b, 7) == BitIn(c, 7);
  }

  /** The flags determine the bytes: a restored set of flags is a restored bitmap. */
  lemma UnpackInjective(a: seq<bv8>, b: seq<bv8>)
    requires Unpack(a) == Unpack(b)
    ensures a == b
  {
    assert |a| == |b| by {
      assert |Unpack(a)| == |Unpack(b)|;
    }
    forall i | 0 <= i < |a|
      ensures a[i] == b[i]
    {
      forall k | 0 <= k < 8
        ensures BitIn(a[i], k) == BitIn(b[i], k)
      {
        assert Unpack(a)[8 * i + k] == TestBit(a, 8 * i + k);
        assert Unpack(b)[8 * i + k] == TestBit(b, 8 * i + k);
        assert (8 * i + k) / 8 == i && (8 * i + k) % 8 == k;
      }
      ByteFromBits(a[i], b[i]);
    }
  }
}
