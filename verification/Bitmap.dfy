/** Byte-addressed bitmaps and the set of bits they stand for. */
module Bitmap {
  /** 1 << j */
  function Mask(j: nat): bv8
    requires j < 8
  {
    (1 as bv8) << j
  }

  predicate BitIn(b: bv8, j: nat)
    requires j < 8
  {
    b & Mask(j) != 0
  }

  predicate BitAt(bits: seq<bv8>, n: nat)
    requires n < 8 * |bits|
  {
    BitIn(bits[n / 8], n % 8)
  }

  /** The abstract value of a bitmap: the numbers of the bits that are set. */
  function Bits(bits: seq<bv8>): set<nat> {
    set n: nat | n < 8 * |bits| && BitAt(bits, n)
  }

  lemma MaskValues()
    ensures Mask(0) == 1 && Mask(1) == 2 && Mask(2) == 4 && Mask(3) == 8
    ensures Mask(4) == 16 && Mask(5) == 32 && Mask(6) == 64 && Mask(7) == 128
  {
  }

  lemma OrMask(b: bv8, j: nat, k: nat)
    requires j < 8 && k < 8
    ensures BitIn(b | Mask(j), k) <==> k == j || BitIn(b, k)
  {
    MaskValues();
    var m, n := Mask(j), Mask(k);
    assert j != k ==> m & n == 0;
    assert (b | m) & n == (b & n) | (m & n);
    assert m & m == m;
  }

  lemma AndNotMask(b: bv8, j: nat, k: nat)
    requires j < 8 && k < 8
    ensures BitIn(b & !Mask(j), k) <==> k != j && BitIn(b, k)
  {
    MaskValues();
    var m, n := Mask(j), Mask(k);
    assert j != k ==> !m & n == n;
    assert (b & !m) & n == b & (!m & n);
    assert !m & m == 0;
  }

  lemma FullByte(j: nat)
    requires j < 8
    ensures BitIn(0xFF, j)
  {
    MaskValues();
  }

  /** Testing one bit of one byte is testing membership. */
  lemma BitMeans(bits: seq<bv8>, i: nat, j: nat)
    requires i < |bits| && j < 8
    ensures 8 * i + j in Bits(bits) <==> BitIn(bits[i], j)
  {
    assert BitAt(bits, 8 * i + j) == BitIn(bits[i], j);
  }

  lemma FullByteBits(bits: seq<bv8>, i: nat)
    requires i < |bits| && bits[i] == 0xFF
    ensures forall n :: 8 * i <= n < 8 * i + 8 ==> n in Bits(bits)
  {
    forall n | 8 * i <= n < 8 * i + 8
      ensures n in Bits(bits)
    {
      FullByte(n - 8 * i);
      BitMeans(bits, i, n - 8 * i);
    }
  }

  /** bits[i] |= 1 << j adds exactly bit 8i + j. */
  lemma SetBit(bits: seq<bv8>, i: nat, j: nat)
    requires i < |bits| && j < 8
    ensures Bits(bits[i := bits[i] | Mask(j)]) == Bits(bits) + {8 * i + j}
  {
    var after := bits[i := bits[i] | Mask(j)];
    forall n: nat | n < 8 * |bits|
      ensures BitAt(after, n) <==> n == 8 * i + j || BitAt(bits, n)
    {
      OrMask(bits[i], j, n % 8);
    }
  }

  /** bits[i] &= ~(1 << j) removes exactly bit 8i + j. */
  lemma ClearBit(bits: seq<bv8>, i: nat, j: nat)
    requires i < |bits| && j < 8
    ensures Bits(bits[i := bits[i] & !Mask(j)]) == Bits(bits) - {8 * i + j}
  {
    var after := bits[i := bits[i] & !Mask(j)];
    forall n: nat | n < 8 * |bits|
      ensures BitAt(after, n) <==> n != 8 * i + j && BitAt(bits, n)
    {
      AndNotMask(bits[i], j, n % 8);
    }
  }

  /** The same, by number. */
  lemma ClearNumber(bits: seq<bv8>, n: nat)
    requires n / 8 < |bits|
    ensures Bits(bits[n / 8 := bits[n / 8] & !Mask(n % 8)]) == Bits(bits) - {n}
  {
    ClearBit(bits, n / 8, n % 8);
    assert 8 * (n / 8) + n % 8 == n;
  }

  lemma PastTheMap(bits: seq<bv8>, n: nat)
    requires n / 8 >= |bits|
    ensures n !in Bits(bits)
  {
  }
}
