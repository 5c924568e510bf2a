/** Bytes as the digest and the block hold them, and the big-endian bit
    stream of a byte sequence: bit 0 is the most significant bit of byte 0,
    bit 8 the most significant bit of byte 1, and so on. */
module BitStream {

  /** An unsigned 8-bit value, one entry of a Uint8Array. */
  type byte = bv8

  /** 2 to the power n. */
  function Pow2(n: nat): nat
  {
    if n == 0 then 1 else 2 * Pow2(n - 1)
  }

  /** Bit t of byte b, counted from the most significant end (t == 0 is the top bit). */
  function TopBit(b: byte, t: nat): bv8
    requires t < 8
  {
    (b >> (7 - t)) & 1
  }

  /** Bit j of the big-endian bit stream of h. */
  function Bit(h: seq<byte>, j: nat): bv8
    requires j < 8 * |h|
  {
    TopBit(h[j / 8], j % 8)
  }

  /** The first n bits of the bit stream of h are all zero. */
  predicate LeadingZeroBits(h: seq<byte>, n: nat)
    requires n <= 8 * |h|
  {
    forall j | 0 <= j < n :: Bit(h, j) == 0
  }

  /** The top r bits of b are zero. */
  predicate TopBitsZero(b: byte, r: nat)
    requires r <= 8
  {
    forall t | 0 <= t < r :: TopBit(b, t) == 0
  }

  /** The top r bits of b are zero exactly when b shifted right by 8 - r is zero. */
  lemma {:induction false} ShiftedOutIffTopBitsZero(b: byte, r: nat)
    requires r <= 8
    ensures b >> (8 - r) == 0 <==> TopBitsZero(b, r)
  {
    if r > 0 {
      ShiftedOutIffTopBitsZero(b, r - 1);
      assert TopBitsZero(b, r) <==> TopBitsZero(b, r - 1) && TopBit(b, r - 1) == 0;
      ShiftOutOneBit(b, 8 - r);
    }
  }

  /** b >> s is zero when b >> (s + 1) is and bit s (from the bottom) is zero. */
  lemma ShiftOutOneBit(b: byte, s: nat)
    requires s < 8
    ensures b >> s == 0 <==> b >> (s + 1) == 0 && (b >> s) & 1 == 0
  {
    // One case per shift amount: with s symbolic the solver is unstable across seeds.
    if s == 0 {} else if s == 1 {} else if s == 2 {} else if s == 3 {}
    else if s == 4 {} else if s == 5 {} else if s == 6 {} else {}
  }

  /** A byte is zero exactly when all eight of its bits are. */
  lemma ByteZeroIffBitsZero(b: byte)
    ensures b == 0 <==> TopBitsZero(b, 8)
  {
    ShiftedOutIffTopBitsZero(b, 8);
  }

  /** The mask that keeps the top r bits of a byte, built as JavaScript builds it:
      255 shifted left 8 - r times in 32 bits, then cut back to 8 bits. */
  function TopMask(r: nat): bv32
    requires 0 < r < 8
  {
    ((0xFF as bv32) << (8 - r)) & 0xFF
  }

  /** The top-r mask has exactly the top r bits of a byte set. */
  lemma TopMaskBits(r: nat)
    requires 0 < r < 8
    ensures TopMask(r) as int == 256 - Pow2(8 - r)
  {
    // Unfolding Pow2 and one case per r: without them some solver seeds fail.
    assert Pow2(1) == 2 && Pow2(2) == 4 && Pow2(3) == 8 && Pow2(4) == 16;
    assert Pow2(5) == 32 && Pow2(6) == 64 && Pow2(7) == 128;
    if r == 1 {} else if r == 2 {} else if r == 3 {} else if r == 4 {}
    else if r == 5 {} else if r == 6 {} else {}
  }

  /** For 0 < r < 8: masking a byte with the top-r mask gives zero exactly when
      its top r bits are zero, which is exactly when the byte is below 2^(8-r). */
  lemma MaskedByte(b: byte, r: nat)
    requires 0 < r < 8
    ensures ((b as bv32) & TopMask(r) == 0) <==> TopBitsZero(b, r)
    ensures ((b as bv32) & TopMask(r) == 0) <==> (b as int) < Pow2(8 - r)
  {
    MaskKeepsShifted(b, r);
    ShiftedOutIffBelow(b, r);
    ShiftedOutIffTopBitsZero(b, r);
  }

  lemma MaskKeepsShifted(b: byte, r: nat)
    requires 0 < r < 8
    ensures ((b as bv32) & TopMask(r) == 0) <==> b >> (8 - r) == 0
  {
    // One case per r keeps each bit-vector query small and the proof stable across seeds.
    if r == 1 {} else if r == 2 {} else if r == 3 {} else if r == 4 {}
    else if r == 5 {} else if r == 6 {} else {}
  }

  lemma ShiftedOutIffBelow(b: byte, r: nat)
    requires 0 < r < 8
    ensures b >> (8 - r) == 0 <==> (b as int) < Pow2(8 - r)
  {
    assert Pow2(1) == 2 && Pow2(2) == 4 && Pow2(3) == 8 && Pow2(4) == 16;
    assert Pow2(5) == 32 && Pow2(6) == 64 && Pow2(7) == 128;
    if r == 1 {} else if r == 2 {} else if r == 3 {} else if r == 4 {}
    else if r == 5 {} else if r == 6 {} else {}
  }

  /** Shifting 255 left once more is shifting it one place further. */
  lemma ShiftOnceMore(j: nat)
    requires j < 15
    ensures ((0xFF as bv32) << j) << 1 == (0xFF as bv32) << (j + 1)
  {
  }

  /** Shifted left by 8 or more places, 255 has no bit left in the low byte. */
  lemma ShiftedPastByte(n: nat)
    requires 8 <= n <= 15
    ensures ((0xFF as bv32) << n) & 0xFF == 0
  {
  }
}
