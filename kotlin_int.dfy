/**
 * Kotlin's 32-bit `Int` as a two's-complement bit pattern (`bv32`), and the
 * facts about the value of such a pattern that the codec needs. The value is
 * assembled from the four bytes of the pattern, the top byte signed.
 */
module KotlinInt {
  /** Byte `k` (0 = least significant) of an `Int` bit pattern, as a number in [0, 255]. */
  function ByteOf(bits: bv32, k: nat): (b: int)
    requires k < 4
    ensures 0 <= b < 256
  {
    var shifted := if k == 0 then bits else if k == 1 then bits >> 8 else if k == 2 then bits >> 16 else bits >> 24;
    ((shifted & 0xFF) as bv8) as int
  }

  /** The value of an `Int` bit pattern: the top byte counts from -128 to 127. */
  function Signed(bits: bv32): int {
    var top := ByteOf(bits, 3);
    (if top < 128 then top else top - 256) * 0x100_0000
      + ByteOf(bits, 2) * 0x1_0000 + ByteOf(bits, 1) * 0x100 + ByteOf(bits, 0)
  }

  lemma TopByteBelow(bits: bv32, bound: bv32, limit: int)
    requires bound <= 0x100 && limit == bound as int
    ensures bits >> 24 < bound <==> ByteOf(bits, 3) < limit
  {
  }

  /** The two top bits are clear exactly for the `Int`s in [0, 2^30 - 1]. */
  lemma NonNegativeDeltaRange(value: bv32)
    ensures value >> 30 == 0 <==> 0 <= Signed(value) <= 0x3FFF_FFFF
  {
    assert value >> 30 == 0 <==> value >> 24 < 64;
    TopByteBelow(value, 64, 64);
  }

  /** The two top bits are set exactly for the `Int`s in [-2^30, -1]. */
  lemma NegativeDeltaRange(value: bv32)
    ensures value >> 30 == 3 <==> -0x4000_0000 <= Signed(value) < 0
  {
    assert value >> 30 == 3 <==> !(value >> 24 < 192);
    TopByteBelow(value, 192, 192);
  }

  /** A bit pattern below the sign bit is a non-negative `Int`. */
  lemma SignedBelowSignBit(bits: bv32)
    requires bits < 0x8000_0000
    ensures Signed(bits) >= 0
  {
    assert bits >> 24 < 128;
    TopByteBelow(bits, 128, 128);
  }

  /** A byte survives the round trip through its number. */
  lemma ByteRoundTrip(b: bv8)
    ensures (b as int) as bv8 == b
  {
  }

  /** A value that fits in a byte survives the round trip through that byte. */
  lemma NarrowRoundTrip(x: bv32)
    requires x < 0x100
    ensures (x as bv8) as bv32 == x
  {
  }
}
