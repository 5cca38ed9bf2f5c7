/** Squirrel3 noise: a seven-step 32-bit mix of a position and a seed, with
    two- and three-coordinate overloads that fold the coordinates into one
    position. Every step is `unchecked` `uint` arithmetic, so each sum and
    product is reduced modulo 2^32 explicitly. */
module Squirrel3Noise {
  import opened Numeric

  const NOISE1: U32 := 0xb5297a4d
  const NOISE2: U32 := 0x68e31da4
  const NOISE3: U32 := 0x1b56c4e9

  /** The multiplicative inverse of NOISE1 modulo 2^32 (NOISE1 is odd). */
  const NOISE1_INVERSE: U32 := 0xeef04e85

  const PRIME1: int := 198491317
  const PRIME2: int := 6542089

  /** The noise generator: an immutable seed, fixed at construction. */
  datatype Squirrel3 = Squirrel3(seed: U32)

  /** The part of the mix that follows the addition of the seed; the seed
      does not occur in it. */
  function Scramble(m: U32): U32 {
    ShiftXor(Multiply(ShiftXorLeft(Offset(ShiftXor(m)))))
  }

  // The four kinds of step of the mix.

  /** `m ^= m >> 8` */
  function ShiftXor(m: U32): U32 { Xor32(m, m / 256) }
  /** `m += NOISE2` */
  function Offset(m: U32): U32 { (m + NOISE2) % TWO32 }
  /** `m ^= m << 8` */
  function ShiftXorLeft(m: U32): U32 { Xor32(m, (m * 256) % TWO32) }
  /** `m *= NOISE3` */
  function Multiply(m: U32): U32 { (m * NOISE3) % TWO32 }

  /** The position bits after the wrapping multiplication by NOISE1 and the
      wrapping addition of the seed. */
  function Seeded(noise: Squirrel3, position: int): U32 {
    (ToUInt32(position) * NOISE1 % TWO32 + noise.seed) % TWO32
  }

  /** The noise of `position`: the seed enters only through `Seeded`. */
  function Hash(noise: Squirrel3, position: int): U32 {
    Scramble(Seeded(noise, position))
  }

  /** The one-coordinate indexer, step by step on the local `mangledBits`. */
  method Get(noise: Squirrel3, position: int) returns (mangledBits: U32)
    ensures mangledBits == Hash(noise, position)
  {
    mangledBits := ToUInt32(position);
    mangledBits := mangledBits * NOISE1 % TWO32;
    mangledBits := (mangledBits + noise.seed) % TWO32;
    mangledBits := ShiftXor(mangledBits);
    mangledBits := Offset(mangledBits);
    mangledBits := ShiftXorLeft(mangledBits);
    mangledBits := Multiply(mangledBits);
    mangledBits := ShiftXor(mangledBits);
  }

  /** The two-coordinate indexer: the position is `x + y * PRIME1`. */
  function Hash2(noise: Squirrel3, x: int, y: int): U32 {
    Hash(noise, x + y * PRIME1)
  }

  /** The three-coordinate indexer: the position is `x + y * PRIME1 + z * PRIME2`. */
  function Hash3(noise: Squirrel3, x: int, y: int, z: int): U32 {
    Hash(noise, x + y * PRIME1 + z * PRIME2)
  }

  /** Only the low 32 bits of a position matter, so folding the coordinates
      with 32-bit `int` wrap-around, as C# does, gives the same hash. */
  lemma FoldWraps(noise: Squirrel3, x: int, y: int, z: int)
    ensures Hash2(noise, x, y) == Hash(noise, ToInt32(x + y * PRIME1))
    ensures Hash3(noise, x, y, z) == Hash(noise, ToInt32(x + y * PRIME1 + z * PRIME2))
  {
    var a, b := x + y * PRIME1, x + y * PRIME1 + z * PRIME2;
    assert Seeded(noise, a) == Seeded(noise, ToInt32(a)) by { ToInt32Wraps(a); }
    assert Seeded(noise, b) == Seeded(noise, ToInt32(b)) by { ToInt32Wraps(b); }
  }

  /** A negative position hashes as its two's-complement reinterpretation. */
  lemma NegativePosition(noise: Squirrel3, position: int)
    requires -TWO31 <= position < 0
    ensures ToUInt32(position) == position + TWO32
    ensures Hash(noise, position) == Hash(noise, position + TWO32)
  {
    ModUnique(position, TWO32, -1, position + TWO32);
    ModUnique(position + TWO32, TWO32, 0, position + TWO32);
    assert Seeded(noise, position) == Seeded(noise, position + TWO32);
  }

  /** With `z = 0` the three-coordinate hash is the two-coordinate one. */
  lemma ThreeDimensionsAtZero(noise: Squirrel3, x: int, y: int)
    ensures Hash3(noise, x, y, 0) == Hash2(noise, x, y)
  {
  }

  /** The two wrapping steps before `Scramble` are one reduction of
      `position * NOISE1 + seed`. */
  lemma SeededIsAffine(noise: Squirrel3, position: int)
    ensures Seeded(noise, position) == (position * NOISE1 + noise.seed) % TWO32
  {
    var u := ToUInt32(position);
    assert u == position % TWO32;
    ModMul(position, NOISE1, TWO32);
    assert u * NOISE1 % TWO32 == position * NOISE1 % TWO32;
    ModAdd(position * NOISE1, noise.seed, TWO32);
  }

  /** The seed acts as a shift of the position: the hash under any seed is the
      hash under seed 0 at a position moved by `seed * NOISE1^-1`. */
  lemma SeedIsPositionShift(seed: U32, position: int)
    ensures Hash(Squirrel3(seed), position) == Hash(Squirrel3(0), position + seed * NOISE1_INVERSE)
  {
    var shifted := position + seed * NOISE1_INVERSE;
    SeededIsAffine(Squirrel3(seed), position);
    SeededIsAffine(Squirrel3(0), shifted);
    assert NOISE1_INVERSE * NOISE1 == 1 + TWO32 * 2836831783;
    assert shifted * NOISE1 == position * NOISE1 + seed + TWO32 * (seed * 2836831783) by {
      assert shifted * NOISE1 == position * NOISE1 + seed * (NOISE1_INVERSE * NOISE1);
    }
    ModAddMultiple(position * NOISE1 + seed, TWO32, seed * 2836831783);
  }
}
