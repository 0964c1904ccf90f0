/**
  `HashHelpers_Combine`, the 32-bit hash mixer both versions of the
  equatable array share, on 32-bit patterns.
 */
module HashCombine {

  /** `((uint)h1 << 5) | ((uint)h1 >> 27)` */
  function RotateLeft5(h: bv32): bv32 {
    (h << 5) | (h >> 27)
  }

  /** The two shifts make up the 32-bit rotation left by 5. */
  lemma RotateLeft5IsRotation(h: bv32)
    ensures RotateLeft5(h) == h.RotateLeft(5)
  {
  }

  lemma XorInjective(x: bv32, a: bv32, b: bv32)
    requires x ^ a == x ^ b
    ensures a == b
  {
  }

  /**
    `HashHelpers_Combine(h1, h2)`: the rotation of `h1` plus `h1`, with
    wrap-around, exclusive-or `h2`. `int` and `uint` are both read as their
    32-bit patterns, which is exact for `+` and `^` in unchecked C#.
   */
  function Combine(h1: bv32, h2: bv32): (r: bv32)
    ensures r ^ (RotateLeft5(h1) + h1) == h2
  {
    (RotateLeft5(h1) + h1) ^ h2
  }

  /** For a fixed running hash, different element hashes give different results. */
  lemma CombineInjective(h1: bv32, a: bv32, b: bv32)
    requires Combine(h1, a) == Combine(h1, b)
    ensures a == b
  {
    XorInjective(RotateLeft5(h1) + h1, a, b);
  }
}
