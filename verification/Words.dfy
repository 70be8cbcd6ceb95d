/** The bitwise functions of SHA-512, as the standard has them and as the code has them. */
module Words {
  type word = bv64

  /** The sum modulo 2^64. */
  function Plus(x: word, y: word): word { x + y }

  /** Section 4.1.3 of FIPS 180-4. */
  function Choose(x: word, y: word, z: word): word { (x & y) ^ (!x & z) }

  function Majority(x: word, y: word, z: word): word { (x & y) ^ (x & z) ^ (y & z) }

  function UpperSigma0(x: word): word { x.RotateRight(28) ^ x.RotateRight(34) ^ x.RotateRight(39) }

  function UpperSigma1(x: word): word { x.RotateRight(14) ^ x.RotateRight(18) ^ x.RotateRight(41) }

  function LowerSigma0(x: word): word { x.RotateRight(1) ^ x.RotateRight(8) ^ (x >> 7) }

  function LowerSigma1(x: word): word { x.RotateRight(19) ^ x.RotateRight(61) ^ (x >> 6) }

  /** The macros of the code. */
  function Ch(x: word, y: word, z: word): word { z ^ (x & (y ^ z)) }

  function Maj(x: word, y: word, z: word): word { ((x | y) & z) | (x & y) }

  function Sigma0(x: word): word { ((x >> 28) | (x << 36)) ^ ((x >> 34) | (x << 30)) ^ ((x >> 39) | (x << 25)) }

  function Sigma1(x: word): word { ((x >> 14) | (x << 50)) ^ ((x >> 18) | (x << 46)) ^ ((x >> 41) | (x << 23)) }

  function Gamma0(x: word): word { ((x >> 1) | (x << 63)) ^ ((x >> 8) | (x << 56)) ^ (x >> 7) }

  function Gamma1(x: word): word { ((x >> 19) | (x << 45)) ^ ((x >> 61) | (x << 3)) ^ (x >> 6) }

  lemma ChoiceBits(x: word, y: word, z: word)
    ensures z ^ (x & (y ^ z)) == (x & y) ^ (!x & z)
  {
  }

  lemma MajorityBits(x: word, y: word, z: word)
    ensures ((x | y) & z) | (x & y) == (x & y) ^ (x & z) ^ (y & z)
  {
  }

  lemma SameChoice(x: word, y: word, z: word)
    ensures Ch(x, y, z) == Choose(x, y, z)
  {
    ChoiceBits(x, y, z);
  }

  lemma SameMajority(x: word, y: word, z: word)
    ensures Maj(x, y, z) == Majority(x, y, z)
  {
    MajorityBits(x, y, z);
  }

  lemma SameSigmas(x: word)
    ensures Sigma0(x) == UpperSigma0(x) && Sigma1(x) == UpperSigma1(x) && Gamma0(x) == LowerSigma0(x) && Gamma1(x) == LowerSigma1(x)
  {
  }
}
