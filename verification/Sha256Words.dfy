/** The word functions of sections 3.2 and 4.1.2 of FIPS 180-4, and the forms the source uses for them. */
module Sha256Words {
  type Word = bv32

  /** Section 3.2. */
  function Rotr(x: Word, n: Word): Word
    requires 0 < n < 32
  {
    (x >> n) | (x << (32 - n))
  }

  // Sums and exclusive ors have names, so that proofs about the order of things need not look into the bits.

  function Add(x: Word, y: Word): Word { x + y }

  function Sum4(a: Word, b: Word, c: Word, d: Word): Word { a + b + c + d }

  function Sum5(a: Word, b: Word, c: Word, d: Word, e: Word): Word { a + b + c + d + e }

  function Xor3(x: Word, y: Word, z: Word): Word { x ^ y ^ z }

  function Ch(x: Word, y: Word, z: Word): Word { (x & y) ^ (!x & z) }

  function Maj(x: Word, y: Word, z: Word): Word { (x & y) ^ (x & z) ^ (y & z) }

  function BigSigma0(x: Word): Word { Xor3(Rotr(x, 2), Rotr(x, 13), Rotr(x, 22)) }

  function BigSigma1(x: Word): Word { Xor3(Rotr(x, 6), Rotr(x, 11), Rotr(x, 25)) }

  function SmallSigma0(x: Word): Word { Xor3(Rotr(x, 7), Rotr(x, 18), x >> 3) }

  function SmallSigma1(x: Word): Word { Xor3(Rotr(x, 17), Rotr(x, 19), x >> 10) }

  // ----- the word functions as the source writes them -----

  function ChFast(x: Word, y: Word, z: Word): Word { z ^ (x & (y ^ z)) }

  function MajFast(x: Word, y: Word, z: Word): Word { ((x | y) & z) | (x & y) }

  function Rot(x: Word, n: Word): Word { (x >> (n & 31)) | (x << (32 - (n & 31))) }

  function Sigma0(x: Word): Word { Xor3(Rot(x, 2), Rot(x, 13), Rot(x, 22)) }

  function Sigma1(x: Word): Word { Xor3(Rot(x, 6), Rot(x, 11), Rot(x, 25)) }

  function Gamma0(x: Word): Word { Xor3(Rot(x, 7), Rot(x, 18), x >> 3) }

  function Gamma1(x: Word): Word { Xor3(Rot(x, 17), Rot(x, 19), x >> 10) }

  lemma ChAgrees(x: Word, y: Word, z: Word)
    ensures ChFast(x, y, z) == Ch(x, y, z)
  {
    assert z ^ (x & (y ^ z)) == (x & y) ^ (!x & z);
  }

  lemma MajAgrees(x: Word, y: Word, z: Word)
    ensures MajFast(x, y, z) == Maj(x, y, z)
  {
    assert ((x | y) & z) | (x & y) == (x & y) ^ (x & z) ^ (y & z);
  }

  /** The rotation counts in use, none of which the mask changes. */
  lemma RotAgrees(x: Word)
    ensures Rot(x, 2) == Rotr(x, 2) && Rot(x, 13) == Rotr(x, 13) && Rot(x, 22) == Rotr(x, 22)
    ensures Rot(x, 6) == Rotr(x, 6) && Rot(x, 11) == Rotr(x, 11) && Rot(x, 25) == Rotr(x, 25)
    ensures Rot(x, 7) == Rotr(x, 7) && Rot(x, 18) == Rotr(x, 18)
    ensures Rot(x, 17) == Rotr(x, 17) && Rot(x, 19) == Rotr(x, 19)
  {
  }

  lemma SigmasAgree(x: Word)
    ensures Sigma0(x) == BigSigma0(x) && Sigma1(x) == BigSigma1(x)
    ensures Gamma0(x) == SmallSigma0(x) && Gamma1(x) == SmallSigma1(x)
  {
    RotAgrees(x);
  }
}
