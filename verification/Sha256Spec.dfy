/** SHA-256 as sections 4.2.2, 5.1.1, 5.3.3 and 6.2 of FIPS 180-4 define it, on whole messages. */
module Sha256Spec {
  import opened CStrings
  import opened Sha256Words

  const K: seq<Word> :=
    [0x428a2f98, 0x71374491, 0xb5c0fbcf, 0xe9b5dba5, 0x3956c25b, 0x59f111f1, 0x923f82a4, 0xab1c5ed5] +
    [0xd807aa98, 0x12835b01, 0x243185be, 0x550c7dc3, 0x72be5d74, 0x80deb1fe, 0x9bdc06a7, 0xc19bf174] +
    [0xe49b69c1, 0xefbe4786, 0x0fc19dc6, 0x240ca1cc, 0x2de92c6f, 0x4a7484aa, 0x5cb0a9dc, 0x76f988da] +
    [0x983e5152, 0xa831c66d, 0xb00327c8, 0xbf597fc7, 0xc6e00bf3, 0xd5a79147, 0x06ca6351, 0x14292967] +
    [0x27b70a85, 0x2e1b2138, 0x4d2c6dfc, 0x53380d13, 0x650a7354, 0x766a0abb, 0x81c2c92e, 0x92722c85] +
    [0xa2bfe8a1, 0xa81a664b, 0xc24b8b70, 0xc76c51a3, 0xd192e819, 0xd6990624, 0xf40e3585, 0x106aa070] +
    [0x19a4c116, 0x1e376c08, 0x2748774c, 0x34b0bcb5, 0x391c0cb3, 0x4ed8aa4a, 0x5b9cca4f, 0x682e6ff3] +
    [0x748f82ee, 0x78a5636f, 0x84c87814, 0x8cc70208, 0x90befffa, 0xa4506ceb, 0xbef9a3f7, 0xc67178f2]

  /** The working variables `a` to `h`, or a hash value. */
  datatype Regs = Regs(a: Word, b: Word, c: Word, d: Word, e: Word, f: Word, g: Word, h: Word)

  const INITIAL := Regs(0x6A09E667, 0xBB67AE85, 0x3C6EF372, 0xA54FF53A,
                        0x510E527F, 0x9B05688C, 0x1F83D9AB, 0x5BE0CD19)

  type Block = s: seq<byte> | |s| == 64 witness seq(64, _ => 0)

  function LoadWord(s: seq<byte>, i: nat): Word
    requires i + 4 <= |s|
  {
    (s[i] as Word << 24) | (s[i + 1] as Word << 16) | (s[i + 2] as Word << 8) | (s[i + 3] as Word)
  }

  /** The first `n` words of the message schedule. */
  function Schedule(block: Block, n: nat): (w: seq<Word>)
    requires n <= 64
    ensures |w| == n
  {
    if n == 0 then []
    else
      var w := Schedule(block, n - 1);
      var t := n - 1;
      w + [if t < 16 then LoadWord(block, 4 * t)
           else Sum4(SmallSigma1(w[t - 2]), w[t - 7], SmallSigma0(w[t - 15]), w[t - 16])]
  }

  function Round(r: Regs, k: Word, w: Word): Regs {
    var t1 := Sum5(r.h, BigSigma1(r.e), Ch(r.e, r.f, r.g), k, w);
    var t2 := Add(BigSigma0(r.a), Maj(r.a, r.b, r.c));
    Regs(Add(t1, t2), r.a, r.b, r.c, Add(r.d, t1), r.e, r.f, r.g)
  }

  function Rounds(r: Regs, k: seq<Word>, w: seq<Word>, n: nat): Regs
    requires n <= |k| && n <= |w|
  {
    if n == 0 then r else Round(Rounds(r, k, w, n - 1), k[n - 1], w[n - 1])
  }

  function AddRegs(x: Regs, y: Regs): Regs {
    Regs(Add(x.a, y.a), Add(x.b, y.b), Add(x.c, y.c), Add(x.d, y.d),
         Add(x.e, y.e), Add(x.f, y.f), Add(x.g, y.g), Add(x.h, y.h))
  }

  function Compress(h: Regs, block: Block): Regs {
    AddRegs(h, Rounds(h, K, Schedule(block, 64), 64))
  }

  /** Compresses the whole blocks of `m` one after the other. */
  function Fold(h: Regs, m: seq<byte>): Regs
    decreases |m|
  {
    if |m| < 64 then h else Fold(Compress(h, m[..64]), m[64..])
  }

  function Pow256(k: nat): (p: nat)
    ensures p > 0
  {
    if k == 0 then 1 else 0x100 * Pow256(k - 1)
  }

  function Length64(bits: nat): seq<byte> {
    seq(8, i requires 0 <= i < 8 => bits / Pow256(7 - i) % 0x100)
  }

  /** One bit, zeros up to 56 bytes of the last block, and the length in bits. */
  function Pad(m: seq<byte>): seq<byte> {
    m + [0x80] + Zeros((119 - |m| % 64) % 64) + Length64(8 * |m| % 0x1_0000_0000_0000_0000)
  }

  function WordByte(x: Word, i: nat): byte
    requires i < 4
  {
    ((x >> (8 * (3 - i))) & 0xFF) as int
  }

  function WordBytes(x: Word): seq<byte> {
    seq(4, i requires 0 <= i < 4 => WordByte(x, i))
  }

  function WordsBytes(ws: seq<Word>): (s: seq<byte>)
    ensures |s| == 4 * |ws|
  {
    if ws == [] then [] else WordsBytes(ws[..|ws| - 1]) + WordBytes(ws[|ws| - 1])
  }

  function RegsBytes(r: Regs): seq<byte> {
    WordsBytes([r.a, r.b, r.c, r.d, r.e, r.f, r.g, r.h])
  }

  function Digest(m: seq<byte>): seq<byte> {
    RegsBytes(Fold(INITIAL, Pad(m)))
  }

  lemma {:induction false} FoldAppend(h: Regs, x: seq<byte>, y: seq<byte>)
    requires |x| % 64 == 0
    ensures Fold(h, x + y) == Fold(Fold(h, x), y)
    decreases |x|
  {
    if x == [] {
      assert x + y == y;
    } else {
      assert (x + y)[..64] == x[..64] && (x + y)[64..] == x[64..] + y;
      FoldAppend(Compress(h, x[..64]), x[64..], y);
    }
  }

  lemma FoldOne(h: Regs, x: seq<byte>, b: Block)
    requires |x| % 64 == 0
    ensures Fold(h, x + b) == Compress(Fold(h, x), b)
  {
    FoldAppend(h, x, b);
    assert b[..64] == b && b[64..] == [];
  }
}
