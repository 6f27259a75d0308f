/** A digest worked out: the one of the sentence in the test of the hash. */
module Sha256Vector {
  import opened CStrings
  import opened Sha256Words
  import opened Sha256Spec
  import opened Sha256

  // ----- steps on known words -----

  /** Eight words of a sequence from `t` on. */
  predicate Eight(s: seq<Word>, t: nat, a: Word, b: Word, c: Word, d: Word, e: Word, f: Word, g: Word, h: Word) {
    && t + 8 <= |s| && s[t] == a && s[t + 1] == b && s[t + 2] == c && s[t + 3] == d
    && s[t + 4] == e && s[t + 5] == f && s[t + 6] == g && s[t + 7] == h
  }

  lemma K0()
    ensures Eight(K, 0, 0x428a2f98, 0x71374491, 0xb5c0fbcf, 0xe9b5dba5,
          0x3956c25b, 0x59f111f1, 0x923f82a4, 0xab1c5ed5)
  {
  }

  lemma K8()
    ensures Eight(K, 8, 0xd807aa98, 0x12835b01, 0x243185be, 0x550c7dc3,
          0x72be5d74, 0x80deb1fe, 0x9bdc06a7, 0xc19bf174)
  {
  }

  lemma K16()
    ensures Eight(K, 16, 0xe49b69c1, 0xefbe4786, 0x0fc19dc6, 0x240ca1cc,
          0x2de92c6f, 0x4a7484aa, 0x5cb0a9dc, 0x76f988da)
  {
  }

  lemma K24()
    ensures Eight(K, 24, 0x983e5152, 0xa831c66d, 0xb00327c8, 0xbf597fc7,
          0xc6e00bf3, 0xd5a79147, 0x06ca6351, 0x14292967)
  {
  }

  lemma K32()
    ensures Eight(K, 32, 0x27b70a85, 0x2e1b2138, 0x4d2c6dfc, 0x53380d13,
          0x650a7354, 0x766a0abb, 0x81c2c92e, 0x92722c85)
  {
  }

  lemma K40()
    ensures Eight(K, 40, 0xa2bfe8a1, 0xa81a664b, 0xc24b8b70, 0xc76c51a3,
          0xd192e819, 0xd6990624, 0xf40e3585, 0x106aa070)
  {
  }

  lemma K48()
    ensures Eight(K, 48, 0x19a4c116, 0x1e376c08, 0x2748774c, 0x34b0bcb5,
          0x391c0cb3, 0x4ed8aa4a, 0x5b9cca4f, 0x682e6ff3)
  {
  }

  lemma K56()
    ensures Eight(K, 56, 0x748f82ee, 0x78a5636f, 0x84c87814, 0x8cc70208,
          0x90befffa, 0xa4506ceb, 0xbef9a3f7, 0xc67178f2)
  {
  }

  lemma OneRound(w: seq<Word>, n: nat, k: Word, x: Word)
    requires n < 64 && |w| == 64 && k == K[n] && x == w[n]
    ensures Rounds(INITIAL, K, w, n + 1) == Round(Rounds(INITIAL, K, w, n), k, x)
  {
  }

  // ----- the rounds, eight at a time -----

  lemma Rounds0(w: seq<Word>)
    requires |w| == 64 && Eight(w, 0, 0x54686520, 0x71756963, 0x6b206272, 0x6f776e20,
          0x666f7820, 0x6a756d70, 0x73206f76, 0x65722074)
    requires Rounds(INITIAL, K, w, 0) ==
           Regs(0x6a09e667, 0xbb67ae85, 0x3c6ef372, 0xa54ff53a,
                0x510e527f, 0x9b05688c, 0x1f83d9ab, 0x5be0cd19)
    ensures Rounds(INITIAL, K, w, 8) ==
          Regs(0x82572a31, 0x8cb2daed, 0xad07e4c2, 0x4e266f61,
                0x924268ca, 0x11a624bd, 0x25c81af6, 0x4023af50)
  {
    K0();
    OneRound(w, 0, 0x428a2f98, 0x54686520);
    OneRound(w, 1, 0x71374491, 0x71756963);
    OneRound(w, 2, 0xb5c0fbcf, 0x6b206272);
    OneRound(w, 3, 0xe9b5dba5, 0x6f776e20);
    OneRound(w, 4, 0x3956c25b, 0x666f7820);
    OneRound(w, 5, 0x59f111f1, 0x6a756d70);
    OneRound(w, 6, 0x923f82a4, 0x73206f76);
    OneRound(w, 7, 0xab1c5ed5, 0x65722074);
  }

  lemma Rounds8(w: seq<Word>)
    requires |w| == 64 && Eight(w, 8, 0x6865206c, 0x617a7920, 0x646f672e, 0x80000000,
          0x00000000, 0x00000000, 0x00000000, 0x00000160)
    requires Rounds(INITIAL, K, w, 8) ==
           Regs(0x82572a31, 0x8cb2daed, 0xad07e4c2, 0x4e266f61,
                0x924268ca, 0x11a624bd, 0x25c81af6, 0x4023af50)
    ensures Rounds(INITIAL, K, w, 16) ==
          Regs(0xccf7406e, 0x2fac1936, 0x21be9b12, 0x961528ae,
                0x647280db, 0xfbd8fc1e, 0x0e5a836d, 0x9495d565)
  {
    K8();
    OneRound(w, 8, 0xd807aa98, 0x6865206c);
    OneRound(w, 9, 0x12835b01, 0x617a7920);
    OneRound(w, 10, 0x243185be, 0x646f672e);
    OneRound(w, 11, 0x550c7dc3, 0x80000000);
    OneRound(w, 12, 0x72be5d74, 0x00000000);
    OneRound(w, 13, 0x80deb1fe, 0x00000000);
    OneRound(w, 14, 0x9bdc06a7, 0x00000000);
    OneRound(w, 15, 0xc19bf174, 0x00000160);
  }

  lemma Rounds16(w: seq<Word>)
    requires |w| == 64 && Eight(w, 16, 0x487779e3, 0xc7afa6d3, 0xd5b84c22, 0x2903075a,
          0x4cd63481, 0x472150c8, 0xbc5de464, 0xce1df1cb)
    requires Rounds(INITIAL, K, w, 16) ==
           Regs(0xccf7406e, 0x2fac1936, 0x21be9b12, 0x961528ae,
                0x647280db, 0xfbd8fc1e, 0x0e5a836d, 0x9495d565)
    ensures Rounds(INITIAL, K, w, 24) ==
          Regs(0x69def87c, 0x9636a9b2, 0x076ecc6f, 0x235d1fef,
                0xbe4c1644, 0x5ffc8e91, 0x8337cafe, 0xe79de3f6)
  {
    K16();
    OneRound(w, 16, 0xe49b69c1, 0x487779e3);
    OneRound(w, 17, 0xefbe4786, 0xc7afa6d3);
    OneRound(w, 18, 0x0fc19dc6, 0xd5b84c22);
    OneRound(w, 19, 0x240ca1cc, 0x2903075a);
    OneRound(w, 20, 0x2de92c6f, 0x4cd63481);
    OneRound(w, 21, 0x4a7484aa, 0x472150c8);
    OneRound(w, 22, 0x5cb0a9dc, 0xbc5de464);
    OneRound(w, 23, 0x76f988da, 0xce1df1cb);
  }

  lemma Rounds24(w: seq<Word>)
    requires |w| == 64 && Eight(w, 24, 0x514c49a3, 0x07b08a23, 0x4c642025, 0x212a438d,
          0xdb26677e, 0x261d6284, 0x8ddc7167, 0x804e2f6a)
    requires Rounds(INITIAL, K, w, 24) ==
           Regs(0x69def87c, 0x9636a9b2, 0x076ecc6f, 0x235d1fef,
                0xbe4c1644, 0x5ffc8e91, 0x8337cafe, 0xe79de3f6)
    ensures Rounds(INITIAL, K, w, 32) ==
          Regs(0xca9b9b41, 0xca499ad0, 0x8d85def3, 0xb26e23a6,
                0xb7e3f763, 0x4b955af6, 0x253da538, 0xa344a7f1)
  {
    K24();
    OneRound(w, 24, 0x983e5152, 0x514c49a3);
    OneRound(w, 25, 0xa831c66d, 0x07b08a23);
    OneRound(w, 26, 0xb00327c8, 0x4c642025);
    OneRound(w, 27, 0xbf597fc7, 0x212a438d);
    OneRound(w, 28, 0xc6e00bf3, 0xdb26677e);
    OneRound(w, 29, 0xd5a79147, 0x261d6284);
    OneRound(w, 30, 0x06ca6351, 0x8ddc7167);
    OneRound(w, 31, 0x14292967, 0x804e2f6a);
  }

  lemma Rounds32(w: seq<Word>)
    requires |w| == 64 && Eight(w, 32, 0x5db29ecb, 0x32a0970f, 0x8433261c, 0xe3b77fc5,
          0x3738eecb, 0xcd0a8af4, 0x998abd6b, 0x9ecc1410)
    requires Rounds(INITIAL, K, w, 32) ==
           Regs(0xca9b9b41, 0xca499ad0, 0x8d85def3, 0xb26e23a6,
                0xb7e3f763, 0x4b955af6, 0x253da538, 0xa344a7f1)
    ensures Rounds(INITIAL, K, w, 40) ==
          Regs(0xce35d5c6, 0xabbd7baa, 0xfac7bd2d, 0x978df8e8,
                0x44f34e60, 0x4ca093b4, 0xe9aa920b, 0xc5112013)
  {
    K32();
    OneRound(w, 32, 0x27b70a85, 0x5db29ecb);
    OneRound(w, 33, 0x2e1b2138, 0x32a0970f);
    OneRound(w, 34, 0x4d2c6dfc, 0x8433261c);
    OneRound(w, 35, 0x53380d13, 0xe3b77fc5);
    OneRound(w, 36, 0x650a7354, 0x3738eecb);
    OneRound(w, 37, 0x766a0abb, 0xcd0a8af4);
    OneRound(w, 38, 0x81c2c92e, 0x998abd6b);
    OneRound(w, 39, 0x92722c85, 0x9ecc1410);
  }

  lemma Rounds40(w: seq<Word>)
    requires |w| == 64 && Eight(w, 40, 0xf19d6fc9, 0x5faebf56, 0xd8c1964c, 0x5fc678cd,
          0xf63958a1, 0x760aeb2d, 0x02f5caa4, 0xd59a1839)
    requires Rounds(INITIAL, K, w, 40) ==
           Regs(0xce35d5c6, 0xabbd7baa, 0xfac7bd2d, 0x978df8e8,
                0x44f34e60, 0x4ca093b4, 0xe9aa920b, 0xc5112013)
    ensures Rounds(INITIAL, K, w, 48) ==
          Regs(0x62df4908, 0x86fb2430, 0x0e75af68, 0xce254171,
                0x2d49a12d, 0x3804d337, 0xdd43def0, 0x4d78c2fa)
  {
    K40();
    OneRound(w, 40, 0xa2bfe8a1, 0xf19d6fc9);
    OneRound(w, 41, 0xa81a664b, 0x5faebf56);
    OneRound(w, 42, 0xc24b8b70, 0xd8c1964c);
    OneRound(w, 43, 0xc76c51a3, 0x5fc678cd);
    OneRound(w, 44, 0xd192e819, 0xf63958a1);
    OneRound(w, 45, 0xd6990624, 0x760aeb2d);
    OneRound(w, 46, 0xf40e3585, 0x02f5caa4);
    OneRound(w, 47, 0x106aa070, 0xd59a1839);
  }

  lemma Rounds48(w: seq<Word>)
    requires |w| == 64 && Eight(w, 48, 0x575a39de, 0x3a9a07d6, 0x87fbd09b, 0xc84bf6cf,
          0x92499ef7, 0xc0e50a1e, 0xa386bbc7, 0xf0c5ba5b)
    requires Rounds(INITIAL, K, w, 48) ==
           Regs(0x62df4908, 0x86fb2430, 0x0e75af68, 0xce254171,
                0x2d49a12d, 0x3804d337, 0xdd43def0, 0x4d78c2fa)
    ensures Rounds(INITIAL, K, w, 56) ==
          Regs(0x16854a13, 0xd7e1916e, 0x8b2e04db, 0xee79a54b,
                0x21983ef4, 0xcfa4f434, 0x0824a593, 0x721ed508)
  {
    K48();
    OneRound(w, 48, 0x19a4c116, 0x575a39de);
    OneRound(w, 49, 0x1e376c08, 0x3a9a07d6);
    OneRound(w, 50, 0x2748774c, 0x87fbd09b);
    OneRound(w, 51, 0x34b0bcb5, 0xc84bf6cf);
    OneRound(w, 52, 0x391c0cb3, 0x92499ef7);
    OneRound(w, 53, 0x4ed8aa4a, 0xc0e50a1e);
    OneRound(w, 54, 0x5b9cca4f, 0xa386bbc7);
    OneRound(w, 55, 0x682e6ff3, 0xf0c5ba5b);
  }

  lemma Rounds56(w: seq<Word>)
    requires |w| == 64 && Eight(w, 56, 0xbf8a593b, 0x393fceda, 0x1816ebd6, 0x1bcb503a,
          0x4e9c42a3, 0x16a0b5b8, 0x8be7f0dd, 0x19c579bb)
    requires Rounds(INITIAL, K, w, 56) ==
           Regs(0x16854a13, 0xd7e1916e, 0x8b2e04db, 0xee79a54b,
                0x21983ef4, 0xcfa4f434, 0x0824a593, 0x721ed508)
    ensures Rounds(INITIAL, K, w, 64) ==
          Regs(0x854998be, 0x0d2e1122, 0x45e371b7, 0x0466485d,
                0x5954c2e5, 0x3ad22136, 0x97e16ae1, 0x2a552e53)
  {
    K56();
    OneRound(w, 56, 0x748f82ee, 0xbf8a593b);
    OneRound(w, 57, 0x78a5636f, 0x393fceda);
    OneRound(w, 58, 0x84c87814, 0x1816ebd6);
    OneRound(w, 59, 0x8cc70208, 0x1bcb503a);
    OneRound(w, 60, 0x90befffa, 0x4e9c42a3);
    OneRound(w, 61, 0xa4506ceb, 0x16a0b5b8);
    OneRound(w, 62, 0xbef9a3f7, 0x8be7f0dd);
    OneRound(w, 63, 0xc67178f2, 0x19c579bb);
  }

  // ----- the message schedule, eight words at a time -----

  lemma Words16(block: Block, w: seq<Word>)
    requires w == Schedule(block, 64)
    requires Eight(w, 0, 0x54686520, 0x71756963, 0x6b206272, 0x6f776e20,
          0x666f7820, 0x6a756d70, 0x73206f76, 0x65722074)
    requires Eight(w, 8, 0x6865206c, 0x617a7920, 0x646f672e, 0x80000000,
          0x00000000, 0x00000000, 0x00000000, 0x00000160)
    ensures Eight(w, 16, 0x487779e3, 0xc7afa6d3, 0xd5b84c22, 0x2903075a,
          0x4cd63481, 0x472150c8, 0xbc5de464, 0xce1df1cb)
  {
    ScheduleWord(block, w, 16);
    ScheduleWord(block, w, 17);
    ScheduleWord(block, w, 18);
    ScheduleWord(block, w, 19);
    ScheduleWord(block, w, 20);
    ScheduleWord(block, w, 21);
    ScheduleWord(block, w, 22);
    ScheduleWord(block, w, 23);
  }

  lemma Words24(block: Block, w: seq<Word>)
    requires w == Schedule(block, 64)
    requires Eight(w, 8, 0x6865206c, 0x617a7920, 0x646f672e, 0x80000000,
          0x00000000, 0x00000000, 0x00000000, 0x00000160)
    requires Eight(w, 16, 0x487779e3, 0xc7afa6d3, 0xd5b84c22, 0x2903075a,
          0x4cd63481, 0x472150c8, 0xbc5de464, 0xce1df1cb)
    ensures Eight(w, 24, 0x514c49a3, 0x07b08a23, 0x4c642025, 0x212a438d,
          0xdb26677e, 0x261d6284, 0x8ddc7167, 0x804e2f6a)
  {
    ScheduleWord(block, w, 24);
    ScheduleWord(block, w, 25);
    ScheduleWord(block, w, 26);
    ScheduleWord(block, w, 27);
    ScheduleWord(block, w, 28);
    ScheduleWord(block, w, 29);
    ScheduleWord(block, w, 30);
    ScheduleWord(block, w, 31);
  }

  lemma Words32(block: Block, w: seq<Word>)
    requires w == Schedule(block, 64)
    requires Eight(w, 16, 0x487779e3, 0xc7afa6d3, 0xd5b84c22, 0x2903075a,
          0x4cd63481, 0x472150c8, 0xbc5de464, 0xce1df1cb)
    requires Eight(w, 24, 0x514c49a3, 0x07b08a23, 0x4c642025, 0x212a438d,
          0xdb26677e, 0x261d6284, 0x8ddc7167, 0x804e2f6a)
    ensures Eight(w, 32, 0x5db29ecb, 0x32a0970f, 0x8433261c, 0xe3b77fc5,
          0x3738eecb, 0xcd0a8af4, 0x998abd6b, 0x9ecc1410)
  {
    ScheduleWord(block, w, 32);
    ScheduleWord(block, w, 33);
    ScheduleWord(block, w, 34);
    ScheduleWord(block, w, 35);
    ScheduleWord(block, w, 36);
    ScheduleWord(block, w, 37);
    ScheduleWord(block, w, 38);
    ScheduleWord(block, w, 39);
  }

  lemma Words40(block: Block, w: seq<Word>)
    requires w == Schedule(block, 64)
    requires Eight(w, 24, 0x514c49a3, 0x07b08a23, 0x4c642025, 0x212a438d,
          0xdb26677e, 0x261d6284, 0x8ddc7167, 0x804e2f6a)
    requires Eight(w, 32, 0x5db29ecb, 0x32a0970f, 0x8433261c, 0xe3b77fc5,
          0x3738eecb, 0xcd0a8af4, 0x998abd6b, 0x9ecc1410)
    ensures Eight(w, 40, 0xf19d6fc9, 0x5faebf56, 0xd8c1964c, 0x5fc678cd,
          0xf63958a1, 0x760aeb2d, 0x02f5caa4, 0xd59a1839)
  {
    ScheduleWord(block, w, 40);
    ScheduleWord(block, w, 41);
    ScheduleWord(block, w, 42);
    ScheduleWord(block, w, 43);
    ScheduleWord(block, w, 44);
    ScheduleWord(block, w, 45);
    ScheduleWord(block, w, 46);
    ScheduleWord(block, w, 47);
  }

  lemma Words48(block: Block, w: seq<Word>)
    requires w == Schedule(block, 64)
    requires Eight(w, 32, 0x5db29ecb, 0x32a0970f, 0x8433261c, 0xe3b77fc5,
          0x3738eecb, 0xcd0a8af4, 0x998abd6b, 0x9ecc1410)
    requires Eight(w, 40, 0xf19d6fc9, 0x5faebf56, 0xd8c1964c, 0x5fc678cd,
          0xf63958a1, 0x760aeb2d, 0x02f5caa4, 0xd59a1839)
    ensures Eight(w, 48, 0x575a39de, 0x3a9a07d6, 0x87fbd09b, 0xc84bf6cf,
          0x92499ef7, 0xc0e50a1e, 0xa386bbc7, 0xf0c5ba5b)
  {
    ScheduleWord(block, w, 48);
    ScheduleWord(block, w, 49);
    ScheduleWord(block, w, 50);
    ScheduleWord(block, w, 51);
    ScheduleWord(block, w, 52);
    ScheduleWord(block, w, 53);
    ScheduleWord(block, w, 54);
    ScheduleWord(block, w, 55);
  }

  lemma Words56(block: Block, w: seq<Word>)
    requires w == Schedule(block, 64)
    requires Eight(w, 40, 0xf19d6fc9, 0x5faebf56, 0xd8c1964c, 0x5fc678cd,
          0xf63958a1, 0x760aeb2d, 0x02f5caa4, 0xd59a1839)
    requires Eight(w, 48, 0x575a39de, 0x3a9a07d6, 0x87fbd09b, 0xc84bf6cf,
          0x92499ef7, 0xc0e50a1e, 0xa386bbc7, 0xf0c5ba5b)
    ensures Eight(w, 56, 0xbf8a593b, 0x393fceda, 0x1816ebd6, 0x1bcb503a,
          0x4e9c42a3, 0x16a0b5b8, 0x8be7f0dd, 0x19c579bb)
  {
    ScheduleWord(block, w, 56);
    ScheduleWord(block, w, 57);
    ScheduleWord(block, w, 58);
    ScheduleWord(block, w, 59);
    ScheduleWord(block, w, 60);
    ScheduleWord(block, w, 61);
    ScheduleWord(block, w, 62);
    ScheduleWord(block, w, 63);
  }

  // ----- the sentence and its block -----

  /** "The quick brown fox jumps over the lazy dog." */
  const SENTENCE: seq<byte> :=
    [84, 104, 101, 32, 113, 117, 105, 99] +
    [107, 32, 98, 114, 111, 119, 110, 32] +
    [102, 111, 120, 32, 106, 117, 109, 112] +
    [115, 32, 111, 118, 101, 114, 32, 116] +
    [104, 101, 32, 108, 97, 122, 121, 32] +
    [100, 111, 103, 46]

  /** The bytes of word `t`. */
  predicate Four(s: seq<byte>, t: nat, a: byte, b: byte, c: byte, d: byte) {
    4 * t + 4 <= |s| && s[4 * t] == a && s[4 * t + 1] == b && s[4 * t + 2] == c && s[4 * t + 3] == d
  }

  lemma AsWord(x: byte, w: Word)
    requires w as int == x
    ensures x as Word == w
  {
  }

  /** The same bytes as words. */
  predicate FourWords(s: seq<byte>, t: nat, a: Word, b: Word, c: Word, d: Word) {
    && 4 * t + 4 <= |s| && s[4 * t] as Word == a && s[4 * t + 1] as Word == b
    && s[4 * t + 2] as Word == c && s[4 * t + 3] as Word == d
  }

  lemma FourAsWords(s: seq<byte>, t: nat, p: byte, q: byte, u: byte, v: byte, a: Word, b: Word, c: Word, d: Word)
    requires Four(s, t, p, q, u, v) && a as int == p && b as int == q && c as int == u && d as int == v
    ensures FourWords(s, t, a, b, c, d)
  {
    AsWord(p, a);
    AsWord(q, b);
    AsWord(u, c);
    AsWord(v, d);
  }

  lemma LoadOf(s: seq<byte>, t: nat, a: Word, b: Word, c: Word, d: Word)
    requires FourWords(s, t, a, b, c, d)
    ensures LoadWord(s, 4 * t) == (a << 24) | (b << 16) | (c << 8) | d
  {
  }

  lemma LoadIs(s: seq<byte>, t: nat, p: byte, q: byte, u: byte, v: byte, a: Word, b: Word, c: Word, d: Word)
    requires Four(s, t, p, q, u, v) && a as int == p && b as int == q && c as int == u && d as int == v
    ensures LoadWord(s, 4 * t) == (a << 24) | (b << 16) | (c << 8) | d
  {
    FourAsWords(s, t, p, q, u, v, a, b, c, d);
    LoadOf(s, t, a, b, c, d);
  }

  lemma WordIs(block: Block, w: seq<Word>, t: nat, x: Word)
    requires w == Schedule(block, 64) && t < 16 && x == LoadWord(block, 4 * t)
    ensures w[t] == x
  {
    ScheduleWord(block, w, t);
  }

  lemma LengthOfSentence()
    ensures Length64(352) == [0, 0, 0, 0, 0, 0, 1, 96]
  {
    assert Pow256(0) == 1 && Pow256(1) == 0x100 && Pow256(2) == 0x1_0000;
    assert Pow256(3) == 0x100_0000 && Pow256(4) == 0x1_0000_0000;
    assert Pow256(5) == 0x100_0000_0000 && Pow256(6) == 0x1_0000_0000_0000;
    assert Pow256(7) == 0x100_0000_0000_0000;
  }

  lemma PadOf44(m: seq<byte>)
    requires |m| == 44
    ensures Pad(m) == m + [0x80] + Zeros(11) + Length64(352)
  {
  }

  lemma PadOfSentence()
    ensures Pad(SENTENCE) == SENTENCE + [0x80] + Zeros(11) + [0, 0, 0, 0, 0, 0, 1, 96]
  {
    PadOf44(SENTENCE);
    LengthOfSentence();
  }

  lemma BytesOf0(block: Block)
    requires block == SENTENCE + [0x80] + Zeros(11) + [0, 0, 0, 0, 0, 0, 1, 96]
    ensures Four(block, 0, 0x54, 0x68, 0x65, 0x20)
    ensures Four(block, 1, 0x71, 0x75, 0x69, 0x63)
    ensures Four(block, 2, 0x6b, 0x20, 0x62, 0x72)
    ensures Four(block, 3, 0x6f, 0x77, 0x6e, 0x20)
  {
  }

  lemma BytesOf4(block: Block)
    requires block == SENTENCE + [0x80] + Zeros(11) + [0, 0, 0, 0, 0, 0, 1, 96]
    ensures Four(block, 4, 0x66, 0x6f, 0x78, 0x20)
    ensures Four(block, 5, 0x6a, 0x75, 0x6d, 0x70)
    ensures Four(block, 6, 0x73, 0x20, 0x6f, 0x76)
    ensures Four(block, 7, 0x65, 0x72, 0x20, 0x74)
  {
  }

  lemma BytesOf8(block: Block)
    requires block == SENTENCE + [0x80] + Zeros(11) + [0, 0, 0, 0, 0, 0, 1, 96]
    ensures Four(block, 8, 0x68, 0x65, 0x20, 0x6c)
    ensures Four(block, 9, 0x61, 0x7a, 0x79, 0x20)
    ensures Four(block, 10, 0x64, 0x6f, 0x67, 0x2e)
    ensures Four(block, 11, 0x80, 0x00, 0x00, 0x00)
  {
  }

  lemma BytesOf12(block: Block)
    requires block == SENTENCE + [0x80] + Zeros(11) + [0, 0, 0, 0, 0, 0, 1, 96]
    ensures Four(block, 12, 0x00, 0x00, 0x00, 0x00)
    ensures Four(block, 13, 0x00, 0x00, 0x00, 0x00)
    ensures Four(block, 14, 0x00, 0x00, 0x00, 0x00)
    ensures Four(block, 15, 0x00, 0x00, 0x01, 0x60)
  {
  }

  lemma Load0(s: seq<byte>)
    requires Four(s, 0, 0x54, 0x68, 0x65, 0x20)
    ensures LoadWord(s, 0) == 0x54686520
  {
    LoadIs(s, 0, 0x54, 0x68, 0x65, 0x20, 0x54, 0x68, 0x65, 0x20);
  }

  lemma Load1(s: seq<byte>)
    requires Four(s, 1, 0x71, 0x75, 0x69, 0x63)
    ensures LoadWord(s, 4) == 0x71756963
  {
    LoadIs(s, 1, 0x71, 0x75, 0x69, 0x63, 0x71, 0x75, 0x69, 0x63);
  }

  lemma Load2(s: seq<byte>)
    requires Four(s, 2, 0x6b, 0x20, 0x62, 0x72)
    ensures LoadWord(s, 8) == 0x6b206272
  {
    LoadIs(s, 2, 0x6b, 0x20, 0x62, 0x72, 0x6b, 0x20, 0x62, 0x72);
  }

  lemma Load3(s: seq<byte>)
    requires Four(s, 3, 0x6f, 0x77, 0x6e, 0x20)
    ensures LoadWord(s, 12) == 0x6f776e20
  {
    LoadIs(s, 3, 0x6f, 0x77, 0x6e, 0x20, 0x6f, 0x77, 0x6e, 0x20);
  }

  lemma Load4(s: seq<byte>)
    requires Four(s, 4, 0x66, 0x6f, 0x78, 0x20)
    ensures LoadWord(s, 16) == 0x666f7820
  {
    LoadIs(s, 4, 0x66, 0x6f, 0x78, 0x20, 0x66, 0x6f, 0x78, 0x20);
  }

  lemma Load5(s: seq<byte>)
    requires Four(s, 5, 0x6a, 0x75, 0x6d, 0x70)
    ensures LoadWord(s, 20) == 0x6a756d70
  {
    LoadIs(s, 5, 0x6a, 0x75, 0x6d, 0x70, 0x6a, 0x75, 0x6d, 0x70);
  }

  lemma Load6(s: seq<byte>)
    requires Four(s, 6, 0x73, 0x20, 0x6f, 0x76)
    ensures LoadWord(s, 24) == 0x73206f76
  {
    LoadIs(s, 6, 0x73, 0x20, 0x6f, 0x76, 0x73, 0x20, 0x6f, 0x76);
  }

  lemma Load7(s: seq<byte>)
    requires Four(s, 7, 0x65, 0x72, 0x20, 0x74)
    ensures LoadWord(s, 28) == 0x65722074
  {
    LoadIs(s, 7, 0x65, 0x72, 0x20, 0x74, 0x65, 0x72, 0x20, 0x74);
  }

  lemma Load8(s: seq<byte>)
    requires Four(s, 8, 0x68, 0x65, 0x20, 0x6c)
    ensures LoadWord(s, 32) == 0x6865206c
  {
    LoadIs(s, 8, 0x68, 0x65, 0x20, 0x6c, 0x68, 0x65, 0x20, 0x6c);
  }

  lemma Load9(s: seq<byte>)
    requires Four(s, 9, 0x61, 0x7a, 0x79, 0x20)
    ensures LoadWord(s, 36) == 0x617a7920
  {
    LoadIs(s, 9, 0x61, 0x7a, 0x79, 0x20, 0x61, 0x7a, 0x79, 0x20);
  }

  lemma Load10(s: seq<byte>)
    requires Four(s, 10, 0x64, 0x6f, 0x67, 0x2e)
    ensures LoadWord(s, 40) == 0x646f672e
  {
    LoadIs(s, 10, 0x64, 0x6f, 0x67, 0x2e, 0x64, 0x6f, 0x67, 0x2e);
  }

  lemma Load11(s: seq<byte>)
    requires Four(s, 11, 0x80, 0x00, 0x00, 0x00)
    ensures LoadWord(s, 44) == 0x80000000
  {
    LoadIs(s, 11, 0x80, 0x00, 0x00, 0x00, 0x80, 0x00, 0x00, 0x00);
  }

  lemma Load12(s: seq<byte>)
    requires Four(s, 12, 0x00, 0x00, 0x00, 0x00)
    ensures LoadWord(s, 48) == 0x00000000
  {
    LoadIs(s, 12, 0x00, 0x00, 0x00, 0x00, 0x00, 0x00, 0x00, 0x00);
  }

  lemma Load13(s: seq<byte>)
    requires Four(s, 13, 0x00, 0x00, 0x00, 0x00)
    ensures LoadWord(s, 52) == 0x00000000
  {
    LoadIs(s, 13, 0x00, 0x00, 0x00, 0x00, 0x00, 0x00, 0x00, 0x00);
  }

  lemma Load14(s: seq<byte>)
    requires Four(s, 14, 0x00, 0x00, 0x00, 0x00)
    ensures LoadWord(s, 56) == 0x00000000
  {
    LoadIs(s, 14, 0x00, 0x00, 0x00, 0x00, 0x00, 0x00, 0x00, 0x00);
  }

  lemma Load15(s: seq<byte>)
    requires Four(s, 15, 0x00, 0x00, 0x01, 0x60)
    ensures LoadWord(s, 60) == 0x00000160
  {
    LoadIs(s, 15, 0x00, 0x00, 0x01, 0x60, 0x00, 0x00, 0x01, 0x60);
  }

  lemma Words0(block: Block, w: seq<Word>)
    requires w == Schedule(block, 64)
    requires block == SENTENCE + [0x80] + Zeros(11) + [0, 0, 0, 0, 0, 0, 1, 96]
    ensures Eight(w, 0, 0x54686520, 0x71756963, 0x6b206272, 0x6f776e20,
          0x666f7820, 0x6a756d70, 0x73206f76, 0x65722074)
  {
    BytesOf0(block);
    BytesOf4(block);
    Load0(block);
    WordIs(block, w, 0, 0x54686520);
    Load1(block);
    WordIs(block, w, 1, 0x71756963);
    Load2(block);
    WordIs(block, w, 2, 0x6b206272);
    Load3(block);
    WordIs(block, w, 3, 0x6f776e20);
    Load4(block);
    WordIs(block, w, 4, 0x666f7820);
    Load5(block);
    WordIs(block, w, 5, 0x6a756d70);
    Load6(block);
    WordIs(block, w, 6, 0x73206f76);
    Load7(block);
    WordIs(block, w, 7, 0x65722074);
  }

  lemma Words8(block: Block, w: seq<Word>)
    requires w == Schedule(block, 64)
    requires block == SENTENCE + [0x80] + Zeros(11) + [0, 0, 0, 0, 0, 0, 1, 96]
    ensures Eight(w, 8, 0x6865206c, 0x617a7920, 0x646f672e, 0x80000000,
          0x00000000, 0x00000000, 0x00000000, 0x00000160)
  {
    BytesOf8(block);
    BytesOf12(block);
    Load8(block);
    WordIs(block, w, 8, 0x6865206c);
    Load9(block);
    WordIs(block, w, 9, 0x617a7920);
    Load10(block);
    WordIs(block, w, 10, 0x646f672e);
    Load11(block);
    WordIs(block, w, 11, 0x80000000);
    Load12(block);
    WordIs(block, w, 12, 0x00000000);
    Load13(block);
    WordIs(block, w, 13, 0x00000000);
    Load14(block);
    WordIs(block, w, 14, 0x00000000);
    Load15(block);
    WordIs(block, w, 15, 0x00000160);
  }

  // ----- the digest -----

  lemma AllRounds(block: Block, w: seq<Word>)
    requires w == Schedule(block, 64)
    requires block == SENTENCE + [0x80] + Zeros(11) + [0, 0, 0, 0, 0, 0, 1, 96]
    ensures Rounds(INITIAL, K, w, 64) ==
          Regs(0x854998be, 0x0d2e1122, 0x45e371b7, 0x0466485d,
                0x5954c2e5, 0x3ad22136, 0x97e16ae1, 0x2a552e53)
  {
    Words0(block, w);
    Words8(block, w);
    Words16(block, w);
    Words24(block, w);
    Words32(block, w);
    Words40(block, w);
    Words48(block, w);
    Words56(block, w);
    Rounds0(w);
    Rounds8(w);
    Rounds16(w);
    Rounds24(w);
    Rounds32(w);
    Rounds40(w);
    Rounds48(w);
    Rounds56(w);
  }

  lemma CompressOfSentence(block: Block)
    requires block == SENTENCE + [0x80] + Zeros(11) + [0, 0, 0, 0, 0, 0, 1, 96]
    ensures Compress(INITIAL, block) ==
          Regs(0xef537f25, 0xc895bfa7, 0x82526529, 0xa9b63d97,
                0xaa631564, 0xd5d789c2, 0xb765448c, 0x8635fb6c)
  {
    AllRounds(block, Schedule(block, 64));
  }

  lemma WordBytesAre(x: Word, a: byte, b: byte, c: byte, d: byte)
    requires WordByte(x, 0) == a && WordByte(x, 1) == b && WordByte(x, 2) == c && WordByte(x, 3) == d
    ensures WordBytes(x) == [a, b, c, d]
  {
  }

  lemma BytesOfWord0()
    ensures WordBytes(0xef537f25) == [0xef, 0x53, 0x7f, 0x25]
  {
    WordBytesAre(0xef537f25, 0xef, 0x53, 0x7f, 0x25);
  }

  lemma BytesOfWord1()
    ensures WordBytes(0xc895bfa7) == [0xc8, 0x95, 0xbf, 0xa7]
  {
    WordBytesAre(0xc895bfa7, 0xc8, 0x95, 0xbf, 0xa7);
  }

  lemma BytesOfWord2()
    ensures WordBytes(0x82526529) == [0x82, 0x52, 0x65, 0x29]
  {
    WordBytesAre(0x82526529, 0x82, 0x52, 0x65, 0x29);
  }

  lemma BytesOfWord3()
    ensures WordBytes(0xa9b63d97) == [0xa9, 0xb6, 0x3d, 0x97]
  {
    WordBytesAre(0xa9b63d97, 0xa9, 0xb6, 0x3d, 0x97);
  }

  lemma BytesOfWord4()
    ensures WordBytes(0xaa631564) == [0xaa, 0x63, 0x15, 0x64]
  {
    WordBytesAre(0xaa631564, 0xaa, 0x63, 0x15, 0x64);
  }

  lemma BytesOfWord5()
    ensures WordBytes(0xd5d789c2) == [0xd5, 0xd7, 0x89, 0xc2]
  {
    WordBytesAre(0xd5d789c2, 0xd5, 0xd7, 0x89, 0xc2);
  }

  lemma BytesOfWord6()
    ensures WordBytes(0xb765448c) == [0xb7, 0x65, 0x44, 0x8c]
  {
    WordBytesAre(0xb765448c, 0xb7, 0x65, 0x44, 0x8c);
  }

  lemma BytesOfWord7()
    ensures WordBytes(0x8635fb6c) == [0x86, 0x35, 0xfb, 0x6c]
  {
    WordBytesAre(0x8635fb6c, 0x86, 0x35, 0xfb, 0x6c);
  }

  lemma WordsAndWord(ws: seq<Word>, w: Word, all: seq<Word>)
    requires all == ws + [w]
    ensures WordsBytes(all) == WordsBytes(ws) + WordBytes(w)
  {
    assert all[..|ws|] == ws;
  }

  lemma BytesGrow(ws: seq<Word>, w: Word, all: seq<Word>, s: seq<byte>, x: seq<byte>, t: seq<byte>)
    requires all == ws + [w] && WordsBytes(ws) == s && WordBytes(w) == x && t == s + x
    ensures WordsBytes(all) == t
  {
    WordsAndWord(ws, w, all);
  }

  /** ef537f25c895bfa782526529a9b63d97aa631564d5d789c2b765448c8635fb6c. */
  const DIGEST: seq<byte> :=
    [0xef, 0x53, 0x7f, 0x25, 0xc8, 0x95, 0xbf, 0xa7] +
    [0x82, 0x52, 0x65, 0x29, 0xa9, 0xb6, 0x3d, 0x97] +
    [0xaa, 0x63, 0x15, 0x64, 0xd5, 0xd7, 0x89, 0xc2] +
    [0xb7, 0x65, 0x44, 0x8c, 0x86, 0x35, 0xfb, 0x6c]

  const HASH: seq<Word> := [
    0xef537f25, 0xc895bfa7, 0x82526529, 0xa9b63d97,
    0xaa631564, 0xd5d789c2, 0xb765448c, 0x8635fb6c]

  lemma BytesUpTo1()
    ensures WordsBytes(HASH[..1]) == DIGEST[..4]
  {
    BytesOfWord0();
    BytesGrow(HASH[..0], HASH[0], HASH[..1], DIGEST[..0], [0xef, 0x53, 0x7f, 0x25], DIGEST[..4]);
  }

  lemma BytesUpTo2()
    ensures WordsBytes(HASH[..2]) == DIGEST[..8]
  {
    BytesUpTo1();
    BytesOfWord1();
    BytesGrow(HASH[..1], HASH[1], HASH[..2], DIGEST[..4], [0xc8, 0x95, 0xbf, 0xa7], DIGEST[..8]);
  }

  lemma BytesUpTo3()
    ensures WordsBytes(HASH[..3]) == DIGEST[..12]
  {
    BytesUpTo2();
    BytesOfWord2();
    BytesGrow(HASH[..2], HASH[2], HASH[..3], DIGEST[..8], [0x82, 0x52, 0x65, 0x29], DIGEST[..12]);
  }

  lemma BytesUpTo4()
    ensures WordsBytes(HASH[..4]) == DIGEST[..16]
  {
    BytesUpTo3();
    BytesOfWord3();
    BytesGrow(HASH[..3], HASH[3], HASH[..4], DIGEST[..12], [0xa9, 0xb6, 0x3d, 0x97], DIGEST[..16]);
  }

  lemma BytesUpTo5()
    ensures WordsBytes(HASH[..5]) == DIGEST[..20]
  {
    BytesUpTo4();
    BytesOfWord4();
    BytesGrow(HASH[..4], HASH[4], HASH[..5], DIGEST[..16], [0xaa, 0x63, 0x15, 0x64], DIGEST[..20]);
  }

  lemma BytesUpTo6()
    ensures WordsBytes(HASH[..6]) == DIGEST[..24]
  {
    BytesUpTo5();
    BytesOfWord5();
    BytesGrow(HASH[..5], HASH[5], HASH[..6], DIGEST[..20], [0xd5, 0xd7, 0x89, 0xc2], DIGEST[..24]);
  }

  lemma BytesUpTo7()
    ensures WordsBytes(HASH[..7]) == DIGEST[..28]
  {
    BytesUpTo6();
    BytesOfWord6();
    BytesGrow(HASH[..6], HASH[6], HASH[..7], DIGEST[..24], [0xb7, 0x65, 0x44, 0x8c], DIGEST[..28]);
  }

  lemma BytesUpTo8()
    ensures WordsBytes(HASH[..8]) == DIGEST[..32]
  {
    BytesUpTo7();
    BytesOfWord7();
    BytesGrow(HASH[..7], HASH[7], HASH[..8], DIGEST[..28], [0x86, 0x35, 0xfb, 0x6c], DIGEST[..32]);
  }

  lemma BytesOfDigest(r: Regs)
    requires r == Regs(0xef537f25, 0xc895bfa7, 0x82526529, 0xa9b63d97,
                       0xaa631564, 0xd5d789c2, 0xb765448c, 0x8635fb6c)
    ensures RegsBytes(r) == DIGEST
  {
    BytesUpTo8();
    assert HASH[..8] == HASH && DIGEST[..32] == DIGEST;
  }

  lemma DigestOfSentence()
    ensures Digest(SENTENCE) == DIGEST
  {
    PadOfSentence();
    var block: Block := Pad(SENTENCE);
    FoldOne(INITIAL, [], block);
    assert [] + block == block;
    CompressOfSentence(block);
    BytesOfDigest(Compress(INITIAL, block));
  }

  lemma OnePart(part: seq<byte>)
    ensures Flatten([part]) == part
  {
    assert [part][..0] == [];
    assert Flatten([]) == [];
  }

  /** The hash of the sentence. */
  method HashSentence() returns (out: array<byte>)
    ensures fresh(out) && out[..] == DIGEST
  {
    out := new byte[32];
    HashParts([SENTENCE], out);
    OnePart(SENTENCE);
    DigestOfSentence();
  }
}
