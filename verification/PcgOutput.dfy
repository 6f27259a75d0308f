/** How the numbers that the generator returns are spread: every 32-bit number exactly `2^32` times a period. */
module PcgOutput {
  import opened Counting
  import opened Pcg

  // ----- integers and bit vectors -----

  lemma OfNibble(i: int)
    requires 0 <= i < 0x10
    ensures (i as bv4) as int == i
  {
  }

  lemma Join8(hi: bv4, lo: bv4)
    ensures (((hi as bv8) << 4) | (lo as bv8)) as int == hi as int * 0x10 + lo as int
  {
  }

  lemma Join16(hi: bv8, lo: bv8)
    ensures (((hi as bv16) << 8) | (lo as bv16)) as int == hi as int * 0x100 + lo as int
  {
  }

  lemma Join32(hi: bv16, lo: bv16)
    ensures (((hi as bv32) << 16) | (lo as bv32)) as int == hi as int * 0x1_0000 + lo as int
  {
  }

  lemma Join64(hi: bv32, lo: bv32)
    ensures (((hi as bv64) << 32) | (lo as bv64)) as int == hi as int * 0x1_0000_0000 + lo as int
  {
  }

  lemma Of8(i: int) returns (b: bv8)
    requires 0 <= i < 0x100
    ensures b as int == i
  {
    OfNibble(i / 0x10);
    OfNibble(i % 0x10);
    var hi, lo := (i / 0x10) as bv4, (i % 0x10) as bv4;
    Join8(hi, lo);
    b := ((hi as bv8) << 4) | (lo as bv8);
  }

  lemma Of16(i: int) returns (b: bv16)
    requires 0 <= i < 0x1_0000
    ensures b as int == i
  {
    var hi := Of8(i / 0x100);
    var lo := Of8(i % 0x100);
    Join16(hi, lo);
    b := ((hi as bv16) << 8) | (lo as bv16);
  }

  lemma Of32(i: int) returns (b: bv32)
    requires 0 <= i < 0x1_0000_0000
    ensures b as int == i
  {
    var hi := Of16(i / 0x1_0000);
    var lo := Of16(i % 0x1_0000);
    Join32(hi, lo);
    b := ((hi as bv32) << 16) | (lo as bv32);
  }

  lemma Of64(i: u64) returns (b: bv64)
    ensures b as int == i
  {
    var hi := Of32(i / 0x1_0000_0000);
    var lo := Of32(i % 0x1_0000_0000);
    Join64(hi, lo);
    b := ((hi as bv64) << 32) | (lo as bv64);
  }

  lemma Back64(b: bv64)
    ensures 0 <= b as int < MODULUS && (b as int) as bv64 == b
  {
  }

  lemma Back32(b: bv32)
    ensures 0 <= b as int < 0x1_0000_0000 && (b as int) as bv32 == b
  {
  }

  lemma SameWord(i: u64, j: u64)
    requires i as bv64 == j as bv64
    ensures i == j
  {
    var a := Of64(i);
    var b := Of64(j);
    Back64(a);
    Back64(b);
  }

  lemma SameInt32(a: bv32, b: bv32)
    ensures a as int == b as int ==> a == b
  {
    Back32(a);
    Back32(b);
  }

  // ----- the permutation loses nothing -----

  lemma MixTo46(x: bv64, z: bv64)
    requires Mix(x) == Mix(z)
    ensures x >> 46 == z >> 46
  {
  }

  lemma MixTo36(x: bv64, z: bv64)
    requires Mix(x) == Mix(z) && x >> 46 == z >> 46
    ensures x >> 36 == z >> 36
  {
  }

  lemma MixTo26(x: bv64, z: bv64)
    requires Mix(x) == Mix(z) && x >> 36 == z >> 36
    ensures x >> 26 == z >> 26
  {
  }

  lemma MixTo18(x: bv64, z: bv64)
    requires Mix(x) == Mix(z) && x >> 26 == z >> 26
    ensures x >> 18 == z >> 18
  {
  }

  lemma MixTo10(x: bv64, z: bv64)
    requires Mix(x) == Mix(z) && x >> 18 == z >> 18
    ensures x >> 10 == z >> 10
  {
  }

  lemma MixTo0(x: bv64, z: bv64)
    requires Mix(x) == Mix(z) && x >> 10 == z >> 10
    ensures x == z
  {
  }

  /** The xor-shift tells the state, from the highest bits down. */
  lemma SameMix(x: bv64, z: bv64)
    requires Mix(x) == Mix(z)
    ensures x == z
  {
    MixTo46(x, z);
    MixTo36(x, z);
    MixTo26(x, z);
    MixTo18(x, z);
    MixTo10(x, z);
    MixTo0(x, z);
  }

  /** The bits that choose the rotation. */
  function Top(x: bv64): bv5 {
    (x >> 59) as bv5
  }

  /** The bits that are dropped. */
  function Low(y: bv64): bv27 {
    (y & 0x7FF_FFFF) as bv27
  }

  lemma SameParts(y: bv64, z: bv64)
    requires Top(y) == Top(z) && Middle(y) == Middle(z) && Low(y) == Low(z)
    ensures y == z
  {
  }

  lemma TopKept(x: bv64)
    ensures Top(Mix(x)) == Top(x) && Count(x) < 32
  {
  }

  lemma TopTellsCount(a: bv64, b: bv64)
    requires Top(a) == Top(b)
    ensures Count(a) == Count(b)
  {
  }

  lemma RotateByNone(w: bv32)
    ensures RotateRight32(w, 0) == w
  {
  }

  lemma SameRotation(w: bv32, v: bv32, shift: bv32)
    requires shift < 32 && RotateRight32(w, shift) == RotateRight32(v, shift)
    ensures w == v
  {
    if shift == 0 {
      RotateByNone(w);
      RotateByNone(v);
    } else {
      RotationIsUndone(w, shift);
      RotationIsUndone(v, shift);
    }
  }

  lemma SameBits(a: bv64, b: bv64)
    requires Top(a) == Top(b) && Middle(Mix(a)) == Middle(Mix(b)) && Low(Mix(a)) == Low(Mix(b))
    ensures a == b
  {
    TopKept(a);
    TopKept(b);
    SameParts(Mix(a), Mix(b));
    SameMix(a, b);
  }

  lemma SameMiddle(x: u64, z: u64, a: bv64, b: bv64)
    requires a == x as bv64 && b == z as bv64 && Output(x) == Output(z) && Count(a) == Count(b)
    ensures Middle(Mix(a)) == Middle(Mix(b))
  {
    TopKept(a);
    SameRotation(Middle(Mix(a)), Middle(Mix(b)), Count(a));
  }

  /** What the output does not tell of a state: the rotation and the bits dropped. */
  function Rest(x: u64): bv32 {
    var b := x as bv64;
    Join(Top(b), Low(Mix(b)))
  }

  function Join(top: bv5, low: bv27): bv32 {
    ((top as bv32) << 27) | (low as bv32)
  }

  lemma JoinTells(p: bv5, q: bv27, r: bv5, s: bv27)
    requires Join(p, q) == Join(r, s)
    ensures p == r && q == s
  {
  }

  /** Output and rest together tell the state. */
  lemma OutputAndRestTell(x: u64, z: u64)
    requires Output(x) == Output(z) && Rest(x) == Rest(z)
    ensures x == z
  {
    var a, b := x as bv64, z as bv64;
    JoinTells(Top(a), Low(Mix(a)), Top(b), Low(Mix(b)));
    TopTellsCount(a, b);
    SameMiddle(x, z, a, b);
    SameBits(a, b);
    SameWord(x, z);
  }

  // ----- counting the draws -----

  /** The numbers of the draws, among those of one period from state `x` on, that return `v`. */
  function Draws(inc: u64, x: u64, v: bv32): set<int> {
    set n | 0 <= n < MODULUS && Output(After(inc, x, n)) == v
  }

  function OutputAfter(inc: u64, x: u64): int -> int {
    (n: int) => if n >= 0 then Output(After(inc, x, n)) as int else 0
  }

  function RestAfter(inc: u64, x: u64): int -> int {
    (n: int) => if n >= 0 then Rest(After(inc, x, n)) as int else 0
  }

  lemma StatesDiffer(y: u64, z: u64, o: bv32, p: bv32, r: bv32, s: bv32)
    requires y != z && o == Output(y) && p == Output(z) && r == Rest(y) && s == Rest(z)
    ensures o as int != p as int || r as int != s as int
  {
    if o == p && r == s {
      OutputAndRestTell(y, z);
    }
    SameInt32(o, p);
    SameInt32(r, s);
  }

  lemma DrawsDiffer(inc: u64, x: u64, i: nat, j: nat)
    requires inc % 2 == 1 && i < j < MODULUS
    ensures OutputAfter(inc, x)(i) != OutputAfter(inc, x)(j) || RestAfter(inc, x)(i) != RestAfter(inc, x)(j)
  {
    StatesRepeatExactly(inc, x, i, j);
    LessIsNoMultiple(j - i);
    var y, z := After(inc, x, i), After(inc, x, j);
    StatesDiffer(y, z, Output(y), Output(z), Rest(y), Rest(z));
  }

  lemma LessIsNoMultiple(d: int)
    requires 0 < d < MODULUS
    ensures d % MODULUS != 0
  {
  }

  lemma DrawFits(inc: u64, x: u64, i: nat)
    ensures 0 <= OutputAfter(inc, x)(i) < WORDS && 0 <= RestAfter(inc, x)(i) < WORDS
  {
    Back32(Output(After(inc, x, i)));
    Back32(Rest(After(inc, x, i)));
  }

  lemma DrawIs(inc: u64, x: u64, v: bv32, n: int)
    ensures n in Draws(inc, x, v) <==> 0 <= n < MODULUS && OutputAfter(inc, x)(n) == v as int
  {
    if n >= 0 {
      SameInt32(Output(After(inc, x, n)), v);
    }
  }

  const WORDS: nat := 0x1_0000_0000

  lemma DrawsArePairs(inc: u64, x: u64, o: int -> int, r: int -> int)
    requires inc % 2 == 1 && o == OutputAfter(inc, x) && r == RestAfter(inc, x)
    ensures Pairs(o, r, WORDS, WORDS, MODULUS)
  {
    forall i | 0 <= i < MODULUS ensures 0 <= o(i) < WORDS && 0 <= r(i) < WORDS {
      DrawFits(inc, x, i);
    }
    forall i, j | 0 <= i < j < MODULUS ensures o(i) != o(j) || r(i) != r(j) {
      DrawsDiffer(inc, x, i, j);
    }
  }

  /** From every state each 32-bit number is returned exactly `2^32` times in `2^64` draws. */
  lemma ReturnedEquallyOften(inc: u64, x: u64, v: bv32)
    requires inc % 2 == 1
    ensures |Draws(inc, x, v)| == WORDS
  {
    var o, r := OutputAfter(inc, x), RestAfter(inc, x);
    DrawsArePairs(inc, x, o, r);
    forall n ensures n in Draws(inc, x, v) <==> 0 <= n < MODULUS && o(n) == v as int {
      DrawIs(inc, x, v, n);
    }
    Back32(v);
    EquallyOften(o, r, WORDS, WORDS, MODULUS, v as int, Draws(inc, x, v));
  }

  // ----- the numbers of the reference program -----

  /** The output permutation on the word itself. */
  function OutputOfWord(x: bv64): bv32 {
    RotateRight32(Middle(Mix(x)), Count(x))
  }

  lemma OutputIs(x: u64, word: bv64)
    requires word as int == x
    ensures Output(x) == OutputOfWord(word)
  {
    Back64(word);
  }

  /** A state, the number drawn from it, and the next state. */
  predicate Returns(x: u64, bits: bv32, next: u64) {
    Output(x) == bits && Step(109, x) == next
  }

  lemma ReturnsIs(x: u64, word: bv64, bits: bv32, next: u64)
    requires word as int == x && OutputOfWord(word) == bits && Step(109, x) == next
    ensures Returns(x, bits, next)
  {
    OutputIs(x, word);
  }

  lemma Draw0(x: u64, word: bv64)
    requires x == 0x185706b82c2e03f8 && word == 0x185706b82c2e03f8
    ensures Returns(x, 0xa15c02b7, 0x2b47fed88766bb05)
  {
    ReturnsIs(x, word, 0xa15c02b7, 0x2b47fed88766bb05);
  }

  lemma Draw1(x: u64, word: bv64)
    requires x == 0x2b47fed88766bb05 && word == 0x2b47fed88766bb05
    ensures Returns(x, 0x7b47f409, 0x8b33296d19bf5b4e)
  {
    ReturnsIs(x, word, 0x7b47f409, 0x8b33296d19bf5b4e);
  }

  lemma Draw2(x: u64, word: bv64)
    requires x == 0x8b33296d19bf5b4e && word == 0x8b33296d19bf5b4e
    ensures Returns(x, 0xba1d3330, 0xf7079824c154bf23)
  {
    ReturnsIs(x, word, 0xba1d3330, 0xf7079824c154bf23);
  }

  lemma Draw3(x: u64, word: bv64)
    requires x == 0xf7079824c154bf23 && word == 0xf7079824c154bf23
    ensures Returns(x, 0x83d2f293, 0xebbf9e97aa16f694)
  {
    ReturnsIs(x, word, 0x83d2f293, 0xebbf9e97aa16f694);
  }

  lemma Draw4(x: u64, word: bv64)
    requires x == 0xebbf9e97aa16f694 && word == 0xebbf9e97aa16f694
    ensures Returns(x, 0xbfa4784b, 0x8303569fbe80c471)
  {
    ReturnsIs(x, word, 0xbfa4784b, 0x8303569fbe80c471);
  }

  lemma Draw5(x: u64, word: bv64)
    requires x == 0x8303569fbe80c471 && word == 0x8303569fbe80c471
    ensures Returns(x, 0xcbed606e, 0xbeb6d0b73fdb974a)
  {
    ReturnsIs(x, word, 0xcbed606e, 0xbeb6d0b73fdb974a);
  }

  lemma Seeded(inc: u64, x: u64)
    requires inc == 2 * 54 % MODULUS + 1 && x == Step(inc, (42 + inc) % MODULUS)
    ensures inc == 109 && x == 0x185706b82c2e03f8
  {
  }

  /** Seeded with 42 and 54, the generator returns the numbers that the program of its authors prints. */
  method FirstNumbers() returns (numbers: seq<bv32>)
    ensures numbers == [0xa15c02b7, 0x7b47f409, 0xba1d3330, 0x83d2f293, 0xbfa4784b, 0xcbed606e]
  {
    var p := new Prng();
    p.Seed(42, 54);
    Seeded(p.increment, p.state);
    Draw0(p.state, 0x185706b82c2e03f8);
    var n0 := p.RandomBits();
    Draw1(p.state, 0x2b47fed88766bb05);
    var n1 := p.RandomBits();
    Draw2(p.state, 0x8b33296d19bf5b4e);
    var n2 := p.RandomBits();
    Draw3(p.state, 0xf7079824c154bf23);
    var n3 := p.RandomBits();
    Draw4(p.state, 0xebbf9e97aa16f694);
    var n4 := p.RandomBits();
    Draw5(p.state, 0x8303569fbe80c471);
    var n5 := p.RandomBits();
    numbers := [n0, n1, n2, n3, n4, n5];
  }
}
