/** The 64-bit permuted congruential generator and the length of its cycle. */
module Pcg {
  import opened Arith
  import opened Counting

  const MODULUS: int := 0x1_0000_0000_0000_0000
  const MULTIPLIER: int := 6364136223846793005

  type u64 = x: int | 0 <= x < MODULUS

  function Step(inc: u64, x: u64): u64 {
    (x * MULTIPLIER + inc) % MODULUS
  }

  function RotateRight32(x: bv32, shift: bv32): bv32
    requires shift < 32
  {
    (x >> shift) | (x << ((0 - shift) & 31))
  }

  function Mix(x: bv64): bv64 {
    x ^ (x >> 18)
  }

  function Count(x: bv64): bv32 {
    (x >> 59) as bv32
  }

  function Middle(y: bv64): bv32 {
    ((y >> 27) & 0xFFFF_FFFF) as bv32
  }

  /** The output permutation: the top five bits choose a rotation of the bits that are left. */
  function Output(state: u64): bv32 {
    var x := state as bv64;
    RotateRight32(Middle(Mix(x)), Count(x))
  }

  lemma OddIncrement(seed: u64)
    ensures 2 * seed % MODULUS + 1 < MODULUS && (2 * seed % MODULUS + 1) % 2 == 1
  {
    var q := 2 * seed / MODULUS;
    assert 2 * seed % MODULUS == 2 * (seed - q * (MODULUS / 2));
  }

  class Prng {
    var seeded: bool
    var state: u64
    var increment: u64

    constructor ()
      ensures !seeded
    {
      seeded := false;
      state, increment := 0, 0;
    }

    method Seed(seed0: u64, seed1: u64)
      modifies this
      ensures seeded && increment % 2 == 1 && increment == 2 * seed1 % MODULUS + 1
      ensures state == Step(increment, (seed0 + increment) % MODULUS)
    {
      seeded := true;
      OddIncrement(seed1);
      increment := seed1 * 2 % MODULUS + 1;
      state := (seed0 + increment) % MODULUS;
      var _ := RandomBits();
    }

    method RandomBits() returns (bits: bv32)
      requires seeded
      modifies this`state
      ensures bits == Output(old(state)) && state == Step(increment, old(state))
    {
      var x := state;
      state := (x * MULTIPLIER + increment) % MODULUS;
      bits := Output(x);
    }
  }

  /** The state after `n` more numbers. */
  function After(inc: u64, x: u64, n: nat): u64 {
    if n == 0 then x else Step(inc, After(inc, x, n - 1))
  }

  // ----- the same recurrence without the modulus -----

  function Iter(inc: int, x: int, n: nat): int {
    if n == 0 then x else Iter(inc, x, n - 1) * MULTIPLIER + inc
  }

  lemma ModOfStep(x: int, inc: int)
    ensures ((x % MODULUS) * MULTIPLIER + inc) % MODULUS == (x * MULTIPLIER + inc) % MODULUS
  {
    var q, r := x / MODULUS, x % MODULUS;
    var y := r * MULTIPLIER + inc;
    DivModIs(x * MULTIPLIER + inc, MODULUS, q * MULTIPLIER + y / MODULUS, y % MODULUS);
  }

  lemma {:induction false} AfterIsIterMod(inc: u64, x: u64, n: nat)
    ensures After(inc, x, n) == Iter(inc, x, n) % MODULUS
  {
    if n > 0 {
      AfterIsIterMod(inc, x, n - 1);
      ModOfStep(Iter(inc, x, n - 1), inc);
    }
  }

  lemma {:induction false} IterAdds(inc: int, x: int, m: nat, n: nat)
    ensures Iter(inc, x, m + n) == Iter(inc, Iter(inc, x, m), n)
    decreases n
  {
    if n > 0 {
      IterAdds(inc, x, m, n - 1);
    }
  }

  /** `2^k` steps add `2^k` times an odd number. */
  lemma {:induction false} PowerStep(inc: int, k: nat) returns (u: int, v: int)
    requires inc % 2 == 1
    ensures forall x :: Iter(inc, x, Pow2(k)) == x + Pow2(k) * (4 * u * x + 2 * v + 1)
  {
    if k == 0 {
      u, v := MULTIPLIER / 4, inc / 2;
      forall x ensures Iter(inc, x, Pow2(0)) == x + Pow2(0) * (4 * u * x + 2 * v + 1) {
        assert Iter(inc, x, 1) == Iter(inc, x, 0) * MULTIPLIER + inc;
      }
    } else {
      var p := Pow2(k - 1);
      var u0, v0 := PowerStep(inc, k - 1);
      u, v := u0 * (1 + 2 * p * u0), v0 + p * u0 * (2 * v0 + 1);
      forall x ensures Iter(inc, x, Pow2(k)) == x + Pow2(k) * (4 * u * x + 2 * v + 1) {
        var y := Iter(inc, x, p);
        IterAdds(inc, x, p, p);
        Doubling(p, u0, v0, x, y);
      }
    }
  }

  lemma Doubling(p: int, u: int, v: int, x: int, y: int)
    requires y == x + p * (4 * u * x + 2 * v + 1)
    ensures y + p * (4 * u * y + 2 * v + 1)
         == x + 2 * p * (4 * (u * (1 + 2 * p * u)) * x + 2 * (v + p * u * (2 * v + 1)) + 1)
  {
    var z := 4 * u * x + 2 * v + 1;
    var pu := p * u;
    assert 4 * u * y == 4 * u * x + 4 * pu * z;
    assert p * (4 * u * y + 2 * v + 1) == p * z + p * (4 * pu * z);
    assert 4 * (u * (1 + 2 * pu)) * x + 2 * (v + pu * (2 * v + 1)) + 1 == z + 2 * pu * z;
    assert 2 * p * (z + 2 * pu * z) == 2 * (p * z) + p * (4 * pu * z);
  }

  lemma AddMultiple(x: int, p: int, q: int, t0: int, u: int, v: int, y: int)
    requires y == x + p * (q - 1 + 2 * t0)
    ensures y + p * (4 * u * y + 2 * v + 1) == x + p * (q + 2 * (t0 + 2 * u * y + v))
  {
    var a, b := q - 1 + 2 * t0, 4 * u * y + 2 * v + 1;
    assert q + 2 * (t0 + 2 * u * y + v) == a + b;
    assert p * (a + b) == p * a + p * b;
  }

  /** `2^k * q` steps add `2^k` times a number of the parity of `q`. */
  lemma {:induction false} MultipleStep(inc: int, x: int, k: nat, q: nat) returns (t: int)
    requires inc % 2 == 1
    ensures Iter(inc, x, Pow2(k) * q) == x + Pow2(k) * (q + 2 * t)
    decreases q
  {
    var p := Pow2(k);
    if q == 0 {
      t := 0;
    } else {
      var t0 := MultipleStep(inc, x, k, q - 1);
      var u, v := PowerStep(inc, k);
      var y := Iter(inc, x, p * (q - 1));
      IterAdds(inc, x, p * (q - 1), p);
      assert p * (q - 1) + p == p * q;
      t := t0 + 2 * u * y + v;
      AddMultiple(x, p, q, t0, u, v, y);
    }
  }

  /** `n` is `2^k` times an odd number. */
  lemma {:induction false} OddPart(n: nat) returns (k: nat, q: nat)
    requires n > 0
    ensures n == Pow2(k) * q && q % 2 == 1
  {
    if n % 2 == 1 {
      k, q := 0, n;
    } else {
      k, q := OddPart(n / 2);
      assert Pow2(k + 1) == 2 * Pow2(k);
      k := k + 1;
    }
  }

  lemma TwiceTimes(a: int, b: int)
    ensures 2 * (a * b) == (2 * a) * b
  {
  }

  lemma {:induction false} Pow2Adds(j: nat, k: nat, n: nat)
    requires n == j + k
    ensures Pow2(n) == Pow2(j) * Pow2(k)
    decreases j
  {
    if j > 0 {
      Pow2Adds(j - 1, k, n - 1);
      TwiceTimes(Pow2(j - 1), Pow2(k));
    }
  }

  lemma Pow2Of64()
    ensures Pow2(64) == MODULUS
  {
    assert Pow2(4) == 16;
    Pow2Adds(4, 4, 8);
    Pow2Adds(8, 8, 16);
    Pow2Adds(16, 16, 32);
    Pow2Adds(32, 32, 64);
  }

  /** Only even multiples of a smaller power of two are multiples of `2^64`. */
  lemma CancelFactor(p: int, a: int, b: int)
    requires p > 0 && p * a == p * b
    ensures a == b
  {
    if a < b {
      MulMonotone(p, a, b);
    } else if b < a {
      MulMonotone(p, b, a);
    }
  }

  lemma Regroup(p: int, h: int, m: int, w: int)
    requires w == p * (2 * h)
    ensures w * m == p * (2 * (h * m))
  {
  }

  lemma EvenFactor(p: int, h: int, w: int, a: int, m: int)
    requires p > 0 && w == p * (2 * h) && p * a == w * m
    ensures a % 2 == 0
  {
    var b := h * m;
    Regroup(p, h, m, w);
    CancelFactor(p, a, 2 * b);
  }

  lemma EvenMultiple(k: nat, a: int, m: int)
    requires k < 64 && Pow2(k) * a == MODULUS * m
    ensures a % 2 == 0
  {
    Pow2Of64();
    Pow2Adds(k, 64 - k, 64);
    EvenFactor(Pow2(k), Pow2(63 - k), MODULUS, a, m);
  }

  lemma HighPower(k: nat, q: int, n: int)
    requires k >= 64 && n == Pow2(k) * q
    ensures n % MODULUS == 0
  {
    Pow2Of64();
    Pow2Adds(64, k - 64, k);
    var p := Pow2(k - 64);
    assert MODULUS * p * q == MODULUS * (p * q);
    DivModIs(n, MODULUS, p * q, 0);
  }

  lemma OddDistance(k: nat, a: int, x: u64, y: int)
    requires k < 64 && a % 2 == 1 && y == x + Pow2(k) * a
    ensures y % MODULUS != x
  {
    if y % MODULUS == x {
      EvenMultiple(k, a, y / MODULUS);
    }
  }

  lemma OddSum(q: int, t: int, a: int)
    requires q % 2 == 1 && a == q + 2 * t
    ensures a % 2 == 1
  {
  }

  lemma LowPower(inc: int, x: u64, k: nat, q: nat, y: int)
    requires inc % 2 == 1 && k < 64 && q % 2 == 1 && y == Iter(inc, x, Pow2(k) * q)
    ensures y % MODULUS != x
  {
    var t := MultipleStep(inc, x, k, q);
    var a := q + 2 * t;
    OddSum(q, t, a);
    OddDistance(k, a, x, y);
  }

  lemma ComesBackOnlyAtMultiples(inc: int, x: u64, n: nat)
    requires inc % 2 == 1 && n > 0 && Iter(inc, x, n) % MODULUS == x
    ensures n % MODULUS == 0
  {
    var k, q := OddPart(n);
    if k < 64 {
      LowPower(inc, x, k, q, Iter(inc, x, n));
    } else {
      HighPower(k, q, n);
    }
  }

  lemma ComesBackAtMultiples(inc: int, x: u64, m: nat)
    requires inc % 2 == 1
    ensures Iter(inc, x, MODULUS * m) % MODULUS == x
  {
    Pow2Of64();
    var t := MultipleStep(inc, x, 64, m);
    DivModIs(Iter(inc, x, MODULUS * m), MODULUS, m + 2 * t, x);
  }

  /** A state comes back after `n` steps exactly when `n` is a multiple of `2^64`. */
  lemma Period(inc: u64, x: u64, n: nat)
    requires inc % 2 == 1
    ensures After(inc, x, n) == x <==> n % MODULUS == 0
  {
    AfterIsIterMod(inc, x, n);
    if n % MODULUS == 0 {
      ComesBackAtMultiples(inc, x, n / MODULUS);
    } else if After(inc, x, n) == x {
      ComesBackOnlyAtMultiples(inc, x, n);
    }
  }

  lemma {:induction false} AfterAdds(inc: u64, x: u64, m: nat, n: nat)
    ensures After(inc, x, m + n) == After(inc, After(inc, x, m), n)
    decreases n
  {
    if n > 0 {
      AfterAdds(inc, x, m, n - 1);
    }
  }

  /** Two states of one run agree exactly when they are a multiple of `2^64` steps apart. */
  lemma StatesRepeatExactly(inc: u64, x: u64, i: nat, j: nat)
    requires inc % 2 == 1 && i <= j
    ensures After(inc, x, i) == After(inc, x, j) <==> (j - i) % MODULUS == 0
  {
    AfterAdds(inc, x, i, j - i);
    Period(inc, After(inc, x, i), j - i);
  }

  // ----- every state is visited -----

  /** From any state every 64-bit state is reached in fewer than `2^64` steps. */
  lemma EveryStateIsVisited(inc: u64, x: u64, y: u64) returns (n: nat)
    requires inc % 2 == 1
    ensures n < MODULUS && After(inc, x, n) == y
  {
    var f := (i: int) => if i >= 0 then After(inc, x, i) else 0;
    forall i, j | 0 <= i < j < MODULUS ensures f(i) != f(j) {
      StatesRepeatExactly(inc, x, i, j);
    }
    n := Surjective(f, MODULUS, y);
  }

  /** The rotation loses nothing: rotating on by the rest of the word gives the word back. */
  lemma RotationIsUndone(x: bv32, shift: bv32)
    requires 0 < shift < 32
    ensures RotateRight32(RotateRight32(x, shift), 32 - shift) == x
  {
  }
}
