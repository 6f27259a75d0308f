/** Division with remainder, the one nonlinear fact the bit-level proofs share, and powers of two. */
module Arith {
  lemma MulNonnegative(x: int, y: int)
    requires 0 <= x && 0 <= y
    ensures 0 <= x * y
  {
  }

  lemma MulMonotone(m: int, a: int, b: int)
    requires m > 0 && a < b
    ensures m * a + m <= m * b
  {
    var k := b - a - 1;
    MulNonnegative(m, k);
    assert m * b == m * a + m * k + m by {
      assert b == a + (k + 1);
    }
  }

  function Pow2(k: nat): (p: nat)
    ensures p > 0
  {
    if k == 0 then 1 else 2 * Pow2(k - 1)
  }

  lemma SmallPowers()
    ensures Pow2(0) == 1 && Pow2(1) == 2 && Pow2(2) == 4 && Pow2(3) == 8
    ensures Pow2(4) == 16 && Pow2(5) == 32 && Pow2(6) == 64
  {
  }

  lemma DivModIs(x: int, m: int, q: int, r: int)
    requires m > 0 && x == m * q + r && 0 <= r < m
    ensures x / m == q && x % m == r
  {
    if x / m < q {
      MulMonotone(m, x / m, q);
    } else if q < x / m {
      MulMonotone(m, q, x / m);
    }
  }
}
