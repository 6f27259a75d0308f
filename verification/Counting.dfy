/** Finite sets of integers, counted through functions that take no value twice. */
module Counting {
  import opened Arith

  function Image(f: int -> int, n: nat): set<int> {
    set i | 0 <= i < n :: f(i)
  }

  lemma {:induction false} ImageSize(f: int -> int, n: nat)
    requires forall i, j :: 0 <= i < j < n ==> f(i) != f(j)
    ensures |Image(f, n)| == n
  {
    if n > 0 {
      ImageSize(f, n - 1);
      assert Image(f, n) == Image(f, n - 1) + {f(n - 1)} && f(n - 1) !in Image(f, n - 1);
    }
  }

  lemma {:induction false} RangeSize(n: nat) returns (all: set<int>)
    ensures |all| == n && forall i :: i in all <==> 0 <= i < n
  {
    if n == 0 {
      all := {};
    } else {
      all := RangeSize(n - 1);
      all := all + {n - 1};
    }
  }

  lemma FullSubset(a: set<int>, b: set<int>)
    requires a <= b && |a| == |b|
    ensures a == b
  {
    assert b == a + (b - a);
  }

  lemma Surjective(f: int -> int, n: nat, y: int) returns (i: nat)
    requires forall i, j :: 0 <= i < j < n ==> f(i) != f(j)
    requires forall i :: 0 <= i < n ==> 0 <= f(i) < n
    requires 0 <= y < n
    ensures i < n && f(i) == y
  {
    var image := Image(f, n);
    var all := RangeSize(n);
    ImageSize(f, n);
    FullSubset(image, all);
    assert y in all && y in image;
    i :| 0 <= i < n && f(i) == y;
  }

  /** On the first `n` numbers the pair of `o` and `r` takes no value twice, and so each of its `a * b` values once. */
  ghost predicate Pairs(o: int -> int, r: int -> int, a: nat, b: nat, n: nat) {
    && n == a * b
    && (forall i :: 0 <= i < n ==> 0 <= o(i) < a && 0 <= r(i) < b)
    && (forall i, j :: 0 <= i < j < n ==> o(i) != o(j) || r(i) != r(j))
  }

  lemma PairFits(p: int, q: int, a: nat, b: nat)
    requires 0 <= p < a && 0 <= q < b
    ensures 0 <= p * b + q < a * b
  {
    MulNonnegative(p, b);
    MulNonnegative(a - 1 - p, b);
    assert a * b == p * b + b + (a - 1 - p) * b;
  }

  lemma PairTells(p: int, q: int, v: int, k: int, b: nat)
    requires 0 <= q < b && 0 <= k < b && p * b + q == v * b + k
    ensures p == v && q == k
  {
    DivModIs(p * b + q, b, p, q);
    DivModIs(v * b + k, b, v, k);
  }

  lemma PairTaken(o: int -> int, r: int -> int, a: nat, b: nat, n: nat, v: nat, k: nat) returns (i: nat)
    requires Pairs(o, r, a, b, n) && v < a && k < b
    ensures i < n && o(i) == v && r(i) == k
  {
    var f := (i: int) => o(i) * b + r(i);
    forall i | 0 <= i < n ensures 0 <= f(i) < n {
      PairFits(o(i), r(i), a, b);
    }
    forall i, j | 0 <= i < j < n ensures f(i) != f(j) {
      if f(i) == f(j) {
        PairTells(o(i), r(i), o(j), r(j), b);
      }
    }
    PairFits(v, k, a, b);
    i := Surjective(f, n, v * b + k);
    PairTells(o(i), r(i), v, k, b);
  }

  lemma AnyOf<T>(a: set<T>) returns (i: T)
    requires a != {}
    ensures i in a
  {
    i :| i in a;
  }

  lemma {:induction false} SameSize(a: set<int>, f: int -> int)
    requires forall i, j :: i in a && j in a && i != j ==> f(i) != f(j)
    ensures |set i | i in a :: f(i)| == |a|
    decreases |a|
  {
    if a != {} {
      var i := AnyOf(a);
      var b := a - {i};
      SameSize(b, f);
      assert (set j | j in a :: f(j)) == (set j | j in b :: f(j)) + {f(i)};
      assert a == b + {i};
    }
  }

  /** Each value of `o` is then taken `b` times. */
  lemma EquallyOften(o: int -> int, r: int -> int, a: nat, b: nat, n: nat, v: nat, draws: set<int>)
    requires Pairs(o, r, a, b, n) && v < a && forall i :: i in draws <==> 0 <= i < n && o(i) == v
    ensures |draws| == b
  {
    SameSize(draws, r);
    var rests := set i | i in draws :: r(i);
    forall k | 0 <= k < b ensures k in rests {
      var i := PairTaken(o, r, a, b, n, v, k);
      assert i in draws;
    }
    var all := RangeSize(b);
    assert rests == all;
  }
}
