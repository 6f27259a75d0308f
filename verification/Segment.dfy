/** The vector helpers of the hook, above all the point of a segment that is closest to another point. */
module Segment {
  import opened BaseMath

  function Dot(a: Vec, b: Vec): real {
    a.x * b.x + a.y * b.y
  }

  function Minus(a: Vec, b: Vec): Vec {
    Vec(a.x - b.x, a.y - b.y)
  }

  function DistanceSquared(a: Vec, b: Vec): real {
    Dot(Minus(a, b), Minus(a, b))
  }

  /** The point of the segment from `a` to `b` that is next to `p`; a segment without length has none. */
  function ClosestPoint(a: Vec, b: Vec, p: Vec): Option<Vec> {
    var ab := Minus(b, a);
    if Dot(ab, ab) > 0.0 then
      var t := ClampReal(Dot(Minus(p, a), ab) / Dot(ab, ab), 0.0, 1.0);
      Some(Vec(a.x + ab.x * t, a.y + ab.y * t))
    else None
  }

  lemma SquareNotNegative(a: real)
    ensures a * a >= 0.0
  {
  }

  lemma DistanceNotNegative(a: Vec, b: Vec)
    ensures DistanceSquared(a, b) >= 0.0
  {
    SquareNotNegative(a.x - b.x);
    SquareNotNegative(a.y - b.y);
  }

  // ----- the closest point -----

  /** The point of the segment from `a` to `b` at the share `u` of the way. */
  function PointAt(a: Vec, b: Vec, u: real): Vec {
    Vec(a.x + (b.x - a.x) * u, a.y + (b.y - a.y) * u)
  }

  lemma SquareOfPart(p: real, x: real, u: real)
    ensures (p - x * u) * (p - x * u) == p * p - 2.0 * (u * (p * x)) + u * u * (x * x)
  {
    var w := x * u;
    assert (p - w) * (p - w) == p * p - 2.0 * (p * w) + w * w;
    assert p * w == u * (p * x);
    assert w * w == u * u * (x * x);
  }

  /** The square of the distance as a parabola over the share. */
  lemma GapAt(px: real, py: real, x: real, y: real, u: real, n: real, s: real, d: real)
    requires n == px * px + py * py && s == px * x + py * y && d == x * x + y * y
    ensures (px - x * u) * (px - x * u) + (py - y * u) * (py - y * u) == n - 2.0 * (u * s) + u * u * d
  {
    SquareOfPart(px, x, u);
    SquareOfPart(py, y, u);
    assert u * s == u * (px * x) + u * (py * y);
    assert u * u * d == u * u * (x * x) + u * u * (y * y);
  }

  lemma SmallerSquare(a: real, b: real)
    requires Abs(a) <= Abs(b)
    ensures a * a <= b * b
  {
    var x, y := Abs(a), Abs(b);
    assert (y - x) * (y + x) >= 0.0;
    assert (y - x) * (y + x) == y * y - x * x;
  }

  lemma ClampIsNearest(q: real, u: real)
    requires 0.0 <= u <= 1.0
    ensures Abs(ClampReal(q, 0.0, 1.0) - q) <= Abs(u - q)
  {
  }

  lemma Parabola(q: real, s: real, d: real, u: real)
    requires s == q * d
    ensures u * u * d - 2.0 * (u * s) == ((u - q) * (u - q) - q * q) * d
  {
    assert u * s == (u * q) * d;
    assert (u - q) * (u - q) - q * q == u * u - 2.0 * (u * q);
  }

  lemma LeTimes(a: real, b: real, d: real)
    requires a <= b && d > 0.0
    ensures a * d <= b * d
  {
    assert (b - a) * d >= 0.0;
  }

  /** The parabola without its constant part. */
  function Rise(u: real, s: real, d: real): real {
    u * u * d - 2.0 * (u * s)
  }

  lemma ParabolaAtClamp(q: real, s: real, d: real, t: real, u: real)
    requires d > 0.0 && s == q * d && t == ClampReal(q, 0.0, 1.0) && 0.0 <= u <= 1.0
    ensures Rise(t, s, d) <= Rise(u, s, d)
  {
    Parabola(q, s, d, t);
    Parabola(q, s, d, u);
    ClampIsNearest(q, u);
    SmallerSquare(t - q, u - q);
    LeTimes((t - q) * (t - q) - q * q, (u - q) * (u - q) - q * q, d);
  }

  lemma SquareOfZero(x: real)
    ensures x * x >= 0.0 && (x * x == 0.0 <==> x == 0.0)
  {
    SquareNotNegative(x);
    if x != 0.0 && x * x == 0.0 {
      ZeroProduct(x, x);
    }
  }

  lemma ApartIsPositive(x: real, y: real, xx: real, yy: real, d: real)
    requires xx == x * x && yy == y * y && d == xx + yy
    ensures d > 0.0 <==> x != 0.0 || y != 0.0
  {
    SquareOfZero(x);
    SquareOfZero(y);
  }

  lemma Share(s: real, d: real, q: real)
    requires d > 0.0 && q == s / d
    ensures s == q * d
  {
  }

  /** The closest point as the point at a clamped share. */
  lemma ClosestIs(a: Vec, b: Vec, p: Vec, x: real, y: real, s: real, d: real)
    requires x == b.x - a.x && y == b.y - a.y && s == (p.x - a.x) * x + (p.y - a.y) * y && d == x * x + y * y
    ensures ClosestPoint(a, b, p) ==
      if d > 0.0 then Some(PointAt(a, b, ClampReal(s / d, 0.0, 1.0))) else None
  {
    assert Minus(b, a) == Vec(x, y) && Minus(p, a) == Vec(p.x - a.x, p.y - a.y);
    assert Dot(Vec(x, y), Vec(x, y)) == d;
    assert Dot(Minus(p, a), Vec(x, y)) == s;
  }

  /** The squared distance from `p` to the point at share `u`. */
  lemma DistanceAt(a: Vec, b: Vec, p: Vec, u: real, px: real, py: real, x: real, y: real)
    requires x == b.x - a.x && y == b.y - a.y && px == p.x - a.x && py == p.y - a.y
    ensures DistanceSquared(p, PointAt(a, b, u)) == (px - x * u) * (px - x * u) + (py - y * u) * (py - y * u)
  {
    assert Minus(p, PointAt(a, b, u)) == Vec(px - x * u, py - y * u);
  }

  lemma DistanceIs(a: Vec, b: Vec, p: Vec, u: real, n: real, s: real, d: real, g: real)
    requires n == (p.x - a.x) * (p.x - a.x) + (p.y - a.y) * (p.y - a.y)
    requires s == (p.x - a.x) * (b.x - a.x) + (p.y - a.y) * (b.y - a.y)
    requires d == (b.x - a.x) * (b.x - a.x) + (b.y - a.y) * (b.y - a.y)
    requires g == DistanceSquared(p, PointAt(a, b, u))
    ensures g == n - 2.0 * (u * s) + u * u * d
  {
    var px, py, x, y := p.x - a.x, p.y - a.y, b.x - a.x, b.y - a.y;
    DistanceAt(a, b, p, u, px, py, x, y);
    GapAt(px, py, x, y, u, n, s, d);
  }

  /** How far along, and how far apart, in the terms of the parabola. */
  function Forward(a: Vec, b: Vec, p: Vec): real {
    (p.x - a.x) * (b.x - a.x) + (p.y - a.y) * (b.y - a.y)
  }

  function LengthSquared(a: Vec, b: Vec): (d: real)
    ensures d > 0.0 <==> a != b
  {
    var x, y := b.x - a.x, b.y - a.y;
    ApartIsPositive(x, y, x * x, y * y, x * x + y * y);
    x * x + y * y
  }

  lemma DistanceRises(a: Vec, b: Vec, p: Vec, u: real, n: real, s: real, d: real, g: real)
    requires n == LengthSquared(a, p) && s == Forward(a, b, p) && d == LengthSquared(a, b)
    requires g == DistanceSquared(p, PointAt(a, b, u))
    ensures g == n + Rise(u, s, d)
  {
    DistanceIs(a, b, p, u, n, s, d, g);
  }

  /** The share of the way at which a segment is closest to `p`. */
  function ClosestShare(a: Vec, b: Vec, p: Vec): real
    requires a != b
  {
    ClampReal(Forward(a, b, p) / LengthSquared(a, b), 0.0, 1.0)
  }

  lemma ClosestIsAtShare(a: Vec, b: Vec, p: Vec)
    ensures ClosestPoint(a, b, p) == if a != b then Some(PointAt(a, b, ClosestShare(a, b, p))) else None
  {
    ClosestIs(a, b, p, b.x - a.x, b.y - a.y, Forward(a, b, p), LengthSquared(a, b));
  }

  /** No point of the segment is closer than the one at that share. */
  lemma ShareIsNearest(a: Vec, b: Vec, p: Vec, t: real, u: real, s: real, d: real, g: real, h: real)
    requires s == Forward(a, b, p) && d == LengthSquared(a, b) && d > 0.0 && t == ClampReal(s / d, 0.0, 1.0)
    requires 0.0 <= u <= 1.0
    requires g == DistanceSquared(p, PointAt(a, b, t)) && h == DistanceSquared(p, PointAt(a, b, u))
    ensures g <= h
  {
    Share(s, d, s / d);
    ParabolaAtClamp(s / d, s, d, t, u);
    DistanceRises(a, b, p, t, LengthSquared(a, p), s, d, g);
    DistanceRises(a, b, p, u, LengthSquared(a, p), s, d, h);
  }

  /** The closest point lies on the segment, and no other point of the segment is closer. */
  lemma ClosestIsNearest(a: Vec, b: Vec, p: Vec, t: real, u: real)
    requires a != b && t == ClosestShare(a, b, p) && 0.0 <= u <= 1.0
    ensures 0.0 <= t <= 1.0 && ClosestPoint(a, b, p) == Some(PointAt(a, b, t))
    ensures DistanceSquared(p, PointAt(a, b, t)) <= DistanceSquared(p, PointAt(a, b, u))
  {
    ClosestIsAtShare(a, b, p);
    ShareIsNearest(a, b, p, t, u, Forward(a, b, p), LengthSquared(a, b),
                   DistanceSquared(p, PointAt(a, b, t)), DistanceSquared(p, PointAt(a, b, u)));
  }
}
