/** The tile map as a solid/free predicate on points, the four-corner box test, and the sub-stepped box mover. */
module Collision {
  import Arith
  import opened BaseMath

  const TILE_SOLID := 1
  const TILE_NOHOOK := 3
  const TILE_NOLASER := 4
  const TILE_SIZE := 32

  /** The game layer: not loaded, or the indices of its tiles, row by row. */
  datatype Layer = Unloaded | Grid(width: int, height: int, tiles: seq<int>) {
    predicate Valid() {
      Grid? ==> width > 0 && height > 0 && |tiles| == width * height
    }
  }

  type Map = l: Layer | l.Valid() witness Unloaded

  // ----- from points to tiles -----

  /** Integer division towards zero. */
  function Quotient(a: int, b: int): int
    requires b > 0
  {
    if a >= 0 then a / b else -(-a / b)
  }

  /** The column or row of a whole-number coordinate, on an axis of `n` tiles. */
  function Cell(v: int, n: int): (c: int)
    requires n > 0
    ensures 0 <= c < n
  {
    Clamp(Quotient(v, TILE_SIZE), 0, n - 1)
  }

  lemma IndexInside(x: int, y: int, width: int, height: int)
    requires 0 <= x < width && 0 <= y < height
    ensures 0 <= y * width + x < width * height
  {
    Arith.MulNonnegative(y, width);
    Arith.MulNonnegative(height - 1 - y, width);
    assert width * height == y * width + width + (height - 1 - y) * width;
  }

  function GetTile(m: Map, x: int, y: int): int {
    if m.Unloaded? then 0
    else
      var nx, ny := Cell(x, m.width), Cell(y, m.height);
      IndexInside(nx, ny, m.width, m.height);
      var index := m.tiles[ny * m.width + nx];
      if TILE_SOLID <= index <= TILE_NOLASER then index else 0
  }

  predicate IsSolid(m: Map, x: int, y: int) {
    var index := GetTile(m, x, y);
    index == TILE_SOLID || index == TILE_NOHOOK
  }

  predicate CheckPoint(m: Map, p: Vec) {
    IsSolid(m, RoundToInt(p.x), RoundToInt(p.y))
  }

  /** A corner of the box around `pos`. */
  function Corner(pos: Vec, size: Vec, right: bool, bottom: bool): Vec {
    var halfX, halfY := size.x * 0.5, size.y * 0.5;
    Vec(if right then pos.x + halfX else pos.x - halfX, if bottom then pos.y + halfY else pos.y - halfY)
  }

  predicate TestBox(m: Map, pos: Vec, size: Vec) {
    || CheckPoint(m, Corner(pos, size, false, false))
    || CheckPoint(m, Corner(pos, size, true, false))
    || CheckPoint(m, Corner(pos, size, false, true))
    || CheckPoint(m, Corner(pos, size, true, true))
  }

  // ----- which tile a point reads -----

  function CellOf(f: real, n: int): int
    requires n > 0
  {
    Cell(RoundToInt(f), n)
  }

  lemma FloorDiv(f: real)
    requires f >= 0.0
    ensures f.Floor / TILE_SIZE == (f / 32.0).Floor
  {
    var q := (f / 32.0).Floor;
    assert q as real <= f / 32.0 < q as real + 1.0;
    assert (32 * q) as real <= f < (32 * q + 32) as real;
    assert 32 * q <= f.Floor < 32 * q + 32;
  }

  /** The cell of a point, without the detours of the code: cells are 32 wide and shifted by half a unit. */
  lemma CellOfIs(f: real, n: int)
    requires n > 0
    ensures CellOf(f, n) == Clamp(((f + 0.5) / 32.0).Floor, 0, n - 1)
  {
    if f > 0.0 {
      FloorDiv(f + 0.5);
    } else {
      assert RoundToInt(f) <= 0 && Quotient(RoundToInt(f), TILE_SIZE) <= 0;
      assert (f + 0.5) / 32.0 < 1.0;
    }
  }

  /** A coordinate lies over column or row `i` of `n`. They are 32 wide and shifted by half a unit; the first and the
      last reach on beyond the map. */
  predicate Over(f: real, i: int, n: int) {
    && 0 <= i < n
    && (i == 0 || (32 * i) as real <= f + 0.5) && (i == n - 1 || f + 0.5 < (32 * i + 32) as real)
  }

  lemma FloorIs(g: real, i: int)
    ensures (g / 32.0).Floor == i <==> (32 * i) as real <= g < (32 * i + 32) as real
    ensures (g / 32.0).Floor <= i <==> g < (32 * i + 32) as real
  {
    var q := (g / 32.0).Floor;
    assert q as real <= g / 32.0 < q as real + 1.0;
    assert (32 * q) as real <= g < (32 * q + 32) as real;
  }

  lemma CellOver(f: real, i: int, n: int)
    requires n > 0
    ensures CellOf(f, n) == i <==> Over(f, i, n)
  {
    CellOfIs(f, n);
    FloorIs(f + 0.5, i);
    FloorIs(f + 0.5, i - 1);
    FloorIs(f + 0.5, 0);
    FloorIs(f + 0.5, n - 2);
  }

  /** What stops a character or a hook: the solid tiles 1 and 3 of the game layer. */
  predicate Stone(m: Map, i: int, j: int)
    requires m.Grid? && 0 <= i < m.width && 0 <= j < m.height
  {
    IndexInside(i, j, m.width, m.height);
    m.tiles[j * m.width + i] == 1 || m.tiles[j * m.width + i] == 3
  }

  /** A point is solid exactly if the tile it lies over is; off the map that is the nearest one on the border. */
  lemma PointReadsTile(m: Map, p: Vec, i: int, j: int)
    requires m.Grid? && Over(p.x, i, m.width) && Over(p.y, j, m.height)
    ensures CheckPoint(m, p) <==> Stone(m, i, j)
  {
    CellOver(p.x, i, m.width);
    CellOver(p.y, j, m.height);
    IndexInside(i, j, m.width, m.height);
  }

  /** Every point lies over a tile, and no point is solid before a map is loaded. */
  lemma SolidExactly(m: Map, p: Vec)
    ensures CheckPoint(m, p) <==>
      m.Grid? && exists i, j :: Over(p.x, i, m.width) && Over(p.y, j, m.height) && Stone(m, i, j)
  {
    if m.Grid? {
      var i, j := CellOf(p.x, m.width), CellOf(p.y, m.height);
      CellOver(p.x, i, m.width);
      CellOver(p.y, j, m.height);
      PointReadsTile(m, p, i, j);
      if c, d :| Over(p.x, c, m.width) && Over(p.y, d, m.height) && Stone(m, c, d) {
        PointReadsTile(m, p, c, d);
      }
    }
  }

  // ----- four corners stand for the whole box -----

  /** An interval no longer than a tile reaches no cell that is not the cell of one of its ends. */
  lemma NoCellSkipped(a: real, p: real, b: real, n: int)
    requires n > 0 && a <= p <= b <= a + 32.0
    ensures CellOf(p, n) == CellOf(a, n) || CellOf(p, n) == CellOf(b, n)
  {
    CellOfIs(a, n);
    CellOfIs(p, n);
    CellOfIs(b, n);
    var u, v, w := (a + 0.5) / 32.0, (p + 0.5) / 32.0, (b + 0.5) / 32.0;
    assert u <= v <= w <= u + 1.0;
    assert u.Floor <= v.Floor <= w.Floor <= u.Floor + 1;
  }

  /** A point of the box around `pos`, borders included. */
  predicate InBox(p: Vec, pos: Vec, size: Vec) {
    && 2.0 * (pos.x - p.x) <= size.x && 2.0 * (p.x - pos.x) <= size.x
    && 2.0 * (pos.y - p.y) <= size.y && 2.0 * (p.y - pos.y) <= size.y
  }

  ghost predicate TouchesSolid(m: Map, pos: Vec, size: Vec) {
    exists p :: InBox(p, pos, size) && CheckPoint(m, p)
  }

  predicate SameCells(m: Map, p: Vec, q: Vec) {
    m.Grid? ==> CellOf(p.x, m.width) == CellOf(q.x, m.width) && CellOf(p.y, m.height) == CellOf(q.y, m.height)
  }

  lemma SameCell(m: Map, p: Vec, q: Vec)
    requires SameCells(m, p, q)
    ensures CheckPoint(m, p) <==> CheckPoint(m, q)
  {
  }

  /** The corner that lies in the same cell as `p`. */
  lemma CornerFor(m: Map, pos: Vec, size: Vec, p: Vec) returns (right: bool, bottom: bool)
    requires 0.0 <= size.x <= 32.0 && 0.0 <= size.y <= 32.0 && InBox(p, pos, size)
    ensures SameCells(m, p, Corner(pos, size, right, bottom))
  {
    right, bottom := false, false;
    if m.Grid? {
      var lo, hi := Corner(pos, size, false, false), Corner(pos, size, true, true);
      NoCellSkipped(lo.x, p.x, hi.x, m.width);
      NoCellSkipped(lo.y, p.y, hi.y, m.height);
      right, bottom := CellOf(p.x, m.width) != CellOf(lo.x, m.width), CellOf(p.y, m.height) != CellOf(lo.y, m.height);
    }
  }

  lemma CornersInBox(pos: Vec, size: Vec, right: bool, bottom: bool)
    requires 0.0 <= size.x && 0.0 <= size.y
    ensures InBox(Corner(pos, size, right, bottom), pos, size)
  {
  }

  lemma CornerTells(m: Map, pos: Vec, size: Vec, right: bool, bottom: bool)
    requires CheckPoint(m, Corner(pos, size, right, bottom))
    ensures TestBox(m, pos, size)
  {
  }

  /** A box with sides of at most 32 passes the four-corner test exactly if no point of it is solid. */
  lemma FourCornersSuffice(m: Map, pos: Vec, size: Vec)
    requires 0.0 <= size.x <= 32.0 && 0.0 <= size.y <= 32.0
    ensures TestBox(m, pos, size) <==> TouchesSolid(m, pos, size)
  {
    if TestBox(m, pos, size) {
      forall right, bottom ensures InBox(Corner(pos, size, right, bottom), pos, size) {
        CornersInBox(pos, size, right, bottom);
      }
    } else if TouchesSolid(m, pos, size) {
      var p :| InBox(p, pos, size) && CheckPoint(m, p);
      var right, bottom := CornerFor(m, pos, size, p);
      SameCell(m, p, Corner(pos, size, right, bottom));
      CornerTells(m, pos, size, right, bottom);
    }
  }

  /** Three tiles in a row or a column, the middle one solid. */
  function ThreeTiles(tall: bool): Map {
    if tall then Grid(1, 3, [0, TILE_SOLID, 0]) else Grid(3, 1, [0, TILE_SOLID, 0])
  }

  /** On a map where only the middle one of three cells of an axis is solid. */
  ghost predicate MiddleOnly(m: Map, tall: bool) {
    forall p: Vec :: CheckPoint(m, p) <==> CellOf(if tall then p.y else p.x, 3) == 1
  }

  lemma ThreeTilesMiddle(tall: bool, m: Map)
    requires m == ThreeTiles(tall)
    ensures MiddleOnly(m, tall)
  {
  }

  lemma CellsAround(half: real)
    requires half > 16.0
    ensures CellOf(47.5 - half, 3) == 0 && CellOf(47.5, 3) == 1 && CellOf(47.5 + half, 3) == 2
  {
    CellOfIs(47.5 - half, 3);
    CellOfIs(47.5, 3);
    CellOfIs(47.5 + half, 3);
    assert (48.0 - half) / 32.0 < 1.0 && (48.0 + half) / 32.0 >= 2.0;
  }

  lemma LongerBoxCorner(m: Map, tall: bool, size: Vec, pos: Vec, right: bool, bottom: bool)
    requires MiddleOnly(m, tall) && pos == Vec(47.5, 47.5) && (if tall then size.y else size.x) > 32.0
    ensures !CheckPoint(m, Corner(pos, size, right, bottom))
  {
    CellsAround((if tall then size.y else size.x) * 0.5);
  }

  /** A box with a longer side can straddle a solid tile. */
  lemma LongerBoxStraddles(m: Map, tall: bool, size: Vec, pos: Vec)
    requires MiddleOnly(m, tall) && pos == Vec(47.5, 47.5)
    requires size.x >= 0.0 && size.y >= 0.0 && (if tall then size.y else size.x) > 32.0
    ensures !TestBox(m, pos, size) && InBox(pos, pos, size) && CheckPoint(m, pos)
  {
    CellsAround((if tall then size.y else size.x) * 0.5);
    forall right, bottom ensures !CheckPoint(m, Corner(pos, size, right, bottom)) {
      LongerBoxCorner(m, tall, size, pos, right, bottom);
    }
  }

  ghost predicate CornersAlwaysSuffice(size: Vec) {
    forall m: Map, pos: Vec :: TestBox(m, pos, size) <==> TouchesSolid(m, pos, size)
  }

  /** The bound of 32 is exact: on every map and at every place, four corners stand for the whole box if and
      only if no side is longer than a tile. */
  lemma FourCornersSufficeExactly(size: Vec)
    requires size.x >= 0.0 && size.y >= 0.0
    ensures CornersAlwaysSuffice(size) <==> size.x <= 32.0 && size.y <= 32.0
  {
    if size.x <= 32.0 && size.y <= 32.0 {
      forall m: Map, pos: Vec ensures TestBox(m, pos, size) <==> TouchesSolid(m, pos, size) {
        FourCornersSuffice(m, pos, size);
      }
    } else {
      var tall := size.x <= 32.0;
      var m, pos := ThreeTiles(tall), Vec(47.5, 47.5);
      ThreeTilesMiddle(tall, m);
      LongerBoxStraddles(m, tall, size, pos);
      assert TouchesSolid(m, pos, size);
    }
  }

  // ----- the mover -----

  datatype Mover = Mover(pos: Vec, vel: Vec, grounded: bool)

  /** What stays the same during one move: where the box would touch the map, the elasticity on each axis, and
      the part of the velocity that one sub-step covers. */
  datatype Setting = Setting(blocked: Vec -> bool, elasticity: Vec, fraction: real)

  /** Where a sub-step tries to go. */
  function Target(g: Setting, s: Mover): Vec {
    Vec(s.pos.x + s.vel.x * g.fraction, s.pos.y + s.vel.y * g.fraction)
  }

  /** The response on each axis when the target is blocked. */
  function Bounce(g: Setting, s: Mover, hitX: bool, hitY: bool): Mover {
    var to := Target(g, s);
    Mover(
      Vec(if hitX then s.pos.x else to.x, if hitY then s.pos.y else to.y),
      Vec(if hitX then s.vel.x * -g.elasticity.x else s.vel.x, if hitY then s.vel.y * -g.elasticity.y else s.vel.y),
      s.grounded || (hitY && g.elasticity.y > 0.0 && s.vel.y > 0.0))
  }

  /** One sub-step. An axis is hit if moving along it alone is blocked; in the corner case, when neither is
      but the target is, both are. */
  function Substep(g: Setting, s: Mover): Mover {
    var to := Target(g, s);
    if !g.blocked(to) then s.(pos := to)
    else
      var hitX, hitY := g.blocked(Vec(to.x, s.pos.y)), g.blocked(Vec(s.pos.x, to.y));
      if hitX || hitY then Bounce(g, s, hitX, hitY) else Bounce(g, s, true, true)
  }

  /** After `n` sub-steps. */
  function Substeps(g: Setting, s: Mover, n: nat): Mover {
    if n == 0 then s else Substep(g, Substeps(g, s, n - 1))
  }

  function SettingOf(m: Map, size: Vec, elasticity: Vec, max: nat): Setting {
    Setting(p => TestBox(m, p, size), Vec(ClampReal(elasticity.x, -1.0, 1.0), ClampReal(elasticity.y, -1.0, 1.0)),
            1.0 / (max as real + 1.0))
  }

  /** The length of a vector, which the code takes as the square root. */
  predicate IsLength(d: real, v: Vec) {
    d >= 0.0 && d * d == v.x * v.x + v.y * v.y
  }

  /** The whole move: a fixed number of sub-steps, unless the velocity is next to nothing. */
  function Moved(m: Map, size: Vec, elasticity: Vec, s: Mover, distance: real): Mover
    requires distance >= 0.0
  {
    if distance > 0.00001 then
      Substeps(SettingOf(m, size, elasticity, distance.Floor), s, distance.Floor + 1)
    else s
  }

  // ----- the early exits -----

  lemma StillIsDone(g: Setting, s: Mover)
    requires g.fraction > 0.0 && (s.vel == Vec(0.0, 0.0) || Target(g, s) == s.pos)
    ensures Substep(g, s).pos == s.pos && Substep(g, s) == s
  {
    ZeroProduct(s.vel.x, g.fraction);
    ZeroProduct(s.vel.y, g.fraction);
  }

  lemma {:induction false} StillForever(g: Setting, s: Mover, i: nat, n: nat)
    requires i <= n && Substep(g, Substeps(g, s, i)) == Substeps(g, s, i)
    ensures Substeps(g, s, n) == Substeps(g, s, i)
  {
    if i < n {
      StillForever(g, s, i, n - 1);
    }
  }

  /** One round of the loop, in the order of the code. */
  method DoSubstep(g: Setting, pos: Vec, vel: Vec, grounded: bool) returns (pos': Vec, vel': Vec, grounded': bool)
    ensures Mover(pos', vel', grounded') == Substep(g, Mover(pos, vel, grounded))
  {
    grounded' := grounded;
    var newPos, newVel := Target(g, Mover(pos, vel, grounded)), vel;
    if g.blocked(newPos) {
      var hits := 0;
      if g.blocked(Vec(pos.x, newPos.y)) {
        if g.elasticity.y > 0.0 && newVel.y > 0.0 {
          grounded' := true;
        }
        newPos := newPos.(y := pos.y);
        newVel := newVel.(y := newVel.y * -g.elasticity.y);
        hits := hits + 1;
      }
      if g.blocked(Vec(newPos.x, pos.y)) {
        newPos := newPos.(x := pos.x);
        newVel := newVel.(x := newVel.x * -g.elasticity.x);
        hits := hits + 1;
      }
      if hits == 0 {
        if g.elasticity.y > 0.0 && newVel.y > 0.0 {
          grounded' := true;
        }
        newPos := pos;
        newVel := Vec(newVel.x * -g.elasticity.x, newVel.y * -g.elasticity.y);
      }
    }
    pos', vel' := newPos, newVel;
  }

  /** The loop of `MoveBox`: it stops early when nothing can change any more, and still gives what all the
      sub-steps would. */
  method DoSubsteps(g: Setting, start: Mover, max: nat) returns (s: Mover)
    requires g.fraction > 0.0
    ensures s == Substeps(g, start, max + 1)
  {
    s := start;
    var i := 0;
    while i <= max
      invariant 0 <= i <= max + 1
      invariant s == Substeps(g, start, i)
    {
      if s.vel == Vec(0.0, 0.0) {
        StillIsDone(g, s);
        StillForever(g, start, i, max + 1);
        break;
      }
      if Target(g, s) == s.pos {
        StillIsDone(g, s);
        StillForever(g, start, i, max + 1);
        break;
      }
      var pos, vel, grounded := DoSubstep(g, s.pos, s.vel, s.grounded);
      s := Mover(pos, vel, grounded);
      i := i + 1;
    }
  }

  method MoveBox(m: Map, size: Vec, elasticity: Vec, pos: Vec, vel: Vec, grounded: bool, distance: real)
    returns (s: Mover)
    requires IsLength(distance, vel)
    ensures s == Moved(m, size, elasticity, Mover(pos, vel, grounded), distance)
  {
    s := Mover(pos, vel, grounded);
    if distance > 0.00001 {
      s := DoSubsteps(SettingOf(m, size, elasticity, distance.Floor), s, distance.Floor);
    }
  }

  // ----- where the mover can be -----

  predicate Damped(g: Setting) {
    g.fraction > 0.0 && Abs(g.elasticity.x) <= 1.0 && Abs(g.elasticity.y) <= 1.0
  }

  /** Every position a sub-step leads to is the one before or a free one: nothing else is needed to keep a free
      box free, and a box that starts inside a wall leaves it only for a free position. */
  lemma SubstepStaysOrIsFree(g: Setting, s: Mover)
    ensures var t := Substep(g, s); t.pos == s.pos || !g.blocked(t.pos)
  {
  }

  lemma {:induction false} VisitsOnlyFree(g: Setting, s: Mover, n: nat)
    ensures var t := Substeps(g, s, n); t.pos == s.pos || !g.blocked(t.pos)
  {
    if n > 0 {
      VisitsOnlyFree(g, s, n - 1);
      SubstepStaysOrIsFree(g, Substeps(g, s, n - 1));
    }
  }

  lemma DampedProduct(v: real, e: real)
    requires Abs(e) <= 1.0
    ensures Abs(v * -e) <= Abs(v)
  {
    assert Abs(v * -e) == Abs(v) * Abs(e);
    assert Abs(v) * Abs(e) <= Abs(v) * 1.0;
  }

  /** What one sub-step can do on one axis: move by its share of the velocity and keep it, or stay and turn. */
  predicate AxisStep(p: real, v: real, p': real, v': real, e: real, f: real) {
    (p' == p + v * f && v' == v) || (p' == p && v' == v * -e)
  }

  function Axis(v: Vec, vertical: bool): real {
    if vertical then v.y else v.x
  }

  lemma SubstepPerAxis(g: Setting, s: Mover, t: Mover, h: bool)
    requires t == Substep(g, s)
    ensures AxisStep(Axis(s.pos, h), Axis(s.vel, h), Axis(t.pos, h), Axis(t.vel, h), Axis(g.elasticity, h), g.fraction)
  {
  }

  lemma AxisStepBounds(p: real, v: real, p': real, v': real, e: real, f: real)
    requires AxisStep(p, v, p', v', e, f) && Abs(e) <= 1.0 && f > 0.0
    ensures Abs(v') <= Abs(v) && Abs(p' - p) <= Abs(v) * f
  {
    DampedProduct(v, e);
    assert Abs(v * f) == Abs(v) * f;
    assert Abs(v) * f >= 0.0;
  }

  lemma MulLe(a: real, b: real, f: real)
    requires a <= b && f >= 0.0
    ensures a * f <= b * f
  {
    assert (b - a) * f >= 0.0;
  }

  /** How far `n` sub-steps at speed `v` can lead. */
  function Reach(v: real, f: real, n: nat): real {
    if n == 0 then 0.0 else Reach(v, f, n - 1) + Abs(v) * f
  }

  lemma {:induction false} ReachIs(v: real, f: real, n: nat)
    ensures Reach(v, f, n) == Abs(v) * f * n as real
  {
    if n > 0 {
      ReachIs(v, f, n - 1);
      MulNext(Abs(v) * f, n - 1);
    }
  }

  lemma MulNext(a: real, k: nat)
    ensures a * (k + 1) as real == a * k as real + a
  {
  }

  lemma WholeReach(v: real, f: real, n: nat)
    requires f * n as real == 1.0
    ensures Reach(v, f, n) == Abs(v)
  {
    ReachIs(v, f, n);
    assert Abs(v) * f * n as real == Abs(v) * (f * n as real);
  }

  /** After `n` sub-steps from `p0` at `v0`: no faster than at the start, and within reach. */
  predicate AxisWithin(p0: real, v0: real, p: real, v: real, f: real, n: nat) {
    Abs(v) <= Abs(v0) && Abs(p - p0) <= Reach(v0, f, n)
  }

  lemma AxisStepWithin(p0: real, v0: real, p: real, v: real, p': real, v': real, e: real, f: real, n: nat)
    requires AxisWithin(p0, v0, p, v, f, n) && AxisStep(p, v, p', v', e, f) && Abs(e) <= 1.0 && f > 0.0
    ensures AxisWithin(p0, v0, p', v', f, n + 1)
  {
    AxisStepBounds(p, v, p', v', e, f);
    MulLe(Abs(v), Abs(v0), f);
  }

  lemma {:induction false} SubstepsWithin(g: Setting, s: Mover, n: nat, t: Mover, h: bool)
    requires Damped(g) && t == Substeps(g, s, n)
    ensures AxisWithin(Axis(s.pos, h), Axis(s.vel, h), Axis(t.pos, h), Axis(t.vel, h), g.fraction, n)
  {
    if n > 0 {
      var r := Substeps(g, s, n - 1);
      SubstepsWithin(g, s, n - 1, r, h);
      SubstepPerAxis(g, r, t, h);
      AxisStepWithin(Axis(s.pos, h), Axis(s.vel, h), Axis(r.pos, h), Axis(r.vel, h), Axis(t.pos, h), Axis(t.vel, h),
                     Axis(g.elasticity, h), g.fraction, n - 1);
    }
  }

  // ----- the whole move -----

  lemma SettingFits(m: Map, size: Vec, elasticity: Vec, max: nat)
    ensures Whole(SettingOf(m, size, elasticity, max), max + 1)
  {
  }

  /** The `k`-th of the positions that a move goes through. */
  function Visited(m: Map, size: Vec, elasticity: Vec, s: Mover, distance: real, k: nat): Mover
    requires distance >= 0.0
  {
    Substeps(SettingOf(m, size, elasticity, distance.Floor), s, k)
  }

  /** A box that touches nothing solid touches nothing solid at any position it visits. */
  lemma MoveStaysClear(m: Map, size: Vec, elasticity: Vec, s: Mover, distance: real, k: nat)
    requires 0.0 <= size.x <= 32.0 && 0.0 <= size.y <= 32.0 && distance >= 0.0
    requires !TouchesSolid(m, s.pos, size)
    ensures !TouchesSolid(m, Visited(m, size, elasticity, s, distance, k).pos, size)
  {
    var g := SettingOf(m, size, elasticity, distance.Floor);
    var t := Visited(m, size, elasticity, s, distance, k);
    VisitsOnlyFree(g, s, k);
    assert t.pos == s.pos || !TestBox(m, t.pos, size);
    FourCornersSuffice(m, t.pos, size);
  }

  lemma ShareSquared(d: real, v: real, f: real, square: real, part: real)
    requires Abs(d) <= Abs(v) * f && f > 0.0 && square == v * v && part == f * f
    ensures d * d <= square * part
  {
    var a, b := Abs(d), Abs(v) * f;
    MulLe(a, b, a);
    MulLe(a, b, b);
    assert b * b == (Abs(v) * Abs(v)) * (f * f);
  }

  lemma Times(a: real, b: real)
    requires a >= 0.0 && b >= 0.0
    ensures a * b >= 0.0
  {
  }

  lemma SquareOfProduct(a: real, b: real, d: real, aa: real, bb: real)
    requires d == a * b && aa == a * a && bb == b * b
    ensures aa * bb == d * d
  {
  }

  lemma LessThanOne(distance: real, f: real, n: real, square: real, part: real)
    requires 0.0 <= distance < n && f * n == 1.0 && f > 0.0 && square == distance * distance && part == f * f
    ensures square * part < 1.0
  {
    var d, gap := distance * f, n - distance;
    Times(distance, f);
    assert gap * f > 0.0;
    assert gap * f == 1.0 - d;
    var e := 1.0 - d;
    Times(d, e);
    assert d * e == d - d * d;
    SquareOfProduct(distance, f, d, square, part);
  }

  predicate AxisWithinShare(p: real, q: real, v: real, f: real) {
    Abs(q - p) <= Abs(v) * f
  }

  /** A displacement on one axis is no more than one share of the velocity `v`. */
  predicate WithinShare(p: Vec, q: Vec, v: Vec, f: real, h: bool) {
    AxisWithinShare(Axis(p, h), Axis(q, h), Axis(v, h), f)
  }

  predicate Short(p: Vec, q: Vec) {
    (q.x - p.x) * (q.x - p.x) + (q.y - p.y) * (q.y - p.y) < 1.0
  }

  lemma ShortSteps(v: Vec, distance: real, f: real, n: real, p: Vec, q: Vec)
    requires IsLength(distance, v) && distance < n && f * n == 1.0 && f > 0.0
    requires WithinShare(p, q, v, f, false) && WithinShare(p, q, v, f, true)
    ensures Short(p, q)
  {
    var dx, dy := q.x - p.x, q.y - p.y;
    var vx2, vy2, part, square := v.x * v.x, v.y * v.y, f * f, distance * distance;
    ShareSquared(dx, v.x, f, vx2, part);
    ShareSquared(dy, v.y, f, vy2, part);
    LessThanOne(distance, f, n, square, part);
    SumBelow(dx * dx, dy * dy, vx2, vy2, part, square);
  }

  lemma SumBelow(a: real, b: real, p: real, q: real, r: real, l: real)
    requires a <= p * r && b <= q * r && l == p + q && l * r < 1.0
    ensures a + b < 1.0
  {
    var x, y := p * r, q * r;
    assert l * r == x + y;
  }

  /** The fraction covers the whole velocity in `n` sub-steps. */
  predicate Whole(g: Setting, n: nat) {
    Damped(g) && g.fraction * n as real == 1.0
  }

  lemma AxisShare(p0: real, v0: real, p: real, v: real, p': real, v': real, e: real, f: real, n: nat)
    requires AxisWithin(p0, v0, p, v, f, n) && AxisStep(p, v, p', v', e, f) && Abs(e) <= 1.0 && f > 0.0
    ensures AxisWithinShare(p, p', v0, f)
  {
    AxisStepBounds(p, v, p', v', e, f);
    MulLe(Abs(v), Abs(v0), f);
  }

  lemma SubstepShare(g: Setting, s: Mover, k: nat, r: Mover, t: Mover, h: bool)
    requires Damped(g) && r == Substeps(g, s, k) && t == Substep(g, r)
    ensures WithinShare(r.pos, t.pos, s.vel, g.fraction, h)
  {
    SubstepsWithin(g, s, k, r, h);
    SubstepPerAxis(g, r, t, h);
    AxisShare(Axis(s.pos, h), Axis(s.vel, h), Axis(r.pos, h), Axis(r.vel, h), Axis(t.pos, h), Axis(t.vel, h),
              Axis(g.elasticity, h), g.fraction, k);
  }

  /** No sub-step is as long as one unit. */
  lemma SubstepIsShort(g: Setting, s: Mover, distance: real, k: nat, r: Mover, t: Mover)
    requires IsLength(distance, s.vel) && Whole(g, distance.Floor + 1)
    requires r == Substeps(g, s, k) && t == Substep(g, r)
    ensures Short(r.pos, t.pos)
  {
    SubstepShare(g, s, k, r, t, false);
    SubstepShare(g, s, k, r, t, true);
    ShortSteps(s.vel, distance, g.fraction, (distance.Floor + 1) as real, r.pos, t.pos);
  }

  predicate AxisBounded(p0: real, v0: real, p: real, v: real) {
    Abs(v) <= Abs(v0) && Abs(p - p0) <= Abs(v0)
  }

  lemma WholeAxisBounded(p0: real, v0: real, p: real, v: real, f: real, n: nat)
    requires AxisWithin(p0, v0, p, v, f, n) && f * n as real == 1.0
    ensures AxisBounded(p0, v0, p, v)
  {
    WholeReach(v0, f, n);
  }

  lemma WholeIsBounded(g: Setting, s: Mover, n: nat, t: Mover, h: bool, p0: real, v0: real, p: real, v: real)
    requires Whole(g, n) && t == Substeps(g, s, n)
    requires p0 == Axis(s.pos, h) && v0 == Axis(s.vel, h) && p == Axis(t.pos, h) && v == Axis(t.vel, h)
    ensures AxisBounded(p0, v0, p, v)
  {
    SubstepsWithin(g, s, n, t, h);
    WholeAxisBounded(p0, v0, p, v, g.fraction, n);
  }

  /** On each axis a move ends no faster than it began, and no further away than the velocity it began with. */
  lemma MoveIsBounded(m: Map, size: Vec, elasticity: Vec, s: Mover, distance: real, t: Mover, h: bool)
    requires distance >= 0.0 && t == Moved(m, size, elasticity, s, distance)
    ensures AxisBounded(Axis(s.pos, h), Axis(s.vel, h), Axis(t.pos, h), Axis(t.vel, h))
  {
    if distance > 0.00001 {
      var max := distance.Floor;
      SettingFits(m, size, elasticity, max);
      WholeIsBounded(SettingOf(m, size, elasticity, max), s, max + 1, t, h,
                     Axis(s.pos, h), Axis(s.vel, h), Axis(t.pos, h), Axis(t.vel, h));
    }
  }

  function AlongAxis(p: real, v: real, f: real, k: nat): real {
    if k == 0 then p else AlongAxis(p, v, f, k - 1) + v * f
  }

  lemma {:induction false} AlongAxisIs(p: real, v: real, f: real, k: nat)
    ensures AlongAxis(p, v, f, k) == p + v * f * k as real
  {
    if k > 0 {
      AlongAxisIs(p, v, f, k - 1);
      MulNext(v * f, k - 1);
    }
  }

  lemma WholeAxis(p: real, v: real, f: real, n: nat)
    requires f * n as real == 1.0
    ensures AlongAxis(p, v, f, n) == p + v
  {
    AlongAxisIs(p, v, f, n);
    assert v * f * n as real == v * (f * n as real);
  }

  /** The point after `k` shares of the velocity. */
  function Along(g: Setting, s: Mover, k: nat): Vec {
    if k == 0 then s.pos else Target(g, s.(pos := Along(g, s, k - 1)))
  }

  lemma TargetAxis(g: Setting, s: Mover, h: bool)
    ensures Axis(Target(g, s), h) == Axis(s.pos, h) + Axis(s.vel, h) * g.fraction
  {
  }

  lemma AlongAxisNext(p: real, v: real, f: real, k: nat)
    requires k > 0
    ensures AlongAxis(p, v, f, k) == AlongAxis(p, v, f, k - 1) + v * f
  {
  }

  lemma {:induction false} AlongIs(g: Setting, s: Mover, k: nat, h: bool)
    ensures Axis(Along(g, s, k), h) == AlongAxis(Axis(s.pos, h), Axis(s.vel, h), g.fraction, k)
  {
    if k > 0 {
      AlongIs(g, s, k - 1, h);
      TargetAxis(g, s.(pos := Along(g, s, k - 1)), h);
      AlongAxisNext(Axis(s.pos, h), Axis(s.vel, h), g.fraction, k);
    }
  }

  lemma AlongWhole(g: Setting, s: Mover, n: nat, h: bool)
    requires g.fraction * n as real == 1.0
    ensures Axis(Along(g, s, n), h) == Axis(s.pos, h) + Axis(s.vel, h)
  {
    AlongIs(g, s, n, h);
    WholeAxis(Axis(s.pos, h), Axis(s.vel, h), g.fraction, n);
  }

  lemma FreeStep(g: Setting, s: Mover, to: Vec)
    requires to == Target(g, s) && !g.blocked(to)
    ensures Substep(g, s) == s.(pos := to)
  {
  }

  lemma {:induction false} Unhindered(g: Setting, s: Mover, n: nat)
    requires forall k :: 0 < k <= n ==> !g.blocked(Along(g, s, k))
    ensures Substeps(g, s, n) == s.(pos := Along(g, s, n))
  {
    if n > 0 {
      Unhindered(g, s, n - 1);
      FreeStep(g, s.(pos := Along(g, s, n - 1)), Along(g, s, n));
    }
  }

  /** With nothing in the way a move covers exactly its velocity, and changes nothing else. */
  lemma ClearMoveIsExact(g: Setting, s: Mover, n: nat)
    requires Whole(g, n) && forall k :: 0 < k <= n ==> !g.blocked(Along(g, s, k))
    ensures Substeps(g, s, n) == s.(pos := Vec(s.pos.x + s.vel.x, s.pos.y + s.vel.y))
  {
    Unhindered(g, s, n);
    AlongWhole(g, s, n, false);
    AlongWhole(g, s, n, true);
  }

  /** A sub-step finds ground: it falls, the box bounces, and the vertical axis is what was hit, alone or as
      half of a corner. */
  predicate FindsGround(g: Setting, s: Mover) {
    var to := Target(g, s);
    && s.vel.y > 0.0 && g.elasticity.y > 0.0 && g.blocked(to)
    && (g.blocked(Vec(s.pos.x, to.y)) || !g.blocked(Vec(to.x, s.pos.y)))
  }

  /** The flag is raised exactly if some sub-step has found ground. */
  lemma {:induction false} GroundedExactly(g: Setting, s: Mover, n: nat)
    ensures Substeps(g, s, n).grounded
            <==> s.grounded || exists k: nat :: k < n && FindsGround(g, Substeps(g, s, k))
  {
    if n > 0 {
      GroundedExactly(g, s, n - 1);
      var r := Substeps(g, s, n - 1);
      assert Substep(g, r).grounded <==> r.grounded || FindsGround(g, r);
    }
  }

  function Swap(v: Vec): Vec {
    Vec(v.y, v.x)
  }

  /** The same surroundings with the axes exchanged. */
  ghost predicate Transposed(g: Setting, h: Setting) {
    && h.elasticity == Swap(g.elasticity) && h.fraction == g.fraction
    && forall p: Vec :: h.blocked(Swap(p)) <==> g.blocked(p)
  }

  predicate SwappedMover(s: Mover, t: Mover) {
    t.pos == Swap(s.pos) && t.vel == Swap(s.vel)
  }

  lemma SubstepTransposed(g: Setting, h: Setting, s: Mover, t: Mover)
    requires Transposed(g, h) && SwappedMover(s, t)
    ensures SwappedMover(Substep(g, s), Substep(h, t))
  {
    var to := Target(g, s);
    assert Target(h, t) == Swap(to);
    assert h.blocked(Swap(to)) <==> g.blocked(to);
    assert h.blocked(Swap(Vec(to.x, s.pos.y))) <==> g.blocked(Vec(to.x, s.pos.y));
    assert h.blocked(Swap(Vec(s.pos.x, to.y))) <==> g.blocked(Vec(s.pos.x, to.y));
  }

  /** No axis is preferred, although one is tested before the other: exchanging the axes of the map and of the
      motion exchanges the axes of the outcome. */
  lemma {:induction false} NoAxisPreferred(g: Setting, h: Setting, s: Mover, t: Mover, n: nat)
    requires Transposed(g, h) && SwappedMover(s, t)
    ensures SwappedMover(Substeps(g, s, n), Substeps(h, t, n))
  {
    if n > 0 {
      NoAxisPreferred(g, h, s, t, n - 1);
      SubstepTransposed(g, h, Substeps(g, s, n - 1), Substeps(h, t, n - 1));
    }
  }

  predicate Between(a: real, u: real, b: real) {
    (a <= u <= b <= a + 32.0) || (b <= u <= a <= b + 32.0)
  }

  lemma CellBetween(a: real, u: real, b: real, n: int)
    requires n > 0 && Between(a, u, b)
    ensures CellOf(u, n) == CellOf(a, n) || CellOf(u, n) == CellOf(b, n)
  {
    if a <= b {
      NoCellSkipped(a, u, b, n);
    } else {
      NoCellSkipped(b, u, a, n);
    }
  }

  lemma PointBetween(m: Map, p: Vec, u: Vec, q: Vec)
    requires (p.y == u.y == q.y && Between(p.x, u.x, q.x)) || (p.x == u.x == q.x && Between(p.y, u.y, q.y))
    requires !CheckPoint(m, p) && !CheckPoint(m, q)
    ensures !CheckPoint(m, u)
  {
    if m.Grid? {
      if p.y == q.y {
        CellBetween(p.x, u.x, q.x, m.width);
      } else {
        CellBetween(p.y, u.y, q.y, m.height);
      }
      if CellOf(u.x, m.width) == CellOf(p.x, m.width) && CellOf(u.y, m.height) == CellOf(p.y, m.height) {
        SameCell(m, u, p);
      } else {
        SameCell(m, u, q);
      }
    }
  }

  lemma CornerBetween(m: Map, size: Vec, p: Vec, u: Vec, q: Vec, right: bool, bottom: bool)
    requires (p.y == u.y == q.y && Between(p.x, u.x, q.x)) || (p.x == u.x == q.x && Between(p.y, u.y, q.y))
    requires !CheckPoint(m, Corner(p, size, right, bottom)) && !CheckPoint(m, Corner(q, size, right, bottom))
    ensures !CheckPoint(m, Corner(u, size, right, bottom))
  {
    PointBetween(m, Corner(p, size, right, bottom), Corner(u, size, right, bottom), Corner(q, size, right, bottom));
  }

  /** Between two free positions that differ on one axis by no more than a tile, such as those before and after a
      sub-step that has hit something on the other axis, all are free: the mover passes through no wall. */
  lemma SweepIsFree(m: Map, size: Vec, p: Vec, u: Vec, q: Vec)
    requires (p.y == u.y == q.y && Between(p.x, u.x, q.x)) || (p.x == u.x == q.x && Between(p.y, u.y, q.y))
    requires !TestBox(m, p, size) && !TestBox(m, q, size)
    ensures !TestBox(m, u, size)
  {
    forall right, bottom ensures !CheckPoint(m, Corner(u, size, right, bottom)) {
      assert !CheckPoint(m, Corner(p, size, right, bottom)) && !CheckPoint(m, Corner(q, size, right, bottom));
      CornerBetween(m, size, p, u, q, right, bottom);
    }
  }

  // ----- what stops and what goes on -----

  /** Where the sub-step would lead along one axis alone. */
  function Alone(g: Setting, s: Mover, h: bool): Vec {
    var to := Target(g, s);
    if h then Vec(s.pos.x, to.y) else Vec(to.x, s.pos.y)
  }

  /** The target is blocked, and so is the way along this axis alone, or else neither axis alone is to blame. */
  predicate Stops(g: Setting, s: Mover, h: bool) {
    g.blocked(Target(g, s)) && (g.blocked(Alone(g, s, h)) || !g.blocked(Alone(g, s, !h)))
  }

  /** An axis that stops stays and turns its velocity as the elasticity says; the other covers its full share of the
      velocity and keeps it. */
  lemma SubstepExactly(g: Setting, s: Mover, t: Mover, h: bool)
    requires t == Substep(g, s)
    ensures Axis(t.pos, h) == if Stops(g, s, h) then Axis(s.pos, h) else Axis(s.pos, h) + Axis(s.vel, h) * g.fraction
    ensures Axis(t.vel, h) == if Stops(g, s, h) then -(Axis(s.vel, h) * Axis(g.elasticity, h)) else Axis(s.vel, h)
  {
  }

  /** Which of the first `n` sub-steps stop on an axis. */
  function StopsOf(g: Setting, s: Mover, h: bool, n: nat): seq<bool> {
    seq(n, (k: nat) => Stops(g, Substeps(g, s, k), h))
  }

  function SpeedsOf(g: Setting, s: Mover, h: bool, n: nat): seq<real> {
    seq(n + 1, (k: nat) => Axis(Substeps(g, s, k).vel, h))
  }

  function TurnedIf(w: real, e: real, stops: bool): real {
    if stops then -(w * e) else w
  }

  /** A velocity that is turned wherever a sub-step has stopped. */
  function Turned(v: real, e: real, stops: seq<bool>): real {
    if stops == [] then v
    else TurnedIf(Turned(v, e, stops[..|stops| - 1]), e, stops[|stops| - 1])
  }

  lemma VelocityStep(g: Setting, r: Mover, t: Mover, h: bool, u: real, w: real, stops: bool)
    requires t == Substep(g, r) && u == Axis(r.vel, h) && w == Axis(t.vel, h) && stops == Stops(g, r, h)
    ensures w == TurnedIf(u, Axis(g.elasticity, h), stops)
  {
    SubstepExactly(g, r, t, h);
  }

  lemma SpeedTurns(g: Setting, s: Mover, h: bool, n: nat, speeds: seq<real>, stops: seq<bool>, k: nat)
    requires speeds == SpeedsOf(g, s, h, n) && stops == StopsOf(g, s, h, n) && k < n
    ensures speeds[k + 1] == TurnedIf(speeds[k], Axis(g.elasticity, h), stops[k])
  {
    VelocityStep(g, Substeps(g, s, k), Substeps(g, s, k + 1), h, speeds[k], speeds[k + 1], stops[k]);
  }

  ghost predicate Turns(speeds: seq<real>, stops: seq<bool>, e: real) {
    |speeds| == |stops| + 1 && forall k :: 0 <= k < |stops| ==> speeds[k + 1] == TurnedIf(speeds[k], e, stops[k])
  }

  lemma SpeedsTurn(g: Setting, s: Mover, h: bool, n: nat, speeds: seq<real>, stops: seq<bool>)
    requires speeds == SpeedsOf(g, s, h, n) && stops == StopsOf(g, s, h, n)
    ensures Turns(speeds, stops, Axis(g.elasticity, h))
  {
    forall k | 0 <= k < n ensures speeds[k + 1] == TurnedIf(speeds[k], Axis(g.elasticity, h), stops[k]) {
      SpeedTurns(g, s, h, n, speeds, stops, k);
    }
  }

  lemma {:induction false} TurnsEnd(speeds: seq<real>, stops: seq<bool>, e: real)
    requires Turns(speeds, stops, e)
    ensures speeds[|stops|] == Turned(speeds[0], e, stops)
    decreases |stops|
  {
    if stops != [] {
      TurnsEnd(speeds[..|stops|], stops[..|stops| - 1], e);
    }
  }

  /** After any number of sub-steps the velocity on an axis is the first one, turned once for every sub-step that has
      stopped there. */
  lemma VelocityTurns(g: Setting, s: Mover, h: bool, n: nat, t: Mover)
    requires t == Substeps(g, s, n)
    ensures Axis(t.vel, h) == Turned(Axis(s.vel, h), Axis(g.elasticity, h), StopsOf(g, s, h, n))
  {
    var speeds, stops := SpeedsOf(g, s, h, n), StopsOf(g, s, h, n);
    SpeedsTurn(g, s, h, n, speeds, stops);
    TurnsEnd(speeds, stops, Axis(g.elasticity, h));
  }

  lemma {:induction false} UnitTurns(v: real, e: real, stops: seq<bool>)
    requires e == 1.0 || e == -1.0
    ensures Abs(Turned(v, e, stops)) == Abs(v)
    decreases |stops|
  {
    if stops != [] {
      UnitTurns(v, e, stops[..|stops| - 1]);
    }
  }

  /** A move with full elasticity on an axis loses no speed there, whatever it hits. */
  lemma ElasticMoveKeepsSpeed(m: Map, size: Vec, elasticity: Vec, s: Mover, distance: real, t: Mover, h: bool)
    requires distance >= 0.0 && t == Moved(m, size, elasticity, s, distance) && Abs(Axis(elasticity, h)) >= 1.0
    ensures Abs(Axis(t.vel, h)) == Abs(Axis(s.vel, h))
  {
    if distance > 0.00001 {
      var g, n := SettingOf(m, size, elasticity, distance.Floor), distance.Floor + 1;
      VelocityTurns(g, s, h, n, t);
      UnitTurns(Axis(s.vel, h), Axis(g.elasticity, h), StopsOf(g, s, h, n));
    }
  }

  // ----- along a floor or a wall -----

  /** The place with `k` shares covered on the other axis and nothing on axis `h`. */
  function Beside(g: Setting, s: Mover, h: bool, k: nat): Vec {
    var q := AlongAxis(Axis(s.pos, !h), Axis(s.vel, !h), g.fraction, k);
    if h then Vec(q, s.pos.y) else Vec(s.pos.x, q)
  }

  /** Without speed on axis `h`. */
  function Slowed(v: Vec, h: bool): Vec {
    if h then Vec(v.x, 0.0) else Vec(0.0, v.y)
  }

  /** What stands in the way on axis `h` at once, and nothing on the other one. */
  ghost predicate Slides(g: Setting, s: Mover, h: bool, n: nat) {
    && Axis(g.elasticity, h) == 0.0 && g.blocked(Target(g, s)) && g.blocked(Alone(g, s, h))
    && forall k :: 0 < k <= n ==> !g.blocked(Beside(g, s, h, k))
  }

  lemma FirstSlide(g: Setting, s: Mover, h: bool, n: nat)
    requires Slides(g, s, h, n) && n > 0
    ensures Substep(g, s) == Mover(Beside(g, s, h, 1), Slowed(s.vel, h), s.grounded)
  {
    AlongAxisNext(Axis(s.pos, !h), Axis(s.vel, !h), g.fraction, 1);
    assert Alone(g, s, !h) == Beside(g, s, h, 1);
  }

  lemma NextSlide(g: Setting, s: Mover, h: bool, k: nat)
    requires !g.blocked(Beside(g, s, h, k + 1))
    ensures var r := Mover(Beside(g, s, h, k), Slowed(s.vel, h), s.grounded);
            Substep(g, r) == r.(pos := Beside(g, s, h, k + 1))
  {
    var r := Mover(Beside(g, s, h, k), Slowed(s.vel, h), s.grounded);
    assert Target(g, r) == Beside(g, s, h, k + 1);
    FreeStep(g, r, Beside(g, s, h, k + 1));
  }

  lemma {:induction false} SlidesOn(g: Setting, s: Mover, h: bool, n: nat, k: nat)
    requires Slides(g, s, h, n) && 0 < k <= n
    ensures Substeps(g, s, k) == Mover(Beside(g, s, h, k), Slowed(s.vel, h), s.grounded)
  {
    if k == 1 {
      FirstSlide(g, s, h, n);
      assert Substeps(g, s, 0) == s;
    } else {
      SlidesOn(g, s, h, n, k - 1);
      NextSlide(g, s, h, k - 1);
    }
  }

  /** A box that runs into a floor or a wall that has no elasticity stops on that axis and covers its whole velocity on
      the other. */
  lemma SlideIsExact(g: Setting, s: Mover, h: bool, n: nat)
    requires Whole(g, n) && n > 0 && Slides(g, s, h, n)
    ensures Substeps(g, s, n) ==
      if h then Mover(Vec(s.pos.x + s.vel.x, s.pos.y), Vec(s.vel.x, 0.0), s.grounded)
      else Mover(Vec(s.pos.x, s.pos.y + s.vel.y), Vec(0.0, s.vel.y), s.grounded)
  {
    SlidesOn(g, s, h, n, n);
    WholeAxis(Axis(s.pos, !h), Axis(s.vel, !h), g.fraction, n);
  }

  /** The same of a whole move on a map. */
  lemma MoveSlides(m: Map, size: Vec, elasticity: Vec, s: Mover, distance: real, g: Setting, n: nat, h: bool)
    requires distance > 0.00001 && n == distance.Floor + 1 && g == SettingOf(m, size, elasticity, distance.Floor)
    requires Slides(g, s, h, n)
    ensures Moved(m, size, elasticity, s, distance) ==
      if h then Mover(Vec(s.pos.x + s.vel.x, s.pos.y), Vec(s.vel.x, 0.0), s.grounded)
      else Mover(Vec(s.pos.x, s.pos.y + s.vel.y), Vec(0.0, s.vel.y), s.grounded)
  {
    SettingFits(m, size, elasticity, distance.Floor);
    SlideIsExact(g, s, h, n);
  }

  /** A move that meets nothing. */
  lemma MoveIsClear(m: Map, size: Vec, elasticity: Vec, s: Mover, distance: real, g: Setting, n: nat)
    requires distance > 0.00001 && n == distance.Floor + 1 && g == SettingOf(m, size, elasticity, distance.Floor)
    requires forall k :: 0 < k <= n ==> !TestBox(m, Along(g, s, k), size)
    ensures Moved(m, size, elasticity, s, distance) == s.(pos := Vec(s.pos.x + s.vel.x, s.pos.y + s.vel.y))
  {
    SettingFits(m, size, elasticity, distance.Floor);
    ClearMoveIsExact(g, s, n);
  }
}
