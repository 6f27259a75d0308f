/** The jump bits when the moves run on a map: a move ends on the ground exactly when the mover raises its flag. */
module Landing {
  import opened BaseMath
  import opened Collision
  import opened Jump

  const SIZE := Vec(28.0, 28.0)

  /** A move of a character: the map, the elasticity that tuning gives, the start, the velocity and its length. */
  datatype Sweep = Sweep(m: Map, elasticity: Vec, pos: Vec, vel: Vec, distance: real)

  type Move = s: Sweep | IsLength(s.distance, s.vel)
    witness Sweep(Unloaded, Vec(0.0, 0.0), Vec(0.0, 0.0), Vec(0.0, 0.0), 0.0)

  function Start(v: Move): Mover {
    Mover(v.pos, v.vel, false)
  }

  function Surroundings(v: Move): Setting {
    SettingOf(v.m, SIZE, v.elasticity, v.distance.Floor)
  }

  /** What `Move` learns from the mover. */
  predicate Lands(v: Move) {
    Moved(v.m, SIZE, v.elasticity, Start(v), v.distance).grounded
  }

  /** Sub-step number `k` of a move finds ground. */
  ghost predicate GroundAt(g: Setting, s: Mover, k: nat) {
    FindsGround(g, Substeps(g, s, k))
  }

  lemma GroundedBefore(g: Setting, s: Mover, n: nat)
    requires !s.grounded
    ensures Substeps(g, s, n).grounded <==> exists k: nat :: k < n && GroundAt(g, s, k)
  {
    GroundedExactly(g, s, n);
    if Substeps(g, s, n).grounded {
      var k: nat :| k < n && FindsGround(g, Substeps(g, s, k));
      assert GroundAt(g, s, k);
    }
  }

  /** A move lands exactly if it is more than next to nothing and one of its sub-steps, falling, bounces off what is
      below. */
  lemma LandsExactly(v: Move)
    ensures Lands(v) <==>
      && v.distance > 0.00001
      && exists k: nat :: k < v.distance.Floor + 1 && GroundAt(Surroundings(v), Start(v), k)
  {
    GroundedBefore(Surroundings(v), Start(v), v.distance.Floor + 1);
  }

  /** The vertical elasticity is not positive, as tuning ships it: nothing bounces off the ground. */
  predicate Flat(v: Move) {
    v.elasticity.y <= 0.0
  }

  lemma FlatNeverLands(v: Move)
    requires Flat(v)
    ensures !Lands(v)
  {
    LandsExactly(v);
  }

  // ----- turns of the server -----

  /** A tick, the rules, and a move. */
  datatype Turn = Turn(input: Input, move: Move)

  function RoundOf(t: Turn): Round {
    Round(t.input, Lands(t.move))
  }

  /** Any run of turns, from any state, with any change of the number of jumps, of tuning and of the map. */
  ghost predicate Turns(js: seq<Jumper>, turns: seq<Turn>) {
    && |js| == |turns| + 1
    && forall i :: 0 <= i < |turns| ==> js[i + 1] == After(js[i], RoundOf(turns[i]), false)
  }

  /** Whether the feet are light before turn `i`: if the turn before was without air jumps, exactly after a landing,
      and otherwise as they are found. */
  predicate LightBefore(js: seq<Jumper>, turns: seq<Turn>, i: nat)
    requires i < |turns| < |js|
  {
    if i > 0 && NoAirJumps(RoundOf(turns[i - 1])) then Lands(turns[i - 1].move) else !Has(js[i], USED)
  }

  lemma LightExactly(js: seq<Jumper>, turns: seq<Turn>, i: nat)
    requires Turns(js, turns) && i < |turns|
    ensures LightBefore(js, turns, i) <==> !Has(js[i], USED)
  {
    if i > 0 && NoAirJumps(RoundOf(turns[i - 1])) {
      AfterWithout(js[i - 1], RoundOf(turns[i - 1]));
    }
  }

  /** A character with no jumps at all, which is not meant to jump, still does when the key goes down, exactly with
      light feet: those it had when it lost its jumps, and those of a landing. */
  lemma JumplessJumpsExactly(js: seq<Jumper>, turns: seq<Turn>, i: nat)
    requires Turns(js, turns) && i < |turns| && turns[i].input.jumps == 0
    ensures EventOf(js[i], turns[i].input) != NoJump
            <==> Pressed(js[i], turns[i].input) && LightBefore(js, turns, i)
  {
    LightExactly(js, turns, i);
  }

  /** One that has only a ground jump makes it whenever the key goes down on the ground, and still jumps in the air
      under the same conditions. */
  lemma GroundOnlyJumpsExactly(js: seq<Jumper>, turns: seq<Turn>, i: nat)
    requires Turns(js, turns) && i < |turns| && turns[i].input.jumps == -1
    ensures var e, met := EventOf(js[i], turns[i].input), turns[i].input;
            && (e == GroundJump <==> Pressed(js[i], met) && met.grounded)
            && (e == AirJump <==> Pressed(js[i], met) && !met.grounded && LightBefore(js, turns, i))
  {
    GroundJumpsExactly(js[i], turns[i].input);
    LightExactly(js, turns, i);
  }

  /** From turn `a` on the number of jumps is `jumps`, and nothing bounces off the ground. */
  predicate FlatFrom(turns: seq<Turn>, a: nat, jumps: int) {
    forall k :: a <= k < |turns| ==> turns[k].input.jumps == jumps && Flat(turns[k].move)
  }

  /** A jump that a character with `jumps` jumps is not meant to make. */
  predicate Unmeant(e: Event, jumps: int) {
    if jumps == 0 then e != NoJump else e == AirJump
  }

  /** Without vertical elasticity such a jump happens at most once after all air jumps are lost: in the very next turn,
      with the light feet left from before. */
  lemma FlatJumpsAtMostOnce(js: seq<Jumper>, turns: seq<Turn>, a: nat, i: nat, jumps: int)
    requires Turns(js, turns) && (jumps == 0 || jumps == -1) && FlatFrom(turns, a, jumps) && a <= i < |turns|
    requires Unmeant(EventOf(js[i], turns[i].input), jumps)
    ensures i == a && !Has(js[i], USED)
  {
    LightExactly(js, turns, i);
    if a < i {
      FlatNeverLands(turns[i - 1].move);
    }
  }

  function RoundsOf(turns: seq<Turn>): seq<Round> {
    seq(|turns|, i requires 0 <= i < |turns| => RoundOf(turns[i]))
  }

  /** With one jump, and without vertical elasticity, a jump in the air comes after any other jump only if a tick
      between them has found the character on the ground. */
  lemma FlatOneJumpIsTheLast(js: seq<Jumper>, turns: seq<Turn>, i: nat, k: nat)
    requires Turns(js, turns) && FlatFrom(turns, 0, 1) && i < k < |turns|
    requires EventOf(js[i], turns[i].input) != NoJump && EventOf(js[k], turns[k].input) == AirJump
    ensures exists m :: i < m < k && turns[m].input.grounded
  {
    forall m | 0 <= m < |turns| ensures !RoundsOf(turns)[m].landing {
      FlatNeverLands(turns[m].move);
    }
    OneJumpIsTheLast(js, RoundsOf(turns), i, k);
    var m :| i < m < k && !Airborne(RoundsOf(turns)[m]);
    assert turns[m].input.grounded;
  }

  // ----- two runs -----

  /** A point 5 below one of the lower corners of the box is solid. */
  predicate StandsOn(m: Map, pos: Vec) {
    CheckPoint(m, Vec(pos.x + 14.0, pos.y + 19.0)) || CheckPoint(m, Vec(pos.x - 14.0, pos.y + 19.0))
  }

  /** The tick reads off the map, where the move then starts, whether the character stands. */
  predicate OnMap(t: Turn) {
    t.input.grounded == StandsOn(t.move.m, t.move.pos)
  }

  /** A solid tile with a free one above it. */
  const FLOOR: Map := Grid(1, 2, [0, TILE_SOLID])

  lemma FloorIsLow(p: Vec)
    ensures CheckPoint(FLOOR, p) <==> p.y >= 31.5
  {
    CellOfIs(p.x, 1);
    CellOfIs(p.y, 2);
  }

  lemma BoxOnFloor(pos: Vec)
    ensures TestBox(FLOOR, pos, SIZE) <==> pos.y >= 17.5
    ensures StandsOn(FLOOR, pos) <==> pos.y >= 12.5
  {
    forall p: Vec ensures CheckPoint(FLOOR, p) <==> p.y >= 31.5 {
      FloorIsLow(p);
    }
  }

  /** Surroundings that block whatever reaches below a line, with no vertical elasticity. */
  ghost predicate FloorAt(g: Setting, line: real) {
    (forall p: Vec :: g.blocked(p) <==> p.y >= line) && g.elasticity.y == 0.0
  }

  lemma FloorIsFloor(elasticity: Vec, max: nat, g: Setting)
    requires g == SettingOf(FLOOR, SIZE, elasticity, max) && elasticity.y == 0.0
    ensures FloorAt(g, 17.5) && Whole(g, max + 1)
  {
    forall p: Vec ensures g.blocked(p) <==> p.y >= 17.5 {
      BoxOnFloor(p);
    }
    SettingFits(FLOOR, SIZE, elasticity, max);
  }

  /** A character walks on a floor: with the floor within one share of its fall it keeps its height, loses the velocity
      down and covers all of the velocity along the floor. */
  lemma WalksOnFloor(g: Setting, line: real, s: Mover, n: nat)
    requires FloorAt(g, line) && Whole(g, n) && n > 0 && s.pos.y < line <= Target(g, s).y
    ensures Substeps(g, s, n) == Mover(Vec(s.pos.x + s.vel.x, s.pos.y), Vec(s.vel.x, 0.0), s.grounded)
  {
    SlideIsExact(g, s, true, n);
  }

  /** A turn of a character that rests on the floor. */
  lemma RestingTurn(key: bool, jumps: int) returns (t: Turn)
    ensures t.input == Input(true, key, true, jumps) && OnMap(t) && Flat(t.move)
  {
    var pos := Vec(16.0, 17.0);
    BoxOnFloor(pos);
    t := Turn(Input(true, key, true, jumps), Sweep(FLOOR, Vec(0.0, 0.0), pos, Vec(0.0, 0.0), 0.0));
  }

  lemma TwoTurns(j: Jumper, a: Turn, b: Turn) returns (js: seq<Jumper>, turns: seq<Turn>)
    ensures Turns(js, turns) && turns == [a, b] && js[0] == j && js[1] == After(j, RoundOf(a), false)
  {
    var k := After(j, RoundOf(a), false);
    js, turns := [j, k, After(k, RoundOf(b), false)], [a, b];
  }

  lemma JumpsOnLightFeet(r: Round)
    requires r.input == Input(true, false, true, 2)
    ensures EventOf(After(Jumper(0, 0), r, false), Input(true, true, true, 0)) == GroundJump
  {
  }

  /** With tuning as shipped: a character stands, a tile takes its jumps away after the rules, and it jumps. */
  lemma JumpsAfterLosing() returns (js: seq<Jumper>, turns: seq<Turn>)
    ensures Turns(js, turns) && |turns| == 2 && js[0] == Jumper(0, 0)
    ensures turns[0].input.jumps == 2 && FlatFrom(turns, 1, 0) && forall t <- turns :: OnMap(t) && Flat(t.move)
    ensures EventOf(js[1], turns[1].input) == GroundJump
  {
    var stand := RestingTurn(false, 2);
    var jump := RestingTurn(true, 0);
    js, turns := TwoTurns(Jumper(0, 0), stand, jump);
    JumpsOnLightFeet(RoundOf(stand));
  }

  /** A fall onto the floor, with an elasticity of one half. */
  function Fall(): Move {
    Sweep(FLOOR, Vec(0.0, 0.5), Vec(16.0, 12.0), Vec(0.0, 9.0), 9.0)
  }

  lemma FallAlong(g: Setting, s: Mover, k: nat)
    requires g.fraction == 0.1 && s.pos == Vec(16.0, 12.0) && s.vel == Vec(0.0, 9.0)
    ensures Along(g, s, k) == Vec(16.0, 12.0 + 0.9 * k as real)
  {
    AlongIs(g, s, k, false);
    AlongIs(g, s, k, true);
    AlongAxisIs(16.0, 0.0, 0.1, k);
    AlongAxisIs(12.0, 9.0, 0.1, k);
  }

  /** What is blocked in column 16 above the floor. */
  ghost predicate FloorBlocks(g: Setting) {
    forall y: real :: g.blocked(Vec(16.0, y)) <==> y >= 17.5
  }

  lemma FallSurroundings(g: Setting)
    requires g == Surroundings(Fall())
    ensures FloorBlocks(g) && g.fraction == 0.1 && g.elasticity.y == 0.5
  {
    forall y: real ensures g.blocked(Vec(16.0, y)) <==> y >= 17.5 {
      BoxOnFloor(Vec(16.0, y));
    }
  }

  lemma FallFindsGround(g: Setting, s: Mover)
    requires FloorBlocks(g) && g.fraction == 0.1 && g.elasticity.y == 0.5
    requires s == Mover(Vec(16.0, 12.0), Vec(0.0, 9.0), false)
    ensures GroundAt(g, s, 6)
  {
    forall k: nat | k <= 6 ensures !g.blocked(Along(g, s, k)) {
      FallAlong(g, s, k);
    }
    Unhindered(g, s, 6);
    FallAlong(g, s, 6);
  }

  lemma FallLands()
    ensures Lands(Fall())
  {
    FallSurroundings(Surroundings(Fall()));
    FallFindsGround(Surroundings(Fall()), Start(Fall()));
    LandsExactly(Fall());
  }

  lemma FallingTurn() returns (t: Turn)
    ensures t.input == Input(true, false, false, 0) && OnMap(t) && Lands(t.move)
  {
    BoxOnFloor(Fall().pos);
    FallLands();
    t := Turn(Input(true, false, false, 0), Fall());
  }

  lemma JumpsOnLanding(r: Round)
    requires r == Round(Input(true, false, false, 0), true)
    ensures EventOf(After(Jumper(USED, 0), r, false), Input(true, true, true, 0)) == GroundJump
  {
  }

  /** With positive elasticity: a character without jumps, its feet dark, falls on the floor and then jumps. */
  lemma JumpsAfterLanding() returns (js: seq<Jumper>, turns: seq<Turn>)
    ensures Turns(js, turns) && |turns| == 2 && js[0] == Jumper(USED, 0)
    ensures forall t <- turns :: OnMap(t) && t.input.jumps == 0
    ensures EventOf(js[1], turns[1].input) == GroundJump
  {
    var fall := FallingTurn();
    var jump := RestingTurn(true, 0);
    js, turns := TwoTurns(Jumper(USED, 0), fall, jump);
    JumpsOnLanding(RoundOf(fall));
  }
}
