/** The hook of one character: what a tick makes of them, whatever the surroundings offer. */
module Hook {
  import opened BaseMath
  import opened Segment

  const HOOK_RETRACTED := -1
  const HOOK_IDLE := 0
  const HOOK_RETRACT_START := 1
  const HOOK_RETRACT_END := 3
  const HOOK_FLYING := 4
  const HOOK_GRABBED := 5

  const NOBODY := -1

  /** `teleported` tells that the hook has come out of a teleporter since it was launched. */
  datatype HookCore = HookCore(state: int, tick: int, player: int, pos: Vec, teleported: bool)

  /** What the line of flight runs into. A teleporter leads to `out`, if it has an exit. */
  datatype Hit = Nothing | Ground | NoHook | Tele(out: Option<Vec>)

  /** Another character as this one sees it: may it be grabbed, and may a hook that holds it be kept. */
  datatype Other = Other(pos: Vec, eligible: bool, kept: bool)

  /** What a tick meets: the input, the own position, where a launch would start and for how long tuning lets a
      hook hold, the flight of this tick with its end as the length and the map allow, and the characters. */
  datatype View = View(
    useInput: bool, held: bool, own: Vec, launch: Vec, duration: real,
    tooFar: bool, end: Vec, hit: Hit, grabbing: bool, others: seq<Option<Other>>)

  const RESET := HookCore(HOOK_IDLE, 0, NOBODY, Vec(0.0, 0.0), false)

  // ----- who is hit -----

  const PHYSICAL_SIZE := 28.0
  const REACH := PHYSICAL_SIZE + 2.0

  predicate Near(p: Vec, closest: Option<Vec>) {
    closest.Some? && DistanceSquared(p, closest.value) < REACH * REACH
  }

  predicate InReach(from: Vec, to: Vec, p: Vec) {
    Near(p, ClosestPoint(from, to, p))
  }

  /** Nearer than 30, in coordinates. */
  predicate Touches(p: Vec, q: Vec) {
    (p.x - q.x) * (p.x - q.x) + (p.y - q.y) * (p.y - q.y) < 900.0
  }

  lemma ReachSquared(r: real)
    requires r == REACH * REACH
    ensures r == 900.0
  {
  }

  lemma NearExactly(p: Vec, c: Vec, d: real)
    requires d == DistanceSquared(p, c)
    ensures Near(p, Some(c)) <==> d < 900.0
  {
    ReachSquared(REACH * REACH);
  }

  lemma TouchesExactly(p: Vec, q: Vec, d: real)
    requires d == DistanceSquared(p, q)
    ensures Touches(p, q) <==> d < 900.0
  {
  }

  lemma InReachIs(from: Vec, to: Vec, p: Vec, c: Vec, d: real)
    requires ClosestPoint(from, to, p) == Some(c) && d == DistanceSquared(p, c)
    ensures InReach(from, to, p) <==> d < 900.0
  {
    NearExactly(p, c, d);
  }

  ghost predicate PassesBy(from: Vec, to: Vec, p: Vec) {
    exists u: real :: 0.0 <= u <= 1.0 && Touches(p, PointAt(from, to, u))
  }

  /** A place is in reach of a flight exactly if some point of the way is nearer to it than 30; a flight that goes
      nowhere reaches nobody. */
  lemma InReachExactly(from: Vec, to: Vec, p: Vec)
    ensures InReach(from, to, p) <==> from != to && PassesBy(from, to, p)
  {
    if from == to {
      ClosestIsAtShare(from, to, p);
    } else {
      var t := ClosestShare(from, to, p);
      var c := PointAt(from, to, t);
      var d := DistanceSquared(p, c);
      ClosestIsNearest(from, to, p, t, 0.0);
      InReachIs(from, to, p, c, d);
      TouchesExactly(p, c, d);
      forall u: real | 0.0 <= u <= 1.0 && Touches(p, PointAt(from, to, u)) ensures d < 900.0 {
        ClosestIsNearest(from, to, p, t, u);
        TouchesExactly(p, PointAt(from, to, u), DistanceSquared(p, PointAt(from, to, u)));
      }
    }
  }

  predicate Hits(from: Vec, to: Vec, other: Option<Other>) {
    other.Some? && other.value.eligible && InReach(from, to, other.value.pos)
  }

  /** The loop over the characters: who is held so far, at which squared distance, and whether by this search. */
  datatype Search = Search(player: int, distance: real, grabbed: bool)

  function Consider(from: Vec, to: Vec, s: Search, i: nat, other: Option<Other>): Search {
    if Hits(from, to, other) && (s.player == NOBODY || DistanceSquared(from, other.value.pos) < s.distance) then
      Search(i, DistanceSquared(from, other.value.pos), true)
    else s
  }

  function SearchFirst(from: Vec, to: Vec, others: seq<Option<Other>>, player: int, n: nat): Search
    requires n <= |others|
  {
    if n == 0 then Search(player, 0.0, false)
    else Consider(from, to, SearchFirst(from, to, others, player, n - 1), n - 1, others[n - 1])
  }

  /** `i` is as near as any character hit among the first `n`, and the first of those as near. */
  ghost predicate Nearest(from: Vec, to: Vec, others: seq<Option<Other>>, n: nat, i: int)
    requires n <= |others|
  {
    && 0 <= i < n && Hits(from, to, others[i])
    && forall k :: 0 <= k < n && Hits(from, to, others[k]) ==>
      var d, e := DistanceSquared(from, others[i].value.pos), DistanceSquared(from, others[k].value.pos);
      d < e || (d == e && i <= k)
  }

  /** A free hook grabs the nearest character that it hits, the one with the lowest number if several are as near,
      and nobody exactly if it hits nobody. */
  lemma {:induction false} GrabsTheNearest(from: Vec, to: Vec, others: seq<Option<Other>>, n: nat)
    requires n <= |others|
    ensures var s := SearchFirst(from, to, others, NOBODY, n);
            && (s.grabbed <==> exists k :: 0 <= k < n && Hits(from, to, others[k]))
            && (if s.grabbed then
                  && Nearest(from, to, others, n, s.player)
                  && s.distance == DistanceSquared(from, others[s.player].value.pos)
                else s.player == NOBODY)
  {
    if n > 0 {
      GrabsTheNearest(from, to, others, n - 1);
    }
  }

  /** A hook that already holds somebody grabs nobody else. */
  lemma {:induction false} HolderGrabsNobody(from: Vec, to: Vec, others: seq<Option<Other>>, player: int, n: nat)
    requires n <= |others| && player != NOBODY
    ensures SearchFirst(from, to, others, player, n) == Search(player, 0.0, false)
  {
    if n > 0 {
      HolderGrabsNobody(from, to, others, player, n - 1);
      if others[n - 1].Some? {
        DistanceNotNegative(from, others[n - 1].value.pos);
      }
    }
  }

  // ----- one tick -----

  function Input(h: HookCore, v: View, tickSpeed: nat): HookCore {
    if !v.useInput then h
    else if !v.held then h.(state := HOOK_IDLE, player := NOBODY, pos := v.own)
    else if h.state == HOOK_IDLE then
      var tick := Truncate(tickSpeed as real * (1.25 - v.duration));
      h.(state := HOOK_FLYING, tick := tick, player := NOBODY, pos := v.launch)
    else h
  }

  /** The search of this tick's flight; a hook that has just run out of length still grabs, unless it has been
      through a teleporter. */
  function Grab(h: HookCore, v: View): HookCore {
    if v.grabbing && (h.state == HOOK_FLYING || !h.teleported) then
      var s := SearchFirst(h.pos, v.end, v.others, h.player, |v.others|);
      h.(state := if s.grabbed then HOOK_GRABBED else h.state, player := s.player)
    else h
  }

  function Land(h: HookCore, v: View): HookCore {
    match v.hit
    case Ground => h.(state := HOOK_GRABBED, pos := v.end)
    case NoHook => h.(state := HOOK_RETRACT_START, pos := v.end)
    case Tele(Some(out)) => h.(player := NOBODY, teleported := true, pos := out)
    case _ => h.(pos := v.end)
  }

  function Fly(h: HookCore, v: View): HookCore {
    var g := Grab(if v.tooFar then h.(state := HOOK_RETRACT_START) else h, v);
    if g.state == HOOK_FLYING then Land(g, v) else g
  }

  function Advance(h: HookCore, v: View): HookCore {
    if h.state == HOOK_IDLE then h.(player := NOBODY, pos := v.own)
    else if HOOK_RETRACT_START <= h.state < HOOK_RETRACT_END then h.(state := h.state + 1)
    else if h.state == HOOK_RETRACT_END then h.(state := HOOK_RETRACTED)
    else if h.state == HOOK_FLYING then Fly(h, v)
    else h
  }

  function Release(h: HookCore, v: View): HookCore {
    h.(state := HOOK_RETRACTED, player := NOBODY, pos := v.own)
  }

  predicate Present(v: View, player: int) {
    0 <= player < |v.others| && v.others[player].Some?
  }

  /** How long a character can be held. */
  function HoldLimit(tickSpeed: nat): nat {
    tickSpeed + tickSpeed / 5
  }

  function Hold(h: HookCore, v: View, tickSpeed: nat): HookCore {
    if h.state != HOOK_GRABBED then h
    else
      var g := if h.player == NOBODY then h
               else if Present(v, h.player) && v.others[h.player].value.kept then
                 h.(pos := v.others[h.player].value.pos)
               else Release(h, v);
      var t := g.(tick := g.tick + 1);
      if t.player != NOBODY && (t.tick > HoldLimit(tickSpeed) || !Present(v, t.player)) then Release(t, v) else t
  }

  function Tick(h: HookCore, v: View, tickSpeed: nat): HookCore {
    Hold(Advance(Input(h, v, tickSpeed), v), v, tickSpeed)
  }

  /** The part of the deferred tick that concerns the hook. */
  function TickDeferred(h: HookCore): HookCore {
    if h.state != HOOK_FLYING then h.(teleported := false) else h
  }

  // ----- every run of ticks -----

  datatype Step = Ticks(view: View) | Deferred

  function Next(h: HookCore, step: Step, tickSpeed: nat): HookCore {
    match step
    case Ticks(v) => Tick(h, v, tickSpeed)
    case Deferred => TickDeferred(h)
  }

  /** Any run from the reset state, with `clients` places for characters. */
  ghost predicate Run(hooks: seq<HookCore>, steps: seq<Step>, tickSpeed: nat, clients: nat) {
    && |hooks| == |steps| + 1 && hooks[0] == RESET
    && forall i :: 0 <= i < |steps| ==>
      && (steps[i].Ticks? ==> |steps[i].view.others| == clients)
      && hooks[i + 1] == Next(hooks[i], steps[i], tickSpeed)
  }

  /** A hook that holds somebody is grabbed, and has not been for too long. */
  predicate Sound(h: HookCore, tickSpeed: nat, clients: nat) {
    && HOOK_RETRACTED <= h.state <= HOOK_GRABBED
    && NOBODY <= h.player < clients
    && (h.player != NOBODY ==> h.state == HOOK_GRABBED && h.tick <= HoldLimit(tickSpeed))
  }

  /** The same before the time is checked. */
  predicate Coherent(h: HookCore, clients: nat) {
    && HOOK_RETRACTED <= h.state <= HOOK_GRABBED
    && NOBODY <= h.player < clients
    && (h.player != NOBODY ==> h.state == HOOK_GRABBED)
  }

  lemma FlyCoherent(h: HookCore, v: View)
    requires Coherent(h, |v.others|) && h.state == HOOK_FLYING
    ensures Coherent(Fly(h, v), |v.others|)
  {
    GrabsTheNearest(h.pos, v.end, v.others, |v.others|);
  }

  lemma AdvanceCoherent(h: HookCore, v: View)
    requires Coherent(h, |v.others|)
    ensures Coherent(Advance(h, v), |v.others|)
  {
    if h.state == HOOK_FLYING {
      FlyCoherent(h, v);
    }
  }

  lemma HoldSound(h: HookCore, v: View, tickSpeed: nat)
    requires Coherent(h, |v.others|)
    ensures Sound(Hold(h, v, tickSpeed), tickSpeed, |v.others|)
  {
  }

  lemma TickSound(h: HookCore, v: View, tickSpeed: nat)
    requires Sound(h, tickSpeed, |v.others|)
    ensures Sound(Tick(h, v, tickSpeed), tickSpeed, |v.others|)
  {
    var i := Input(h, v, tickSpeed);
    AdvanceCoherent(i, v);
    HoldSound(Advance(i, v), v, tickSpeed);
  }

  /** In every run of ticks the hook state stays in its range, and a character is held only by a grabbed hook and
      only up to the limit. */
  lemma {:induction false} AlwaysSound(hooks: seq<HookCore>, steps: seq<Step>, tickSpeed: nat, clients: nat, i: nat)
    requires Run(hooks, steps, tickSpeed, clients) && i < |hooks|
    ensures Sound(hooks[i], tickSpeed, clients)
  {
    if i > 0 {
      AlwaysSound(hooks, steps, tickSpeed, clients, i - 1);
      if steps[i - 1].Ticks? {
        TickSound(hooks[i - 1], steps[i - 1].view, tickSpeed);
      }
    }
  }

  /** After the deferred tick only a hook on its way counts as teleported: any other may grab again. Nothing else
      changes. */
  lemma DeferredRefreshes(hooks: seq<HookCore>, steps: seq<Step>, tickSpeed: nat, clients: nat, i: nat)
    requires Run(hooks, steps, tickSpeed, clients) && i < |steps| && steps[i].Deferred?
    ensures hooks[i + 1].teleported <==> hooks[i].teleported && hooks[i].state == HOOK_FLYING
    ensures hooks[i + 1].(teleported := hooks[i].teleported) == hooks[i]
  {
  }

  // ----- how a hold begins, lasts and ends -----

  /** Where the flight of a tick starts: at the place of launch, or where the hook was. */
  function FlightStart(h: HookCore, v: View): Vec {
    if h.state == HOOK_IDLE then v.launch else h.pos
  }

  /** Whoever a tick newly holds is the nearest character that the flight hits. */
  lemma NewHoldIsNearest(h: HookCore, v: View, tickSpeed: nat)
    requires Sound(h, tickSpeed, |v.others|) && h.player == NOBODY
    requires Tick(h, v, tickSpeed).player != NOBODY
    ensures h.state == HOOK_FLYING || (h.state == HOOK_IDLE && v.useInput && v.held)
    ensures Nearest(FlightStart(h, v), v.end, v.others, |v.others|, Tick(h, v, tickSpeed).player)
  {
    var launched := Input(h, v, tickSpeed);
    GrabsTheNearest(launched.pos, v.end, v.others, |v.others|);
  }

  /** A hook that is not out is where its character is, and holds nobody. */
  lemma IdleIsHome(h: HookCore, v: View, tickSpeed: nat)
    requires Tick(h, v, tickSpeed).state == HOOK_IDLE
    ensures Tick(h, v, tickSpeed).pos == v.own && Tick(h, v, tickSpeed).player == NOBODY
  {
  }

  predicate KeyHeld(v: View) {
    v.useInput ==> v.held
  }

  /** The character stays where it may be held, and nobody lets go of the key. */
  predicate MayStay(v: View, player: int) {
    KeyHeld(v) && Present(v, player) && v.others[player].value.kept
  }

  /** The conditions to go on holding a character: that, and its time is not up. */
  predicate MayHoldOn(h: HookCore, v: View, tickSpeed: nat) {
    MayStay(v, h.player) && h.tick + 1 <= HoldLimit(tickSpeed)
  }

  /** A hold outlasts a tick exactly under those conditions; the hook then sits on the character, and otherwise
      the character is let go at once. */
  lemma HoldsOnExactly(h: HookCore, v: View, tickSpeed: nat)
    requires Sound(h, tickSpeed, |v.others|) && h.player != NOBODY
    ensures var t := Tick(h, v, tickSpeed);
            if MayHoldOn(h, v, tickSpeed) then
              t == HookCore(HOOK_GRABBED, h.tick + 1, h.player, v.others[h.player].value.pos, h.teleported)
            else
              t.player == NOBODY && t.pos == v.own
              && t.state == if v.useInput && !v.held then HOOK_IDLE else HOOK_RETRACTED
  {
  }

  /** How many of some steps are ticks. */
  function Ticked(steps: seq<Step>): nat {
    if steps == [] then 0
    else Ticked(steps[..|steps| - 1]) + if steps[|steps| - 1].Ticks? then 1 else 0
  }

  lemma StepHolds(h: HookCore, step: Step, tickSpeed: nat, clients: nat, t: HookCore)
    requires Sound(h, tickSpeed, clients) && h.player != NOBODY
    requires (step.Ticks? ==> |step.view.others| == clients) && t == Next(h, step, tickSpeed) && t.player != NOBODY
    ensures t.player == h.player && t.tick == h.tick + if step.Ticks? then 1 else 0
  {
    if step.Ticks? {
      HoldsOnExactly(h, step.view, tickSpeed);
    }
  }

  lemma {:induction false} HoldCounts(
    hooks: seq<HookCore>, steps: seq<Step>, tickSpeed: nat, clients: nat, i: nat, j: nat)
    requires Run(hooks, steps, tickSpeed, clients) && i <= j < |hooks|
    requires forall k :: i <= k <= j ==> hooks[k].player != NOBODY
    ensures hooks[j].player == hooks[i].player && hooks[j].tick == hooks[i].tick + Ticked(steps[i..j])
    decreases j
  {
    if i < j {
      HoldCounts(hooks, steps, tickSpeed, clients, i, j - 1);
      AlwaysSound(hooks, steps, tickSpeed, clients, j - 1);
      StepHolds(hooks[j - 1], steps[j - 1], tickSpeed, clients, hooks[j]);
      assert steps[i..j][..j - 1 - i] == steps[i..j - 1];
    }
  }

  /** While somebody is held it is always the same character, and for no more ticks than the hook has left. */
  lemma HoldIsBounded(hooks: seq<HookCore>, steps: seq<Step>, tickSpeed: nat, clients: nat, i: nat, j: nat)
    requires Run(hooks, steps, tickSpeed, clients) && i <= j < |hooks|
    requires forall k :: i <= k <= j ==> hooks[k].player != NOBODY
    ensures hooks[j].player == hooks[i].player
    ensures Ticked(steps[i..j]) <= HoldLimit(tickSpeed) - hooks[i].tick
  {
    HoldCounts(hooks, steps, tickSpeed, clients, i, j);
    AlwaysSound(hooks, steps, tickSpeed, clients, j);
  }

  // ----- how a flight ends -----

  /** The flight of this tick may grab: a hook at the end of its length only if it has not been teleported. */
  predicate MayGrab(h: HookCore, v: View) {
    v.grabbing && !(h.teleported && v.tooFar)
  }

  ghost predicate Catches(h: HookCore, v: View, p: int) {
    MayGrab(h, v) && Nearest(h.pos, v.end, v.others, |v.others|, p)
  }

  lemma NearestIsOne(h: HookCore, v: View, p: int, q: int)
    requires Catches(h, v, p) && Catches(h, v, q)
    ensures p == q
  {
  }

  /** After a flight somebody is held if and only if it is the nearest character that the flight hits, at any place
      of the line, and may be kept, and there is time left; it is then where the hook is. */
  lemma HeldAfterFlightExactly(h: HookCore, v: View, tickSpeed: nat, p: int)
    requires h.state == HOOK_FLYING && h.player == NOBODY && KeyHeld(v) && p != NOBODY
    ensures var t := Tick(h, v, tickSpeed);
            && (t.player == p <==> Catches(h, v, p) && v.others[p].value.kept && h.tick + 1 <= HoldLimit(tickSpeed))
            && (t.player == p ==> t == HookCore(HOOK_GRABBED, h.tick + 1, p, v.others[p].value.pos, h.teleported))
  {
    GrabsTheNearest(h.pos, v.end, v.others, |v.others|);
    if MayGrab(h, v) && SearchFirst(h.pos, v.end, v.others, NOBODY, |v.others|).grabbed {
      var q := SearchFirst(h.pos, v.end, v.others, NOBODY, |v.others|).player;
      assert Catches(h, v, q);
      if Catches(h, v, p) {
        NearestIsOne(h, v, p, q);
      }
    }
  }

  /** The line ends in a teleporter with an exit. */
  predicate LedOn(v: View) {
    v.hit.Tele? && v.hit.out.Some?
  }

  /** How any other flight ends: let go at once if somebody was caught, and else retracting, in the ground, or on its
      way, whichever comes first of the length, what the line hits, and a way on. */
  lemma FlightEnds(h: HookCore, v: View, tickSpeed: nat)
    requires h.state == HOOK_FLYING && h.player == NOBODY && KeyHeld(v)
    ensures var t, caught := Tick(h, v, tickSpeed), exists p :: Catches(h, v, p);
            && (t.state == HOOK_RETRACTED <==> caught && t.player == NOBODY)
            && (t.state == HOOK_RETRACT_START <==> !caught && (v.tooFar || v.hit.NoHook?))
            && (t.state == HOOK_GRABBED && t.player == NOBODY <==> !caught && !v.tooFar && v.hit.Ground?)
            && (t.state == HOOK_FLYING <==> !caught && !v.tooFar && !v.hit.NoHook? && !v.hit.Ground?)
            && (!caught ==> t.pos == if v.tooFar then h.pos else if LedOn(v) then v.hit.out.value else v.end)
            && (!caught ==> t.teleported == (h.teleported || (!v.tooFar && LedOn(v))))
            && t.tick == h.tick + if t.state == HOOK_FLYING || t.state == HOOK_RETRACT_START then 0 else 1
  {
    GrabsTheNearest(h.pos, v.end, v.others, |v.others|);
    var s := SearchFirst(h.pos, v.end, v.others, NOBODY, |v.others|);
    if MayGrab(h, v) && s.grabbed {
      assert Catches(h, v, s.player);
    }
  }

  // ----- how long a hold lasts -----

  /** `n` is `x` without its fraction. */
  predicate TowardsZero(n: int, x: real) {
    if x >= 0.0 then n as real <= x < n as real + 1.0 else n as real - 1.0 < x <= n as real
  }

  predicate Launches(h: HookCore, step: Step) {
    h.state == HOOK_IDLE && step.Ticks? && step.view.useInput && step.view.held
  }

  /** The count with which step `l` launches a hook. */
  predicate StartsAt(h: HookCore, step: Step, tickSpeed: nat, start: int) {
    Launches(h, step) && TowardsZero(start, tickSpeed as real * (1.25 - step.view.duration))
  }

  /** A launch, and a tick of the flight, either leave the hook on its way with its count, or add one to it. */
  lemma LaunchCounts(h: HookCore, v: View, tickSpeed: nat, start: int, t: HookCore)
    requires StartsAt(h, Ticks(v), tickSpeed, start) && t == Tick(h, v, tickSpeed)
    ensures t.state == HOOK_FLYING ==> t.tick == start && t.player == NOBODY
    ensures t.player != NOBODY ==> t.tick == start + 1
  {
    var launched := Input(h, v, tickSpeed);
    assert launched.tick == start;
    LaunchFlies(h, v, tickSpeed, launched);
    FlightCounts(launched, v, tickSpeed, t);
  }

  lemma FlightCounts(h: HookCore, v: View, tickSpeed: nat, t: HookCore)
    requires h.state == HOOK_FLYING && h.player == NOBODY && t == Tick(h, v, tickSpeed)
    ensures t.state == HOOK_FLYING ==> t.tick == h.tick && t.player == NOBODY
    ensures t.player != NOBODY ==> t.tick == h.tick + 1
  {
    if KeyHeld(v) {
      FlightEnds(h, v, tickSpeed);
      if t.player != NOBODY {
        HeldAfterFlightExactly(h, v, tickSpeed, t.player);
      }
    }
  }

  /** Step `l` launches a hook, and it is still on its way before step `g`. */
  ghost predicate OnItsWay(
    hooks: seq<HookCore>, steps: seq<Step>, tickSpeed: nat, clients: nat, start: int, l: nat, g: nat)
  {
    && Run(hooks, steps, tickSpeed, clients) && l <= g < |steps| && StartsAt(hooks[l], steps[l], tickSpeed, start)
    && forall k :: l < k <= g ==> hooks[k].state == HOOK_FLYING
  }

  lemma StepFlies(h: HookCore, step: Step, tickSpeed: nat, start: int, t: HookCore)
    requires h.state == HOOK_FLYING && h.player == NOBODY && h.tick == start && t == Next(h, step, tickSpeed)
    ensures t.state == HOOK_FLYING ==> t.tick == start && t.player == NOBODY
    ensures t.player != NOBODY ==> step.Ticks? && t.tick == start + 1
  {
    if step.Ticks? {
      FlightCounts(h, step.view, tickSpeed, t);
    }
  }

  lemma {:induction false} FlightRun(
    hooks: seq<HookCore>, steps: seq<Step>, tickSpeed: nat, clients: nat, start: int, l: nat, g: nat)
    requires OnItsWay(hooks, steps, tickSpeed, clients, start, l, g) && l < g
    ensures hooks[g].tick == start && hooks[g].player == NOBODY
    decreases g
  {
    if g == l + 1 {
      LaunchCounts(hooks[l], steps[l].view, tickSpeed, start, hooks[g]);
    } else {
      FlightRun(hooks, steps, tickSpeed, clients, start, l, g - 1);
      StepFlies(hooks[g - 1], steps[g - 1], tickSpeed, start, hooks[g]);
    }
  }

  lemma GrabCounts(
    hooks: seq<HookCore>, steps: seq<Step>, tickSpeed: nat, clients: nat, start: int, l: nat, g: nat)
    requires OnItsWay(hooks, steps, tickSpeed, clients, start, l, g) && hooks[g + 1].player != NOBODY
    ensures steps[g].Ticks? && hooks[g + 1].tick == start + 1
  {
    if g == l {
      LaunchCounts(hooks[l], steps[l].view, tickSpeed, start, hooks[g + 1]);
    } else {
      FlightRun(hooks, steps, tickSpeed, clients, start, l, g);
      StepFlies(hooks[g], steps[g], tickSpeed, start, hooks[g + 1]);
    }
  }

  lemma {:induction false} HeldTicks(
    hooks: seq<HookCore>, steps: seq<Step>, tickSpeed: nat, clients: nat, start: int, l: nat, g: nat, j: nat)
    requires OnItsWay(hooks, steps, tickSpeed, clients, start, l, g) && g < j < |hooks|
    requires forall k :: g < k <= j ==> hooks[k].player != NOBODY
    ensures hooks[j].tick == start + Ticked(steps[g..j])
    decreases j
  {
    if j == g + 1 {
      GrabCounts(hooks, steps, tickSpeed, clients, start, l, g);
      assert steps[g..j] == [steps[g]] && steps[g..j][..0] == [];
      assert Ticked([]) == 0;
    } else {
      HeldTicks(hooks, steps, tickSpeed, clients, start, l, g, j - 1);
      AlwaysSound(hooks, steps, tickSpeed, clients, j - 1);
      StepHolds(hooks[j - 1], steps[j - 1], tickSpeed, clients, hooks[j]);
      assert steps[g..j][..j - 1 - g] == steps[g..j - 1];
    }
  }

  /** How long a hold lasts: the ticks since the grab, that one included, are never more than one second and a fifth in
      ticks less the count of the launch, and if nothing else ends it, it ends with exactly that many. */
  lemma HoldLastsExactly(
    hooks: seq<HookCore>, steps: seq<Step>, tickSpeed: nat, clients: nat, start: int, l: nat, g: nat, j: nat)
    requires OnItsWay(hooks, steps, tickSpeed, clients, start, l, g) && g < j < |steps|
    requires forall k :: g < k <= j ==> hooks[k].player != NOBODY
    ensures Ticked(steps[g..j]) <= tickSpeed + tickSpeed / 5 - start
    ensures steps[j].Ticks? && MayStay(steps[j].view, hooks[j].player) ==>
      (hooks[j + 1].player != NOBODY <==> Ticked(steps[g..j + 1]) <= tickSpeed + tickSpeed / 5 - start)
  {
    HeldTicks(hooks, steps, tickSpeed, clients, start, l, g, j);
    AlwaysSound(hooks, steps, tickSpeed, clients, j);
    if steps[j].Ticks? && MayStay(steps[j].view, hooks[j].player) {
      HoldsOnExactly(hooks[j], steps[j].view, tickSpeed);
      assert steps[g..j + 1][..j - g] == steps[g..j];
    }
  }

  // ----- how a hook comes back -----

  /** With the key held a hook that starts to retract is back after three ticks, no sooner and no later, and
      stays back. */
  lemma RetractsInThree(h: HookCore, a: View, b: View, c: View, d: View, tickSpeed: nat)
    requires h.state == HOOK_RETRACT_START && KeyHeld(a) && KeyHeld(b) && KeyHeld(c) && KeyHeld(d)
    ensures var t := Tick(h, a, tickSpeed); var u := Tick(t, b, tickSpeed); var w := Tick(u, c, tickSpeed);
            && t.state == 2 && u.state == HOOK_RETRACT_END && w.state == HOOK_RETRACTED
            && Tick(w, d, tickSpeed) == w
  {
    var t := Tick(h, a, tickSpeed);
    assert t.state == 2;
    var u := Tick(t, b, tickSpeed);
    assert u.state == HOOK_RETRACT_END;
  }

  /** The states a tick can lead to. */
  function Successors(state: int, useInput: bool, held: bool): set<int> {
    var flight := {HOOK_FLYING, HOOK_GRABBED, HOOK_RETRACT_START, HOOK_RETRACTED};
    if useInput && !held then {HOOK_IDLE}
    else if state == HOOK_IDLE then if useInput then flight else {HOOK_IDLE}
    else if state == HOOK_FLYING then flight
    else if state == HOOK_GRABBED then {HOOK_GRABBED, HOOK_RETRACTED}
    else if state == HOOK_RETRACT_START then {2}
    else if state == 2 then {HOOK_RETRACT_END}
    else {HOOK_RETRACTED}
  }

  lemma TicksFollowTheGraph(h: HookCore, v: View, tickSpeed: nat)
    requires Sound(h, tickSpeed, |v.others|)
    ensures Tick(h, v, tickSpeed).state in Successors(h.state, v.useInput, v.held)
  {
    var i := Input(h, v, tickSpeed);
    if i.state == HOOK_FLYING {
      GrabsTheNearest(i.pos, v.end, v.others, |v.others|);
      FlyCoherent(i, v);
    }
  }

  /** Some hook in this state, with some surroundings, comes to the state `next` in a tick. */
  ghost predicate Leads(state: int, useInput: bool, held: bool, tickSpeed: nat, next: int) {
    exists h: HookCore, v: View :: Goes(h, v, state, useInput, held, tickSpeed, next)
  }

  ghost predicate Goes(
    h: HookCore, v: View, state: int, useInput: bool, held: bool, tickSpeed: nat, next: int)
  {
    && Sound(h, tickSpeed, |v.others|) && h.state == state && v.useInput == useInput && v.held == held
    && Tick(h, v, tickSpeed).state == next
  }

  /** `b` lies one unit to the right of `a`. */
  predicate RightOf(a: Vec, b: Vec) {
    b.x == a.x + 1.0 && b.y == a.y
  }

  /** The way on of a free hook, past one character right at the hook that may be grabbed and not kept. */
  predicate FliesTo(h: HookCore, v: View, next: int) {
    && h.state == HOOK_FLYING && h.player == NOBODY && !h.teleported && KeyHeld(v)
    && RightOf(h.pos, v.end) && v.others == [Some(Other(h.pos, true, false))]
    && v.tooFar == (next == HOOK_RETRACT_START) && v.grabbing == (next == HOOK_RETRACTED)
    && v.hit == if next == HOOK_GRABBED then Ground else Nothing
  }

  lemma NeighbourIsHit(from: Vec, to: Vec, other: Option<Other>)
    requires RightOf(from, to) && other.Some? && other.value.eligible && other.value.pos == from
    ensures Hits(from, to, other)
  {
    assert PointAt(from, to, 0.0) == from;
    InReachExactly(from, to, from);
  }

  lemma OnlyOneIsCaught(h: HookCore, v: View, other: Option<Other>)
    requires MayGrab(h, v) && v.others == [other] && Hits(h.pos, v.end, other)
    ensures Catches(h, v, 0)
  {
  }

  lemma NeighbourIsCaught(h: HookCore, v: View, other: Option<Other>)
    requires FliesTo(h, v, HOOK_RETRACTED) && v.others == [other]
    ensures Catches(h, v, 0)
  {
    NeighbourIsHit(h.pos, v.end, other);
    OnlyOneIsCaught(h, v, other);
  }

  lemma NeighbourIsDropped(h: HookCore, v: View, tickSpeed: nat)
    requires FliesTo(h, v, HOOK_RETRACTED)
    ensures Tick(h, v, tickSpeed).player == NOBODY
  {
    var p := Tick(h, v, tickSpeed).player;
    if p != NOBODY {
      HeldAfterFlightExactly(h, v, tickSpeed, p);
    }
  }

  lemma FlightReaches(h: HookCore, v: View, tickSpeed: nat, next: int, t: HookCore)
    requires FliesTo(h, v, next) && t == Tick(h, v, tickSpeed)
    requires next == HOOK_FLYING || next == HOOK_GRABBED || next == HOOK_RETRACT_START || next == HOOK_RETRACTED
    ensures t.state == next
  {
    FlightEnds(h, v, tickSpeed);
    if next == HOOK_RETRACTED {
      NeighbourIsCaught(h, v, v.others[0]);
      NeighbourIsDropped(h, v, tickSpeed);
    }
  }

  lemma LaunchFlies(h: HookCore, v: View, tickSpeed: nat, launched: HookCore)
    requires h.state == HOOK_IDLE && v.useInput && v.held && launched == Input(h, v, tickSpeed)
    ensures Tick(h, v, tickSpeed) == Tick(launched, v, tickSpeed)
  {
  }

  const ORIGIN := Vec(0.0, 0.0)

  /** A view with that character at the origin. */
  function Around(useInput: bool, held: bool, next: int): View {
    View(useInput, held, ORIGIN, ORIGIN, 1.25, next == HOOK_RETRACT_START, Vec(1.0, 0.0),
         if next == HOOK_GRABBED then Ground else Nothing, next == HOOK_RETRACTED, [Some(Other(ORIGIN, true, false))])
  }

  lemma FreeFlies(h: HookCore, v: View, next: int)
    requires h == HookCore(HOOK_FLYING, 0, NOBODY, ORIGIN, false) && KeyHeld(v) && v == Around(v.useInput, v.held, next)
    ensures FliesTo(h, v, next)
  {
  }

  /** The successor of a hook on its way. */
  lemma FlyingReaches(h: HookCore, v: View, tickSpeed: nat, next: int, t: HookCore)
    requires h == HookCore(HOOK_FLYING, 0, NOBODY, ORIGIN, false) && KeyHeld(v) && v == Around(v.useInput, v.held, next)
    requires next in Successors(HOOK_FLYING, v.useInput, v.held) && t == Tick(h, v, tickSpeed)
    ensures t.state == next
  {
    FreeFlies(h, v, next);
    FlightReaches(h, v, tickSpeed, next, t);
  }

  lemma LaunchReaches(h: HookCore, v: View, tickSpeed: nat, next: int)
    requires h == HookCore(HOOK_IDLE, 0, NOBODY, ORIGIN, false) && v.useInput && v.held && v == Around(true, true, next)
    requires next in Successors(HOOK_IDLE, true, true)
    ensures Tick(h, v, tickSpeed).state == next
  {
    var launched := Input(h, v, tickSpeed);
    assert launched == HookCore(HOOK_FLYING, 0, NOBODY, ORIGIN, false);
    LaunchFlies(h, v, tickSpeed, launched);
    FlyingReaches(launched, v, tickSpeed, next, Tick(launched, v, tickSpeed));
  }

  lemma OtherReaches(h: HookCore, v: View, tickSpeed: nat, next: int)
    requires HOOK_RETRACTED <= h.state <= HOOK_GRABBED && v == Around(v.useInput, v.held, next)
    requires h.player == if h.state == HOOK_GRABBED && next == HOOK_RETRACTED then 0 else NOBODY
    requires next in Successors(h.state, v.useInput, v.held)
    requires (h.state == HOOK_IDLE ==> !(v.useInput && v.held)) && (h.state == HOOK_FLYING ==> !KeyHeld(v))
    ensures Tick(h, v, tickSpeed).state == next
  {
  }

  lemma SuccessorIsReached(h: HookCore, v: View, tickSpeed: nat, next: int)
    requires HOOK_RETRACTED <= h.state <= HOOK_GRABBED && v == Around(v.useInput, v.held, next)
    requires h == HookCore(h.state, 0, h.player, ORIGIN, false)
    requires h.player == if h.state == HOOK_GRABBED && next == HOOK_RETRACTED then 0 else NOBODY
    requires next in Successors(h.state, v.useInput, v.held)
    ensures Goes(h, v, h.state, v.useInput, v.held, tickSpeed, next)
  {
    if KeyHeld(v) && h.state == HOOK_FLYING {
      FlyingReaches(h, v, tickSpeed, next, Tick(h, v, tickSpeed));
    } else if v.useInput && v.held && h.state == HOOK_IDLE {
      LaunchReaches(h, v, tickSpeed, next);
    } else {
      OtherReaches(h, v, tickSpeed, next);
    }
  }

  /** The whole state graph: no launch but from the idle state, no grab but from a flight, only the release of the key
      leads back to the idle state, and every way in the graph is open. */
  lemma GraphExactly(state: int, useInput: bool, held: bool, tickSpeed: nat, next: int)
    requires HOOK_RETRACTED <= state <= HOOK_GRABBED
    ensures Leads(state, useInput, held, tickSpeed, next) <==> next in Successors(state, useInput, held)
  {
    if Leads(state, useInput, held, tickSpeed, next) {
      var h: HookCore, v: View :| Goes(h, v, state, useInput, held, tickSpeed, next);
      TicksFollowTheGraph(h, v, tickSpeed);
    } else if next in Successors(state, useInput, held) {
      var v := Around(useInput, held, next);
      var player := if state == HOOK_GRABBED && next == HOOK_RETRACTED then 0 else NOBODY;
      var h := HookCore(state, 0, player, ORIGIN, false);
      SuccessorIsReached(h, v, tickSpeed, next);
      assert Goes(h, v, state, useInput, held, tickSpeed, next);
    }
  }
}
