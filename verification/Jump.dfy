/** The two jump bits of a character: one for the key, one for the used-up air jump. */
module Jump {
  datatype Jumper = Jumper(jumped: bv32, total: int)

  const KEY: bv32 := 1
  const USED: bv32 := 2
  const BOTH: bv32 := 3

  datatype Event = NoJump | GroundJump | AirJump

  /** What a tick meets: does it read the input, is the key down, does the character stand on the ground, and how
      many jumps has it. */
  datatype Input = Input(useInput: bool, key: bool, grounded: bool, jumps: int)

  predicate Has(j: Jumper, bit: bv32) {
    j.jumped & bit != 0
  }

  function EventOf(j: Jumper, i: Input): Event {
    if !i.useInput || !i.key || Has(j, KEY) then NoJump
    else if i.grounded && (!Has(j, USED) || i.jumps != 0) then GroundJump
    else if !Has(j, USED) then AirJump
    else NoJump
  }

  /** The answer to the key. */
  function Press(j: Jumper, i: Input): Jumper {
    if i.useInput && !i.key then j.(jumped := j.jumped & !KEY)
    else match EventOf(j, i)
      case GroundJump => Jumper(j.jumped | (if i.jumps > 1 then KEY else BOTH), 0)
      case AirJump => Jumper(j.jumped | BOTH, j.total + 1)
      case NoJump => j
  }

  function Land(j: Jumper): Jumper {
    Jumper(j.jumped & !USED, 0)
  }

  function Tick(j: Jumper, i: Input): Jumper {
    if i.grounded then Land(Press(j, i)) else Press(j, i)
  }

  /** A tick, or a move, which may raise the mover's flag. */
  datatype Step = Ticks(input: Input) | Moves(grounded: bool)

  function Next(j: Jumper, step: Step): Jumper {
    match step
    case Ticks(i) => Tick(j, i)
    case Moves(grounded) => if grounded then Land(j) else j
  }

  ghost predicate Run(js: seq<Jumper>, steps: seq<Step>) {
    && |js| == |steps| + 1 && js[0] == Jumper(0, 0)
    && forall i :: 0 <= i < |steps| ==> js[i + 1] == Next(js[i], steps[i])
  }

  predicate JumpsAt(j: Jumper, step: Step) {
    step.Ticks? && EventOf(j, step.input) != NoJump
  }

  predicate AirJumpsAt(j: Jumper, step: Step) {
    step.Ticks? && EventOf(j, step.input) == AirJump
  }

  /** The key is seen to be up. */
  predicate Released(i: Input) {
    i.useInput && !i.key
  }

  predicate ReleasesAt(step: Step) {
    step.Ticks? && Released(step.input)
  }

  predicate GroundedAt(step: Step) {
    if step.Ticks? then step.input.grounded else step.grounded
  }

  /** No other bits, and at most one air jump counted, which has then been used up. */
  predicate Sound(j: Jumper) {
    j.jumped <= BOTH && 0 <= j.total <= 1 && (j.total == 1 ==> Has(j, USED))
  }

  lemma NextSound(j: Jumper, step: Step)
    requires Sound(j)
    ensures Sound(Next(j, step))
  {
  }

  lemma {:induction false} AlwaysSound(js: seq<Jumper>, steps: seq<Step>, i: nat)
    requires Run(js, steps) && i < |js|
    ensures Sound(js[i])
  {
    if i > 0 {
      AlwaysSound(js, steps, i - 1);
      NextSound(js[i - 1], steps[i - 1]);
    }
  }

  lemma StepBits(j: Jumper, step: Step)
    ensures JumpsAt(j, step) ==> !Has(j, KEY) && Has(Next(j, step), KEY)
    ensures AirJumpsAt(j, step) ==> !Has(j, USED) && Has(Next(j, step), USED)
    ensures Has(j, KEY) && !ReleasesAt(step) ==> Has(Next(j, step), KEY)
    ensures Has(j, USED) && !GroundedAt(step) ==> Has(Next(j, step), USED)
  {
  }

  lemma {:induction false} KeyStays(js: seq<Jumper>, steps: seq<Step>, i: nat, j: nat)
    requires Run(js, steps) && i <= j < |js| && Has(js[i], KEY)
    requires forall k :: i <= k < j ==> !ReleasesAt(steps[k])
    ensures Has(js[j], KEY)
    decreases j
  {
    if i < j {
      KeyStays(js, steps, i, j - 1);
      StepBits(js[j - 1], steps[j - 1]);
    }
  }

  lemma {:induction false} UsedStays(js: seq<Jumper>, steps: seq<Step>, i: nat, j: nat)
    requires Run(js, steps) && i <= j < |js| && Has(js[i], USED)
    requires forall k :: i <= k < j ==> !GroundedAt(steps[k])
    ensures Has(js[j], USED)
    decreases j
  {
    if i < j {
      UsedStays(js, steps, i, j - 1);
      StepBits(js[j - 1], steps[j - 1]);
    }
  }

  /** Between two jumps the key has been up: holding it does not jump again. */
  lemma ReleasedBetweenJumps(js: seq<Jumper>, steps: seq<Step>, i: nat, j: nat)
    requires Run(js, steps) && i < j < |steps| && JumpsAt(js[i], steps[i]) && JumpsAt(js[j], steps[j])
    ensures exists k :: i < k < j && ReleasesAt(steps[k])
  {
    StepBits(js[i], steps[i]);
    StepBits(js[j], steps[j]);
    if forall k :: i < k < j ==> !ReleasesAt(steps[k]) {
      KeyStays(js, steps, i + 1, j);
    }
  }

  /** Between two jumps in the air the character has been on the ground. */
  lemma GroundedBetweenAirJumps(js: seq<Jumper>, steps: seq<Step>, i: nat, j: nat)
    requires Run(js, steps) && i < j < |steps| && AirJumpsAt(js[i], steps[i]) && AirJumpsAt(js[j], steps[j])
    ensures exists k :: i < k < j && GroundedAt(steps[k])
  {
    StepBits(js[i], steps[i]);
    StepBits(js[j], steps[j]);
    if forall k :: i < k < j ==> !GroundedAt(steps[k]) {
      UsedStays(js, steps, i + 1, j);
    }
  }

  // ----- the server's jump rules -----

  /** The rules that the server applies after each tick, for a character with `jumps` jumps; one that is super or
      jumps endlessly always has light feet. */
  function Rules(j: Jumper, jumps: int, endless: bool): Jumper {
    var r :=
      if jumps == -1 || jumps == 0 || (jumps == 1 && j.jumped > 0) then j.(jumped := j.jumped | USED)
      else if j.total < jumps - 1 && j.jumped > 1 then j.(jumped := KEY)
      else j;
    if endless && r.jumped > 1 then r.(jumped := KEY) else r
  }

  /** One round of the server: the tick, the rules, and the move. `landing` tells that the mover has raised its flag;
      `Landing` says when it does. */
  datatype Round = Round(input: Input, landing: bool)

  function AfterTick(j: Jumper, r: Round, endless: bool): Jumper {
    Rules(Tick(j, r.input), r.input.jumps, endless)
  }

  function After(j: Jumper, r: Round, endless: bool): Jumper {
    if r.landing then Land(AfterTick(j, r, endless)) else AfterTick(j, r, endless)
  }

  /** Any run of rounds, from any state, with any change of the number of jumps. */
  ghost predicate Rounds(js: seq<Jumper>, rounds: seq<Round>, endless: bool) {
    && |js| == |rounds| + 1
    && forall i :: 0 <= i < |rounds| ==> js[i + 1] == After(js[i], rounds[i], endless)
  }

  predicate SameJumps(rounds: seq<Round>, jumps: int) {
    forall i :: 0 <= i < |rounds| ==> rounds[i].input.jumps == jumps
  }

  /** The key goes down in a tick, having been up. */
  predicate Pressed(j: Jumper, i: Input) {
    i.useInput && i.key && !Has(j, KEY)
  }

  predicate Airborne(r: Round) {
    !r.input.grounded && !r.landing
  }

  // ----- two jumps or more -----

  /** The feet are dark exactly when all jumps but the one from the ground are used. */
  predicate Allowance(j: Jumper, jumps: int) {
    j.jumped <= BOTH && 0 <= j.total <= jumps - 1 && (Has(j, USED) <==> j.total == jumps - 1)
  }

  /** Reset establishes the allowance, and so does every touch of the ground, whatever was before. */
  lemma AllowanceBegins(j: Jumper, r: Round)
    requires r.input.jumps >= 2 && j.jumped <= BOTH && !Airborne(r)
    ensures Allowance(Jumper(0, 0), r.input.jumps) && Allowance(After(j, r, false), r.input.jumps)
  {
  }

  lemma AfterAllowance(j: Jumper, r: Round)
    requires r.input.jumps >= 2 && Allowance(j, r.input.jumps)
    ensures Allowance(After(j, r, false), r.input.jumps)
  {
  }

  lemma {:induction false} AlwaysAllowed(js: seq<Jumper>, rounds: seq<Round>, jumps: int, i: nat)
    requires Rounds(js, rounds, false) && SameJumps(rounds, jumps) && jumps >= 2 && i < |js|
    requires Allowance(js[0], jumps)
    ensures Allowance(js[i], jumps)
  {
    if i > 0 {
      AlwaysAllowed(js, rounds, jumps, i - 1);
      AfterAllowance(js[i - 1], rounds[i - 1]);
    }
  }

  /** A character with two jumps or more answers the key with a ground jump whenever it stands, and else with an air
      jump exactly as long as fewer than `jumps - 1` have been made since it stood. */
  lemma JumpsExactly(js: seq<Jumper>, rounds: seq<Round>, jumps: int, i: nat)
    requires Rounds(js, rounds, false) && SameJumps(rounds, jumps) && jumps >= 2 && i < |rounds|
    requires Allowance(js[0], jumps)
    ensures var j, r := js[i], rounds[i];
            && (EventOf(j, r.input) == GroundJump <==> Pressed(j, r.input) && r.input.grounded)
            && (EventOf(j, r.input) == AirJump <==> Pressed(j, r.input) && !r.input.grounded && j.total < jumps - 1)
  {
    AlwaysAllowed(js, rounds, jumps, i);
  }

  /** How many of some rounds jump in the air. */
  function AirJumps(js: seq<Jumper>, rounds: seq<Round>, i: nat, k: nat): nat
    requires i <= k <= |rounds| <= |js|
    decreases k
  {
    if i == k then 0
    else AirJumps(js, rounds, i, k - 1) + if EventOf(js[k - 1], rounds[k - 1].input) == AirJump then 1 else 0
  }

  lemma RulesKeepTotal(j: Jumper, jumps: int)
    ensures Rules(j, jumps, false).total == j.total
  {
  }

  lemma AirborneCounts(j: Jumper, r: Round)
    requires Airborne(r)
    ensures After(j, r, false).total == j.total + if EventOf(j, r.input) == AirJump then 1 else 0
  {
    var t := Press(j, r.input);
    assert EventOf(j, r.input) != GroundJump;
    assert t.total == j.total + if EventOf(j, r.input) == AirJump then 1 else 0;
    RulesKeepTotal(t, r.input.jumps);
  }

  lemma {:induction false} TotalCounts(js: seq<Jumper>, rounds: seq<Round>, i: nat, k: nat)
    requires Rounds(js, rounds, false) && i <= k <= |rounds|
    requires forall m :: i <= m < k ==> Airborne(rounds[m])
    ensures js[k].total == js[i].total + AirJumps(js, rounds, i, k)
    decreases k
  {
    if i < k {
      TotalCounts(js, rounds, i, k - 1);
      AirborneCounts(js[k - 1], rounds[k - 1]);
    }
  }

  /** While it does not touch the ground, it makes no more air jumps than it has left. */
  lemma AirJumpsAreLimited(js: seq<Jumper>, rounds: seq<Round>, jumps: int, i: nat, k: nat)
    requires Rounds(js, rounds, false) && SameJumps(rounds, jumps) && jumps >= 2 && i <= k <= |rounds|
    requires Allowance(js[0], jumps) && forall m :: i <= m < k ==> Airborne(rounds[m])
    ensures AirJumps(js, rounds, i, k) <= jumps - 1 - js[i].total
  {
    TotalCounts(js, rounds, i, k);
    AlwaysAllowed(js, rounds, jumps, k);
  }

  // ----- one jump -----

  lemma JumpDarkens(j: Jumper, r: Round)
    requires r.input.jumps == 1 && !r.landing && EventOf(j, r.input) != NoJump
    ensures Has(After(j, r, false), USED)
  {
  }

  lemma PressStaysDark(j: Jumper, i: Input)
    requires Has(j, USED)
    ensures Has(Press(j, i), USED)
  {
  }

  lemma RulesStayDark(j: Jumper)
    requires Has(j, USED)
    ensures Has(Rules(j, 1, false), USED)
  {
  }

  lemma AirborneStaysDark(j: Jumper, r: Round, t: Jumper)
    requires r.input.jumps == 1 && Airborne(r) && Has(j, USED) && t == After(j, r, false)
    ensures Has(t, USED)
  {
    PressStaysDark(j, r.input);
    RulesStayDark(Press(j, r.input));
  }

  lemma RoundStaysDark(js: seq<Jumper>, rounds: seq<Round>, k: nat)
    requires Rounds(js, rounds, false) && SameJumps(rounds, 1) && k < |rounds| && Airborne(rounds[k])
    ensures Has(js[k], USED) ==> Has(js[k + 1], USED)
  {
    if Has(js[k], USED) {
      AirborneStaysDark(js[k], rounds[k], js[k + 1]);
    }
  }

  lemma {:induction false} StaysDark(js: seq<Jumper>, rounds: seq<Round>, i: nat, k: nat)
    requires Rounds(js, rounds, false) && SameJumps(rounds, 1) && i <= k <= |rounds| && Has(js[i], USED)
    requires forall m :: i <= m < k ==> Airborne(rounds[m])
    ensures Has(js[k], USED)
    decreases k
  {
    if i < k {
      StaysDark(js, rounds, i, k - 1);
      RoundStaysDark(js, rounds, k - 1);
    }
  }

  /** With one jump each jump is the last: before a jump in the air it has touched the ground since any jump before,
      at the end of that round or in one after it. */
  lemma OneJumpIsTheLast(js: seq<Jumper>, rounds: seq<Round>, i: nat, k: nat)
    requires Rounds(js, rounds, false) && SameJumps(rounds, 1) && i < k < |rounds|
    requires EventOf(js[i], rounds[i].input) != NoJump && EventOf(js[k], rounds[k].input) == AirJump
    ensures rounds[i].landing || exists m :: i < m < k && !Airborne(rounds[m])
  {
    if !rounds[i].landing {
      JumpDarkens(js[i], rounds[i]);
      if forall m :: i < m < k ==> Airborne(rounds[m]) {
        StaysDark(js, rounds, i + 1, k);
      }
    }
  }

  /** Unless there are no jumps at all, the key is answered on the ground whenever it goes down. */
  lemma GroundJumpsExactly(j: Jumper, i: Input)
    requires i.jumps != 0
    ensures EventOf(j, i) == GroundJump <==> Pressed(j, i) && i.grounded
  {
  }

  lemma OneRound(j: Jumper, r: Round, t: Jumper)
    requires r.input.jumps == 1 && j.jumped <= BOTH && t == After(j, r, false)
    ensures t.jumped <= BOTH
    ensures !Has(t, USED) <==> r.landing || (!Has(t, KEY) && (r.input.grounded || !Has(j, USED)))
  {
  }

  /** Before round `i` with light feet from the start, from a landing before round `k`, or from the ground in it. */
  predicate Touches(js: seq<Jumper>, rounds: seq<Round>, i: nat, k: nat)
    requires k <= i <= |rounds| < |js|
  {
    (k == 0 && !Has(js[0], USED)) || (k > 0 && rounds[k - 1].landing) || (k < i && rounds[k].input.grounded)
  }

  predicate KeyUpSince(js: seq<Jumper>, i: nat, k: nat)
    requires i < |js|
  {
    forall m :: k < m <= i ==> !Has(js[m], KEY)
  }

  /** The character has been on the ground, and no round since has left the key down. */
  ghost predicate UpSinceGround(js: seq<Jumper>, rounds: seq<Round>, i: nat)
    requires i <= |rounds| < |js|
  {
    exists k: nat :: k <= i && Touches(js, rounds, i, k) && KeyUpSince(js, i, k)
  }

  lemma UpSinceNext(js: seq<Jumper>, rounds: seq<Round>, i: nat)
    requires i < |rounds| < |js|
    ensures UpSinceGround(js, rounds, i + 1) <==>
      || rounds[i].landing
      || (!Has(js[i + 1], KEY) && (rounds[i].input.grounded || UpSinceGround(js, rounds, i)))
  {
    if UpSinceGround(js, rounds, i + 1) {
      var k: nat :| k <= i + 1 && Touches(js, rounds, i + 1, k) && KeyUpSince(js, i + 1, k);
      if k <= i && !(k == i && rounds[i].input.grounded) {
        assert Touches(js, rounds, i, k) && KeyUpSince(js, i, k);
      }
    }
    if rounds[i].landing {
      assert Touches(js, rounds, i + 1, i + 1) && KeyUpSince(js, i + 1, i + 1);
    } else if !Has(js[i + 1], KEY) {
      if rounds[i].input.grounded {
        assert Touches(js, rounds, i + 1, i) && KeyUpSince(js, i + 1, i);
      } else if UpSinceGround(js, rounds, i) {
        var k: nat :| k <= i && Touches(js, rounds, i, k) && KeyUpSince(js, i, k);
        assert Touches(js, rounds, i + 1, k) && KeyUpSince(js, i + 1, k);
      }
    }
  }

  lemma {:induction false} OneJumpLight(js: seq<Jumper>, rounds: seq<Round>, i: nat)
    requires Rounds(js, rounds, false) && SameJumps(rounds, 1) && i <= |rounds| && js[0].jumped <= BOTH
    ensures js[i].jumped <= BOTH && (!Has(js[i], USED) <==> UpSinceGround(js, rounds, i))
  {
    if i == 0 {
      assert !Has(js[0], USED) ==> Touches(js, rounds, 0, 0) && KeyUpSince(js, 0, 0);
    } else {
      OneJumpLight(js, rounds, i - 1);
      OneRound(js[i - 1], rounds[i - 1], js[i]);
      UpSinceNext(js, rounds, i - 1);
    }
  }

  /** A character with one jump answers the key on the ground whenever it goes down, and in the air exactly if the key
      has been up ever since it was on the ground. */
  lemma OneJumpExactly(js: seq<Jumper>, rounds: seq<Round>, i: nat)
    requires Rounds(js, rounds, false) && SameJumps(rounds, 1) && i < |rounds| && js[0].jumped <= BOTH
    ensures var j, met := js[i], rounds[i].input;
            && (EventOf(j, met) == GroundJump <==> Pressed(j, met) && met.grounded)
            && (EventOf(j, met) == AirJump <==> Pressed(j, met) && !met.grounded && UpSinceGround(js, rounds, i))
  {
    GroundJumpsExactly(js[i], rounds[i].input);
    OneJumpLight(js, rounds, i);
  }

  /** A key that is still down on the ground costs the jump: this one jumps, is on the ground again with the key down,
      walks off a ledge, lets go of the key, and finds it does not answer in the air. */
  lemma HeldKeyForfeits() returns (js: seq<Jumper>, rounds: seq<Round>)
    ensures Rounds(js, rounds, false) && SameJumps(rounds, 1) && |rounds| == 4 && js[0] == Jumper(0, 0)
    ensures EventOf(js[0], rounds[0].input) == GroundJump && rounds[1].input.grounded
    ensures Pressed(js[3], rounds[3].input) && EventOf(js[3], rounds[3].input) == NoJump
  {
    var jump := Round(Input(true, true, true, 1), false);
    var walk := Round(Input(true, true, true, 1), false);
    var fall := Round(Input(true, false, false, 1), false);
    var press := Round(Input(true, true, false, 1), false);
    rounds := [jump, walk, fall, press];
    var first := After(Jumper(0, 0), jump, false);
    var second := After(first, walk, false);
    var third := After(second, fall, false);
    js := [Jumper(0, 0), first, second, third, After(third, press, false)];
  }

  // ----- no air jump, or no jump at all -----

  predicate NoAirJumps(r: Round) {
    r.input.jumps == 0 || r.input.jumps == -1
  }

  /** Without air jumps the feet are dark after every round, except exactly when its move has landed. */
  lemma AfterWithout(j: Jumper, r: Round)
    requires NoAirJumps(r)
    ensures Has(After(j, r, false), USED) <==> !r.landing
  {
  }

  // ----- endless jumps -----

  lemma EndlessIsLight(j: Jumper, r: Round)
    ensures !Has(After(j, r, true), USED)
  {
  }

  /** A character that is super or jumps endlessly has light feet after every round and jumps whenever the key goes
      down, as far as the key bit tells. */
  lemma EndlessJumpsExactly(js: seq<Jumper>, rounds: seq<Round>, i: nat)
    requires Rounds(js, rounds, true) && i < |rounds|
    ensures !Has(js[i + 1], USED)
    ensures i > 0 || !Has(js[0], USED) ==>
      (EventOf(js[i], rounds[i].input) != NoJump <==> Pressed(js[i], rounds[i].input))
  {
    EndlessIsLight(js[i], rounds[i]);
    if i > 0 {
      EndlessIsLight(js[i - 1], rounds[i - 1]);
    }
  }

  lemma EndlessKeyStuck(j: Jumper, r: Round)
    requires NoAirJumps(r)
    ensures Has(After(j, r, true), KEY)
  {
  }

  /** Endless jumps do not help a character without air jumps, or with no jump at all: the rules give it light feet by
      setting the key bit, and no press is answered any more, not even on the ground. */
  lemma EndlessWithoutJumps(js: seq<Jumper>, rounds: seq<Round>, i: nat)
    requires Rounds(js, rounds, true) && 0 < i < |rounds| && NoAirJumps(rounds[i - 1])
    ensures EventOf(js[i], rounds[i].input) == NoJump
  {
    EndlessKeyStuck(js[i - 1], rounds[i - 1]);
  }

  // ----- what the key bit tells -----

  /** The states in which the rules leave the key bit alone. */
  predicate KeyTold(j: Jumper, jumps: int, endless: bool) {
    && j.jumped <= BOTH
    && (if endless then jumps >= 1 && !Has(j, USED) else -1 <= jumps && (jumps >= 2 ==> Allowance(j, jumps)))
  }

  lemma PressKey(j: Jumper, i: Input, t: Jumper)
    requires j.jumped <= BOTH && t == Press(j, i)
    ensures t.jumped <= BOTH
    ensures Has(t, KEY) <==> !Released(i) && (Has(j, KEY) || EventOf(j, i) != NoJump)
  {
  }

  lemma LandKey(j: Jumper)
    requires j.jumped <= BOTH
    ensures Land(j).jumped <= BOTH && (Has(Land(j), KEY) <==> Has(j, KEY))
  {
  }

  lemma FewRulesKey(j: Jumper, jumps: int, t: Jumper)
    requires -1 <= jumps <= 1 && j.jumped <= BOTH && t == Rules(j, jumps, false)
    ensures t.jumped <= BOTH && (Has(t, KEY) <==> Has(j, KEY))
  {
  }

  lemma FewKeyStep(j: Jumper, r: Round, t: Jumper)
    requires -1 <= r.input.jumps <= 1 && j.jumped <= BOTH && t == After(j, r, false)
    ensures t.jumped <= BOTH
    ensures Has(t, KEY) <==> !Released(r.input) && (Has(j, KEY) || EventOf(j, r.input) != NoJump)
  {
    var pressed := Press(j, r.input);
    PressKey(j, r.input, pressed);
    LandKey(pressed);
    var ticked := Tick(j, r.input);
    FewRulesKey(ticked, r.input.jumps, Rules(ticked, r.input.jumps, false));
    LandKey(Rules(ticked, r.input.jumps, false));
  }

  lemma ManyKeyStep(j: Jumper, r: Round, t: Jumper)
    requires r.input.jumps >= 2 && Allowance(j, r.input.jumps) && t == After(j, r, false)
    ensures Has(t, KEY) <==> !Released(r.input) && (Has(j, KEY) || EventOf(j, r.input) != NoJump)
  {
  }

  lemma EndlessKeyStep(j: Jumper, r: Round, t: Jumper)
    requires r.input.jumps >= 1 && j.jumped <= BOTH && !Has(j, USED) && t == After(j, r, true)
    ensures t.jumped <= BOTH
    ensures Has(t, KEY) <==> !Released(r.input) && (Has(j, KEY) || EventOf(j, r.input) != NoJump)
  {
  }

  lemma KeyStep(j: Jumper, r: Round, endless: bool, t: Jumper)
    requires KeyTold(j, r.input.jumps, endless) && t == After(j, r, endless)
    ensures KeyTold(t, r.input.jumps, endless)
    ensures Has(t, KEY) <==> !Released(r.input) && (Has(j, KEY) || EventOf(j, r.input) != NoJump)
  {
    if endless {
      EndlessKeyStep(j, r, t);
      EndlessIsLight(j, r);
    } else if r.input.jumps >= 2 {
      ManyKeyStep(j, r, t);
      AfterAllowance(j, r);
    } else {
      FewKeyStep(j, r, t);
    }
  }

  /** Before round `k` the key went down for a jump, or was down at the start. */
  predicate DownBefore(js: seq<Jumper>, rounds: seq<Round>, k: nat)
    requires k <= |rounds| < |js|
  {
    if k == 0 then Has(js[0], KEY) else EventOf(js[k - 1], rounds[k - 1].input) != NoJump
  }

  predicate NotReleased(rounds: seq<Round>, k: nat, i: nat)
    requires i <= |rounds|
  {
    forall m :: k <= m < i ==> !Released(rounds[m].input)
  }

  /** Since the last jump nobody has seen the key up. */
  ghost predicate HeldSinceJump(js: seq<Jumper>, rounds: seq<Round>, i: nat)
    requires i <= |rounds| < |js|
  {
    exists k: nat :: k <= i && DownBefore(js, rounds, k) && NotReleased(rounds, k, i)
  }

  lemma HeldNext(js: seq<Jumper>, rounds: seq<Round>, i: nat)
    requires i < |rounds| < |js|
    ensures HeldSinceJump(js, rounds, i + 1) <==>
      || EventOf(js[i], rounds[i].input) != NoJump
      || (HeldSinceJump(js, rounds, i) && !Released(rounds[i].input))
  {
    if HeldSinceJump(js, rounds, i + 1) {
      var k: nat :| k <= i + 1 && DownBefore(js, rounds, k) && NotReleased(rounds, k, i + 1);
      if k <= i {
        assert NotReleased(rounds, k, i);
      }
    }
    if EventOf(js[i], rounds[i].input) != NoJump {
      assert DownBefore(js, rounds, i + 1) && NotReleased(rounds, i + 1, i + 1);
    } else if HeldSinceJump(js, rounds, i) && !Released(rounds[i].input) {
      var k: nat :| k <= i && DownBefore(js, rounds, k) && NotReleased(rounds, k, i);
      assert NotReleased(rounds, k, i + 1);
    }
  }

  lemma RoundTells(js: seq<Jumper>, rounds: seq<Round>, jumps: int, endless: bool, i: nat)
    requires Rounds(js, rounds, endless) && SameJumps(rounds, jumps) && i < |rounds| && KeyTold(js[i], jumps, endless)
    ensures KeyTold(js[i + 1], jumps, endless)
    ensures Has(js[i + 1], KEY)
       <==> !Released(rounds[i].input) && (Has(js[i], KEY) || EventOf(js[i], rounds[i].input) != NoJump)
  {
    KeyStep(js[i], rounds[i], endless, js[i + 1]);
  }

  lemma {:induction false} KeyBitTells(js: seq<Jumper>, rounds: seq<Round>, jumps: int, endless: bool, i: nat)
    requires Rounds(js, rounds, endless) && SameJumps(rounds, jumps) && i <= |rounds| && KeyTold(js[0], jumps, endless)
    ensures KeyTold(js[i], jumps, endless) && (Has(js[i], KEY) <==> HeldSinceJump(js, rounds, i))
  {
    if i == 0 {
      assert DownBefore(js, rounds, 0) <==> Has(js[0], KEY);
      assert NotReleased(rounds, 0, 0);
    } else {
      KeyBitTells(js, rounds, jumps, endless, i - 1);
      RoundTells(js, rounds, jumps, endless, i - 1);
      HeldNext(js, rounds, i - 1);
    }
  }

  /** With any number of jumps, and from one jump on also with endless ones, a press counts as one exactly if the key is
      down and has been seen up since the last jump. */
  lemma PressedExactly(js: seq<Jumper>, rounds: seq<Round>, jumps: int, endless: bool, i: nat)
    requires Rounds(js, rounds, endless) && SameJumps(rounds, jumps) && i < |rounds| && KeyTold(js[0], jumps, endless)
    ensures Pressed(js[i], rounds[i].input)
       <==> rounds[i].input.useInput && rounds[i].input.key && !HeldSinceJump(js, rounds, i)
  {
    KeyBitTells(js, rounds, jumps, endless, i);
  }

  /** A change of the number of jumps is no such run: with dark feet and the key up, more jumps come as light feet and
      a key bit, and a press in the next round is not answered. */
  lemma MoreJumpsSwallowPress() returns (js: seq<Jumper>, rounds: seq<Round>)
    ensures Rounds(js, rounds, false) && |rounds| == 2 && js[0] == Jumper(USED, 1)
    ensures Allowance(js[0], 2) && rounds[0].input.jumps == rounds[1].input.jumps == 5
    ensures Released(rounds[0].input) && rounds[1].input.useInput && rounds[1].input.key
    ensures EventOf(js[1], rounds[1].input) == NoJump
  {
    var fall := Round(Input(true, false, false, 5), false);
    var press := Round(Input(true, true, false, 5), false);
    rounds := [fall, press];
    var first := After(Jumper(USED, 1), fall, false);
    js := [Jumper(USED, 1), first, After(first, press, false)];
  }
}
