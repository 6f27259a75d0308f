/** Characters in a world: the hook as it is changed in place, together with the sets in which every character
    keeps the numbers of those that hold it. */
module Character {
  import opened BaseMath
  import opened Hook
  import opened Segment

  class World {
    const characters: array<Character?>
    const tickSpeed: nat

    constructor (maxClients: nat, tickSpeed: nat)
      ensures fresh(characters) && characters.Length == maxClients && this.tickSpeed == tickSpeed
      ensures Registered() && Linked() && forall i :: 0 <= i < maxClients ==> characters[i] == null
    {
      characters := new Character?[maxClients](_ => null);
      this.tickSpeed := tickSpeed;
    }

    predicate Has(i: int)
      reads characters
    {
      0 <= i < characters.Length && characters[i] != null
    }

    ghost function Members(): set<Character>
      reads characters
    {
      set i | 0 <= i < characters.Length && characters[i] != null :: characters[i]
    }

    /** Every character stands at its own number. */
    ghost predicate Registered()
      reads characters
    {
      forall i :: Has(i) ==> characters[i].id == i && characters[i].world == this
    }

    /** The two ways to say who holds whom agree: a character's set is made up of the numbers of those whose hook
        holds it. */
    ghost predicate Linked()
      reads characters, Members()`held, Members()`attached
    {
      forall j, i :: Has(j) ==> (i in characters[j].attached <==> Has(i) && characters[i].held == j)
    }
  }

  class Character {
    const world: World
    const id: int
    var state: int
    var tick: int
    var held: int
    var pos: Vec
    var teleported: bool
    var attached: set<int>

    /** A character of the world, or one without a number that the world does not know. */
    ghost predicate Ready()
      reads this`held, world.characters
    {
      && world.Registered()
      && (id == NOBODY || (world.Has(id) && world.characters[id] == this))
      && NOBODY <= held < world.characters.Length
    }

    function Value(): HookCore
      reads this`state, this`tick, this`held, this`pos, this`teleported
    {
      HookCore(state, tick, held, pos, teleported)
    }

    /** A character that is not in the world. */
    constructor Free(world: World)
      requires world.Registered()
      ensures Ready() && id == NOBODY && this.world == world && Value() == RESET && attached == {}
    {
      this.world := world;
      id := NOBODY;
      state, tick, held, pos, teleported := HOOK_IDLE, 0, NOBODY, Vec(0.0, 0.0), false;
      attached := {};
    }

    /** A character that takes an empty place. The links stay right exactly if no hook still points there. */
    constructor Spawn(world: World, id: int)
      requires world.Registered() && 0 <= id < world.characters.Length && !world.Has(id)
      modifies world.characters
      ensures Ready() && this.id == id && this.world == world && Value() == RESET && attached == {}
      ensures world.characters[..] == old(world.characters[..])[id := this]
      ensures old(world.Linked()) ==>
        (world.Linked() <==> forall i :: i != id && world.Has(i) ==> world.characters[i].held != id)
    {
      this.world := world;
      this.id := id;
      state, tick, held, pos, teleported := HOOK_IDLE, 0, NOBODY, Vec(0.0, 0.0), false;
      attached := {};
      new;
      world.characters[id] := this;
      assert forall i :: i != id ==> world.Has(i) == old(world.Has(i));
      assert forall i :: i != id && world.Has(i) ==> world.characters[i] == old(world.characters[i]);
      if old(world.Linked()) {
        forall i | i != id && world.Has(i) ensures id !in world.characters[i].attached {
          assert !old(world.Has(id));
        }
        assert forall i :: i !in world.characters[id].attached;
      }
    }

    method SetHookedPlayer(player: int)
      requires Ready() && NOBODY <= player < world.characters.Length
      modifies this`held, world.Members()`attached
      ensures Ready() && held == player
      ensures old(world.Linked()) ==> world.Linked()
    {
      if player != held {
        if held != NOBODY && id != NOBODY {
          var other := world.characters[held];
          if other != null {
            other.attached := other.attached - {id};
          }
        }
        if player != NOBODY && id != NOBODY {
          var other := world.characters[player];
          if other != null {
            other.attached := other.attached + {id};
          }
        }
        held := player;
      }
    }

    /** A view of this character's world: the same places are taken, nobody sees itself as prey, and a character
        without a number keeps nobody. */
    ghost predicate Sees(v: View)
      reads world.characters
    {
      && |v.others| == world.characters.Length
      && (forall i :: 0 <= i < |v.others| ==> (v.others[i].Some? <==> world.Has(i)))
      && (id != NOBODY && Present(v, id) ==> !v.others[id].value.eligible)
      && (forall i :: Present(v, i) && v.others[i].value.kept ==> id != NOBODY)
    }

    /** The part of the tick that reads the hook key. */
    method HandleInput(v: View)
      requires Ready() && Sees(v)
      modifies this`state, this`tick, this`held, this`pos, world.Members()`attached
      ensures Ready() && Value() == Input(old(Value()), v, world.tickSpeed)
      ensures old(world.Linked()) ==> world.Linked()
    {
      if v.useInput {
        if v.held {
          if state == HOOK_IDLE {
            state, pos := HOOK_FLYING, v.launch;
            SetHookedPlayer(NOBODY);
            tick := Truncate(world.tickSpeed as real * (1.25 - v.duration));
          }
        } else {
          SetHookedPlayer(NOBODY);
          state, pos := HOOK_IDLE, v.own;
        }
      }
    }

    /** One round of the search for a character to grab; `distance` is how far away the one held so far is. */
    method GrabPlayer(v: View, i: nat, distance: real, ghost grabbed: bool) returns (nearer: real, ghost grabs: bool)
      requires Ready() && i < |v.others| == world.characters.Length
      requires grabbed ==> state == HOOK_GRABBED
      modifies this`state, this`held, world.Members()`attached
      ensures Ready() && state == if grabs then HOOK_GRABBED else old(state)
      ensures Search(held, nearer, grabs) == Consider(pos, v.end, Search(old(held), distance, grabbed), i, v.others[i])
      ensures old(world.Linked()) ==> world.Linked()
    {
      nearer, grabs := distance, grabbed;
      if Hits(pos, v.end, v.others[i]) {
        var d := DistanceSquared(pos, v.others[i].value.pos);
        if held == NOBODY || d < distance {
          state := HOOK_GRABBED;
          SetHookedPlayer(i);
          nearer, grabs := d, true;
        }
      }
    }

    /** The loop over the characters that the flight may hit. */
    method GrabPlayers(v: View)
      requires Ready() && Sees(v) && state != HOOK_GRABBED
      modifies this`state, this`held, world.Members()`attached
      ensures Ready()
      ensures var s := SearchFirst(pos, v.end, v.others, old(held), |v.others|);
              held == s.player && state == if s.grabbed then HOOK_GRABBED else old(state)
      ensures old(world.Linked()) ==> world.Linked()
    {
      var distance := 0.0;
      var i := 0;
      ghost var grabbed := false;
      while i < |v.others|
        invariant 0 <= i <= |v.others| && Ready()
        invariant SearchFirst(pos, v.end, v.others, old(held), i) == Search(held, distance, grabbed)
        invariant state == if grabbed then HOOK_GRABBED else old(state)
        invariant old(world.Linked()) ==> world.Linked()
      {
        distance, grabbed := GrabPlayer(v, i, distance, grabbed);
        i := i + 1;
      }
    }

    /** The end of this tick's flight, when nobody has been grabbed. */
    method EndFlight(v: View)
      requires Ready() && state == HOOK_FLYING
      modifies this`state, this`held, this`pos, this`teleported, world.Members()`attached
      ensures Ready() && Value() == Land(old(Value()), v)
      ensures old(world.Linked()) ==> world.Linked()
    {
      if v.hit.Ground? {
        state := HOOK_GRABBED;
      } else if v.hit.NoHook? {
        state := HOOK_RETRACT_START;
      }
      if v.hit.Tele? && v.hit.out.Some? {
        SetHookedPlayer(NOBODY);
        teleported, pos := true, v.hit.out.value;
      } else {
        pos := v.end;
      }
    }

    /** The flying hook. */
    method FlyOn(v: View)
      requires Ready() && Sees(v) && state == HOOK_FLYING
      modifies this`state, this`held, this`pos, this`teleported, world.Members()`attached
      ensures Ready() && Value() == Fly(old(Value()), v)
      ensures old(world.Linked()) ==> world.Linked()
    {
      if v.tooFar {
        state := HOOK_RETRACT_START;
      }
      if v.grabbing && (state == HOOK_FLYING || !teleported) {
        GrabPlayers(v);
      }
      if state == HOOK_FLYING {
        EndFlight(v);
      }
    }

    method LetGo(v: View)
      requires Ready()
      modifies this`state, this`held, this`pos, world.Members()`attached
      ensures Ready() && Value() == Release(old(Value()), v)
      ensures old(world.Linked()) ==> world.Linked()
    {
      SetHookedPlayer(NOBODY);
      state, pos := HOOK_RETRACTED, v.own;
    }

    /** The grabbed hook: follow who is held, count, and let go. */
    method HoldOn(v: View)
      requires Ready() && Sees(v)
      modifies this`state, this`tick, this`held, this`pos, world.Members()`attached
      ensures Ready() && Value() == Hold(old(Value()), v, world.tickSpeed)
      ensures old(world.Linked()) ==> world.Linked()
    {
      if state == HOOK_GRABBED {
        if held != NOBODY {
          if v.others[held].Some? && v.others[held].value.kept {
            pos := v.others[held].value.pos;
          } else {
            LetGo(v);
          }
        }
        tick := tick + 1;
        if held != NOBODY
           && (tick > world.tickSpeed + world.tickSpeed / 5 || world.characters[held] == null) {
          LetGo(v);
        }
      }
    }

    /** What the hook does by itself, depending on its state. */
    method AdvanceHook(v: View)
      requires Ready() && Sees(v)
      modifies this`state, this`held, this`pos, this`teleported, world.Members()`attached
      ensures Ready() && Value() == Advance(old(Value()), v)
      ensures old(world.Linked()) ==> world.Linked()
    {
      if state == HOOK_IDLE {
        SetHookedPlayer(NOBODY);
        pos := v.own;
      } else if HOOK_RETRACT_START <= state < HOOK_RETRACT_END {
        state := state + 1;
      } else if state == HOOK_RETRACT_END {
        state := HOOK_RETRACTED;
      } else if state == HOOK_FLYING {
        FlyOn(v);
      }
    }

    /** The hook's part of `Tick`. */
    method Tick(v: View)
      requires Ready() && Sees(v)
      modifies this`state, this`tick, this`held, this`pos, this`teleported, world.Members()`attached
      ensures Ready() && Value() == Hook.Tick(old(Value()), v, world.tickSpeed)
      ensures old(world.Linked()) ==> world.Linked()
    {
      HandleInput(v);
      AdvanceHook(v);
      HoldOn(v);
    }

    /** The hook's part of `TickDeferred`. */
    method TickDeferred()
      requires Ready()
      modifies this`teleported
      ensures Ready() && Value() == Hook.TickDeferred(old(Value()))
      ensures old(world.Linked()) ==> world.Linked()
    {
      if state != HOOK_FLYING {
        teleported := false;
      }
    }

    /** The hook's part of `Read`, from a network object that names a character or nobody. */
    method Read(state: int, tick: int, player: int, pos: Vec)
      requires Ready() && NOBODY <= player < world.characters.Length
      modifies this`state, this`tick, this`held, this`pos, world.Members()`attached
      ensures Ready() && Value() == HookCore(state, tick, player, pos, old(teleported))
      ensures old(world.Linked()) ==> world.Linked()
    {
      this.state, this.tick, this.pos := state, tick, pos;
      SetHookedPlayer(player);
    }

    /** `Reset` forgets who holds this character. The links stay right exactly if nobody else does. */
    method Reset()
      requires Ready() && id != NOBODY
      modifies this, world.Members()`attached
      ensures Ready() && Value() == RESET && attached == {}
      ensures old(world.Linked()) ==>
        (world.Linked() <==> forall i :: i != id && world.Has(i) ==> world.characters[i].held != id)
    {
      teleported, pos, tick, state := false, Vec(0.0, 0.0), 0, HOOK_IDLE;
      SetHookedPlayer(NOBODY);
      attached := {};
    }

    // ----- leaving a place and coming back -----

    /** A character whose place is empty. */
    ghost predicate Away()
      reads this`held, world.characters
    {
      && world.Registered() && 0 <= id < world.characters.Length && !world.Has(id)
      && NOBODY <= held < world.characters.Length
    }

    /** `Destroy`, and the end of `Die`: the place becomes empty and no hook is let go of. The links stay right exactly
        if the character holds nobody else. */
    method Leave()
      requires Ready() && id != NOBODY
      modifies world.characters
      ensures Away() && world.characters[..] == old(world.characters[..])[id := null]
      ensures old(world.Linked()) ==> (world.Linked() <==> !world.Has(held))
    {
      world.characters[id] := null;
      assert forall i :: i != id ==> world.Has(i) == old(world.Has(i));
      assert forall i :: i != id && world.Has(i) ==> world.characters[i] == old(world.characters[i]);
      if old(world.Linked()) && world.Has(held) {
        assert id in world.characters[held].attached;
      }
    }

    /** `Pause`, but for the others that let go of a character that itself holds somebody. */
    method Pause(own: Vec)
      requires Ready() && id != NOBODY
      modifies world.characters, this`state, this`held, this`pos, world.Members()`attached
      ensures Away() && world.characters[..] == old(world.characters[..])[id := null]
      ensures held == NOBODY && attached == old(attached)
      ensures old(held) != NOBODY ==> state == HOOK_RETRACTED && pos == own
      ensures old(held) == NOBODY ==> state == old(state) && pos == old(pos)
      ensures old(world.Linked()) ==> world.Linked()
    {
      world.characters[id] := null;
      assert forall i :: i != id ==> world.Has(i) == old(world.Has(i));
      assert forall i :: i != id && world.Has(i) ==> world.characters[i] == old(world.characters[i]);
      if held != NOBODY {
        var other := world.characters[held];
        if other != null {
          other.attached := other.attached - {id};
        }
        held, state, pos := NOBODY, HOOK_RETRACTED, own;
      }
      if old(world.Linked()) {
        forall j, i | world.Has(j)
          ensures i in world.characters[j].attached <==> world.Has(i) && world.characters[i].held == j
        {
          assert old(i in world.characters[j].attached <==> world.Has(i) && world.characters[i].held == j);
        }
      }
    }

    /** The end of a pause: the character takes its place as it is. The links are right exactly if its set still is,
        and it holds nobody who is there. */
    method Unpause()
      requires Away()
      modifies world.characters
      ensures Ready() && world.characters[..] == old(world.characters[..])[id := this]
      ensures old(world.Linked()) ==>
        (world.Linked() <==>
          && (forall i :: i in attached <==> world.Has(i) && world.characters[i].held == id)
          && (held == id || !world.Has(held)))
    {
      world.characters[id] := this;
      assert forall i :: i != id ==> world.Has(i) == old(world.Has(i));
      assert forall i :: i != id && world.Has(i) ==> world.characters[i] == old(world.characters[i]);
      if old(world.Linked()) {
        forall i | i != id && world.Has(i) ensures id !in world.characters[i].attached {
          assert !old(world.Has(id));
        }
      }
    }
  }

  // ----- how the links come apart -----

  /** One character of a new world holds the other. */
  method OneHoldsOther() returns (w: World, a: Character, b: Character)
    ensures fresh(w) && fresh(w.characters) && fresh(a) && fresh(b) && a != b && w.characters[..] == [a, b]
    ensures a.world == w && b.world == w && a.id == 0 && b.id == 1 && a.Ready() && b.Ready()
    ensures a.held == 1 && b.held == NOBODY && w.Linked()
  {
    w := new World(2, 50);
    assert w.characters[..] == [null, null];
    a := new Character.Spawn(w, 0);
    assert w.characters[..] == [a, null] && w.characters[1] == null;
    b := new Character.Spawn(w, 1);
    assert w.characters[..] == [a, b] && w.characters[0] == a && w.characters[1] == b;
    a.SetHookedPlayer(1);
  }

  /** A registered character that is reset forgets who holds it. */
  method ResetForgets() returns (w: World)
    ensures !w.Linked()
  {
    var a, b;
    w, a, b := OneHoldsOther();
    b.Reset();
    assert w.characters[0] == a && w.characters[1] == b;
  }

  /** A character that dies while it holds another leaves its number behind. */
  method DeathLeavesNumber() returns (w: World, b: Character)
    ensures w.characters.Length == 2 && w.characters[0] == null && w.characters[1] == b
    ensures b.attached == {0} && !w.Linked()
  {
    var a;
    w, a, b := OneHoldsOther();
    assert w.characters[0] == a && w.characters[1] == b && w.characters.Length == 2;
    forall i ensures i in b.attached <==> i == 0 {
      assert i in w.characters[1].attached <==> w.Has(i) && w.characters[i].held == 1;
    }
    a.Leave();
    assert w.characters[..] == [null, b] && w.characters[1] == b;
  }

  /** One that dies while it is held, and takes its place again before the holder's next tick, is held without
      knowing it. */
  method SpawnIsHeld() returns (w: World, a: Character, b: Character)
    ensures w.characters[..] == [a, b] && a.held == 1 && b.attached == {} && !w.Linked()
  {
    w, a, b := OneHoldsOther();
    b.Leave();
    assert w.characters[..] == [a, null] && w.characters[0] == a && w.characters[1] == null;
    b := new Character.Spawn(w, 1);
    assert w.characters[..] == [a, b] && w.characters[0] == a;
  }

  /** A paused character is let go of while it is away, and comes back with a set that still names the other. */
  method PauseRemembers() returns (w: World)
    ensures !w.Linked()
  {
    var a, b;
    w, a, b := OneHoldsOther();
    assert 0 in w.characters[1].attached;
    b.Pause(Vec(0.0, 0.0));
    assert w.characters[..] == [a, null];
    a.SetHookedPlayer(NOBODY);
    b.Unpause();
    assert w.characters[..] == [a, b];
  }

  /** What can happen to the character with number `who`. */
  datatype Event =
    | Ticks(who: int, view: View)
    | Deferred(who: int)
    | Reads(who: int, state: int, tick: int, player: int, pos: Vec)
    | Sets(who: int, player: int)

  ghost predicate Possible(w: World, e: Event)
    reads w.characters
  {
    && w.Has(e.who)
    && (e.Ticks? ==> w.characters[e.who].world == w && w.characters[e.who].Sees(e.view))
    && (e.Reads? || e.Sets? ==> NOBODY <= e.player < w.characters.Length)
  }

  ghost predicate AllReady(w: World)
    reads w.characters, w.Members()
  {
    w.Registered() && forall i :: w.Has(i) ==> NOBODY <= w.characters[i].held < w.characters.Length
  }

  method Perform(w: World, e: Event)
    requires AllReady(w) && Possible(w, e)
    modifies w.Members()
    ensures AllReady(w)
    ensures old(w.Linked()) ==> w.Linked()
  {
    var c: Character := w.characters[e.who];
    match e
    case Ticks(_, v) => c.Tick(v);
    case Deferred(_) => c.TickDeferred();
    case Reads(_, state, tick, player, pos) => c.Read(state, tick, player, pos);
    case Sets(_, player) => c.SetHookedPlayer(player);
  }

  /** In every run of such events the two ways to say who holds whom keep agreeing. */
  method Play(w: World, events: seq<Event>)
    requires AllReady(w) && w.Linked()
    requires forall k :: 0 <= k < |events| ==> Possible(w, events[k])
    modifies w.Members()
    ensures AllReady(w) && w.Linked()
  {
    for k := 0 to |events|
      invariant AllReady(w) && w.Linked()
      invariant forall k :: 0 <= k < |events| ==> Possible(w, events[k])
    {
      Perform(w, events[k]);
    }
  }
}
