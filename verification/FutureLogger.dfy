/** The logger that collects messages until the real one is known: the hand-over between `Set` and any number
    of concurrent `Log` calls, as a state machine over atomic steps. */
module FutureLogger {
  /** One call of `Log`; calls are told apart even when their texts agree. */
  type Msg = nat

  /** A caller of `Log` is outside, has seen a logger and is about to use it, or has seen none and waits for
      the lock. */
  datatype Caller = Outside | Direct(msg: Msg) | Queueing(msg: Msg)

  /** The caller of `Set` has not come, holds the lock, has stored the logger and replays from `next`, or is done. */
  datatype Setter = Absent | Locked | Replaying(next: nat) | Done

  /** What reached the real logger, and whether `Set` sent it. */
  datatype Entry = Entry(msg: Msg, replayed: bool)

  datatype State = State(
    ready: bool, setter: Setter, pending: seq<Msg>, delivered: seq<Entry>, callers: seq<Caller>,
    logged: seq<Msg>, pushed: seq<Msg>, accepted: seq<Msg>, overtaken: bool)

  function Init(n: nat): State {
    State(false, Absent, [], [], seq(n, _ => Outside), [], [], [], false)
  }

  datatype Step =
    | Load(c: nat, msg: Msg)
    | Deliver(c: nat)
    | LogLocked(c: nat)
    | SetLock
    | SetStore
    | Replay
    | SetFinish

  predicate LockFree(s: State) {
    s.setter.Absent? || s.setter.Done?
  }

  predicate Enabled(s: State, step: Step) {
    match step
    case Load(c, msg) => c < |s.callers| && s.callers[c].Outside? && msg !in s.logged
    case Deliver(c) => c < |s.callers| && s.callers[c].Direct?
    case LogLocked(c) => c < |s.callers| && s.callers[c].Queueing? && LockFree(s)
    case SetLock => s.setter.Absent?
    case SetStore => s.setter.Locked?
    case Replay => s.setter.Replaying? && s.setter.next < |s.pending|
    case SetFinish => s.setter.Replaying? && s.setter.next == |s.pending|
  }

  /** The messages `Set` has still to send or that wait for it. */
  function Remaining(s: State): seq<Msg> {
    if s.setter.Replaying? && s.setter.next <= |s.pending| then s.pending[s.setter.next..] else s.pending
  }

  /** A message of caller `c` reaches the real logger, perhaps in front of others that are to be replayed. */
  function Send(s: State, c: nat): State
    requires c < |s.callers| && !s.callers[c].Outside?
  {
    var m := s.callers[c].msg;
    s.(delivered := s.delivered + [Entry(m, false)], callers := s.callers[c := Outside],
       accepted := s.accepted + [m], overtaken := s.overtaken || Remaining(s) != [])
  }

  /** A message of caller `c` joins the pending list. */
  function Push(s: State, c: nat): State
    requires c < |s.callers| && !s.callers[c].Outside?
  {
    var m := s.callers[c].msg;
    s.(pending := s.pending + [m], callers := s.callers[c := Outside],
       pushed := s.pushed + [m], accepted := s.accepted + [m])
  }

  function Next(s: State, step: Step): State
    requires Enabled(s, step)
  {
    match step
    case Load(c, msg) =>
      s.(callers := s.callers[c := if s.ready then Direct(msg) else Queueing(msg)], logged := s.logged + [msg])
    case Deliver(c) => Send(s, c)
    case LogLocked(c) =>
      if s.ready then Send(s, c) else Push(s, c)
    case SetLock => s.(setter := Locked)
    case SetStore => s.(ready := true, setter := Replaying(0))
    case Replay =>
      s.(delivered := s.delivered + [Entry(s.pending[s.setter.next], true)], setter := Replaying(s.setter.next + 1))
    case SetFinish => s.(pending := [], setter := Done)
  }

  ghost predicate Run(states: seq<State>, steps: seq<Step>) {
    && |states| == |steps| + 1
    && (exists n: nat :: states[0] == Init(n))
    && forall i :: 0 <= i < |steps| ==> Enabled(states[i], steps[i]) && states[i + 1] == Next(states[i], steps[i])
  }

  // ----- what every step keeps -----

  function InHand(c: Caller, m: Msg): nat {
    if !c.Outside? && c.msg == m then 1 else 0
  }

  /** How many callers hold message `m`. */
  function InFlight(callers: seq<Caller>, m: Msg): nat {
    if callers == [] then 0 else InFlight(callers[..|callers| - 1], m) + InHand(callers[|callers| - 1], m)
  }

  function Count(ms: seq<Msg>, m: Msg): nat {
    multiset(ms)[m]
  }

  function Msgs(entries: seq<Entry>): (ms: seq<Msg>)
    ensures |ms| == |entries|
  {
    seq(|entries|, i requires 0 <= i < |entries| => entries[i].msg)
  }

  function Replayed(entries: seq<Entry>): seq<Msg> {
    if entries == [] then []
    else
      var rest, last := Replayed(entries[..|entries| - 1]), entries[|entries| - 1];
      if last.replayed then rest + [last.msg] else rest
  }

  /** Every logged message is in flight, waiting to be replayed or delivered, as often as it was logged. */
  ghost predicate NothingLost(s: State) {
    forall m :: Accounted(s, m)
  }

  ghost predicate Accounted(s: State, m: Msg) {
    Count(s.logged, m) == InFlight(s.callers, m) + Count(Remaining(s), m) + Count(Msgs(s.delivered), m)
  }

  ghost predicate Distinct(ms: seq<Msg>) {
    forall i, j :: 0 <= i < j < |ms| ==> ms[i] != ms[j]
  }

  /** What the messages reached in is the order in which they were accepted, as long as none overtook. */
  ghost predicate OrderTold(s: State) {
    if s.overtaken then exists p :: 0 <= p < |s.delivered| && p < |s.accepted| && s.delivered[p].msg != s.accepted[p]
    else Msgs(s.delivered) + Remaining(s) == s.accepted
  }

  ghost predicate Tidy(s: State) {
    && (s.ready <==> s.setter.Replaying? || s.setter.Done?)
    && (s.setter.Done? ==> s.pending == [])
    && (s.setter.Replaying? ==> s.setter.next <= |s.pending|)
    && (!s.ready ==> s.delivered == [] && forall c <- s.callers :: !c.Direct?)
  }

  ghost predicate Inv(s: State) {
    && NothingLost(s) && OrderTold(s) && Distinct(s.logged)
    && Tidy(s) && Replayed(s.delivered) + Remaining(s) == s.pushed
  }

  lemma {:induction false} InFlightUpdate(callers: seq<Caller>, c: nat, x: Caller, m: Msg)
    requires c < |callers|
    ensures InFlight(callers[c := x], m) + InHand(callers[c], m) == InFlight(callers, m) + InHand(x, m)
  {
    var n := |callers| - 1;
    if c == n {
      assert callers[c := x][..n] == callers[..n];
    } else {
      InFlightUpdate(callers[..n], c, x, m);
      assert callers[c := x][..n] == callers[..n][c := x];
    }
  }

  lemma CountAppend(ms: seq<Msg>, last: Msg, m: Msg)
    ensures Count(ms + [last], m) == Count(ms, m) + if last == m then 1 else 0
  {
  }

  lemma MsgsAppend(entries: seq<Entry>, e: Entry)
    ensures Msgs(entries + [e]) == Msgs(entries) + [e.msg]
    ensures Replayed(entries + [e]) == if e.replayed then Replayed(entries) + [e.msg] else Replayed(entries)
  {
    assert (entries + [e])[..|entries|] == entries;
  }

  lemma {:induction false} NobodyInFlight(n: nat, m: Msg)
    ensures InFlight(seq(n, _ => Outside), m) == 0
  {
    if n > 0 {
      var all: seq<Caller> := seq(n, _ => Outside);
      NobodyInFlight(n - 1, m);
      assert all[..n - 1] == seq(n - 1, _ => Outside);
    }
  }

  lemma InitInv(n: nat)
    ensures Inv(Init(n))
  {
    forall m ensures Accounted(Init(n), m) {
      NobodyInFlight(n, m);
    }
  }

  lemma LoadAccounted(s: State, c: nat, msg: Msg, m: Msg)
    requires Accounted(s, m) && Enabled(s, Load(c, msg))
    ensures Accounted(Next(s, Load(c, msg)), m)
  {
    InFlightUpdate(s.callers, c, if s.ready then Direct(msg) else Queueing(msg), m);
    CountAppend(s.logged, msg, m);
  }

  lemma SendAccounted(s: State, c: nat, m: Msg)
    requires Accounted(s, m) && c < |s.callers| && !s.callers[c].Outside?
    ensures Accounted(Send(s, c), m)
  {
    InFlightUpdate(s.callers, c, Outside, m);
    MsgsAppend(s.delivered, Entry(s.callers[c].msg, false));
    CountAppend(Msgs(s.delivered), s.callers[c].msg, m);
  }

  lemma PushAccounted(s: State, c: nat, m: Msg)
    requires Accounted(s, m) && c < |s.callers| && !s.callers[c].Outside? && !s.setter.Replaying?
    ensures Accounted(Push(s, c), m)
  {
    InFlightUpdate(s.callers, c, Outside, m);
    CountAppend(s.pending, s.callers[c].msg, m);
  }

  lemma CountHead(ms: seq<Msg>, m: Msg)
    requires ms != []
    ensures Count(ms, m) == Count(ms[1..], m) + if ms[0] == m then 1 else 0
  {
    assert ms == [ms[0]] + ms[1..];
  }

  lemma ReplayAccounted(s: State, m: Msg)
    requires Accounted(s, m) && Enabled(s, Replay)
    ensures Accounted(Next(s, Replay), m)
  {
    var first := s.pending[s.setter.next];
    CountHead(Remaining(s), m);
    assert Remaining(s)[1..] == Remaining(Next(s, Replay));
    MsgsAppend(s.delivered, Entry(first, true));
    CountAppend(Msgs(s.delivered), first, m);
  }

  lemma NextAccounted(s: State, step: Step, m: Msg)
    requires Inv(s) && Enabled(s, step)
    ensures Accounted(Next(s, step), m)
  {
    assert Accounted(s, m);
    match step
    case Load(c, msg) => LoadAccounted(s, c, msg, m);
    case Deliver(c) => SendAccounted(s, c, m);
    case LogLocked(c) =>
      if s.ready {
        SendAccounted(s, c, m);
      } else {
        PushAccounted(s, c, m);
      }
    case Replay => ReplayAccounted(s, m);
    case _ => assert Remaining(Next(s, step)) == Remaining(s);
  }

  lemma {:induction false} DistinctCount(ms: seq<Msg>, m: Msg)
    requires Distinct(ms)
    ensures Count(ms, m) <= 1
  {
    if ms != [] {
      CountHead(ms, m);
      DistinctCount(ms[1..], m);
      assert m == ms[0] ==> m !in ms[1..];
    }
  }

  lemma {:induction false} InFlightHas(callers: seq<Caller>, c: nat, m: Msg)
    requires c < |callers|
    ensures InHand(callers[c], m) <= InFlight(callers, m)
  {
    if c < |callers| - 1 {
      InFlightHas(callers[..|callers| - 1], c, m);
    }
  }

  /** A message in flight is none of those that remain to be replayed. */
  lemma InFlightIsNotRemaining(s: State, c: nat)
    requires Inv(s) && c < |s.callers| && !s.callers[c].Outside? && Remaining(s) != []
    ensures s.callers[c].msg != Remaining(s)[0]
  {
    var m := s.callers[c].msg;
    InFlightHas(s.callers, c, m);
    DistinctCount(s.logged, m);
    assert Accounted(s, m);
    CountHead(Remaining(s), m);
  }

  lemma SendOrderTold(s: State, c: nat)
    requires Inv(s) && c < |s.callers| && !s.callers[c].Outside?
    ensures OrderTold(Send(s, c))
  {
    var t := Send(s, c);
    var p, m := |s.delivered|, s.callers[c].msg;
    MsgsAppend(s.delivered, Entry(m, false));
    if s.overtaken {
      var q :| 0 <= q < |s.delivered| && q < |s.accepted| && s.delivered[q].msg != s.accepted[q];
      assert t.delivered[q].msg != t.accepted[q];
    } else if Remaining(s) != [] {
      InFlightIsNotRemaining(s, c);
      assert s.accepted[p] == Remaining(s)[0] && t.delivered[p].msg != t.accepted[p];
    }
  }

  lemma NextOrderTold(s: State, step: Step)
    requires Inv(s) && Enabled(s, step)
    ensures OrderTold(Next(s, step))
  {
    var t := Next(s, step);
    if step.Deliver? {
      SendOrderTold(s, step.c);
    } else if step.LogLocked? && s.ready {
      SendOrderTold(s, step.c);
    } else if s.overtaken {
      var q :| 0 <= q < |s.delivered| && q < |s.accepted| && s.delivered[q].msg != s.accepted[q];
      assert t.delivered[q].msg != t.accepted[q];
    } else if step.Replay? {
      MsgsAppend(s.delivered, Entry(s.pending[s.setter.next], true));
      assert Remaining(s) == [s.pending[s.setter.next]] + Remaining(t);
    }
  }

  lemma ReplayReplayed(s: State, t: State, m: Msg)
    requires Inv(s) && Enabled(s, Replay) && t == Next(s, Replay) && m == s.pending[s.setter.next]
    ensures Replayed(t.delivered) + Remaining(t) == t.pushed
  {
    assert Remaining(s) == [m] + Remaining(t);
    MsgsAppend(s.delivered, Entry(m, true));
  }

  lemma NextReplayed(s: State, step: Step)
    requires Inv(s) && Enabled(s, step)
    ensures var t := Next(s, step); Replayed(t.delivered) + Remaining(t) == t.pushed
  {
    var t := Next(s, step);
    match step
    case Deliver(c) => MsgsAppend(s.delivered, Entry(s.callers[c].msg, false));
    case LogLocked(c) => MsgsAppend(s.delivered, Entry(s.callers[c].msg, false));
    case Replay => ReplayReplayed(s, t, s.pending[s.setter.next]);
    case _ =>
  }

  lemma NextTidy(s: State, step: Step)
    requires Inv(s) && Enabled(s, step)
    ensures var t := Next(s, step); Distinct(t.logged) && Tidy(t)
  {
    var t := Next(s, step);
    if !t.ready {
      forall c | 0 <= c < |t.callers| ensures !t.callers[c].Direct? {
        assert s.callers[c] in s.callers;
      }
    }
  }

  lemma NextInv(s: State, step: Step)
    requires Inv(s) && Enabled(s, step)
    ensures Inv(Next(s, step))
  {
    var t := Next(s, step);
    forall m ensures Accounted(t, m) {
      NextAccounted(s, step, m);
    }
    NextOrderTold(s, step);
    NextReplayed(s, step);
    NextTidy(s, step);
  }

  lemma {:induction false} RunInv(states: seq<State>, steps: seq<Step>, i: nat)
    requires Run(states, steps) && i < |states|
    ensures Inv(states[i])
  {
    if i == 0 {
      var n: nat :| states[0] == Init(n);
      InitInv(n);
    } else {
      RunInv(states, steps, i - 1);
      NextInv(states[i - 1], steps[i - 1]);
    }
  }

  // ----- what a run guarantees -----

  /** In every state of every run a logged message is in one place only: a caller's hands, the list of those
      that wait for `Set`, or the real logger. */
  lemma InOnePlace(states: seq<State>, steps: seq<Step>, i: nat, m: Msg)
    requires Run(states, steps) && i < |states|
    ensures var s := states[i];
            InFlight(s.callers, m) + Count(Remaining(s), m) + Count(Msgs(s.delivered), m)
            == if m in s.logged then 1 else 0
  {
    RunInv(states, steps, i);
    assert Accounted(states[i], m);
    DistinctCount(states[i].logged, m);
  }

  predicate Quiet(s: State) {
    s.setter.Done? && forall c <- s.callers :: c.Outside?
  }

  lemma {:induction false} NoneInFlight(callers: seq<Caller>, m: Msg)
    requires forall c <- callers :: c.Outside?
    ensures InFlight(callers, m) == 0
  {
    if callers != [] {
      NoneInFlight(callers[..|callers| - 1], m);
    }
  }

  /** When `Set` is through and every call of `Log` has returned, the real logger has had every message once. */
  lemma QuietHasDelivered(states: seq<State>, steps: seq<Step>, i: nat)
    requires Run(states, steps) && i < |states| && Quiet(states[i])
    ensures multiset(Msgs(states[i].delivered)) == multiset(states[i].logged)
  {
    RunInv(states, steps, i);
    var s := states[i];
    forall m: Msg ensures multiset(Msgs(s.delivered))[m] == multiset(s.logged)[m] {
      assert Accounted(s, m);
      NoneInFlight(s.callers, m);
    }
  }

  ghost predicate Kept(s: State, t: State) {
    s.ready ==> t.ready && t.pushed == s.pushed && (s.setter.Done? ==> t.setter.Done?)
  }

  lemma ReadyIsFinal(s: State, step: Step, t: State)
    requires Inv(s) && Enabled(s, step) && t == Next(s, step)
    ensures Kept(s, t)
  {
  }

  lemma StepKept(states: seq<State>, steps: seq<Step>, i: nat)
    requires Run(states, steps) && i < |steps|
    ensures Kept(states[i], states[i + 1])
  {
    RunInv(states, steps, i);
    ReadyIsFinal(states[i], steps[i], states[i + 1]);
  }

  lemma {:induction false} PushedIsFixed(states: seq<State>, steps: seq<Step>, i: nat, j: nat)
    requires Run(states, steps) && i <= j < |states| && states[i].ready
    ensures states[j].ready && Kept(states[i], states[j])
    decreases j
  {
    if i < j {
      PushedIsFixed(states, steps, i, j - 1);
      StepKept(states, steps, j - 1);
    }
  }

  /** From the moment `Set` is through, the pending list is empty for ever, and what it held when the logger
      was stored has been replayed, all of it and in its order, whatever else was logged meanwhile. */
  lemma ReplayedInPendingOrder(states: seq<State>, steps: seq<Step>, i: nat, j: nat, k: nat)
    requires Run(states, steps) && i < j <= k < |states|
    requires steps[i] == SetStore && states[j].setter.Done?
    ensures states[k].setter.Done? && states[k].pending == []
    ensures Replayed(states[k].delivered) == states[i].pending
  {
    RunInv(states, steps, i);
    RunInv(states, steps, j);
    RunInv(states, steps, k);
    assert states[i].pushed == states[i].pending;
    PushedIsFixed(states, steps, i + 1, k);
    PushedIsFixed(states, steps, j, k);
  }

  /** A caller that has seen the logger uses it while `Set` still has messages to replay. */
  predicate Overtakes(s: State, step: Step) {
    step.Deliver? && Remaining(s) != []
  }

  lemma OvertakenNow(s: State, step: Step, t: State)
    requires Inv(s) && Enabled(s, step) && t == Next(s, step)
    ensures t.overtaken <==> s.overtaken || Overtakes(s, step)
  {
  }

  lemma {:induction false} OvertakenBy(states: seq<State>, steps: seq<Step>, i: nat)
    requires Run(states, steps) && i < |states|
    ensures states[i].overtaken <==> exists k :: 0 <= k < i && Overtakes(states[k], steps[k])
  {
    if i > 0 {
      OvertakenBy(states, steps, i - 1);
      RunInv(states, steps, i - 1);
      OvertakenNow(states[i - 1], steps[i - 1], states[i]);
    }
  }

  /** The real logger gets the messages in the order in which they were accepted, if and only if no caller
      has used it while `Set` was still replaying. */
  lemma OrderKeptExactly(states: seq<State>, steps: seq<Step>, i: nat)
    requires Run(states, steps) && i < |states|
    ensures var s := states[i];
            Msgs(s.delivered) + Remaining(s) == s.accepted
            <==> forall k :: 0 <= k < i ==> !Overtakes(states[k], steps[k])
  {
    RunInv(states, steps, i);
    OvertakenBy(states, steps, i);
    var s := states[i];
    if s.overtaken {
      var p :| 0 <= p < |s.delivered| && p < |s.accepted| && s.delivered[p].msg != s.accepted[p];
      assert (Msgs(s.delivered) + Remaining(s))[p] == s.delivered[p].msg;
    }
  }

  // ----- what has been logged and accepted, by the steps -----

  /** The messages of the calls begun, in order. */
  function LoadsOf(steps: seq<Step>): seq<Msg> {
    if steps == [] then []
    else
      var last := steps[|steps| - 1];
      LoadsOf(steps[..|steps| - 1]) + if last.Load? then [last.msg] else []
  }

  /** The message of the last call that caller `c` has begun. */
  function LastLoad(steps: seq<Step>, c: nat): Msg {
    if steps == [] then 0
    else
      var last := steps[|steps| - 1];
      if last.Load? && last.c == c then last.msg else LastLoad(steps[..|steps| - 1], c)
  }

  /** The messages whose call has got through, in the order in which it did. */
  function AcceptedOf(steps: seq<Step>): seq<Msg> {
    if steps == [] then []
    else
      var last, before := steps[|steps| - 1], steps[..|steps| - 1];
      AcceptedOf(before) + if last.Deliver? || last.LogLocked? then [LastLoad(before, last.c)] else []
  }

  /** Everybody inside a call holds the message of it. */
  ghost predicate Told(s: State, steps: seq<Step>) {
    && s.logged == LoadsOf(steps) && s.accepted == AcceptedOf(steps)
    && forall c :: 0 <= c < |s.callers| && !s.callers[c].Outside? ==> s.callers[c].msg == LastLoad(steps, c)
  }

  lemma MoreOf(steps: seq<Step>, step: Step, more: seq<Step>)
    requires more == steps + [step]
    ensures LoadsOf(more) == LoadsOf(steps) + if step.Load? then [step.msg] else []
    ensures AcceptedOf(more) ==
            AcceptedOf(steps) + if step.Deliver? || step.LogLocked? then [LastLoad(steps, step.c)] else []
  {
    assert more[..|steps|] == steps && more[|steps|] == step;
  }

  lemma MoreLoads(steps: seq<Step>, step: Step, more: seq<Step>, c: nat)
    requires more == steps + [step]
    ensures LastLoad(more, c) == if step.Load? && step.c == c then step.msg else LastLoad(steps, c)
  {
    assert more[..|steps|] == steps && more[|steps|] == step;
  }

  lemma StepHistory(s: State, steps: seq<Step>, step: Step, more: seq<Step>)
    requires Told(s, steps) && Enabled(s, step) && more == steps + [step]
    ensures var t := Next(s, step); t.logged == LoadsOf(more) && t.accepted == AcceptedOf(more)
  {
    MoreOf(steps, step, more);
  }

  lemma StepCaller(s: State, steps: seq<Step>, step: Step, more: seq<Step>, c: nat)
    requires Told(s, steps) && Enabled(s, step) && more == steps + [step] && c < |s.callers|
    ensures var t := Next(s, step);
            |t.callers| == |s.callers| && (!t.callers[c].Outside? ==> t.callers[c].msg == LastLoad(more, c))
  {
    MoreLoads(steps, step, more, c);
  }

  lemma StepTold(s: State, steps: seq<Step>, step: Step, more: seq<Step>)
    requires Told(s, steps) && Enabled(s, step) && more == steps + [step]
    ensures Told(Next(s, step), more)
  {
    StepHistory(s, steps, step, more);
    forall c | 0 <= c < |s.callers| && !Next(s, step).callers[c].Outside?
      ensures Next(s, step).callers[c].msg == LastLoad(more, c)
    {
      StepCaller(s, steps, step, more, c);
    }
  }

  lemma RunTold(states: seq<State>, steps: seq<Step>, k: nat, before: seq<Step>)
    requires Run(states, steps) && k < |steps| && before == steps[..k] && Told(states[k], before)
    ensures Told(states[k + 1], steps[..k + 1])
  {
    StepTold(states[k], before, steps[k], steps[..k + 1]);
  }

  /** What the machine says has been logged and accepted is what the steps say. */
  lemma {:induction false} HistoryIsTold(states: seq<State>, steps: seq<Step>, i: nat)
    requires Run(states, steps) && i < |states|
    ensures Told(states[i], steps[..i])
  {
    if i > 0 {
      HistoryIsTold(states, steps, i - 1);
      RunTold(states, steps, i - 1, steps[..i - 1]);
    }
  }

  lemma Extend(states: seq<State>, steps: seq<Step>, step: Step) returns (longer: seq<State>, more: seq<Step>)
    requires Run(states, steps) && Enabled(states[|steps|], step)
    ensures Run(longer, more) && more == steps + [step]
    ensures longer == states + [Next(states[|steps|], step)]
  {
    longer, more := states + [Next(states[|steps|], step)], steps + [step];
    assert longer[0] == states[0];
  }

  lemma LogThenStore() returns (states: seq<State>, steps: seq<Step>)
    ensures Run(states, steps) && |steps| == 4 && states[0] == Init(1)
    ensures states[4] == State(true, Replaying(0), [7], [], [Outside], [7], [7], [7], false)
  {
    states, steps := [Init(1)], [];
    assert Run(states, steps);
    states, steps := Extend(states, steps, Load(0, 7));
    assert states[1].callers == [Queueing(7)];
    states, steps := Extend(states, steps, LogLocked(0));
    assert states[2].callers == [Outside];
    states, steps := Extend(states, steps, SetLock);
    states, steps := Extend(states, steps, SetStore);
  }

  /** One caller alone can see its two messages swapped: the second finds the logger while the first is still
      to be replayed. */
  lemma OneCallersMessagesSwapped() returns (states: seq<State>, steps: seq<Step>)
    ensures Run(states, steps) && |steps| == 8 && |states[0].callers| == 1 && Quiet(states[8])
    ensures states[8].logged == [7, 8] && Msgs(states[8].delivered) == [8, 7]
  {
    states, steps := LogThenStore();
    states, steps := Extend(states, steps, Load(0, 8));
    assert states[5].callers == [Direct(8)];
    states, steps := Extend(states, steps, Deliver(0));
    assert states[6].callers == [Outside];
    states, steps := Extend(states, steps, Replay);
    states, steps := Extend(states, steps, SetFinish);
  }

  // ----- progress -----

  function Calls(callers: seq<Caller>): nat {
    if callers == [] then 0
    else Calls(callers[..|callers| - 1]) + if callers[|callers| - 1].Outside? then 0 else 1
  }

  /** How many steps the calls that have begun still need. */
  function Work(s: State): nat {
    Calls(s.callers)
    + match s.setter
      case Locked => |s.pending| + 2
      case Replaying(next) => if next <= |s.pending| then |s.pending| - next + 1 else 0
      case _ => 0
  }

  lemma {:induction false} CallsReturn(callers: seq<Caller>, c: nat)
    requires c < |callers| && !callers[c].Outside?
    ensures Calls(callers) == Calls(callers[c := Outside]) + 1
  {
    var n := |callers| - 1;
    if c == n {
      assert callers[c := Outside][..n] == callers[..n];
    } else {
      CallsReturn(callers[..n], c);
      assert callers[c := Outside][..n] == callers[..n][c := Outside];
    }
  }

  lemma {:induction false} SomebodyIsInside(callers: seq<Caller>) returns (c: nat)
    requires Calls(callers) > 0
    ensures c < |callers| && !callers[c].Outside?
  {
    c := |callers| - 1;
    if callers[c].Outside? {
      c := SomebodyIsInside(callers[..c]);
    }
  }

  /** Every step other than the start of a call brings the calls that have begun nearer to their end, by one. */
  lemma StepsFinishCalls(s: State, step: Step)
    requires Inv(s) && Enabled(s, step) && !step.Load? && !step.SetLock?
    ensures Work(Next(s, step)) == Work(s) - 1
  {
    match step
    case Deliver(c) => CallsReturn(s.callers, c);
    case LogLocked(c) => CallsReturn(s.callers, c);
    case _ =>
  }

  /** While some call is unfinished, such a step is possible: there is no deadlock on the lock. */
  lemma NeverStuck(states: seq<State>, steps: seq<Step>, i: nat) returns (step: Step)
    requires Run(states, steps) && i < |states| && Work(states[i]) > 0
    ensures Enabled(states[i], step) && !step.Load? && !step.SetLock?
  {
    var s := states[i];
    RunInv(states, steps, i);
    if s.setter.Locked? {
      return SetStore;
    } else if s.setter.Replaying? {
      return if s.setter.next < |s.pending| then Replay else SetFinish;
    }
    var c := SomebodyIsInside(s.callers);
    return if s.callers[c].Direct? then Deliver(c) else LogLocked(c);
  }

  // ----- the logger itself -----

  /** The machine after `Set` has stored the logger and replayed `k` messages with nobody in between. */
  ghost function Replays(s: State, k: nat): (t: State)
    requires s.setter.Locked? && k <= |s.pending|
    ensures t.setter == Replaying(k) && t.pending == s.pending
  {
    if k == 0 then Next(s, SetStore) else Next(Replays(s, k - 1), Replay)
  }

  lemma {:induction false} ReplaysDeliver(s: State, k: nat)
    requires s.setter.Locked? && k <= |s.pending|
    ensures Msgs(Replays(s, k).delivered) == Msgs(s.delivered) + s.pending[..k]
  {
    if k > 0 {
      ReplaysDeliver(s, k - 1);
      MsgsAppend(Replays(s, k - 1).delivered, Entry(s.pending[k - 1], true));
      assert s.pending[..k] == s.pending[..k - 1] + [s.pending[k - 1]];
    }
  }

  /** What `Log` did with a message. */
  datatype Logged = Passed | Queued

  class FutureLog {
    var logger: bool
    var pending: seq<Msg>
    var sink: seq<Entry>

    /** The object is in state `s` of the protocol. */
    ghost predicate Matches(s: State)
      reads this
    {
      logger == s.ready && pending == s.pending && sink == s.delivered
    }

    constructor (ghost callers: nat)
      ensures Matches(Init(callers))
    {
      logger, pending, sink := false, [], [];
    }

    /** The region of `Set`, with nobody in between; setting a second time is a failed assertion. */
    method Set(ghost s: State) returns (first: bool)
      requires Matches(s)
      requires !s.ready ==> s.setter.Locked?
      modifies this
      ensures first <==> !s.ready
      ensures first ==> Matches(Next(Replays(s, |s.pending|), SetFinish))
      ensures !first ==> Matches(s)
    {
      if logger {
        return false;
      }
      logger := true;
      var i := 0;
      while i < |pending|
        invariant 0 <= i <= |pending| && pending == s.pending
        invariant Matches(Replays(s, i))
      {
        sink := sink + [Entry(pending[i], true)];
        i := i + 1;
      }
      pending := [];
      return true;
    }

    /** The first look of `Log` for the logger, without the lock. */
    method Look(ghost s: State, ghost c: nat, ghost msg: Msg) returns (found: bool)
      requires Matches(s) && Enabled(s, Load(c, msg))
      ensures Matches(Next(s, Load(c, msg)))
      ensures Next(s, Load(c, msg)).callers[c] == if found then Direct(msg) else Queueing(msg)
    {
      found := logger;
    }

    /** The fast path of `Log`: the message goes to the logger that the first look has found, lock or no lock. */
    method PassOn(ghost s: State, ghost c: nat, msg: Msg)
      requires Matches(s) && Enabled(s, Deliver(c)) && s.callers[c].msg == msg
      modifies this
      ensures Matches(Next(s, Deliver(c)))
    {
      sink := sink + [Entry(msg, false)];
    }

    /** The region of `Log`, when the first look has found no logger. */
    method LogLocked(ghost s: State, ghost c: nat, msg: Msg) returns (how: Logged)
      requires Matches(s) && Enabled(s, Step.LogLocked(c)) && s.callers[c].msg == msg
      modifies this
      ensures Matches(Next(s, Step.LogLocked(c)))
      ensures how.Passed? <==> s.ready
    {
      if logger {
        sink := sink + [Entry(msg, false)];
        return Passed;
      }
      pending := pending + [msg];
      return Queued;
    }

    /** The whole of `Log`, with nobody in between: the look, and then the one or the other. */
    method Log(ghost s: State, ghost c: nat, msg: Msg) returns (how: Logged)
      requires Matches(s) && Enabled(s, Load(c, msg)) && LockFree(s)
      modifies this
      ensures var t := Next(s, Load(c, msg));
              Matches(if s.ready then Next(t, Deliver(c)) else Next(t, Step.LogLocked(c)))
      ensures how.Passed? <==> s.ready
    {
      var found := Look(s, c, msg);
      ghost var t := Next(s, Load(c, msg));
      if found {
        PassOn(t, c, msg);
        return Passed;
      }
      how := LogLocked(t, c, msg);
    }
  }
}
