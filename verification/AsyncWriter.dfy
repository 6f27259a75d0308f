/** The protocol between the clients of an asynchronous writer and its worker thread, as a state machine
    over atomic steps: the regions under the lock, the write outside it, wait and signal. */
module AsyncWriter {
  import opened CStrings
  import opened AsyncRing

  datatype Finish = Running | Close | Exit

  /** The worker is about to take the lock, has released it to wait, is writing a chunk, or has left. */
  datatype Worker = AtLock | Waiting | Writing(chunk: seq<byte>) | Gone

  /** A client is outside all calls, holds the lock, or has released it and has still to signal; a client of
      `aio_wait` then joins the thread. `due` bytes had been queued when it asked, `late` if the worker had
      left with some of them still in the queue. */
  datatype Client =
    | Idle
    | Holding
    | Signalling
    | JoinSignalling(due: nat, late: bool)
    | Joining(due: nat, late: bool)

  const NOBODY := -1

  datatype Aio = Aio(
    queue: seq<byte>, finish: Finish, refs: int, thread: bool, freed: bool,
    sem: nat, holder: int, worker: Worker, clients: seq<Client>,
    file: seq<byte>, closed: bool, released: bool, written: seq<byte>)

  function Init(n: nat): Aio {
    Aio([], Running, 2, true, false, 0, NOBODY, AtLock, seq(n, _ => Idle), [], false, false, [])
  }

  // ----- one turn of the worker under the lock -----

  datatype Turn = Leave(close: bool) | Sleep | Emit(chunk: seq<byte>)

  function TurnOf(queue: seq<byte>, finish: Finish): Turn {
    if queue != [] then Emit(Chunk(queue))
    else if finish.Running? then Sleep
    else Leave(finish.Close?)
  }

  function AfterTurn(queue: seq<byte>): seq<byte> {
    queue[|Chunk(queue)|..]
  }

  // ----- steps -----

  datatype Step =
    | Lock(c: nat)
    | Write(c: nat, data: seq<byte>)
    | Unlock(c: nat)
    | Signal(c: nat)
    | SetClose(c: nat)
    | SetExit(c: nat)
    | Joined(c: nat)
    | Free(c: nat)
    | WorkerTurn
    | WorkerWake
    | WorkerWrite

  /** A call that still uses the object is under way. */
  predicate Busy(c: Client) {
    c.Holding? || c.Signalling? || c.JoinSignalling?
  }

  /** A client may enter a call: its reference is alive and the lock is free. */
  predicate MayEnter(s: Aio, c: nat) {
    c < |s.clients| && s.clients[c].Idle? && s.holder == NOBODY && !s.released
  }

  predicate Enabled(s: Aio, step: Step) {
    match step
    case Lock(c) => MayEnter(s, c)
    case Write(c, _) => c < |s.clients| && s.clients[c].Holding?
    case Unlock(c) => c < |s.clients| && s.clients[c].Holding?
    case Signal(c) => c < |s.clients| && (s.clients[c].Signalling? || s.clients[c].JoinSignalling?)
    case SetClose(c) => MayEnter(s, c)
    case SetExit(c) => MayEnter(s, c) && s.thread
    case Joined(c) => c < |s.clients| && s.clients[c].Joining? && s.worker.Gone?
    case Free(c) => MayEnter(s, c) && forall d <- s.clients :: !Busy(d)
    case WorkerTurn => s.worker.AtLock? && s.holder == NOBODY
    case WorkerWake => s.worker.Waiting? && s.sem > 0
    case WorkerWrite => s.worker.Writing?
  }

  /** `aio_handle_free_and_unlock`. */
  function DropRef(s: Aio): Aio {
    s.(refs := s.refs - 1, freed := s.freed || s.refs - 1 == 0)
  }

  function WorkerTakesTurn(s: Aio): Aio {
    match TurnOf(s.queue, s.finish)
    case Emit(chunk) => s.(queue := AfterTurn(s.queue), worker := Writing(chunk))
    case Sleep => s.(worker := Waiting)
    case Leave(close) => DropRef(s.(worker := Gone, closed := close))
  }

  function Next(s: Aio, step: Step): Aio
    requires Enabled(s, step)
  {
    match step
    case Lock(c) => s.(holder := c, clients := s.clients[c := Holding])
    case Write(_, data) => s.(queue := s.queue + data, written := s.written + data)
    case Unlock(c) => s.(holder := NOBODY, clients := s.clients[c := Signalling])
    case Signal(c) =>
      var after := if s.clients[c].Signalling? then Idle else Joining(s.clients[c].due, s.clients[c].late);
      s.(sem := s.sem + 1, clients := s.clients[c := after])
    case SetClose(c) => s.(finish := Close, clients := s.clients[c := Signalling])
    case SetExit(c) =>
      var late := s.worker.Gone? && s.queue != [];
      s.(thread := false, finish := if s.finish.Running? then Exit else s.finish,
         clients := s.clients[c := JoinSignalling(|s.written|, late)])
    case Joined(c) => s.(clients := s.clients[c := Idle])
    case Free(c) => DropRef(s.(thread := false, released := true))
    case WorkerTurn => WorkerTakesTurn(s)
    case WorkerWake => s.(sem := s.sem - 1, worker := AtLock)
    case WorkerWrite => s.(file := s.file + s.worker.chunk, worker := AtLock)
  }

  /** A run: any number of clients, any interleaving. */
  ghost predicate Run(states: seq<Aio>, steps: seq<Step>) {
    && |states| == |steps| + 1
    && (exists n: nat :: states[0] == Init(n))
    && forall i :: 0 <= i < |steps| ==> Enabled(states[i], steps[i]) && states[i + 1] == Next(states[i], steps[i])
  }

  // ----- what every step keeps -----

  function InFlight(s: Aio): seq<byte> {
    if s.worker.Writing? then s.worker.chunk else []
  }

  /** Every queued byte is in the file, in the worker's hands or in the queue, once and in order. */
  ghost predicate Conserved(s: Aio) {
    s.file + InFlight(s) + s.queue == s.written
  }

  ghost predicate SomebodyBusy(s: Aio) {
    exists c :: 0 <= c < |s.clients| && Busy(s.clients[c])
  }

  /** A waiting worker with something to do has a signal coming. */
  ghost predicate NoLostWakeup(s: Aio) {
    s.worker.Waiting? && (s.queue != [] || !s.finish.Running?) ==> s.sem > 0 || SomebodyBusy(s)
  }

  ghost predicate LockIsExclusive(s: Aio) {
    && -1 <= s.holder < |s.clients|
    && forall c :: 0 <= c < |s.clients| ==> (s.clients[c].Holding? <==> s.holder == c)
  }

  /** The object lives as long as somebody may use it, and is freed by the last one. */
  ghost predicate FreedByLast(s: Aio) {
    && s.refs == (if s.worker.Gone? then 0 else 1) + (if s.released then 0 else 1)
    && (s.freed <==> s.refs == 0)
    && (s.released ==> !SomebodyBusy(s))
  }

  ghost predicate JoinKept(s: Aio, c: Client) {
    c.JoinSignalling? || c.Joining? ==>
      && c.due <= |s.written|
      && (s.worker.Gone? ==> (c.due <= |s.file| <==> !c.late))
      && (!s.worker.Gone? ==> !c.late)
  }

  ghost predicate Inv(s: Aio) {
    && Conserved(s) && NoLostWakeup(s) && LockIsExclusive(s) && FreedByLast(s)
    && (s.worker.Gone? ==> !s.finish.Running?)
    && (s.closed ==> s.worker.Gone?)
    && (s.worker.Writing? ==> s.worker.chunk != [] && |s.worker.chunk| <= CHUNK_SIZE)
    && forall i :: 0 <= i < |s.clients| ==> JoinKept(s, s.clients[i])
  }

  lemma InitInv(n: nat)
    ensures Inv(Init(n))
  {
  }

  lemma NextConserved(s: Aio, step: Step)
    requires Inv(s) && Enabled(s, step)
    ensures Conserved(Next(s, step))
  {
    if step.WorkerTurn? && s.queue != [] {
      assert s.queue == Chunk(s.queue) + AfterTurn(s.queue);
    }
  }

  lemma NextNoLostWakeup(s: Aio, step: Step)
    requires Inv(s) && Enabled(s, step)
    ensures NoLostWakeup(Next(s, step))
  {
    var t := Next(s, step);
    match step
    case Lock(c) => assert Busy(t.clients[c]);
    case Write(c, _) => assert Busy(t.clients[c]);
    case Unlock(c) => assert Busy(t.clients[c]);
    case SetClose(c) => assert Busy(t.clients[c]);
    case SetExit(c) => assert Busy(t.clients[c]);
    case Joined(c) =>
      if SomebodyBusy(s) {
        var d :| 0 <= d < |s.clients| && Busy(s.clients[d]);
        assert Busy(t.clients[d]);
      }
    case _ =>
  }

  lemma NextJoinKept(s: Aio, step: Step, i: nat)
    requires Inv(s) && Enabled(s, step) && i < |s.clients|
    ensures var t := Next(s, step); |t.clients| == |s.clients| && JoinKept(t, t.clients[i])
  {
    assert JoinKept(s, s.clients[i]);
    if step.WorkerTurn? && s.queue == [] {
      assert s.file == s.written;
    }
    if step.SetExit? && s.worker.Gone? {
      assert |s.file| + |s.queue| == |s.written|;
    }
  }

  lemma NextLockIsExclusive(s: Aio, step: Step, t: Aio)
    requires Inv(s) && Enabled(s, step) && t == Next(s, step)
    ensures LockIsExclusive(t)
  {
  }

  lemma NextFreedByLast(s: Aio, step: Step, t: Aio)
    requires Inv(s) && Enabled(s, step) && t == Next(s, step)
    ensures FreedByLast(t)
  {
  }

  lemma NextWorker(s: Aio, step: Step, t: Aio)
    requires Inv(s) && Enabled(s, step) && t == Next(s, step)
    ensures (t.worker.Gone? ==> !t.finish.Running?) && (t.closed ==> t.worker.Gone?)
    ensures t.worker.Writing? ==> t.worker.chunk != [] && |t.worker.chunk| <= CHUNK_SIZE
  {
  }

  lemma NextInv(s: Aio, step: Step)
    requires Inv(s) && Enabled(s, step)
    ensures Inv(Next(s, step))
  {
    NextConserved(s, step);
    NextNoLostWakeup(s, step);
    NextLockIsExclusive(s, step, Next(s, step));
    NextFreedByLast(s, step, Next(s, step));
    NextWorker(s, step, Next(s, step));
    forall i | 0 <= i < |s.clients| ensures JoinKept(Next(s, step), Next(s, step).clients[i]) {
      NextJoinKept(s, step, i);
    }
  }

  /** The invariant holds in every state of every run. */
  lemma {:induction false} RunInv(states: seq<Aio>, steps: seq<Step>, i: nat)
    requires Run(states, steps) && i < |states|
    ensures Inv(states[i])
  {
    if i == 0 {
      var n: nat :| states[0] == Init(n);
      InitInv(n);
    } else {
      RunInv(states, steps, i - 1);
      NextInv(states[i - 1], steps[i - 1]);
    }
  }

  // ----- safety over whole runs -----

  predicate Grown(s: Aio, t: Aio) {
    && s.file <= t.file <= t.written && s.written <= t.written
    && (s.worker.Gone? ==> t.worker.Gone? && t.file == s.file)
  }

  lemma StepGrows(s: Aio, step: Step)
    requires Inv(s) && Enabled(s, step)
    ensures Grown(s, Next(s, step))
  {
    NextConserved(s, step);
  }

  lemma GrownTwice(s: Aio, r: Aio, t: Aio)
    requires Grown(s, r) && Grown(r, t)
    ensures Grown(s, t)
  {
  }

  lemma FileIsFront(states: seq<Aio>, steps: seq<Step>, k: nat)
    requires Run(states, steps) && k < |states|
    ensures Grown(states[k], states[k])
  {
    RunInv(states, steps, k);
  }

  lemma RunGrows(states: seq<Aio>, steps: seq<Step>, k: nat)
    requires Run(states, steps) && k < |steps|
    ensures Grown(states[k], states[k + 1])
  {
    RunInv(states, steps, k);
    StepGrows(states[k], steps[k]);
  }

  lemma {:induction false} GrownChain(states: seq<Aio>, i: nat, j: nat)
    requires i <= j < |states| && Grown(states[i], states[i])
    requires forall k :: i <= k < j ==> Grown(states[k], states[k + 1])
    ensures Grown(states[i], states[j])
    decreases j
  {
    if i < j {
      GrownChain(states, i, j - 1);
      GrownTwice(states[i], states[j - 1], states[j]);
    }
  }

  /** The file only grows, and holds at any time a front of what has been queued; when the worker has left it does not
      change any more. */
  lemma FileGrows(states: seq<Aio>, steps: seq<Step>, i: nat, j: nat)
    requires Run(states, steps) && i <= j < |states|
    ensures Grown(states[i], states[j])
  {
    FileIsFront(states, steps, i);
    forall k | i <= k < j ensures Grown(states[k], states[k + 1]) {
      RunGrows(states, steps, k);
    }
    GrownChain(states, i, j);
  }

  /** When the worker leaves, the file is everything queued so far, and it stays as it is. */
  lemma LeavesWithEverything(states: seq<Aio>, steps: seq<Step>, i: nat, j: nat)
    requires Run(states, steps) && i < j < |states|
    requires !states[i].worker.Gone? && states[i + 1].worker.Gone?
    ensures states[i].file == states[i].written == states[j].file
  {
    RunInv(states, steps, i);
    FileGrows(states, steps, i + 1, j);
  }

  /** `c` has asked for the end and not come back from `aio_wait` yet. */
  ghost predicate Waits(c: Client, due: nat, late: bool) {
    c == JoinSignalling(due, late) || c == Joining(due, late)
  }

  lemma StepRemembers(s: Aio, step: Step, c: nat, due: nat, late: bool)
    requires Inv(s) && Enabled(s, step) && step != Joined(c)
    requires c < |s.clients| && Waits(s.clients[c], due, late)
    ensures var t := Next(s, step); c < |t.clients| && Waits(t.clients[c], due, late)
  {
  }

  lemma StepAsks(s: Aio, c: nat)
    requires Enabled(s, SetExit(c))
    ensures var t := Next(s, SetExit(c));
            c < |t.clients| && Waits(t.clients[c], |s.written|, s.worker.Gone? && s.queue != [])
  {
  }

  lemma {:induction false} WaitRemembers(
    states: seq<Aio>, steps: seq<Step>, c: nat, due: nat, late: bool, i: nat, j: nat)
    requires Run(states, steps) && i <= j < |states|
    requires c < |states[i].clients| && Waits(states[i].clients[c], due, late)
    requires forall k :: i <= k < j ==> steps[k] != Joined(c)
    ensures c < |states[j].clients| && Waits(states[j].clients[c], due, late)
    decreases j
  {
    if i < j {
      WaitRemembers(states, steps, c, due, late, i, j - 1);
      RunInv(states, steps, j - 1);
      StepRemembers(states[j - 1], steps[j - 1], c, due, late);
    }
  }

  /** When `aio_wait` returns, everything queued before it was called is in the file, except exactly when the
      worker had left before with bytes still in the queue. */
  lemma WaitDelivers(states: seq<Aio>, steps: seq<Step>, c: nat, i: nat, j: nat)
    requires Run(states, steps) && i < j < |steps| && steps[i] == SetExit(c) && steps[j] == Joined(c)
    requires forall k :: i < k < j ==> steps[k] != Joined(c)
    ensures states[i].written <= states[j].file <==> !(states[i].worker.Gone? && states[i].queue != [])
  {
    StepAsks(states[i], c);
    var late := states[i].worker.Gone? && states[i].queue != [];
    WaitRemembers(states, steps, c, |states[i].written|, late, i + 1, j);
    RunInv(states, steps, j);
    FileGrows(states, steps, i, j);
    assert JoinKept(states[j], states[j].clients[c]);
  }

  predicate Abandoned(s: Aio) {
    s.worker.Gone? && s.queue != []
  }

  /** A client queues bytes for a worker that has left. */
  predicate WritesLate(s: Aio, step: Step) {
    s.worker.Gone? && step.Write? && step.data != []
  }

  lemma StepAbandons(s: Aio, step: Step)
    requires Enabled(s, step)
    ensures Abandoned(Next(s, step)) <==> Abandoned(s) || WritesLate(s, step)
  {
  }

  ghost predicate WrittenLate(states: seq<Aio>, steps: seq<Step>, i: nat) {
    exists k :: 0 <= k < i && k < |steps| && k < |states| && WritesLate(states[k], steps[k])
  }

  lemma RunAbandons(states: seq<Aio>, steps: seq<Step>, k: nat)
    requires Run(states, steps) && k < |steps|
    ensures Abandoned(states[k + 1]) <==> Abandoned(states[k]) || WritesLate(states[k], steps[k])
  {
    StepAbandons(states[k], steps[k]);
  }

  /** Bytes are left behind exactly if some were queued after the worker had left. */
  lemma {:induction false} AbandonedExactly(states: seq<Aio>, steps: seq<Step>, i: nat)
    requires Run(states, steps) && i < |states|
    ensures Abandoned(states[i]) <==> WrittenLate(states, steps, i)
  {
    if i > 0 {
      AbandonedExactly(states, steps, i - 1);
      RunAbandons(states, steps, i - 1);
    }
  }

  /** The same said of the run: `aio_wait` delivers exactly if nobody has written after the worker had left. */
  lemma WaitDeliversUnlessLate(states: seq<Aio>, steps: seq<Step>, c: nat, i: nat, j: nat)
    requires Run(states, steps) && i < j < |steps| && steps[i] == SetExit(c) && steps[j] == Joined(c)
    requires forall k :: i < k < j ==> steps[k] != Joined(c)
    ensures states[i].written <= states[j].file <==> !WrittenLate(states, steps, i)
  {
    WaitDelivers(states, steps, c, i, j);
    AbandonedExactly(states, steps, i);
  }

  lemma Extend(states: seq<Aio>, steps: seq<Step>, step: Step) returns (states': seq<Aio>, steps': seq<Step>)
    requires Run(states, steps) && Enabled(states[|steps|], step)
    ensures states' == states + [Next(states[|steps|], step)] && steps' == steps + [step] && Run(states', steps')
  {
    states', steps' := states + [Next(states[|steps|], step)], steps + [step];
    assert states'[0] == states[0];
    forall i | 0 <= i < |steps'|
      ensures Enabled(states'[i], steps'[i]) && states'[i + 1] == Next(states'[i], steps'[i])
    {
      if i < |steps| {
        assert Enabled(states[i], steps[i]) && states[i + 1] == Next(states[i], steps[i]);
      }
    }
  }

  /** A client closes the writer, and the worker leaves. */
  lemma CloseAndLeave() returns (states: seq<Aio>, steps: seq<Step>)
    ensures Run(states, steps) && |steps| == 3
    ensures states[3] == Aio([], Close, 1, true, false, 1, NOBODY, Gone, [Idle], [], true, false, [])
  {
    states, steps := [Init(1)], [];
    states, steps := Extend(states, steps, SetClose(0));
    states, steps := Extend(states, steps, Signal(0));
    states, steps := Extend(states, steps, WorkerTurn);
  }

  /** The same client writes a byte. */
  lemma WriteLate() returns (states: seq<Aio>, steps: seq<Step>)
    ensures Run(states, steps) && |steps| == 7
    ensures states[7] == Aio([65], Close, 1, true, false, 2, NOBODY, Gone, [Idle], [], true, false, [65])
  {
    states, steps := CloseAndLeave();
    states, steps := Extend(states, steps, Lock(0));
    states, steps := Extend(states, steps, Write(0, [65]));
    states, steps := Extend(states, steps, Unlock(0));
    states, steps := Extend(states, steps, Signal(0));
  }

  /** The exception happens: a write after `aio_close` may be queued for a worker that has gone. */
  lemma LateWriteIsLost() returns (states: seq<Aio>, steps: seq<Step>)
    ensures Run(states, steps) && |steps| == 10 && steps[7] == SetExit(0) && steps[9] == Joined(0)
    ensures states[10].written == [65] && states[10].file == []
  {
    states, steps := WriteLate();
    states, steps := Extend(states, steps, SetExit(0));
    states, steps := Extend(states, steps, Signal(0));
    states, steps := Extend(states, steps, Joined(0));
  }

  /** Once the object is freed, no enabled step uses it: only joins that are left to return. */
  lemma NothingTouchesFreed(states: seq<Aio>, steps: seq<Step>, i: nat)
    requires Run(states, steps) && i < |steps| && states[i].freed
    ensures steps[i].Joined?
  {
    RunInv(states, steps, i);
  }

  // ----- what has been queued -----

  /** The bytes of all write steps, in their order. */
  function DataOf(steps: seq<Step>): seq<byte> {
    if steps == [] then []
    else
      var last := steps[|steps| - 1];
      DataOf(steps[..|steps| - 1]) + if last.Write? then last.data else []
  }

  lemma StepQueues(s: Aio, step: Step)
    requires Enabled(s, step)
    ensures Next(s, step).written == s.written + if step.Write? then step.data else []
  {
  }

  lemma RunQueues(states: seq<Aio>, steps: seq<Step>, k: nat, data: seq<byte>)
    requires Run(states, steps) && k < |steps| && states[k].written == data
    ensures states[k + 1].written == data + if steps[k].Write? then steps[k].data else []
  {
    StepQueues(states[k], steps[k]);
  }

  /** What has been queued is what the clients have written, in the order in which they held the lock. */
  lemma {:induction false} QueuedIsWritten(states: seq<Aio>, steps: seq<Step>, i: nat)
    requires Run(states, steps) && i < |states|
    ensures states[i].written == DataOf(steps[..i])
  {
    if i > 0 {
      QueuedIsWritten(states, steps, i - 1);
      RunQueues(states, steps, i - 1, DataOf(steps[..i - 1]));
      assert steps[..i][..i - 1] == steps[..i - 1];
    }
  }

  // ----- who asked for the end -----

  ghost predicate CloseAsked(steps: seq<Step>, i: nat) {
    exists k :: 0 <= k < i && k < |steps| && steps[k].SetClose?
  }

  ghost predicate ExitAsked(steps: seq<Step>, i: nat) {
    exists k :: 0 <= k < i && k < |steps| && steps[k].SetExit?
  }

  ghost predicate ReferenceGiven(steps: seq<Step>, i: nat) {
    exists k :: 0 <= k < i && k < |steps| && steps[k].Free?
  }

  /** What the object remembers of the requests: a close request for ever, an exit request unless there is one to close,
      and a thread that nobody has joined or detached yet. */
  ghost predicate Remembers(s: Aio, close: bool, exit: bool, given: bool) {
    && s.finish == (if close then Close else if exit then Exit else Running)
    && (s.thread <==> !exit && !given) && (s.released <==> given)
  }

  lemma StepRequests(s: Aio, step: Step, t: Aio, close: bool, exit: bool, given: bool)
    requires Remembers(s, close, exit, given) && Enabled(s, step) && t == Next(s, step)
    ensures Remembers(t, close || step.SetClose?, exit || step.SetExit?, given || step.Free?)
  {
  }

  lemma RunRequests(states: seq<Aio>, steps: seq<Step>, k: nat, close: bool, exit: bool, given: bool)
    requires Run(states, steps) && k < |steps| && Remembers(states[k], close, exit, given)
    ensures Remembers(states[k + 1], close || steps[k].SetClose?, exit || steps[k].SetExit?, given || steps[k].Free?)
  {
    StepRequests(states[k], steps[k], states[k + 1], close, exit, given);
  }

  /** In every state of every run the object remembers exactly the requests made so far. */
  lemma {:induction false} RequestsKept(states: seq<Aio>, steps: seq<Step>, i: nat)
    requires Run(states, steps) && i < |states|
    ensures Remembers(states[i], CloseAsked(steps, i), ExitAsked(steps, i), ReferenceGiven(steps, i))
  {
    if i > 0 {
      RequestsKept(states, steps, i - 1);
      var close, exit := CloseAsked(steps, i - 1), ExitAsked(steps, i - 1);
      RunRequests(states, steps, i - 1, close, exit, ReferenceGiven(steps, i - 1));
    }
  }

  /** The worker leaves in step `l`. */
  predicate LeavesAt(states: seq<Aio>, l: nat)
    requires l + 1 < |states|
  {
    !states[l].worker.Gone? && states[l + 1].worker.Gone?
  }

  lemma StepLeaves(s: Aio, step: Step, t: Aio)
    requires Inv(s) && Enabled(s, step) && t == Next(s, step)
    ensures !s.worker.Gone? && t.worker.Gone? ==> !s.finish.Running?
    ensures t.closed <==> s.closed || (!s.worker.Gone? && t.worker.Gone? && s.finish.Close?)
  {
  }

  lemma RunLeaves(states: seq<Aio>, steps: seq<Step>, k: nat)
    requires Run(states, steps) && k < |steps|
    ensures LeavesAt(states, k) ==> CloseAsked(steps, k) || ExitAsked(steps, k)
    ensures states[k + 1].closed <==> states[k].closed || (LeavesAt(states, k) && CloseAsked(steps, k))
  {
    RunInv(states, steps, k);
    RequestsKept(states, steps, k);
    StepLeaves(states[k], steps[k], states[k + 1]);
  }

  /** The worker has left with a close request before it. */
  ghost predicate LeftToClose(states: seq<Aio>, steps: seq<Step>, i: nat) {
    exists l :: 0 <= l < i && l + 1 < |states| && LeavesAt(states, l) && CloseAsked(steps, l)
  }

  lemma LeftNext(states: seq<Aio>, steps: seq<Step>, k: nat)
    requires k + 1 < |states|
    ensures LeftToClose(states, steps, k + 1)
       <==> LeftToClose(states, steps, k) || (LeavesAt(states, k) && CloseAsked(steps, k))
  {
  }

  lemma RunCloses(states: seq<Aio>, steps: seq<Step>, k: nat)
    requires Run(states, steps) && k < |steps| && (states[k].closed <==> LeftToClose(states, steps, k))
    ensures states[k + 1].closed <==> LeftToClose(states, steps, k + 1)
  {
    LeftNext(states, steps, k);
    RunLeaves(states, steps, k);
  }

  /** The file has been closed exactly if the worker has left and somebody had called `aio_close` before it did; an
      `aio_wait` before or after that call changes nothing about it. */
  lemma {:induction false} ClosedExactly(states: seq<Aio>, steps: seq<Step>, i: nat)
    requires Run(states, steps) && i < |states|
    ensures states[i].closed <==> LeftToClose(states, steps, i)
  {
    if i > 0 {
      ClosedExactly(states, steps, i - 1);
      RunCloses(states, steps, i - 1);
    }
  }

  /** Nobody leaves without having been asked to, and once only. */
  lemma LeavesOnRequest(states: seq<Aio>, steps: seq<Step>, l: nat, i: nat)
    requires Run(states, steps) && l < i < |states| && LeavesAt(states, l)
    ensures CloseAsked(steps, l) || ExitAsked(steps, l)
    ensures i < |steps| ==> !LeavesAt(states, i)
    ensures states[i].closed <==> CloseAsked(steps, l)
  {
    RunLeaves(states, steps, l);
    FileGrows(states, steps, l + 1, i);
    ClosedExactly(states, steps, i);
    forall k | 0 <= k < i && k != l ensures !LeavesAt(states, k) {
      if k < l {
        FileGrows(states, steps, k + 1, l);
      } else {
        FileGrows(states, steps, l + 1, k);
      }
    }
  }

  /** The thread is joined at most once, and never after it has been detached. */
  lemma JoinedOnce(states: seq<Aio>, steps: seq<Step>, i: nat)
    requires Run(states, steps) && i < |steps| && steps[i].SetExit?
    ensures !ExitAsked(steps, i) && !ReferenceGiven(steps, i)
  {
    RequestsKept(states, steps, i);
  }

  // ----- liveness -----

  /** A step of a thread that is already inside a call, or of the worker: nobody has to come from outside. */
  predicate Internal(step: Step) {
    step.WorkerTurn? || step.WorkerWake? || step.WorkerWrite? || step.Unlock? || step.Signal?
  }

  /** As long as there are bytes to write or an end to honour, some thread can go on by itself. */
  lemma NeverStuck(states: seq<Aio>, steps: seq<Step>, i: nat) returns (step: Step)
    requires Run(states, steps) && i < |states|
    requires !states[i].worker.Gone? && (states[i].queue != [] || !states[i].finish.Running?)
    ensures Internal(step) && Enabled(states[i], step)
  {
    var s := states[i];
    RunInv(states, steps, i);
    if s.worker.Writing? {
      return WorkerWrite;
    } else if s.worker.Waiting? && s.sem > 0 {
      return WorkerWake;
    } else if s.holder != NOBODY {
      return Unlock(s.holder);
    } else if s.worker.AtLock? {
      return WorkerTurn;
    }
    var c :| 0 <= c < |s.clients| && Busy(s.clients[c]);
    return Signal(c);
  }

  function Measure(s: Aio): nat {
    2 * |s.queue| + 2 * s.sem
    + match s.worker case Writing(_) => 2 case AtLock => 1 case Waiting => 0 case Gone => 0
  }

  /** What a client inside a call still has to do: each signal can wake the worker once. */
  function ClientEffort(c: Client): nat {
    match c case Holding => 4 case Signalling => 3 case JoinSignalling(_, _) => 3 case _ => 0
  }

  function ClientsEffort(clients: seq<Client>): nat {
    if clients == [] then 0 else ClientEffort(clients[0]) + ClientsEffort(clients[1..])
  }

  function Effort(s: Aio): nat {
    Measure(s) + ClientsEffort(s.clients)
  }

  lemma {:induction false} EffortOfUpdate(clients: seq<Client>, c: nat, d: Client)
    requires c < |clients|
    ensures ClientsEffort(clients[c := d]) == ClientsEffort(clients) - ClientEffort(clients[c]) + ClientEffort(d)
  {
    if c == 0 {
      assert clients[0 := d][1..] == clients[1..];
    } else {
      EffortOfUpdate(clients[1..], c - 1, d);
      assert clients[c := d][1..] == clients[1..][c - 1 := d];
    }
  }

  lemma AfterTurnIsShorter(queue: seq<byte>)
    requires queue != []
    ensures |AfterTurn(queue)| < |queue|
  {
  }

  lemma EmitLowers(s: Aio, queue: seq<byte>, chunk: seq<byte>, t: Aio)
    requires s.worker.AtLock? && |queue| < |s.queue| && t == s.(queue := queue, worker := Writing(chunk))
    ensures t.clients == s.clients && Measure(t) < Measure(s)
  {
  }

  lemma RestLowers(s: Aio, t: Aio)
    requires s.worker.AtLock? && (t.worker.Waiting? || t.worker.Gone?)
    requires t.queue == s.queue && t.sem == s.sem
    ensures Measure(t) < Measure(s)
  {
  }

  lemma TurnLowers(s: Aio, t: Aio)
    requires Enabled(s, WorkerTurn) && t == WorkerTakesTurn(s)
    ensures t.clients == s.clients && Measure(t) < Measure(s)
  {
    if s.queue != [] {
      AfterTurnIsShorter(s.queue);
      EmitLowers(s, AfterTurn(s.queue), Chunk(s.queue), t);
    } else {
      RestLowers(s, t);
    }
  }

  lemma WriteLowers(s: Aio, step: Step, t: Aio)
    requires Enabled(s, step) && (step == WorkerWake || step == WorkerWrite) && t == Next(s, step)
    ensures t.clients == s.clients && Measure(t) < Measure(s)
  {
  }

  lemma ClientLowers(s: Aio, c: nat, step: Step, t: Aio)
    requires Enabled(s, step) && (step == Unlock(c) || step == Signal(c)) && t == Next(s, step)
    ensures Effort(t) < Effort(s)
  {
    EffortOfUpdate(s.clients, c, t.clients[c]);
    assert t.clients == s.clients[c := t.clients[c]];
  }

  lemma InternalLowers(s: Aio, step: Step, t: Aio)
    requires Enabled(s, step) && Internal(step) && t == Next(s, step)
    ensures Effort(t) < Effort(s)
  {
    if step.Unlock? || step.Signal? {
      ClientLowers(s, step.c, step, t);
    } else if step.WorkerTurn? {
      TurnLowers(s, t);
    } else {
      WriteLowers(s, step, t);
    }
  }

  /** Everything is in the file, and nothing is left to do. */
  predicate Delivered(s: Aio) {
    s.queue == [] && s.file == s.written
  }

  lemma InternalKeeps(s: Aio, step: Step, t: Aio)
    requires Inv(s) && Enabled(s, step) && Internal(step) && t == Next(s, step)
    ensures t.written == s.written && t.finish == s.finish
    ensures t.worker.Gone? && (s.worker.Gone? ==> Delivered(s)) ==> Delivered(t)
  {
  }

  /** What `n` such steps from `s` make of it. */
  predicate WoundDown(s: Aio, t: Aio, n: nat) {
    && Effort(t) + n <= Effort(s) && t.written == s.written && t.finish == s.finish
    && (t.worker.Gone? ==> Delivered(t))
  }

  lemma InternalWinds(s: Aio, r: Aio, n: nat, step: Step, t: Aio)
    requires WoundDown(s, r, n) && Inv(r) && Enabled(r, step) && Internal(step) && t == Next(r, step)
    ensures WoundDown(s, t, n + 1)
  {
    InternalLowers(r, step, t);
    InternalKeeps(r, step, t);
  }

  lemma RunWinds(states: seq<Aio>, steps: seq<Step>, s: Aio, n: nat, k: nat)
    requires Run(states, steps) && k < |steps| && Internal(steps[k]) && WoundDown(s, states[k], n)
    ensures WoundDown(s, states[k + 1], n + 1)
  {
    RunInv(states, steps, k);
    InternalWinds(s, states[k], n, steps[k], states[k + 1]);
  }

  /** A stretch of a run in which nobody enters a call winds down. */
  lemma {:induction false} InternalRun(states: seq<Aio>, steps: seq<Step>, i: nat, j: nat, s: Aio)
    requires Run(states, steps) && i <= j < |states| && s == states[i] && !s.worker.Gone?
    requires forall k :: i <= k < j ==> Internal(steps[k])
    ensures WoundDown(s, states[j], j - i)
    decreases j
  {
    if i < j {
      InternalRun(states, steps, i, j - 1, s);
      RunWinds(states, steps, s, j - 1 - i, j - 1);
    }
  }

  /** No thread can go on by itself. */
  ghost predicate Settled(s: Aio) {
    forall step: Step :: Internal(step) ==> !Enabled(s, step)
  }

  lemma WorkerIsIdle(s: Aio)
    requires Inv(s) && Settled(s) && !s.worker.Gone? && s.queue == []
    ensures Delivered(s)
  {
    assert !Enabled(s, WorkerWrite);
  }

  /** However the threads that are inside calls interleave with the worker, they come to rest within `Effort` steps;
      then every queued byte is in the file, and the worker has left if and only if somebody asked for the end. */
  lemma EverybodyDrains(states: seq<Aio>, steps: seq<Step>, i: nat, j: nat)
    requires Run(states, steps) && i <= j < |states| && !states[i].worker.Gone?
    requires forall k :: i <= k < j ==> Internal(steps[k])
    ensures j - i <= Effort(states[i])
    ensures Settled(states[j]) ==>
      && states[j].queue == [] && states[j].file == states[i].written
      && (states[j].worker.Gone? <==> !states[i].finish.Running?)
  {
    InternalRun(states, steps, i, j, states[i]);
    RunInv(states, steps, j);
    var t := states[j];
    if Settled(t) && !t.worker.Gone? {
      if t.queue != [] || !t.finish.Running? {
        var step := NeverStuck(states, steps, j);
        assert false;
      }
      WorkerIsIdle(t);
    }
  }

  /** What the worker does next when the lock is free; it rests when it has left or nobody has signalled. */
  function WorkerStep(s: Aio): Aio {
    if s.worker.AtLock? && s.holder == NOBODY then Next(s, WorkerTurn)
    else if s.worker.Waiting? && s.sem > 0 then Next(s, WorkerWake)
    else if s.worker.Writing? then Next(s, WorkerWrite)
    else s
  }

  function WorkerSteps(s: Aio, n: nat): Aio
    decreases n
  {
    if n == 0 then s else WorkerSteps(WorkerStep(s), n - 1)
  }

  ghost predicate Quiet(s: Aio) {
    Inv(s) && !SomebodyBusy(s)
  }

  lemma QuietIsUnlocked(s: Aio)
    requires Quiet(s)
    ensures s.holder == NOBODY
  {
    assert s.holder != NOBODY ==> Busy(s.clients[s.holder]);
  }

  lemma WorkerStepProgress(s: Aio)
    requires Quiet(s)
    ensures var t := WorkerStep(s);
            && Quiet(t) && t.written == s.written && t.finish == s.finish
            && (t == s || Measure(t) < Measure(s))
            && (s.worker.Gone? ==> t == s)
            && (t == s && !s.worker.Gone? ==> s.worker.Waiting? && s.sem == 0)
  {
    QuietIsUnlocked(s);
    if s.worker.AtLock? {
      NextInv(s, WorkerTurn);
    } else if s.worker.Waiting? && s.sem > 0 {
      NextInv(s, WorkerWake);
    } else if s.worker.Writing? {
      NextInv(s, WorkerWrite);
    }
    assert WorkerStep(s).clients == s.clients;
  }

  /** With all clients outside, the worker alone brings every queued byte into the file within `Measure`
      steps, and then has left if and only if somebody asked for the end. */
  lemma {:induction false} WorkerDrains(s: Aio, n: nat)
    requires Quiet(s) && !s.worker.Gone? && n >= Measure(s)
    ensures var t := WorkerSteps(s, n);
            && t.file == t.written == s.written && t.queue == [] && !t.worker.Writing?
            && (if s.finish.Running? then t.worker.Waiting? && t.sem == 0 else t.worker.Gone?)
    decreases n
  {
    WorkerStepProgress(s);
    var t := WorkerStep(s);
    if t == s {
      WorkerRests(s, n);
    } else if t.worker.Gone? {
      WorkerRests(t, n - 1);
    } else {
      WorkerDrains(t, n - 1);
    }
  }

  lemma {:induction false} WorkerRests(s: Aio, n: nat)
    requires WorkerStep(s) == s
    ensures WorkerSteps(s, n) == s
    decreases n
  {
    if n > 0 {
      WorkerRests(s, n - 1);
    }
  }
}
