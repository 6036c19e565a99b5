/**
 The service's task and shutdown protocol as a step system: submitters on any thread,
 the dispatcher fiber, the task fibers and the fiber inside run() interleave freely,
 and every atomic load, store or counter change of the source is a step of its own.
 The channel's capacity is not a step condition, so every interleaving that a full
 channel would rule out is covered too.
 */
module ServiceProtocol {
  import opened Queues

  type Task = nat

  /** The dispatcher's loop: read `stopped`, pop, count, spawn. */
  datatype Dispatcher = AtTop | Popping | Popped(t: Task) | Counted(t: Task) | Exited

  /** Where a submitted task is. */
  datatype Place =
    | Pushing     // counted, not yet in the channel
    | Waiting     // in the channel
    | InHand      // popped by the dispatcher
    | FiberCounted
    | Running     // spawned, task function not finished
    | Finished    // task function finished, captures alive
    | Cleared     // captures destroyed, fiber not ended
    | Gone
    | Dropped     // push refused by the closed channel

  /** Where run() is. */
  datatype Phase =
    | ReadStopped | ReadCount          // the main loop's condition, one load at a time
    | Closing | Draining | Joined
    | GraceLoad | GraceClock           // phase 2a: load the counter, then read the clock
    | Deciding
    | ForceLoad | ForceClock           // phase 2b
    | Flushing | Returned

  datatype State = State(
    stopOnComplete: bool,
    stopped: bool,
    closed: bool,
    executeTaskCount: int,
    activeFiberCount: int,
    now: int,
    graceDeadline: int,
    forceDeadline: int,
    phase: Phase,
    dispatcher: Dispatcher,
    place: map<Task, Place>,
    stops: set<Task>,      // the tasks that stop() submits
    queue: seq<Task>
  )

  datatype Action =
    | Submit(t: Task, stop: bool) | Push(t: Task)
    | DispatcherTop | Pop | CountFiber | Spawn
    | RaiseStop(t: Task) | Finish(t: Task) | Clear(t: Task) | End(t: Task)
    | Tick(ms: nat)
    | Main

  const WAIT_MS := 500

  function Initial(stopOnComplete: bool): State {
    State(stopOnComplete, false, false, 0, 0, 0, 0, 0, ReadStopped, AtTop, map[], {}, [])
  }

  // ---- Steps ----

  predicate At(s: State, t: Task, p: Place) { t in s.place && s.place[t] == p }

  predicate Enabled(s: State, a: Action) {
    match a
    case Submit(t, _) => t !in s.place
    case Push(t) => At(s, t, Pushing)
    case DispatcherTop => s.dispatcher.AtTop?
    case Pop => s.dispatcher.Popping? && (s.queue != [] || s.closed)
    case CountFiber => s.dispatcher.Popped?
    case Spawn => s.dispatcher.Counted?
    case RaiseStop(t) => At(s, t, Running) && t in s.stops
    case Finish(t) => At(s, t, Running) && (t in s.stops ==> s.stopped)
    case Clear(t) => At(s, t, Finished)
    case End(t) => At(s, t, Cleared)
    case Tick(_) => true
    case Main => !s.phase.Returned? && (s.phase.Draining? ==> s.dispatcher.Exited?)
  }

  function MainStep(s: State): State {
    match s.phase
    case ReadStopped => s.(phase := if s.stopped then Closing else ReadCount)
    case ReadCount => s.(phase := if s.stopOnComplete && s.executeTaskCount == 0 then Closing else ReadStopped)
    case Closing => s.(phase := Draining, closed := true)
    case Draining => s.(phase := Joined)
    case Joined => s.(phase := GraceLoad, graceDeadline := s.now + WAIT_MS)
    case GraceLoad => s.(phase := if s.activeFiberCount > 0 then GraceClock else Deciding)
    case GraceClock => s.(phase := if s.now > s.graceDeadline then Deciding else GraceLoad)
    case Deciding =>
      if s.activeFiberCount > 0 then s.(phase := ForceLoad, forceDeadline := s.now + WAIT_MS)
      else s.(phase := Flushing)
    case ForceLoad => s.(phase := if s.activeFiberCount > 0 then ForceClock else Flushing)
    case ForceClock => s.(phase := if s.now > s.forceDeadline then Flushing else ForceLoad)
    case Flushing => s.(phase := Returned)
    case Returned => s
  }

  function Move(s: State, t: Task, p: Place): State { s.(place := s.place[t := p]) }

  function Apply(s: State, a: Action): State
    requires Enabled(s, a)
  {
    match a
    case Submit(t, stop) =>
      Move(s, t, Pushing).(executeTaskCount := s.executeTaskCount + 1, stops := if stop then s.stops + {t} else s.stops)
    case Push(t) => if s.closed then Move(s, t, Dropped) else Move(s, t, Waiting).(queue := s.queue + [t])
    case DispatcherTop => s.(dispatcher := if s.stopped then Exited else Popping)
    case Pop =>
      if s.queue == [] then s.(dispatcher := Exited)
      else Move(s, s.queue[0], InHand).(dispatcher := Popped(s.queue[0]), queue := s.queue[1..])
    case CountFiber =>
      var t := s.dispatcher.t;
      Move(s, t, FiberCounted).(dispatcher := Counted(t), activeFiberCount := s.activeFiberCount + 1)
    case Spawn => Move(s, s.dispatcher.t, Running).(dispatcher := AtTop)
    case RaiseStop(_) => s.(stopped := true)
    case Finish(t) => Move(s, t, Finished).(executeTaskCount := s.executeTaskCount - 1)
    case Clear(t) => Move(s, t, Cleared)
    case End(t) => Move(s, t, Gone).(activeFiberCount := s.activeFiberCount - 1)
    case Tick(ms) => s.(now := s.now + ms)
    case Main => MainStep(s)
  }

  /** The steps are enabled one after the other and lead from s to s'. */
  predicate Runs(s: State, acts: seq<Action>, s': State)
    decreases |acts|
  {
    if acts == [] then s' == s else Enabled(s, acts[0]) && Runs(Apply(s, acts[0]), acts[1..], s')
  }

  // ---- The invariant ----

  predicate IsOutstanding(p: Place) {
    p.Pushing? || p.Waiting? || p.InHand? || p.FiberCounted? || p.Running? || p.Dropped?
  }

  predicate IsAlive(p: Place) { p.FiberCounted? || p.Running? || p.Finished? || p.Cleared? }

  /** Tasks that have been submitted and whose function has not finished. */
  function Outstanding(m: map<Task, Place>): set<Task> { set t | t in m && IsOutstanding(m[t]) }

  /** Fibers that have been counted and have not ended: all that hold captures, and those about to end. */
  function Alive(m: map<Task, Place>): set<Task> { set t | t in m && IsAlive(m[t]) }

  /** The channel and the dispatcher hold what the places say. */
  ghost predicate Consistent(s: State) {
    && NoDuplicates(s.queue)
    && (forall t :: t in s.queue <==> At(s, t, Waiting))
    && (forall t :: At(s, t, InHand) <==> s.dispatcher == Popped(t))
    && (forall t :: At(s, t, FiberCounted) <==> s.dispatcher == Counted(t))
  }

  ghost predicate Counts(s: State) {
    && s.executeTaskCount == |Outstanding(s.place)|
    && s.activeFiberCount == |Alive(s.place)|
  }

  predicate BeforeClose(p: Phase) { p.ReadStopped? || p.ReadCount? || p.Closing? }

  predicate AfterJoin(p: Phase) { !BeforeClose(p) && !p.Draining? }

  predicate GraceOver(s: State) { s.now > s.graceDeadline }

  predicate BothOver(s: State) { s.now > s.graceDeadline && s.now > s.forceDeadline }

  predicate Shutdown(s: State) {
    && (s.closed <==> !BeforeClose(s.phase))
    && (AfterJoin(s.phase) ==> s.dispatcher.Exited?)
    && (s.dispatcher.Exited? ==> s.stopped || (s.closed && s.queue == []))
    && (s.phase.Deciding? ==> s.activeFiberCount == 0 || GraceOver(s))
    && (s.phase.ForceLoad? || s.phase.ForceClock? ==> GraceOver(s))
    && (s.phase.Flushing? || s.phase.Returned? ==> s.activeFiberCount == 0 || BothOver(s))
  }

  ghost predicate Inv(s: State) { Consistent(s) && Counts(s) && Shutdown(s) }

  lemma InitialInv(stopOnComplete: bool)
    ensures Inv(Initial(stopOnComplete))
  {
  }

  function One(b: bool): int { if b then 1 else 0 }

  /** Moving one task changes each count by what it leaves and what it enters. */
  lemma OutstandingMoved(m: map<Task, Place>, t: Task, p: Place)
    ensures |Outstanding(m[t := p])| == |Outstanding(m)| - One(t in Outstanding(m)) + One(IsOutstanding(p))
  {
    var was, later := Outstanding(m), Outstanding(m[t := p]);
    if IsOutstanding(p) {
      assert later == was + {t};
    } else {
      assert later == was - {t};
    }
  }

  lemma AliveMoved(m: map<Task, Place>, t: Task, p: Place)
    ensures |Alive(m[t := p])| == |Alive(m)| - One(t in Alive(m)) + One(IsAlive(p))
  {
    var was, later := Alive(m), Alive(m[t := p]);
    if IsAlive(p) {
      assert later == was + {t};
    } else {
      assert later == was - {t};
    }
  }

  predicate ByTask(a: Action) { a.Submit? || a.Push? || a.Finish? || a.Clear? || a.End? }

  predicate ByDispatcher(a: Action) { a.Pop? || a.CountFiber? || a.Spawn? }

  /** The task a step moves. */
  function Moved(s: State, a: Action): Task
    requires Enabled(s, a) && (ByTask(a) || (ByDispatcher(a) && (a.Pop? ==> s.queue != [])))
  {
    if ByTask(a) then a.t else if a.Pop? then s.queue[0] else s.dispatcher.t
  }

  lemma TaskStepIsConsistent(s: State, a: Action)
    requires Consistent(s) && Enabled(s, a) && ByTask(a)
    ensures Consistent(Apply(s, a))
  {
    var s' := Apply(s, a);
    assert a.t !in s.queue;
    forall t ensures t in s'.queue <==> At(s', t, Waiting) {
      assert t in s.queue <==> At(s, t, Waiting);
    }
    forall t ensures At(s', t, InHand) <==> s'.dispatcher == Popped(t) {
      assert At(s, t, InHand) <==> s.dispatcher == Popped(t);
    }
    forall t ensures At(s', t, FiberCounted) <==> s'.dispatcher == Counted(t) {
      assert At(s, t, FiberCounted) <==> s.dispatcher == Counted(t);
    }
  }

  lemma DispatcherStepIsConsistent(s: State, a: Action)
    requires Consistent(s) && Enabled(s, a) && ByDispatcher(a) && (a.Pop? ==> s.queue != [])
    ensures Consistent(Apply(s, a))
  {
    var s', m := Apply(s, a), Moved(s, a);
    if a.Pop? {
      assert s.queue == [m] + s.queue[1..];
      assert m in s.queue && m !in s.queue[1..];
    }
    forall t ensures t in s'.queue <==> At(s', t, Waiting) {
      assert t in s.queue <==> At(s, t, Waiting);
      assert At(s, t, InHand) <==> s.dispatcher == Popped(t);
      assert At(s, t, FiberCounted) <==> s.dispatcher == Counted(t);
    }
    forall t ensures At(s', t, InHand) <==> s'.dispatcher == Popped(t) {
      assert At(s, t, InHand) <==> s.dispatcher == Popped(t);
    }
    forall t ensures At(s', t, FiberCounted) <==> s'.dispatcher == Counted(t) {
      assert At(s, t, FiberCounted) <==> s.dispatcher == Counted(t);
    }
  }

  lemma TaskStepCounts(s: State, a: Action)
    requires Consistent(s) && Counts(s) && Enabled(s, a) && ByTask(a)
    ensures Counts(Apply(s, a))
  {
    var p := Apply(s, a).place[a.t];
    OutstandingMoved(s.place, a.t, p);
    AliveMoved(s.place, a.t, p);
  }

  lemma DispatcherStepCounts(s: State, a: Action)
    requires Consistent(s) && Counts(s) && Enabled(s, a) && ByDispatcher(a) && (a.Pop? ==> s.queue != [])
    ensures Counts(Apply(s, a))
  {
    var m := Moved(s, a);
    assert m in s.queue <==> At(s, m, Waiting);
    assert At(s, m, InHand) <==> s.dispatcher == Popped(m);
    assert At(s, m, FiberCounted) <==> s.dispatcher == Counted(m);
    var p := Apply(s, a).place[m];
    OutstandingMoved(s.place, m, p);
    AliveMoved(s.place, m, p);
  }

  lemma MainShutsDown(s: State)
    requires Shutdown(s) && Enabled(s, Main) && s.activeFiberCount >= 0
    ensures Shutdown(MainStep(s))
  {
  }

  lemma StepShutsDown(s: State, a: Action)
    requires Shutdown(s) && Enabled(s, a) && !a.Main?
    requires a.End? ==> s.activeFiberCount > 0
    ensures Shutdown(Apply(s, a))
  {
  }

  lemma QueueHead(q: seq<Task>)
    ensures q == [] || q[0] in q
  {
  }

  predicate SamePlaces(s: State, s': State) {
    && s'.place == s.place && s'.queue == s.queue
    && s'.executeTaskCount == s.executeTaskCount && s'.activeFiberCount == s.activeFiberCount
    && (s'.dispatcher == s.dispatcher || (IdleDispatcher(s.dispatcher) && IdleDispatcher(s'.dispatcher)))
  }

  predicate IdleDispatcher(d: Dispatcher) { !d.Popped? && !d.Counted? }

  lemma MainMovesNothing(s: State)
    ensures SamePlaces(s, MainStep(s))
  {
  }

  /** Steps that move no task. */
  lemma OtherStep(s: State, a: Action)
    requires Enabled(s, a) && !ByTask(a) && (ByDispatcher(a) ==> a.Pop? && s.queue == [])
    ensures SamePlaces(s, Apply(s, a))
  {
    if a.Main? { MainMovesNothing(s); }
  }

  lemma SamePlacesKeep(s: State, s': State)
    requires Consistent(s) && Counts(s) && SamePlaces(s, s')
    ensures Consistent(s') && Counts(s')
  {
  }

  lemma StepPlaces(s: State, a: Action)
    requires Consistent(s) && Counts(s) && Enabled(s, a)
    ensures Consistent(Apply(s, a)) && Counts(Apply(s, a))
  {
    if ByTask(a) {
      TaskStepIsConsistent(s, a);
      TaskStepCounts(s, a);
    } else if ByDispatcher(a) && (a.Pop? ==> s.queue != []) {
      DispatcherStepIsConsistent(s, a);
      DispatcherStepCounts(s, a);
    } else {
      OtherStep(s, a);
      SamePlacesKeep(s, Apply(s, a));
    }
  }

  /** Every step of every participant keeps the invariant. */
  lemma StepKeepsInv(s: State, a: Action)
    requires Inv(s) && Enabled(s, a)
    ensures Inv(Apply(s, a))
  {
    StepPlaces(s, a);
    if a.Main? {
      MainShutsDown(s);
    } else {
      if a.End? { assert a.t in Alive(s.place); }
      StepShutsDown(s, a);
    }
  }

  lemma {:induction false} RunKeepsInv(s: State, acts: seq<Action>, s': State)
    requires Inv(s) && Runs(s, acts, s')
    ensures Inv(s')
    decreases |acts|
  {
    if acts != [] {
      StepKeepsInv(s, acts[0]);
      RunKeepsInv(Apply(s, acts[0]), acts[1..], s');
    }
  }

  // ---- What it means ----

  lemma Reachable(stopOnComplete: bool, acts: seq<Action>, s: State)
    requires Runs(Initial(stopOnComplete), acts, s)
    ensures Inv(s)
  {
    InitialInv(stopOnComplete);
    RunKeepsInv(Initial(stopOnComplete), acts, s);
  }

  predicate HasFinished(p: Place) { p.Finished? || p.Cleared? || p.Gone? }

  /** In every interleaving, execute_task_count is the number of tasks submitted but not finished. */
  lemma TaskCountIsExact(stopOnComplete: bool, acts: seq<Action>, s: State)
    requires Runs(Initial(stopOnComplete), acts, s)
    ensures s.executeTaskCount == |set t | t in s.place && !HasFinished(s.place[t])|
  {
    Reachable(stopOnComplete, acts, s);
    assert (set t | t in s.place && !HasFinished(s.place[t])) == Outstanding(s.place);
  }

  /** active_fiber_count is the number of counted fibers that have not ended; at zero no captures are alive. */
  lemma FiberCountIsExact(stopOnComplete: bool, acts: seq<Action>, s: State)
    requires Runs(Initial(stopOnComplete), acts, s)
    ensures s.activeFiberCount == |Alive(s.place)|
    ensures s.activeFiberCount == 0 <==> forall t :: t in s.place ==> !IsAlive(s.place[t])
  {
    Reachable(stopOnComplete, acts, s);
    if s.activeFiberCount == 0 {
      assert Alive(s.place) == {};
      forall t | t in s.place ensures !IsAlive(s.place[t]) { assert t !in Alive(s.place); }
    }
    assert (forall t :: t in s.place ==> !IsAlive(s.place[t])) ==> Alive(s.place) == {};
  }

  /** run(true) leaves its loop at a look at the counter if and only if every submitted task has finished by then. */
  lemma LoopLeftExactlyWhenDone(stopOnComplete: bool, acts: seq<Action>, s: State)
    requires Runs(Initial(stopOnComplete), acts, s) && s.phase.ReadCount?
    ensures Apply(s, Main).phase.Closing? <==> stopOnComplete && forall t :: t in s.place ==> HasFinished(s.place[t])
    ensures Apply(s, Main).phase.Closing? ==> s.queue == []
    ensures !Apply(s, Main).phase.Closing? ==> Apply(s, Main).phase.ReadStopped?
  {
    Reachable(stopOnComplete, acts, s);
    ModeIsFixed(Initial(stopOnComplete), acts, s);
    assert s.executeTaskCount == 0 <==> Outstanding(s.place) == {};
    forall t | t in s.place ensures t in Outstanding(s.place) <==> !HasFinished(s.place[t]) { }
    QueueHead(s.queue);
    assert forall t :: t in s.queue ==> At(s, t, Waiting) && t in Outstanding(s.place);
  }

  lemma {:induction false} ModeIsFixed(s: State, acts: seq<Action>, s': State)
    requires Runs(s, acts, s')
    ensures s'.stopOnComplete == s.stopOnComplete
    decreases |acts|
  {
    if acts != [] { ModeIsFixed(Apply(s, acts[0]), acts[1..], s'); }
  }

  lemma JoinedStep(s: State, a: Action)
    requires Consistent(s) && Shutdown(s) && AfterJoin(s.phase) && Enabled(s, a)
    ensures AfterJoin(Apply(s, a).phase)
    ensures Alive(Apply(s, a).place) <= Alive(s.place)
    ensures Apply(s, a).activeFiberCount <= s.activeFiberCount
  {
    var s' := Apply(s, a);
    if ByTask(a) {
      assert IsAlive(s'.place[a.t]) ==> At(s, a.t, Running) || At(s, a.t, Finished);
    } else {
      OtherStep(s, a);
    }
  }

  lemma {:induction false} JoinIsFinal(s: State, acts: seq<Action>, s': State)
    requires Inv(s) && AfterJoin(s.phase) && Runs(s, acts, s')
    ensures AfterJoin(s'.phase)
    ensures Alive(s'.place) <= Alive(s.place)
    ensures s'.activeFiberCount <= s.activeFiberCount
    decreases |acts|
  {
    if acts != [] {
      StepKeepsInv(s, acts[0]);
      JoinedStep(s, acts[0]);
      JoinIsFinal(Apply(s, acts[0]), acts[1..], s');
    }
  }

  /** After the dispatcher has been joined no fiber is started: active_fiber_count never rises again. */
  lemma NoFiberAfterJoin(stopOnComplete: bool, before: seq<Action>, joined: State, after: seq<Action>, s: State)
    requires Runs(Initial(stopOnComplete), before, joined) && AfterJoin(joined.phase) && Runs(joined, after, s)
    ensures s.activeFiberCount <= joined.activeFiberCount
    ensures Alive(s.place) <= Alive(joined.place)
  {
    Reachable(stopOnComplete, before, joined);
    JoinIsFinal(joined, after, s);
  }

  /**
   run() returns with no fiber left, every captured object destroyed, or after both the
   graceful and the forced deadline; unless the service was stopped, the channel is empty.
   */
  lemma ReturnIsClean(stopOnComplete: bool, acts: seq<Action>, s: State)
    requires Runs(Initial(stopOnComplete), acts, s) && s.phase.Returned?
    ensures BothOver(s) || forall t :: t in s.place ==> !IsAlive(s.place[t])
    ensures s.stopped || s.queue == []
  {
    Reachable(stopOnComplete, acts, s);
    FiberCountIsExact(stopOnComplete, acts, s);
  }

  /** The waits that run() owes the fibers alive at time t0, when the dispatcher was joined. */
  predicate Waits(s: State, t0: int) {
    && AfterJoin(s.phase) && s.now >= t0
    && (!s.phase.Joined? ==> s.graceDeadline >= t0 + 500)
    && (s.phase.ForceLoad? || s.phase.ForceClock? ==> s.forceDeadline > t0 + 1000)
    && (s.phase.Flushing? || s.phase.Returned? ==> s.activeFiberCount == 0 || s.now > t0 + 1000)
  }

  lemma StepWaits(s: State, a: Action, t0: int)
    requires Consistent(s) && Shutdown(s) && Enabled(s, a) && Waits(s, t0)
    requires Apply(s, a).activeFiberCount >= 0
    ensures Waits(Apply(s, a), t0)
  {
    JoinedStep(s, a);
  }

  lemma {:induction false} RunWaits(s: State, acts: seq<Action>, s': State, t0: int)
    requires Inv(s) && Runs(s, acts, s') && Waits(s, t0)
    ensures Waits(s', t0)
    decreases |acts|
  {
    if acts != [] {
      StepKeepsInv(s, acts[0]);
      StepWaits(s, acts[0], t0);
      RunWaits(Apply(s, acts[0]), acts[1..], s', t0);
    }
  }

  /** run() abandons a live fiber only when more than a second has passed since it joined the dispatcher. */
  lemma FibersGetASecond(stopOnComplete: bool, before: seq<Action>, joined: State, after: seq<Action>, s: State)
    requires Runs(Initial(stopOnComplete), before, joined) && joined.phase.Joined?
    requires Runs(joined, after, s) && s.phase.Returned?
    ensures s.activeFiberCount > 0 ==> s.now > joined.now + 1000
  {
    Reachable(stopOnComplete, before, joined);
    RunWaits(joined, after, s, joined.now);
  }

  /** Without a stop, a task that reached the channel has run to its end by the time of a clean return. */
  lemma PushedTasksEnd(stopOnComplete: bool, acts: seq<Action>, s: State, t: Task)
    requires Runs(Initial(stopOnComplete), acts, s) && s.phase.Returned?
    requires !s.stopped && !BothOver(s) && t in s.place && !s.place[t].Pushing? && !s.place[t].Dropped?
    ensures s.place[t].Gone?
  {
    Reachable(stopOnComplete, acts, s);
    ReturnIsClean(stopOnComplete, acts, s);
    assert t in s.queue <==> At(s, t, Waiting);
    assert At(s, t, InHand) <==> s.dispatcher == Popped(t);
  }
}
