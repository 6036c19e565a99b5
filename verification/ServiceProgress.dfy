/**
 What the service's protocol brings about: run() returns, the dispatcher leaves a closed
 channel and takes what waits in it in order, stop() and completion end the main loop, and
 every task makes its steps in one order.
 */
module ServiceProgress {
  import opened Queues
  import opened ServiceProtocol

  /** The steps of run() in a run. */
  function MainSteps(acts: seq<Action>): nat {
    if acts == [] then 0 else (if acts[0].Main? then 1 else 0) + MainSteps(acts[1..])
  }

  // ---- run() returns ----

  /** The part of the shutdown after the join: 1 waits gracefully, 2 waits after the forced stop, 3 has returned. */
  function Stage(p: Phase): nat {
    match p
    case GraceLoad => 1
    case GraceClock => 1
    case Deciding => 1
    case ForceLoad => 2
    case ForceClock => 2
    case Flushing => 2
    case Returned => 3
    case _ => 0
  }

  /** Steps run() still makes in its stage once the deadline has passed. */
  function StageSteps(p: Phase): nat {
    match p
    case GraceLoad => 3
    case GraceClock => 2
    case Deciding => 1
    case ForceLoad => 3
    case ForceClock => 2
    case Flushing => 1
    case _ => 0
  }

  /** The deadline of the wait that run() is in has passed. */
  predicate Overdue(s: State) {
    && (s.phase.GraceLoad? || s.phase.GraceClock? ==> s.now > s.graceDeadline)
    && (s.phase.ForceLoad? || s.phase.ForceClock? ==> s.now > s.forceDeadline)
  }

  lemma OthersKeepPhase(s: State, a: Action)
    requires Enabled(s, a) && !a.Main?
    ensures var s' := Apply(s, a);
            && s'.phase == s.phase && s'.graceDeadline == s.graceDeadline && s'.forceDeadline == s.forceDeadline
            && s.now <= s'.now
  {
  }

  lemma OverdueMain(s: State)
    requires 1 <= Stage(s.phase) && Overdue(s) && !s.phase.Returned?
    ensures Stage(s.phase) < Stage(MainStep(s).phase)
            || (Overdue(MainStep(s)) && Stage(MainStep(s).phase) == Stage(s.phase)
                && StageSteps(MainStep(s).phase) < StageSteps(s.phase))
  {
  }

  lemma OverdueStep(s: State, a: Action)
    requires Enabled(s, a) && 1 <= Stage(s.phase)
    ensures var s' := Apply(s, a);
            && Stage(s.phase) <= Stage(s'.phase)
            && (Overdue(s) && Stage(s'.phase) == Stage(s.phase) ==>
                  Overdue(s') && StageSteps(s'.phase) + One(a.Main?) <= StageSteps(s.phase))
  {
    if !a.Main? {
      OthersKeepPhase(s, a);
    } else if Overdue(s) {
      OverdueMain(s);
    }
  }

  lemma {:induction false} OverdueRun(s: State, acts: seq<Action>, s': State)
    requires Runs(s, acts, s') && 1 <= Stage(s.phase)
    ensures Stage(s.phase) <= Stage(s'.phase)
    ensures Overdue(s) && Stage(s'.phase) == Stage(s.phase) ==>
              StageSteps(s'.phase) + MainSteps(acts) <= StageSteps(s.phase)
    decreases |acts|
  {
    if acts != [] {
      OverdueStep(s, acts[0]);
      OverdueRun(Apply(s, acts[0]), acts[1..], s');
    }
  }

  /** An overdue wait is left within three steps of run(), whatever the others do. */
  lemma WaitEnds(s: State, acts: seq<Action>, s': State)
    requires Runs(s, acts, s') && 1 <= Stage(s.phase) < 3 && Overdue(s) && MainSteps(acts) >= 3
    ensures Stage(s.phase) < Stage(s'.phase)
  {
    OverdueRun(s, acts, s');
    assert Stage(s'.phase) == Stage(s.phase) ==> 0 < StageSteps(s'.phase);
  }

  /**
   run() returns: three steps of its own past the deadline of the graceful wait and three
   past that of the forced one are enough, whatever the others do.
   */
  lemma RunReturns(s: State, grace: seq<Action>, s1: State, force: seq<Action>, s2: State)
    requires 1 <= Stage(s.phase) && Overdue(s) && Runs(s, grace, s1) && MainSteps(grace) >= 3
    requires Overdue(s1) && Runs(s1, force, s2) && MainSteps(force) >= 3
    ensures s2.phase.Returned?
  {
    if Stage(s.phase) < 3 { WaitEnds(s, grace, s1); } else { OverdueRun(s, grace, s1); }
    if Stage(s1.phase) < 3 { WaitEnds(s1, force, s2); } else { OverdueRun(s1, force, s2); }
  }

  /** It always has a step to make, and the graceful wait lasts 500 ms from its start. */
  lemma RunNeverStuck(s: State)
    requires AfterJoin(s.phase) && !s.phase.Returned?
    ensures Enabled(s, Main)
    ensures s.phase.Joined? ==> Stage(Apply(s, Main).phase) == 1 && Apply(s, Main).graceDeadline == s.now + 500
  {
  }

  /** How far run() is from returning. */
  function Distance(p: Phase): nat {
    match p
    case Joined => 7
    case GraceLoad => 6
    case GraceClock => 5
    case Deciding => 4
    case ForceLoad => 3
    case ForceClock => 2
    case Flushing => 1
    case _ => 0
  }

  lemma OverdueNearer(s: State)
    requires AfterJoin(s.phase) && !s.phase.Returned? && Overdue(s)
    ensures Enabled(s, Main) && AfterJoin(MainStep(s).phase) && Distance(MainStep(s).phase) < Distance(s.phase)
  {
  }

  /** From every state after the join, time and run()'s own steps alone lead to its return. */
  lemma {:induction false} CanReturn(s: State) returns (acts: seq<Action>, s': State)
    requires AfterJoin(s.phase)
    ensures Runs(s, acts, s') && s'.phase.Returned?
    ensures forall i :: 0 <= i < |acts| ==> acts[i].Main? || acts[i].Tick?
    decreases Distance(s.phase), if Overdue(s) then 0 else 1
  {
    if s.phase.Returned? {
      acts, s' := [], s;
    } else {
      var late := if s.graceDeadline < s.forceDeadline then s.forceDeadline else s.graceDeadline;
      var a := if Overdue(s) then Main else Tick(if late < s.now then 0 else late - s.now + 1);
      if Overdue(s) { OverdueNearer(s); }
      var rest;
      rest, s' := CanReturn(Apply(s, a));
      acts := [a] + rest;
      assert acts[1..] == rest;
    }
  }

  /** A run passes through a flush: run() is there and makes its step. */
  predicate Flushes(s: State, acts: seq<Action>)
    decreases |acts|
  {
    && acts != [] && Enabled(s, acts[0])
    && ((s.phase.Flushing? && acts[0].Main?) || Flushes(Apply(s, acts[0]), acts[1..]))
  }

  /** run() never returns without its final flush. */
  lemma {:induction false} FlushBeforeReturn(s: State, acts: seq<Action>, s': State)
    requires Runs(s, acts, s') && !s.phase.Returned? && s'.phase.Returned?
    ensures Flushes(s, acts)
    decreases |acts|
  {
    var a := acts[0];
    if !a.Main? { OthersKeepPhase(s, a); }
    if !(s.phase.Flushing? && a.Main?) { FlushBeforeReturn(Apply(s, a), acts[1..], s'); }
  }

  lemma JoinStep(s: State, a: Action)
    requires Enabled(s, a) && s.dispatcher.Exited? && (s.phase.Closing? || s.phase.Draining?)
    ensures var s' := Apply(s, a);
            && s'.dispatcher.Exited?
            && (if !a.Main? then s'.phase == s.phase
                else if s.phase.Closing? then s'.phase.Draining? else s'.phase.Joined?)
  {
    if !a.Main? { OthersKeepPhase(s, a); }
  }

  /** Out of its loop and with the dispatcher gone, run() has joined it within two steps, whatever the others do. */
  lemma {:induction false} JoinHappens(s: State, acts: seq<Action>, s': State)
    requires Inv(s) && s.dispatcher.Exited? && (s.phase.Closing? || s.phase.Draining?)
    requires Runs(s, acts, s') && MainSteps(acts) >= if s.phase.Closing? then 2 else 1
    ensures AfterJoin(s'.phase)
    decreases |acts|
  {
    var a := acts[0];
    JoinStep(s, a);
    StepKeepsInv(s, a);
    if a.Main? && s.phase.Draining? {
      JoinIsFinal(Apply(s, a), acts[1..], s');
    } else {
      JoinHappens(Apply(s, a), acts[1..], s');
    }
  }

  // ---- The dispatcher leaves a closed channel ----

  /** Steps the dispatcher still has to make once the channel is closed. */
  function StepsLeft(s: State): nat {
    4 * |s.queue| +
    match s.dispatcher case AtTop => 2 case Popping => 1 case Popped(_) => 4 case Counted(_) => 3 case Exited => 0
  }

  predicate IsDispatcherAction(a: Action) { a.DispatcherTop? || ByDispatcher(a) }

  function DispatcherSteps(acts: seq<Action>): nat {
    if acts == [] then 0 else (if IsDispatcherAction(acts[0]) then 1 else 0) + DispatcherSteps(acts[1..])
  }

  /** Its own steps use up what is left; refused pushes and everyone else's steps add nothing. */
  lemma ClosedStep(s: State, a: Action)
    requires s.closed && Enabled(s, a)
    ensures Apply(s, a).closed
    ensures s.dispatcher.Exited? ==> Apply(s, a).dispatcher.Exited?
    ensures !s.dispatcher.Exited? ==>
              Apply(s, a).dispatcher.Exited? || StepsLeft(Apply(s, a)) + One(IsDispatcherAction(a)) <= StepsLeft(s)
  {
  }

  lemma {:induction false} ClosedRun(s: State, acts: seq<Action>, s': State)
    requires s.closed && Runs(s, acts, s')
    ensures s'.dispatcher.Exited? || StepsLeft(s') + DispatcherSteps(acts) <= StepsLeft(s)
    ensures s'.closed && (s.dispatcher.Exited? ==> s'.dispatcher.Exited?)
    decreases |acts|
  {
    if acts != [] {
      ClosedStep(s, acts[0]);
      ClosedRun(Apply(s, acts[0]), acts[1..], s');
    }
  }

  /**
   The join in run() ends: once the channel is closed the dispatcher has exited after at
   most 4 * |queue| + 4 of its own steps, whatever the others do, and until then it always
   has a step to make.
   */
  lemma DispatcherExits(s: State, acts: seq<Action>, s': State)
    requires s.closed && Runs(s, acts, s')
    ensures DispatcherSteps(acts) >= 4 * |s.queue| + 4 ==> s'.dispatcher.Exited?
    ensures !s'.dispatcher.Exited? ==> exists a :: IsDispatcherAction(a) && Enabled(s', a)
  {
    ClosedRun(s, acts, s');
    var a := match s'.dispatcher
      case AtTop => DispatcherTop
      case Popped(_) => CountFiber
      case Counted(_) => Spawn
      case _ => Pop;
    assert !s'.dispatcher.Exited? ==> IsDispatcherAction(a) && Enabled(s', a);
  }

  // ---- The channel ----

  /** The task a step puts into the channel, and the one it takes out. */
  function PushedBy(s: State, a: Action): seq<Task> { if a.Push? && !s.closed then [a.t] else [] }

  function PoppedBy(s: State, a: Action): seq<Task> { if a.Pop? && s.queue != [] then [s.queue[0]] else [] }

  function PushedOver(s: State, acts: seq<Action>): seq<Task>
    decreases |acts|
  {
    if acts == [] || !Enabled(s, acts[0]) then []
    else PushedBy(s, acts[0]) + PushedOver(Apply(s, acts[0]), acts[1..])
  }

  function PoppedOver(s: State, acts: seq<Action>): seq<Task>
    decreases |acts|
  {
    if acts == [] || !Enabled(s, acts[0]) then []
    else PoppedBy(s, acts[0]) + PoppedOver(Apply(s, acts[0]), acts[1..])
  }

  lemma ChannelStep(s: State, a: Action)
    requires Enabled(s, a)
    ensures s.queue + PushedBy(s, a) == PoppedBy(s, a) + Apply(s, a).queue
  {
    if a.Main? { MainMovesNothing(s); }
    assert s.queue == [] || s.queue == [s.queue[0]] + s.queue[1..];
  }

  /** In every run the dispatcher takes the tasks in the order of their pushes and leaves out none. */
  lemma {:induction false} ChannelIsFifo(s: State, acts: seq<Action>, s': State)
    requires Runs(s, acts, s')
    ensures s.queue + PushedOver(s, acts) == PoppedOver(s, acts) + s'.queue
    decreases |acts|
  {
    if acts != [] {
      var next, rest := Apply(s, acts[0]), acts[1..];
      ChannelStep(s, acts[0]);
      ChannelIsFifo(next, rest, s');
      BalanceAdds(s.queue, PushedBy(s, acts[0]), PoppedBy(s, acts[0]), next.queue,
                  PushedOver(next, rest), PoppedOver(next, rest), s'.queue);
    }
  }

  // ---- Stopping ----

  predicate WasTaken(p: Place) { !p.Pushing? && !p.Waiting? && !p.Dropped? }

  /** Tasks that have left the channel. */
  function Taken(m: map<Task, Place>): set<Task> { set t | t in m && WasTaken(m[t]) }

  lemma TakenMoved(m: map<Task, Place>, t: Task, p: Place)
    ensures |Taken(m[t := p])| == |Taken(m)| - One(t in Taken(m)) + One(WasTaken(p))
  {
    var was, later := Taken(m), Taken(m[t := p]);
    if WasTaken(p) {
      assert later == was + {t};
    } else {
      assert later == was - {t};
    }
  }

  /** A stopped dispatcher takes a task only if it was already waiting for one. */
  lemma StoppedStep(s: State, a: Action)
    requires Consistent(s) && s.stopped && Enabled(s, a)
    ensures Apply(s, a).stopped
    ensures var s' := Apply(s, a);
            |Taken(s'.place)| + One(s'.dispatcher.Popping?) <= |Taken(s.place)| + One(s.dispatcher.Popping?)
  {
    if ByTask(a) {
      TakenMoved(s.place, a.t, Apply(s, a).place[a.t]);
    } else if ByDispatcher(a) && (a.Pop? ==> s.queue != []) {
      var m := Moved(s, a);
      assert At(s, m, InHand) <==> s.dispatcher == Popped(m);
      assert At(s, m, FiberCounted) <==> s.dispatcher == Counted(m);
      TakenMoved(s.place, m, Apply(s, a).place[m]);
    } else {
      OtherStep(s, a);
    }
  }

  lemma {:induction false} StoppedRun(s: State, acts: seq<Action>, s': State)
    requires Inv(s) && s.stopped && Runs(s, acts, s')
    ensures |Taken(s'.place)| + One(s'.dispatcher.Popping?) <= |Taken(s.place)| + One(s.dispatcher.Popping?)
    decreases |acts|
  {
    if acts != [] {
      StepKeepsInv(s, acts[0]);
      StoppedStep(s, acts[0]);
      StoppedRun(Apply(s, acts[0]), acts[1..], s');
    }
  }

  /** However many tasks wait in the channel, at most one more is started once a stop() task has set the flag. */
  lemma StopEndsDispatch(stopOnComplete: bool, before: seq<Action>, was: State, stop: Task, after: seq<Action>,
                         s: State)
    requires Runs(Initial(stopOnComplete), before, was) && Enabled(was, RaiseStop(stop))
    requires Runs(Apply(was, RaiseStop(stop)), after, s)
    ensures |Taken(s.place)| <= |Taken(was.place)| + One(was.dispatcher.Popping?)
  {
    Reachable(stopOnComplete, before, was);
    StepKeepsInv(was, RaiseStop(stop));
    StoppedRun(Apply(was, RaiseStop(stop)), after, s);
  }

  /** How many steps of its own run() may still spend in its loop once the flag is set. */
  function LoopSteps(p: Phase): nat { match p case ReadCount => 2 case ReadStopped => 1 case _ => 0 }

  lemma StoppedLoopStep(s: State, a: Action)
    requires s.stopped && Enabled(s, a)
    ensures var s' := Apply(s, a);
            s'.stopped && (LoopSteps(s'.phase) == 0 || LoopSteps(s'.phase) + One(a.Main?) <= LoopSteps(s.phase))
    ensures LoopSteps(s.phase) == 0 ==> LoopSteps(Apply(s, a).phase) == 0
  {
  }

  lemma {:induction false} StoppedLoopEnds(s: State, acts: seq<Action>, s': State)
    requires s.stopped && Runs(s, acts, s')
    ensures LoopSteps(s'.phase) == 0 || LoopSteps(s'.phase) + MainSteps(acts) <= LoopSteps(s.phase)
    decreases |acts|
  {
    if acts != [] {
      StoppedLoopStep(s, acts[0]);
      StoppedLoopEnds(Apply(s, acts[0]), acts[1..], s');
    }
  }

  /** Once a stop() task has set the flag, run() leaves its loop within two steps, whatever the others do. */
  lemma StopEndsLoop(was: State, stop: Task, after: seq<Action>, s: State)
    requires Enabled(was, RaiseStop(stop)) && Runs(Apply(was, RaiseStop(stop)), after, s) && MainSteps(after) >= 2
    ensures !s.phase.ReadStopped? && !s.phase.ReadCount?
  {
    StoppedLoopEnds(Apply(was, RaiseStop(stop)), after, s);
  }

  predicate HasStarted(s: State, t: Task) {
    t in s.place && (s.place[t].Running? || HasFinished(s.place[t]))
  }

  /** Why the flag is set and why the main loop was left. */
  ghost predicate HasReason(s: State) {
    && (s.stopped ==> exists t :: t in s.stops && HasStarted(s, t))
    && (s.closed || s.phase.Closing? ==> s.stopped || s.stopOnComplete)
    && (s.closed <==> !BeforeClose(s.phase))
  }

  lemma StartedStays(s: State, a: Action, t: Task)
    requires Consistent(s) && Enabled(s, a) && HasStarted(s, t)
    ensures HasStarted(Apply(s, a), t)
  {
    if ByDispatcher(a) && (a.Pop? ==> s.queue != []) {
      var m := Moved(s, a);
      assert m in s.queue <==> At(s, m, Waiting);
      assert At(s, m, InHand) <==> s.dispatcher == Popped(m);
      assert At(s, m, FiberCounted) <==> s.dispatcher == Counted(m);
    } else if !ByTask(a) {
      OtherStep(s, a);
    }
  }

  lemma StepKeepsReason(s: State, a: Action)
    requires Consistent(s) && HasReason(s) && Enabled(s, a)
    ensures HasReason(Apply(s, a))
  {
    var s' := Apply(s, a);
    if s.stopped {
      var t :| t in s.stops && HasStarted(s, t);
      StartedStays(s, a, t);
      assert t in s'.stops;
    } else if a.RaiseStop? {
      assert a.t in s'.stops && HasStarted(s', a.t);
    }
  }

  lemma {:induction false} RunKeepsReason(s: State, acts: seq<Action>, s': State)
    requires Inv(s) && HasReason(s) && Runs(s, acts, s')
    ensures HasReason(s')
    decreases |acts|
  {
    if acts != [] {
      StepKeepsInv(s, acts[0]);
      StepKeepsReason(s, acts[0]);
      RunKeepsReason(Apply(s, acts[0]), acts[1..], s');
    }
  }

  /** run(false) leaves its loop only after a task submitted by stop() has run. */
  lemma OnlyStopEndsRun(acts: seq<Action>, s: State)
    requires Runs(Initial(false), acts, s) && !s.phase.ReadStopped? && !s.phase.ReadCount?
    ensures s.stopped && exists t :: t in s.stops && HasStarted(s, t)
  {
    InitialInv(false);
    RunKeepsReason(Initial(false), acts, s);
    ModeIsFixed(Initial(false), acts, s);
  }

  lemma {:induction false} StopRun(s: State, acts: seq<Action>, s': State, t: Task)
    requires Consistent(s) && Counts(s) && Runs(s, acts, s')
    requires t in s.stops && t in s.place && HasFinished(s.place[t]) ==> s.stopped
    requires t in s.stops ==> t in s.place
    ensures t in s'.stops && t in s'.place && HasFinished(s'.place[t]) ==> s'.stopped
    decreases |acts|
  {
    if acts != [] {
      StepPlaces(s, acts[0]);
      FinishNeedsFlag(s, acts[0], t);
      StopRun(Apply(s, acts[0]), acts[1..], s', t);
    }
  }

  /** And it takes effect: once a task submitted by stop() has finished, the flag is set. */
  lemma StopTakesEffect(stopOnComplete: bool, acts: seq<Action>, s: State, t: Task)
    requires Runs(Initial(stopOnComplete), acts, s) && t in s.stops && t in s.place && HasFinished(s.place[t])
    ensures s.stopped
  {
    InitialInv(stopOnComplete);
    StopRun(Initial(stopOnComplete), acts, s, t);
  }

  lemma FinishNeedsFlag(s: State, a: Action, t: Task)
    requires Consistent(s) && Enabled(s, a)
    requires t in s.stops && t in s.place && HasFinished(s.place[t]) ==> s.stopped
    requires t in s.stops ==> t in s.place
    ensures var s' := Apply(s, a); t in s'.stops && t in s'.place && HasFinished(s'.place[t]) ==> s'.stopped
    ensures var s' := Apply(s, a); t in s'.stops ==> t in s'.place
  {
    if ByDispatcher(a) && (a.Pop? ==> s.queue != []) {
      var m := Moved(s, a);
      assert m in s.queue <==> At(s, m, Waiting);
      assert At(s, m, InHand) <==> s.dispatcher == Popped(m);
      assert At(s, m, FiberCounted) <==> s.dispatcher == Counted(m);
    } else if !ByTask(a) {
      OtherStep(s, a);
    }
  }

  // ---- Completion ----

  /** How many steps of its own run(true) may still spend in its loop once all tasks have finished. */
  function IdleSteps(p: Phase): nat { match p case ReadStopped => 2 case ReadCount => 1 case _ => 0 }

  lemma IdleStep(s: State, a: Action)
    requires Inv(s) && s.stopOnComplete && s.executeTaskCount == 0 && Enabled(s, a) && !a.Submit?
    ensures var s' := Apply(s, a);
            && s'.stopOnComplete && s'.executeTaskCount == 0
            && IdleSteps(s'.phase) <= IdleSteps(s.phase)
            && (a.Main? && 0 < IdleSteps(s.phase) ==> IdleSteps(s'.phase) < IdleSteps(s.phase))
  {
    assert Outstanding(s.place) == {};
    assert forall t :: At(s, t, Running) ==> t in Outstanding(s.place);
  }

  lemma {:induction false} IdleRun(s: State, acts: seq<Action>, s': State)
    requires Inv(s) && s.stopOnComplete && s.executeTaskCount == 0 && Runs(s, acts, s')
    requires forall i :: 0 <= i < |acts| ==> !acts[i].Submit?
    ensures IdleSteps(s'.phase) == 0 || IdleSteps(s'.phase) + MainSteps(acts) <= IdleSteps(s.phase)
    ensures IdleSteps(s'.phase) <= IdleSteps(s.phase)
    decreases |acts|
  {
    if acts != [] {
      assert !acts[0].Submit?;
      IdleStep(s, acts[0]);
      StepKeepsInv(s, acts[0]);
      IdleRun(Apply(s, acts[0]), acts[1..], s');
    }
  }

  /**
   run(true) ends on completion: once every submitted task has finished and none is
   submitted any more, it leaves its loop within two steps, whatever the others do.
   */
  lemma CompletionEndsLoop(before: seq<Action>, s: State, acts: seq<Action>, s': State)
    requires Runs(Initial(true), before, s) && (forall t :: t in s.place ==> HasFinished(s.place[t]))
    requires Runs(s, acts, s') && (forall i :: 0 <= i < |acts| ==> !acts[i].Submit?) && MainSteps(acts) >= 2
    ensures !s'.phase.ReadStopped? && !s'.phase.ReadCount?
  {
    Reachable(true, before, s);
    ModeIsFixed(Initial(true), before, s);
    assert Outstanding(s.place) == {};
    IdleRun(s, acts, s');
  }

  /** How many steps of its own run() still makes after the join when no fiber is left, whatever the clock says. */
  function CleanSteps(p: Phase): nat {
    match p
    case Joined => 4
    case GraceClock => 4
    case GraceLoad => 3
    case ForceClock => 3
    case Deciding => 2
    case ForceLoad => 2
    case Flushing => 1
    case _ => 0
  }

  lemma CleanMain(s: State)
    requires AfterJoin(s.phase) && s.activeFiberCount == 0 && !s.phase.Returned?
    ensures CleanSteps(MainStep(s).phase) < CleanSteps(s.phase)
  {
  }

  lemma {:induction false} CleanRun(s: State, acts: seq<Action>, s': State)
    requires Inv(s) && AfterJoin(s.phase) && s.activeFiberCount == 0 && Runs(s, acts, s')
    ensures AfterJoin(s'.phase) && (s'.phase.Returned? || CleanSteps(s'.phase) + MainSteps(acts) <= CleanSteps(s.phase))
    decreases |acts|
  {
    if acts != [] {
      var a, next := acts[0], Apply(s, acts[0]);
      StepKeepsInv(s, a);
      JoinedStep(s, a);
      if a.Main? { CleanMain(s); } else { OthersKeepPhase(s, a); }
      CleanRun(next, acts[1..], s');
    }
  }

  /** With no fiber left after the join, run() returns within four steps: it does not wait for a deadline. */
  lemma PromptReturn(stopOnComplete: bool, before: seq<Action>, s: State, acts: seq<Action>, s': State)
    requires Runs(Initial(stopOnComplete), before, s) && AfterJoin(s.phase) && s.activeFiberCount == 0
    requires Runs(s, acts, s') && MainSteps(acts) >= 4
    ensures s'.phase.Returned?
  {
    Reachable(stopOnComplete, before, s);
    CleanRun(s, acts, s');
    assert AfterJoin(s'.phase) && !s'.phase.Returned? ==> 0 < CleanSteps(s'.phase);
  }

  // ---- Waiting tasks are taken ----

  /** Steps the dispatcher makes at most before it takes the task at this place of the channel. */
  function StepsBefore(d: Dispatcher, i: nat): nat {
    4 * i + match d case AtTop => 2 case Popping => 1 case Popped(_) => 4 case Counted(_) => 3 case Exited => 0
  }

  predicate InChannel(s: State, t: Task, i: nat) { i < |s.queue| && s.queue[i] == t }

  lemma WaitingStep(s: State, a: Action, t: Task, i: nat) returns (j: nat)
    requires Consistent(s) && Enabled(s, a) && InChannel(s, t, i)
    requires !s.dispatcher.Exited?
    ensures var s' := Apply(s, a);
            || s'.dispatcher == Popped(t)
            || (s.stopped && s'.dispatcher.Exited?)
            || (&& InChannel(s', t, j) && !s'.dispatcher.Exited?
                && StepsBefore(s'.dispatcher, j) + One(IsDispatcherAction(a)) <= StepsBefore(s.dispatcher, i))
  {
    if a.Main? { MainMovesNothing(s); }
    j := if a.Pop? && i > 0 then i - 1 else i;
  }

  predicate Reached(s: State, t: Task) { t in s.place && WasTaken(s.place[t]) }

  lemma TakenStays(s: State, a: Action, t: Task)
    requires Consistent(s) && Enabled(s, a) && Reached(s, t)
    ensures Reached(Apply(s, a), t)
  {
    if ByDispatcher(a) && (a.Pop? ==> s.queue != []) {
    } else if !ByTask(a) {
      OtherStep(s, a);
    }
  }

  lemma {:induction false} ReachedStays(s: State, acts: seq<Action>, s': State, t: Task)
    requires Inv(s) && Runs(s, acts, s') && Reached(s, t)
    ensures Reached(s', t)
    decreases |acts|
  {
    if acts != [] {
      TakenStays(s, acts[0], t);
      StepKeepsInv(s, acts[0]);
      ReachedStays(Apply(s, acts[0]), acts[1..], s', t);
    }
  }

  lemma {:induction false} StoppedStays(s: State, acts: seq<Action>, s': State)
    requires Runs(s, acts, s') && s.stopped
    ensures s'.stopped
    decreases |acts|
  {
    if acts != [] { StoppedStays(Apply(s, acts[0]), acts[1..], s'); }
  }

  lemma {:induction false} WaitingRun(s: State, acts: seq<Action>, s': State, t: Task, i: nat)
    requires Inv(s) && Runs(s, acts, s') && InChannel(s, t, i) && !s.dispatcher.Exited?
    ensures s'.stopped || Reached(s', t) || DispatcherSteps(acts) < StepsBefore(s.dispatcher, i)
    decreases |acts|
  {
    if acts != [] {
      var a, next := acts[0], Apply(s, acts[0]);
      StepKeepsInv(s, a);
      var j := WaitingStep(s, a, t, i);
      if next.dispatcher == Popped(t) {
        assert At(next, t, InHand);
        ReachedStays(next, acts[1..], s', t);
      } else if s.stopped && next.dispatcher.Exited? {
        StoppedStays(s, acts, s');
      } else {
        WaitingRun(next, acts[1..], s', t, j);
      }
    }
  }

  /**
   A task at place i of the channel is taken within 4 * i + 4 of the dispatcher's own steps,
   whatever the others do, unless the service is stopped; and with a task waiting the
   dispatcher always has a step to make.
   */
  lemma WaitingTaskIsTaken(stopOnComplete: bool, before: seq<Action>, s: State, acts: seq<Action>, s': State,
                           t: Task, i: nat)
    requires Runs(Initial(stopOnComplete), before, s) && InChannel(s, t, i) && Runs(s, acts, s')
    ensures DispatcherSteps(acts) >= 4 * i + 4 ==> s'.stopped || Reached(s', t)
    ensures s.stopped || exists a :: IsDispatcherAction(a) && Enabled(s, a)
  {
    Reachable(stopOnComplete, before, s);
    if s.stopped {
      StoppedStays(s, acts, s');
    } else {
      WaitingRun(s, acts, s', t, i);
      var a := match s.dispatcher
        case AtTop => DispatcherTop
        case Popped(_) => CountFiber
        case Counted(_) => Spawn
        case _ => Pop;
      assert IsDispatcherAction(a) && Enabled(s, a);
    }
  }

  // ---- The order of a task's own steps ----

  /** The steps a task has made when it is at this place; a refused push is a push. */
  function Script(s: State, t: Task): seq<Action> {
    if t !in s.place then []
    else
      var pushed := [Submit(t, t in s.stops), Push(t)];
      match s.place[t]
      case Pushing => [Submit(t, t in s.stops)]
      case Finished => pushed + [Finish(t)]
      case Cleared => pushed + [Finish(t), Clear(t)]
      case Gone => pushed + [Finish(t), Clear(t), End(t)]
      case _ => pushed
  }

  /** The steps of t in a run; setting the flag is not listed. */
  function OwnSteps(acts: seq<Action>, t: Task): seq<Action> {
    if acts == [] then [] else OwnStep(acts[0], t) + OwnSteps(acts[1..], t)
  }

  lemma ScriptTaskStep(s: State, a: Action, t: Task)
    requires Enabled(s, a) && ByTask(a) && (t in s.stops ==> t in s.place)
    ensures Script(Apply(s, a), t) == Script(s, t) + if a.t == t then [a] else []
    ensures t in Apply(s, a).stops ==> t in Apply(s, a).place
  {
  }

  lemma ScriptDispatcherStep(s: State, a: Action, t: Task)
    requires Consistent(s) && Enabled(s, a) && ByDispatcher(a) && (a.Pop? ==> s.queue != [])
    requires t in s.stops ==> t in s.place
    ensures Script(Apply(s, a), t) == Script(s, t)
    ensures t in Apply(s, a).stops ==> t in Apply(s, a).place
  {
    var m := Moved(s, a);
    assert m in s.queue <==> At(s, m, Waiting);
    assert At(s, m, InHand) <==> s.dispatcher == Popped(m);
    assert At(s, m, FiberCounted) <==> s.dispatcher == Counted(m);
  }

  lemma ScriptOtherStep(s: State, a: Action, t: Task)
    requires Enabled(s, a) && !ByTask(a) && (ByDispatcher(a) ==> a.Pop? && s.queue == [])
    ensures Apply(s, a).place == s.place && Apply(s, a).stops == s.stops
  {
    if a.Main? { MainMovesNothing(s); }
  }

  function OwnStep(a: Action, t: Task): seq<Action> { if ByTask(a) && a.t == t then [a] else [] }

  lemma ScriptStep(s: State, a: Action, t: Task)
    requires Consistent(s) && Enabled(s, a) && (t in s.stops ==> t in s.place)
    ensures Script(Apply(s, a), t) == Script(s, t) + OwnStep(a, t)
    ensures t in Apply(s, a).stops ==> t in Apply(s, a).place
  {
    if ByTask(a) {
      ScriptTaskStep(s, a, t);
    } else if ByDispatcher(a) && (a.Pop? ==> s.queue != []) {
      ScriptDispatcherStep(s, a, t);
    } else {
      ScriptOtherStep(s, a, t);
    }
  }

  lemma {:induction false} ScriptRun(s: State, acts: seq<Action>, s': State, t: Task)
    requires Inv(s) && Runs(s, acts, s') && (t in s.stops ==> t in s.place)
    ensures Script(s', t) == Script(s, t) + OwnSteps(acts, t)
    decreases |acts|
  {
    if acts != [] {
      var a, next := acts[0], Apply(s, acts[0]);
      ScriptStep(s, a, t);
      StepKeepsInv(s, a);
      ScriptRun(next, acts[1..], s', t);
      AppendTwice(Script(s, t), OwnStep(a, t), OwnSteps(acts[1..], t));
    }
  }

  /**
   In every interleaving a task is submitted, pushed, finishes, destroys its captures and
   only then ends, each once and in this order.
   */
  lemma TaskOrder(stopOnComplete: bool, acts: seq<Action>, s: State, t: Task)
    requires Runs(Initial(stopOnComplete), acts, s)
    ensures OwnSteps(acts, t) == Script(s, t)
  {
    InitialInv(stopOnComplete);
    ScriptRun(Initial(stopOnComplete), acts, s, t);
  }
}
