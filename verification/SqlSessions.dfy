/**
 What a client of the SQL pool goes through, step by step, and what the health check does
 with each connection it takes.
 */
module SqlSessions {
  import opened Options
  import opened Queues
  import opened SqlPool

  // ---- What a client goes through ----

  /** One look at an empty pool, and the sleep after it. */
  function Tries(k: Client, n: nat): seq<Action> {
    if n == 0 then [] else Tries(k, n - 1) + [Lock(k), Look(k), Wake(k)]
  }

  /** The client's steps since its last try. */
  function SinceTry(pc: ClientPc, k: Client): seq<Action> {
    match pc
    case WantLock => []
    case Looking => [Lock(k)]
    case Sleeping => [Lock(k), Look(k)]
    case Taken(_) => [Lock(k), Look(k)]
    case Using(_) => [Lock(k), Look(k), Leave(k)]
    case WantReturn(_) => [Lock(k), Look(k), Leave(k), Close(k)]
    case Returning(_) => [Lock(k), Look(k), Leave(k), Close(k), LockReturn(k)]
    case Pushed => [Lock(k), Look(k), Leave(k), Close(k), LockReturn(k), PushBack(k)]
    case Done => [Lock(k), Look(k), Leave(k), Close(k), LockReturn(k), PushBack(k), Unlock(k)]
  }

  function OwnStep(a: Action, k: Client): seq<Action> { if IsClientAction(a) && a.k == k then [a] else [] }

  function OwnSteps(acts: seq<Action>, k: Client): seq<Action> {
    if acts == [] then [] else OwnStep(acts[0], k) + OwnSteps(acts[1..], k)
  }

  /** The client's steps so far: it arrived, tried n times in vain, and is on its way from there. */
  predicate Follows(s: State, k: Client, own: seq<Action>, n: nat) {
    if k !in s.clients then own == [] else own == [Arrive(k)] + Tries(k, n) + SinceTry(s.clients[k], k)
  }

  lemma OthersKeepClient(s: State, a: Action, k: Client)
    requires Enabled(s, a) && OwnStep(a, k) == []
    ensures k in Apply(s, a).clients <==> k in s.clients
    ensures k in s.clients ==> Apply(s, a).clients[k] == s.clients[k]
  {
  }

  /** Its next step, and where that leads; a look may find the pool empty or not. */
  lemma ClientGoesOn(s: State, a: Action, k: Client)
    requires Enabled(s, a) && OwnStep(a, k) == [a] && k in s.clients
    ensures var pc, pc' := s.clients[k], Apply(s, a).clients[k];
            if a.Wake? then pc.Sleeping? && pc'.WantLock? else SinceTry(pc', k) == SinceTry(pc, k) + [a]
  {
  }

  lemma FollowsStep(s: State, a: Action, k: Client, own: seq<Action>, n: nat) returns (n': nat)
    requires Enabled(s, a) && Follows(s, k, own, n)
    ensures Follows(Apply(s, a), k, own + OwnStep(a, k), n')
  {
    n' := n;
    if OwnStep(a, k) == [] {
      OthersKeepClient(s, a, k);
      assert own + [] == own;
    } else if k !in s.clients {
      n' := 0;
      assert own + [a] == [Arrive(k)] + Tries(k, 0) + [];
    } else {
      ClientGoesOn(s, a, k);
      var pc := s.clients[k];
      if a.Wake? {
        n' := n + 1;
        assert SinceTry(pc, k) + [a] == [Lock(k), Look(k), Wake(k)];
        assert own + [a] == [Arrive(k)] + Tries(k, n + 1) + [];
      } else {
        AppendTwice([Arrive(k)] + Tries(k, n), SinceTry(pc, k), [a]);
      }
    }
  }

  lemma {:induction false} FollowsRun(s: State, acts: seq<Action>, s': State, k: Client, own: seq<Action>, n: nat)
    returns (n': nat)
    requires Runs(s, acts, s') && Follows(s, k, own, n)
    ensures Follows(s', k, own + OwnSteps(acts, k), n')
    decreases |acts|
  {
    if acts == [] {
      n' := n;
      assert own + [] == own;
    } else {
      n' := FollowsStep(s, acts[0], k, own, n);
      AppendTwice(own, OwnStep(acts[0], k), OwnSteps(acts[1..], k));
      n' := FollowsRun(Apply(s, acts[0]), acts[1..], s', k, own + OwnStep(acts[0], k), n');
    }
  }

  /**
   In every interleaving a client looks until the pool is not empty, takes a connection,
   uses it and gives it back, in this order; it is done only after all of that.
   */
  lemma ClientOrder(n: nat, acts: seq<Action>, s: State, k: Client) returns (tries: nat)
    requires Runs(Initial(n), acts, s)
    ensures k in s.clients ==> OwnSteps(acts, k) == [Arrive(k)] + Tries(k, tries) + SinceTry(s.clients[k], k)
  {
    tries := FollowsRun(Initial(n), acts, s, k, [], 0);
    assert [] + OwnSteps(acts, k) == OwnSteps(acts, k);
  }

  /** With the mutex free and a connection in the pool, three steps of its own give a client the longest waiting one. */
  lemma ClientGetsConnection(s: State, k: Client)
    requires k in s.clients && s.clients[k].WantLock? && s.mutex.None? && s.pool != []
    ensures Enabled(s, Lock(k))
    ensures var s1 := Apply(s, Lock(k));
            && Enabled(s1, Look(k))
            && var s2 := Apply(s1, Look(k));
               && Enabled(s2, Leave(k))
               && var s3 := Apply(s2, Leave(k));
                  s3.clients[k] == Using(s.pool[0]) && s3.pool == s.pool[1..] && s3.mutex.None?
  {
  }

  /** And with the mutex free, three steps give the connection back to the end of the list. */
  lemma ClientReturnsConnection(s: State, k: Client)
    requires k in s.clients && s.clients[k].WantReturn? && s.mutex.None?
    ensures Enabled(s, LockReturn(k))
    ensures var s1 := Apply(s, LockReturn(k));
            && Enabled(s1, PushBack(k))
            && var s2 := Apply(s1, PushBack(k));
               && Enabled(s2, Unlock(k))
               && var s3 := Apply(s2, Unlock(k));
                  s3.clients[k].Done? && s3.pool == s.pool + [s.clients[k].c] && s3.mutex.None?
  {
  }

  /** A client that is not done waits for nothing but the mutex. */
  lemma ClientNeverStuck(s: State, k: Client)
    requires k in s.clients && !s.clients[k].Done?
    ensures (exists a :: OwnStep(a, k) == [a] && Enabled(s, a)) ||
            ((s.clients[k].WantLock? || s.clients[k].WantReturn?) && s.mutex.Some?)
  {
    var a := match s.clients[k]
      case WantLock => Lock(k)
      case Looking => Look(k)
      case Sleeping => Wake(k)
      case Taken(_) => Leave(k)
      case Using(_) => Close(k)
      case WantReturn(_) => LockReturn(k)
      case Returning(_) => PushBack(k)
      case _ => Unlock(k);
    assert OwnStep(a, k) == [a];
  }

  // ---- What the checker does with a connection ----

  /** With the mutex free, three steps of its own start a pass and take the whole list. */
  lemma PassTakesAll(s: State)
    requires s.checker.Idle? && s.mutex.None?
    ensures Enabled(s, StartPass)
    ensures var s1 := Apply(s, StartPass);
            && Enabled(s1, LockPass)
            && var s2 := Apply(s1, LockPass);
               && Enabled(s2, TakeAll)
               && var s3 := Apply(s2, TakeAll);
                  s3.checker.Sweeping? && s3.sweep == s.pool && s3.pool == [] && s3.taken == |s.pool| && s3.putBack == 0
  {
  }

  function CheckerStepOf(a: Action): seq<Action> { if IsClientAction(a) then [] else [a] }

  function CheckerStepsOf(acts: seq<Action>): seq<Action> {
    if acts == [] then [] else CheckerStepOf(acts[0]) + CheckerStepsOf(acts[1..])
  }

  lemma {:induction false} ClientsKeepChecker(s: State, acts: seq<Action>, s': State)
    requires Runs(s, acts, s') && forall i :: 0 <= i < |acts| ==> IsClientAction(acts[i])
    ensures s'.checker == s.checker && s'.sweep == s.sweep
    decreases |acts|
  {
    if acts != [] {
      assert IsClientAction(acts[0]);
      ClientsKeepChecker(Apply(s, acts[0]), acts[1..], s');
    }
  }

  /** Between two passes the checker waits for the next period: its first step after a pass starts a new one. */
  lemma PassesAreSeparate(s: State, acts: seq<Action>, s': State, a: Action)
    requires Enabled(s, EndPass) && Runs(Apply(s, EndPass), acts, s') && Enabled(s', a) && !IsClientAction(a)
    requires forall i :: 0 <= i < |acts| ==> IsClientAction(acts[i])
    ensures a.StartPass? && s'.sweep == []
  {
    ClientsKeepChecker(Apply(s, EndPass), acts, s');
  }

  /** How the connection in the checker's hand came about, from the one it popped. */
  predicate Tested(own: seq<Action>, popped: Conn, c: Conn) {
    || (own == [TestOk] && c == popped)
    || (own == [TestFails, RenewFails] && c == popped)
    || own == [TestFails, RenewOk(c)]
  }

  predicate InTest(pc: CheckerPc, own: seq<Action>, popped: Conn) {
    match pc
    case Testing(c) => own == [] && c == popped
    case Renewing(c) => own == [TestFails] && c == popped
    case WantPut(c) => Tested(own, popped, c)
    case Putting(c) => own != [] && own[|own| - 1] == Relock && Tested(own[..|own| - 1], popped, c)
    case _ => false
  }

  lemma TestStep(s: State, a: Action, own: seq<Action>, popped: Conn)
    requires Enabled(s, a) && !a.PutOne? && InTest(s.checker, own, popped)
    ensures InTest(Apply(s, a).checker, own + CheckerStepOf(a), popped)
  {
    if IsClientAction(a) {
      assert own + CheckerStepOf(a) == own;
    } else {
      assert (own + [a])[..|own|] == own;
    }
  }

  lemma {:induction false} TestRun(s: State, acts: seq<Action>, s': State, own: seq<Action>, popped: Conn)
    requires Runs(s, acts, s') && PutOne !in acts && InTest(s.checker, own, popped)
    ensures InTest(s'.checker, own + CheckerStepsOf(acts), popped)
    decreases |acts|
  {
    if acts == [] {
      assert own + CheckerStepsOf(acts) == own;
    } else {
      var a, rest := acts[0], acts[1..];
      assert a in acts && forall x :: x in rest ==> x in acts;
      TestStep(s, a, own, popped);
      TestRun(Apply(s, a), rest, s', own + CheckerStepOf(a), popped);
      AppendTwice(own, CheckerStepOf(a), CheckerStepsOf(rest));
    }
  }

  /**
   A connection the checker puts back is the one it took, if that passed its test or could
   not be renewed, and otherwise the new one made in its place.
   */
  lemma TestedBeforePutBack(s: State, acts: seq<Action>, s': State)
    requires Enabled(s, PopOne) && Runs(Apply(s, PopOne), acts, s') && PutOne !in acts && Enabled(s', PutOne)
    ensures var own := CheckerStepsOf(acts);
            own != [] && own[|own| - 1] == Relock && Tested(own[..|own| - 1], s.sweep[0], s'.checker.c)
  {
    TestRun(Apply(s, PopOne), acts, s', [], s.sweep[0]);
    assert [] + CheckerStepsOf(acts) == CheckerStepsOf(acts);
  }
}
