/**
 The SQL connection pool as a step system.  Any number of clients borrow a connection
 with get_session and give it back in ~sql_session, while the health-check thread takes
 the whole list, gives up the lock for each test, and puts the connections back one by
 one.  All steps interleave; a step that needs the mutex is enabled only while it is free.
 The pool object stays alive, and the sleep inside get_session is not interrupted.
 */
module SqlPool {
  import opened Options
  import opened Queues

  type Client = nat
  type Conn = nat

  datatype ClientPc =
    | WantLock              // get_session, before lock() or after the sleep
    | Looking               // holds the mutex, tests the list
    | Sleeping
    | Taken(c: Conn)        // holds the mutex, has popped c
    | Using(c: Conn)
    | WantReturn(c: Conn)   // ~sql_session, before lock()
    | Returning(c: Conn)    // holds the mutex
    | Pushed                // holds the mutex
    | Done

  datatype CheckerPc =
    | Idle
    | WantList              // before the lock of a pass
    | HasLock               // holds the mutex
    | Sweeping              // holds the mutex, loop head
    | Testing(c: Conn)      // mutex released
    | Renewing(c: Conn)     // the test threw
    | WantPut(c: Conn)      // before l.lock()
    | Putting(c: Conn)      // holds the mutex

  datatype Owner = ByClient(k: Client) | ByChecker

  datatype Where = InPool | With(k: Client) | InSweep | InHand | Discarded

  datatype State = State(
    numPool: nat,
    mutex: Option<Owner>,
    pool: seq<Conn>,
    clients: map<Client, ClientPc>,
    checker: CheckerPc,
    sweep: seq<Conn>,       // the checker's local list
    taken: nat,             // connections taken in this pass
    putBack: nat,           // connections put back in this pass
    place: map<Conn, Where>
  )

  datatype Action =
    | Arrive(k: Client) | Lock(k: Client) | Look(k: Client) | Wake(k: Client) | Leave(k: Client)
    | Close(k: Client) | LockReturn(k: Client) | PushBack(k: Client) | Unlock(k: Client)
    | StartPass | LockPass | TakeAll | PopOne | TestOk | TestFails | RenewOk(made: Conn) | RenewFails
    | Relock | PutOne | EndPass

  /** make_sql_pool: num_pool connections, numbered in the order they are made. */
  function Initial(n: nat): State {
    State(n, None, FirstConns(n), map[], Idle, [], 0, 0, map c | c in FirstConns(n) :: InPool)
  }

  function FirstConns(n: nat): (q: seq<Conn>)
    ensures |q| == n && forall i :: 0 <= i < n ==> q[i] == i
  {
    if n == 0 then [] else FirstConns(n - 1) + [n - 1]
  }

  // ---- Steps ----

  predicate Enabled(s: State, a: Action) {
    match a
    case Arrive(k) => k !in s.clients
    case Lock(k) => k in s.clients && s.clients[k].WantLock? && s.mutex.None?
    case Look(k) => k in s.clients && s.clients[k].Looking?
    case Wake(k) => k in s.clients && s.clients[k].Sleeping?
    case Leave(k) => k in s.clients && s.clients[k].Taken?
    case Close(k) => k in s.clients && s.clients[k].Using?
    case LockReturn(k) => k in s.clients && s.clients[k].WantReturn? && s.mutex.None?
    case PushBack(k) => k in s.clients && s.clients[k].Returning?
    case Unlock(k) => k in s.clients && s.clients[k].Pushed?
    case StartPass => s.checker.Idle?
    case LockPass => s.checker.WantList? && s.mutex.None?
    case TakeAll => s.checker.HasLock?
    case PopOne => s.checker.Sweeping? && s.sweep != []
    case TestOk => s.checker.Testing?
    case TestFails => s.checker.Testing?
    case RenewOk(made) => s.checker.Renewing? && made !in s.place
    case RenewFails => s.checker.Renewing?
    case Relock => s.checker.WantPut? && s.mutex.None?
    case PutOne => s.checker.Putting?
    case EndPass => s.checker.Sweeping? && s.sweep == []
  }

  function Go(s: State, k: Client, pc: ClientPc): State { s.(clients := s.clients[k := pc]) }

  function ClientStep(s: State, a: Action): State
    requires Enabled(s, a) && IsClientAction(a)
  {
    match a
    case Arrive(k) => Go(s, k, WantLock)
    case Lock(k) => Go(s, k, Looking).(mutex := Some(ByClient(k)))
    case Look(k) =>
      if s.pool == [] then Go(s, k, Sleeping).(mutex := None)
      else Go(s, k, Taken(s.pool[0])).(pool := s.pool[1..], place := s.place[s.pool[0] := With(k)])
    case Wake(k) => Go(s, k, WantLock)
    case Leave(k) => Go(s, k, Using(s.clients[k].c)).(mutex := None)
    case Close(k) => Go(s, k, WantReturn(s.clients[k].c))
    case LockReturn(k) => Go(s, k, Returning(s.clients[k].c)).(mutex := Some(ByClient(k)))
    case PushBack(k) =>
      var c := s.clients[k].c;
      Go(s, k, Pushed).(pool := s.pool + [c], place := s.place[c := InPool])
    case Unlock(k) => Go(s, k, Done).(mutex := None)
  }

  function CheckerStep(s: State, a: Action): State
    requires Enabled(s, a) && !IsClientAction(a)
  {
    match a
    case StartPass => s.(checker := WantList)
    case LockPass => s.(checker := HasLock, mutex := Some(ByChecker))
    case TakeAll =>
      s.(checker := Sweeping, sweep := s.pool, pool := [], taken := |s.pool|, putBack := 0,
         place := map c | c in s.place :: if s.place[c] == InPool then InSweep else s.place[c])
    case PopOne =>
      s.(checker := Testing(s.sweep[0]), sweep := s.sweep[1..], mutex := None, place := s.place[s.sweep[0] := InHand])
    case TestOk => s.(checker := WantPut(s.checker.c))
    case TestFails => s.(checker := Renewing(s.checker.c))
    case RenewOk(made) =>
      s.(checker := WantPut(made), place := s.place[s.checker.c := Discarded][made := InHand])
    case RenewFails => s.(checker := WantPut(s.checker.c))
    case Relock => s.(checker := Putting(s.checker.c), mutex := Some(ByChecker))
    case PutOne =>
      var c := s.checker.c;
      s.(checker := Sweeping, pool := s.pool + [c], putBack := s.putBack + 1, place := s.place[c := InPool])
    case EndPass => s.(checker := Idle, mutex := None)
  }

  predicate IsClientAction(a: Action) {
    a.Arrive? || a.Lock? || a.Look? || a.Wake? || a.Leave? || a.Close? || a.LockReturn? || a.PushBack? || a.Unlock?
  }

  function Apply(s: State, a: Action): State
    requires Enabled(s, a)
  {
    if IsClientAction(a) then ClientStep(s, a) else CheckerStep(s, a)
  }

  predicate Runs(s: State, acts: seq<Action>, s': State)
    decreases |acts|
  {
    if acts == [] then s' == s else Enabled(s, acts[0]) && Runs(Apply(s, acts[0]), acts[1..], s')
  }

  // ---- The invariant ----

  predicate ClientHolds(pc: ClientPc) { pc.Looking? || pc.Taken? || pc.Returning? || pc.Pushed? }

  predicate CheckerHolds(pc: CheckerPc) { pc.HasLock? || pc.Sweeping? || pc.Putting? }

  /** Exactly the owner of the mutex is in a critical section. */
  ghost predicate Exclusive(s: State) {
    && (forall k :: k in s.clients ==> (ClientHolds(s.clients[k]) <==> s.mutex == Some(ByClient(k))))
    && (CheckerHolds(s.checker) <==> s.mutex == Some(ByChecker))
    && (forall k :: s.mutex == Some(ByClient(k)) ==> k in s.clients)
  }

  predicate HasConn(pc: ClientPc, c: Conn) {
    match pc
    case Taken(x) => x == c
    case Using(x) => x == c
    case WantReturn(x) => x == c
    case Returning(x) => x == c
    case _ => false
  }

  predicate HandHas(pc: CheckerPc, c: Conn) {
    match pc
    case Testing(x) => x == c
    case Renewing(x) => x == c
    case WantPut(x) => x == c
    case Putting(x) => x == c
    case _ => false
  }

  predicate At(s: State, c: Conn, w: Where) { c in s.place && s.place[c] == w }

  /** Every connection is in exactly one place, and the lists and program counters say the same. */
  ghost predicate Consistent(s: State) {
    && NoDuplicates(s.pool) && NoDuplicates(s.sweep)
    && (forall c :: c in s.pool <==> At(s, c, InPool))
    && (forall c :: c in s.sweep <==> At(s, c, InSweep))
    && (forall c :: HandHas(s.checker, c) <==> At(s, c, InHand))
    && (forall k, c :: (k in s.clients && HasConn(s.clients[k], c)) <==> At(s, c, With(k)))
  }

  function Live(m: map<Conn, Where>): set<Conn> { set c | c in m && m[c] != Discarded }

  predicate InPass(pc: CheckerPc) { !pc.Idle? && !pc.WantList? && !pc.HasLock? }

  function InHandCount(pc: CheckerPc): nat { if InPass(pc) && !pc.Sweeping? then 1 else 0 }

  /** What the checker has taken it has put back or still has. */
  predicate Balanced(s: State) {
    if InPass(s.checker) then s.taken == s.putBack + |s.sweep| + InHandCount(s.checker) else s.sweep == []
  }

  ghost predicate Inv(s: State) {
    Exclusive(s) && Consistent(s) && |Live(s.place)| == s.numPool && Balanced(s)
  }

  lemma InitialInv(n: nat)
    ensures Inv(Initial(n))
  {
    var s := Initial(n);
    ListSize(s.pool);
    assert Live(s.place) == ToSet(s.pool);
  }

  // ---- Each step keeps it ----

  lemma ClientStepExclusive(s: State, a: Action)
    requires Exclusive(s) && Enabled(s, a) && IsClientAction(a)
    ensures Exclusive(Apply(s, a))
  {
  }

  lemma CheckerStepExclusive(s: State, a: Action)
    requires Exclusive(s) && Enabled(s, a) && !IsClientAction(a)
    ensures Exclusive(Apply(s, a))
  {
  }

  lemma ClientStepConsistent(s: State, a: Action)
    requires Consistent(s) && Enabled(s, a) && IsClientAction(a)
    ensures Consistent(Apply(s, a))
  {
    var s' := Apply(s, a);
    if a.Look? && s.pool != [] { QueueSplits(s.pool); }
    if a.PushBack? {
      assert At(s, s.clients[a.k].c, With(a.k));
      assert s.clients[a.k].c !in s.pool;
    }
    forall c ensures c in s'.pool <==> At(s', c, InPool) {
      assert c in s.pool <==> At(s, c, InPool);
    }
    forall c ensures c in s'.sweep <==> At(s', c, InSweep) {
      assert c in s.sweep <==> At(s, c, InSweep);
      assert c in s.pool <==> At(s, c, InPool);
    }
    forall c ensures HandHas(s'.checker, c) <==> At(s', c, InHand) {
      assert HandHas(s.checker, c) <==> At(s, c, InHand);
      assert c in s.pool <==> At(s, c, InPool);
    }
    forall k, c ensures (k in s'.clients && HasConn(s'.clients[k], c)) <==> At(s', c, With(k)) {
      assert (k in s.clients && HasConn(s.clients[k], c)) <==> At(s, c, With(k));
      assert c in s.pool <==> At(s, c, InPool);
    }
  }

  lemma CheckerStepConsistent(s: State, a: Action)
    requires Consistent(s) && Balanced(s) && Enabled(s, a) && !IsClientAction(a)
    ensures Consistent(Apply(s, a))
  {
    var s' := Apply(s, a);
    if a.PopOne? { QueueSplits(s.sweep); }
    if a.PutOne? {
      assert At(s, s.checker.c, InHand);
      assert s.checker.c !in s.pool;
    }
    forall c ensures c in s'.pool <==> At(s', c, InPool) {
      assert c in s.pool <==> At(s, c, InPool);
      assert c in s.sweep <==> At(s, c, InSweep);
      assert HandHas(s.checker, c) <==> At(s, c, InHand);
    }
    forall c ensures c in s'.sweep <==> At(s', c, InSweep) {
      assert c in s.sweep <==> At(s, c, InSweep);
      assert c in s.pool <==> At(s, c, InPool);
      assert HandHas(s.checker, c) <==> At(s, c, InHand);
    }
    forall c ensures HandHas(s'.checker, c) <==> At(s', c, InHand) {
      assert HandHas(s.checker, c) <==> At(s, c, InHand);
      assert c in s.sweep <==> At(s, c, InSweep);
    }
    forall k, c ensures (k in s'.clients && HasConn(s'.clients[k], c)) <==> At(s', c, With(k)) {
      assert (k in s.clients && HasConn(s.clients[k], c)) <==> At(s, c, With(k));
      assert c in s.sweep <==> At(s, c, InSweep);
      assert HandHas(s.checker, c) <==> At(s, c, InHand);
    }
  }

  lemma MoveKeepsLive(m: map<Conn, Where>, c: Conn, w: Where)
    requires c in m && m[c] != Discarded && w != Discarded
    ensures Live(m[c := w]) == Live(m)
  {
  }

  lemma ClientStepConserves(s: State, a: Action)
    requires Consistent(s) && Enabled(s, a) && IsClientAction(a)
    ensures Live(Apply(s, a).place) == Live(s.place)
  {
    if a.Look? && s.pool != [] {
      assert s.pool[0] in s.pool && At(s, s.pool[0], InPool);
      MoveKeepsLive(s.place, s.pool[0], With(a.k));
    } else if a.PushBack? {
      assert At(s, s.clients[a.k].c, With(a.k));
      MoveKeepsLive(s.place, s.clients[a.k].c, InPool);
    }
  }

  /** Renewing a connection replaces it; every other step of a pass keeps the connections as they are. */
  lemma CheckerStepConserves(s: State, a: Action)
    requires Consistent(s) && Enabled(s, a) && !IsClientAction(a)
    ensures |Live(Apply(s, a).place)| == |Live(s.place)|
  {
    var was, later := Live(s.place), Live(Apply(s, a).place);
    if a.PopOne? {
      assert s.sweep[0] in s.sweep && At(s, s.sweep[0], InSweep);
      MoveKeepsLive(s.place, s.sweep[0], InHand);
    } else if a.PutOne? {
      assert HandHas(s.checker, s.checker.c) && At(s, s.checker.c, InHand);
      MoveKeepsLive(s.place, s.checker.c, InPool);
    } else if a.RenewOk? {
      var c := s.checker.c;
      assert HandHas(s.checker, c) && At(s, c, InHand);
      assert later == was - {c} + {a.made};
    } else {
      assert later == was;
    }
  }

  lemma StepBalances(s: State, a: Action)
    requires Balanced(s) && Enabled(s, a)
    ensures Balanced(Apply(s, a))
  {
  }

  lemma StepKeepsInv(s: State, a: Action)
    requires Inv(s) && Enabled(s, a)
    ensures Inv(Apply(s, a)) && Apply(s, a).numPool == s.numPool
  {
    if IsClientAction(a) {
      ClientStepExclusive(s, a);
      ClientStepConsistent(s, a);
      ClientStepConserves(s, a);
    } else {
      CheckerStepExclusive(s, a);
      CheckerStepConsistent(s, a);
      CheckerStepConserves(s, a);
    }
    StepBalances(s, a);
  }

  lemma {:induction false} RunKeepsInv(s: State, acts: seq<Action>, s': State)
    requires Inv(s) && Runs(s, acts, s')
    ensures Inv(s') && s'.numPool == s.numPool
    decreases |acts|
  {
    if acts != [] {
      StepKeepsInv(s, acts[0]);
      RunKeepsInv(Apply(s, acts[0]), acts[1..], s');
    }
  }

  // ---- What it means ----

  function Borrowed(s: State): set<Conn> { set c | c in s.place && s.place[c].With? }

  /** In every interleaving, pooled, borrowed and checked connections add up to num_pool. */
  lemma ConnectionsConserved(n: nat, acts: seq<Action>, s: State)
    requires Runs(Initial(n), acts, s)
    ensures |s.pool| + |Borrowed(s)| + |s.sweep| + InHandCount(s.checker) == n
  {
    InitialInv(n);
    RunKeepsInv(Initial(n), acts, s);
    ListSize(s.pool);
    ListSize(s.sweep);
    HandSize(s);
    PlacesPartition(s);
  }

  function Hand(s: State): set<Conn> { set c | c in s.place && s.place[c] == InHand }

  lemma PlacesPartition(s: State)
    requires Consistent(s)
    ensures |Live(s.place)| == |ToSet(s.pool)| + |Borrowed(s)| + |ToSet(s.sweep)| + |Hand(s)|
  {
    var p, b, w, h := ToSet(s.pool), Borrowed(s), ToSet(s.sweep), Hand(s);
    forall c
      ensures c in Live(s.place) <==> c in p || c in b || c in w || c in h
      ensures c in p ==> c !in b && c !in w && c !in h
      ensures c in w ==> c !in b && c !in h
    {
      assert c in s.pool <==> At(s, c, InPool);
      assert c in s.sweep <==> At(s, c, InSweep);
    }
    FourParts(Live(s.place), p, b, w, h);
  }

  lemma FourParts(all: set<Conn>, p: set<Conn>, b: set<Conn>, w: set<Conn>, h: set<Conn>)
    requires forall c :: c in all <==> c in p || c in b || c in w || c in h
    requires p !! b && p !! w && p !! h && b !! w && b !! h && w !! h
    ensures |all| == |p| + |b| + |w| + |h|
  {
    assert all == ((p + b) + w) + h;
    assert |p + b| == |p| + |b|;
    assert |(p + b) + w| == |p + b| + |w|;
    assert |((p + b) + w) + h| == |(p + b) + w| + |h|;
  }

  lemma HandSize(s: State)
    requires Consistent(s)
    ensures |Hand(s)| == InHandCount(s.checker)
  {
    var h := Hand(s);
    if InHandCount(s.checker) == 1 {
      assert HandHas(s.checker, s.checker.c);
      forall c ensures c in h <==> c == s.checker.c {
        assert HandHas(s.checker, c) <==> At(s, c, InHand);
      }
      assert h == {s.checker.c};
    } else {
      forall c ensures c !in h {
        assert HandHas(s.checker, c) <==> At(s, c, InHand);
      }
      assert h == {};
    }
  }

  /** No connection is ever in two hands: not with two clients, nor with a client and the pool or the checker. */
  lemma NeverShared(n: nat, acts: seq<Action>, s: State, j: Client, k: Client, c: Conn)
    requires Runs(Initial(n), acts, s)
    requires j in s.clients && HasConn(s.clients[j], c)
    ensures k in s.clients && HasConn(s.clients[k], c) ==> k == j
    ensures c !in s.pool && c !in s.sweep && !HandHas(s.checker, c)
  {
    InitialInv(n);
    RunKeepsInv(Initial(n), acts, s);
    assert At(s, c, With(j));
  }

  predicate Acts(a: Action, o: Owner) {
    if IsClientAction(a) then o == ByClient(a.k) else o == ByChecker
  }

  /** The steps that read or change the shared list. */
  predicate TouchesList(a: Action) { a.Look? || a.PushBack? || a.TakeAll? || a.PutOne? }

  lemma OthersLeaveList(s: State, a: Action)
    requires Enabled(s, a) && !TouchesList(a)
    ensures Apply(s, a).pool == s.pool
  {
  }

  lemma TouchingNeedsLock(s: State, a: Action)
    requires Exclusive(s) && Enabled(s, a) && TouchesList(a)
    ensures s.mutex.Some? && Acts(a, s.mutex.value)
  {
  }

  /** The list changes only in a step of the mutex's holder, and only the holder's steps touch it. */
  lemma ListChangesUnderLock(n: nat, acts: seq<Action>, s: State, a: Action)
    requires Runs(Initial(n), acts, s) && Enabled(s, a)
    ensures TouchesList(a) ==> s.mutex.Some? && Acts(a, s.mutex.value)
    ensures Apply(s, a).pool != s.pool ==> TouchesList(a)
  {
    InitialInv(n);
    RunKeepsInv(Initial(n), acts, s);
    if TouchesList(a) {
      TouchingNeedsLock(s, a);
    } else {
      OthersLeaveList(s, a);
    }
  }

  /** The connections a step takes out of the pool, and those it puts in. */
  function TakenBy(s: State, a: Action): seq<Conn> {
    if a.TakeAll? then s.pool else if a.Look? && s.pool != [] then [s.pool[0]] else []
  }

  function ReturnedBy(s: State, a: Action): seq<Conn>
    requires Enabled(s, a)
  {
    if a.PushBack? then [s.clients[a.k].c] else if a.PutOne? then [s.checker.c] else []
  }

  function TakenOver(s: State, acts: seq<Action>): seq<Conn>
    decreases |acts|
  {
    if acts == [] || !Enabled(s, acts[0]) then []
    else TakenBy(s, acts[0]) + TakenOver(Apply(s, acts[0]), acts[1..])
  }

  function ReturnedOver(s: State, acts: seq<Action>): seq<Conn>
    decreases |acts|
  {
    if acts == [] || !Enabled(s, acts[0]) then []
    else ReturnedBy(s, acts[0]) + ReturnedOver(Apply(s, acts[0]), acts[1..])
  }

  lemma PoolStep(s: State, a: Action)
    requires Enabled(s, a)
    ensures s.pool + ReturnedBy(s, a) == TakenBy(s, a) + Apply(s, a).pool
  {
    if !TouchesList(a) { OthersLeaveList(s, a); }
    assert s.pool == [] || s.pool == [s.pool[0]] + s.pool[1..];
  }

  /** In every run connections leave the pool in the order in which they came back. */
  lemma {:induction false} PoolIsFifo(s: State, acts: seq<Action>, s': State)
    requires Runs(s, acts, s')
    ensures s.pool + ReturnedOver(s, acts) == TakenOver(s, acts) + s'.pool
    decreases |acts|
  {
    if acts != [] {
      var next, rest := Apply(s, acts[0]), acts[1..];
      PoolStep(s, acts[0]);
      PoolIsFifo(next, rest, s');
      BalanceAdds(s.pool, ReturnedBy(s, acts[0]), TakenBy(s, acts[0]), next.pool,
                  ReturnedOver(next, rest), TakenOver(next, rest), s'.pool);
    }
  }

  /** A pass that ends has put back exactly as many connections as it took. */
  lemma PassPutsBackWhatItTook(n: nat, acts: seq<Action>, s: State)
    requires Runs(Initial(n), acts, s) && Enabled(s, EndPass)
    ensures s.putBack == s.taken
  {
    InitialInv(n);
    RunKeepsInv(Initial(n), acts, s);
  }

  /** Steps the checker still has to make in this pass. */
  function Remaining(s: State): nat {
    5 * |s.sweep| +
    match s.checker
    case Idle => 0
    case WantList => 0
    case HasLock => 0
    case Sweeping => 1
    case Testing(_) => 5
    case Renewing(_) => 4
    case WantPut(_) => 3
    case Putting(_) => 2
  }

  /** Each step of a pass brings it nearer its end, and no client's step takes it further away. */
  lemma PassStep(s: State, a: Action)
    requires Enabled(s, a) && InPass(s.checker) && Balanced(s)
    ensures IsClientAction(a) ==> Remaining(Apply(s, a)) == Remaining(s) && InPass(Apply(s, a).checker)
    ensures !IsClientAction(a) ==> Remaining(Apply(s, a)) < Remaining(s)
    ensures !IsClientAction(a) && !a.EndPass? ==> InPass(Apply(s, a).checker)
  {
  }

  /** The checker's own steps in a run. */
  function CheckerSteps(acts: seq<Action>): nat {
    if acts == [] then 0 else (if IsClientAction(acts[0]) then 0 else 1) + CheckerSteps(acts[1..])
  }

  lemma {:induction false} PassRun(s: State, acts: seq<Action>, s': State)
    requires InPass(s.checker) && Balanced(s) && Runs(s, acts, s') && EndPass !in acts
    ensures InPass(s'.checker) && CheckerSteps(acts) + Remaining(s') <= Remaining(s)
    decreases |acts|
  {
    if acts != [] {
      assert acts[0] in acts && forall a :: a in acts[1..] ==> a in acts;
      PassStep(s, acts[0]);
      StepBalances(s, acts[0]);
      PassRun(Apply(s, acts[0]), acts[1..], s');
    }
  }

  /**
   Every health pass ends: from any state inside a pass, whatever the clients do, the pass
   is over by the checker's own steps number 5 * |list| + 5 at the latest.
   */
  lemma PassEnds(n: nat, before: seq<Action>, s: State, acts: seq<Action>, s': State)
    requires Runs(Initial(n), before, s) && InPass(s.checker) && Runs(s, acts, s')
    requires CheckerSteps(acts) >= 5 * |s.sweep| + 5
    ensures EndPass in acts
  {
    InitialInv(n);
    RunKeepsInv(Initial(n), before, s);
    if EndPass !in acts {
      PassRun(s, acts, s');
      InPassRemains(s');
    }
  }

  lemma InPassRemains(s: State)
    ensures InPass(s.checker) ==> 0 < Remaining(s)
    ensures Remaining(s) <= 5 * |s.sweep| + 5
  {
  }

  /** And it can always go on: inside a pass the checker has a step as soon as the mutex is not with a client. */
  lemma PassNeverStuck(n: nat, acts: seq<Action>, s: State) returns (a: Action)
    requires Runs(Initial(n), acts, s) && InPass(s.checker) && !(s.mutex.Some? && s.mutex.value.ByClient?)
    ensures Enabled(s, a) && !IsClientAction(a)
  {
    InitialInv(n);
    RunKeepsInv(Initial(n), acts, s);
    a := match s.checker
      case Sweeping => (if s.sweep == [] then EndPass else PopOne)
      case Testing(_) => TestOk
      case Renewing(_) => RenewFails
      case WantPut(_) => Relock
      case _ => PutOne;
  }

  /** The holder of the mutex is never stuck. */
  lemma HolderCanStep(n: nat, acts: seq<Action>, s: State) returns (a: Action)
    requires Runs(Initial(n), acts, s) && s.mutex.Some?
    ensures Enabled(s, a) && Acts(a, s.mutex.value)
  {
    InitialInv(n);
    RunKeepsInv(Initial(n), acts, s);
    match s.mutex.value
    case ByChecker =>
      a := if s.checker.HasLock? then TakeAll
           else if s.checker.Putting? then PutOne
           else if s.sweep == [] then EndPass else PopOne;
    case ByClient(k) =>
      assert ClientHolds(s.clients[k]);
      a := match s.clients[k]
        case Looking => Look(k)
        case Taken(_) => Leave(k)
        case Returning(_) => PushBack(k)
        case _ => Unlock(k);
  }
}
