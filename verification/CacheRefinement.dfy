/**
 Whole histories of cache operations, with every clock reading an input.  The
 segmented list is compared with a flat reference: a map from key to value, time of
 the last put or touch, and deadline, which has no segments and never drops an entry.
 */
module CacheRefinement {
  import opened Options
  import opened SegmentList

  datatype Op<K, !V> =
    | Put(k: K, v: V, at: int)
    | Erase(k: K)
    | Clear
    | Get(k: K, pruneAt: int, storeAt: int)
    | At(k: K, at: int)
    | Contains(k: K, at: int)
    | GetOrPut(k: K, made: V, pruneAt: int, storeAt: int)
    | Visit(k: K, f: V -> V, at: int)
    | Size(at: int)
    | Prune(at: int)

  datatype Result<V> = Done | Flag(b: bool) | Value(v: Option<V>) | Count(n: nat)

  /** The clock never goes back: the readings of op come in order, none before t. */
  predicate Timely<K, V>(op: Op<K, V>, t: int) {
    match op
    case Erase(_) => true
    case Clear => true
    case Get(_, p, s) => t <= p <= s
    case GetOrPut(_, _, p, s) => t <= p <= s
    case Put(_, _, at) => t <= at
    case At(_, at) => t <= at
    case Contains(_, at) => t <= at
    case Visit(_, _, at) => t <= at
    case Size(at) => t <= at
    case Prune(at) => t <= at
  }

  /** The last clock reading once op is done. */
  function After<K, V>(op: Op<K, V>, t: int): int {
    match op
    case Erase(_) => t
    case Clear => t
    case Get(_, _, s) => s
    case GetOrPut(_, _, _, s) => s
    case Put(_, _, at) => at
    case At(_, at) => at
    case Contains(_, at) => at
    case Visit(_, _, at) => at
    case Size(at) => at
    case Prune(at) => at
  }

  function ValueOf<V>(e: Option<Timed<V>>): Option<V> {
    match e case None => None case Some(x) => Some(x.value)
  }

  // ---- The segmented cache ----

  function Step<K(==), V>(c: Lifetime, s: seq<Segment<K, V>>, op: Op<K, V>): (seq<Segment<K, V>>, Result<V>) {
    match op
    case Put(k, v, at) => (Insert(c, s, k, v, at), Done)
    case Erase(k) => (EraseKey(s, k), Flag(Find(s, k).Some?))
    case Clear => ([], Done)
    case Get(k, p, w) => var (s', v) := Touch(c, s, k, p, w); (s', Value(v))
    case At(k, at) => (s, Value(ValueOf(FindLive(s, k, at))))
    case Contains(k, at) => (s, Flag(FindLive(s, k, at).Some?))
    case GetOrPut(k, made, p, w) =>
      var (s', v) := Touch(c, s, k, p, w);
      if v.Some? then (s', Value(v)) else (Insert(c, s', k, made, w), Value(Some(made)))
    case Visit(k, f, at) => (Modify(s, k, f, at), Flag(FindLive(s, k, at).Some?))
    case Size(at) => (s, Count(LiveSize(s, at)))
    case Prune(at) => (SegmentList.Prune(s, at), Done)
  }

  // ---- The flat reference ----

  /** `at` is the time of the last put or touch. */
  datatype Stored<V> = Stored(value: V, at: int, deadline: int)

  /**
   `youngest` is the latest deadline handed out since the last clear; `swept` is the
   clock reading of the latest prune, which only the flag of erase depends on.
   */
  datatype Ref<K, V> = Ref(entries: map<K, Stored<V>>, youngest: Option<int>, swept: int)

  function NewRef<K, V>(t: int): Ref<K, V> { Ref(map[], None, t) }

  /** The clock reading of the latest prune, given the one before op. */
  function SweptBy<K, V>(op: Op<K, V>, swept: int): int {
    match op
    case Get(_, p, _) => p
    case GetOrPut(_, _, p, _) => p
    case Prune(at) => at
    case _ => swept
  }

  function RefDeadline(c: Lifetime, youngest: Option<int>, now: int): int {
    if youngest.None? || youngest.value < now + c.ExpiryMs() then now + c.ExpiryMs() + c.SegmentMs()
    else youngest.value
  }

  function RefLive<K(==), V>(r: Ref<K, V>, k: K, now: int): Option<Timed<V>> {
    if k in r.entries && now <= r.entries[k].deadline
    then Some(Timed(r.entries[k].value, r.entries[k].deadline)) else None
  }

  function RefStore<K(==), V>(c: Lifetime, r: Ref<K, V>, k: K, v: V, now: int): Ref<K, V> {
    var d := RefDeadline(c, r.youngest, now);
    Ref(r.entries[k := Stored(v, now, d)], Some(d), r.swept)
  }

  function RefStep<K(==), V>(c: Lifetime, r: Ref<K, V>, op: Op<K, V>): (Ref<K, V>, Result<V>) {
    match op
    case Put(k, v, at) => (RefStore(c, r, k, v, at), Done)
    case Erase(k) => (r.(entries := r.entries - {k}), Flag(RefLive(r, k, r.swept).Some?))
    case Clear => (Ref(map[], None, r.swept), Done)
    case Get(k, p, w) =>
      var r' := r.(swept := p);
      (match RefLive(r, k, p) case None => r' case Some(e) => RefStore(c, r', k, e.value, w),
       Value(ValueOf(RefLive(r, k, p))))
    case At(k, at) => (r, Value(ValueOf(RefLive(r, k, at))))
    case Contains(k, at) => (r, Flag(RefLive(r, k, at).Some?))
    case GetOrPut(k, made, p, w) =>
      var v := match RefLive(r, k, p) case None => made case Some(e) => e.value;
      (RefStore(c, r.(swept := p), k, v, w), Value(Some(v)))
    case Visit(k, f, at) =>
      var r' := if RefLive(r, k, at).None? then r
                else r.(entries := r.entries[k := r.entries[k].(value := f(r.entries[k].value))]);
      (r', Flag(RefLive(r, k, at).Some?))
    case Size(at) => (r, Count(|RefLiveKeys(r, at)|))
    case Prune(at) => (r.(swept := at), Done)
  }

  function RefLiveKeys<K(==), V>(r: Ref<K, V>, now: int): set<K> {
    set k | k in r.entries && now <= r.entries[k].deadline
  }

  /** Every entry expires within its window, and the newest deadline is not beyond the clock's. */
  ghost predicate Windowed<K, V>(c: Lifetime, r: Ref<K, V>, t: int) {
    && (forall k :: k in r.entries ==>
          var e := r.entries[k];
          e.at <= t && e.at + c.ExpiryMs() <= e.deadline <= e.at + c.ExpiryMs() + c.SegmentMs())
    && (r.youngest.Some? ==> r.youngest.value <= t + c.ExpiryMs() + c.SegmentMs())
  }

  lemma StepKeepsWindow<K, V>(c: Lifetime, r: Ref<K, V>, op: Op<K, V>, t: int)
    requires Windowed(c, r, t) && Timely(op, t)
    ensures Windowed(c, RefStep(c, r, op).0, After(op, t))
  {
  }

  // ---- The simulation: from the latest prune on, both answer every lookup alike ----

  ghost predicate Sim<K(!new), V>(c: Lifetime, s: seq<Segment<K, V>>, r: Ref<K, V>, t: int) {
    && WellFormed(s) && r.swept <= t
    && (forall i :: 0 <= i < |s| ==> r.swept <= s[i].deadline)
    && (forall k, u :: r.swept <= u ==> FindLive(s, k, u) == RefLive(r, k, u))
    && (forall u :: t <= u ==> NextDeadline(c, s, u) == RefDeadline(c, r.youngest, u))
  }

  lemma SimInsert<K(!new), V>(c: Lifetime, s: seq<Segment<K, V>>, r: Ref<K, V>, k: K, v: V, at: int, t: int)
    requires Sim(c, s, r, t) && t <= at
    ensures Sim(c, Insert(c, s, k, v, at), RefStore(c, r, k, v, at), at)
  {
    var s' := Insert(c, s, k, v, at);
    var r' := RefStore(c, r, k, v, at);
    InsertKeepsWellFormed(c, s, k, v, at);
    forall x, u | r.swept <= u ensures FindLive(s', x, u) == RefLive(r', x, u) {
      InsertLive(c, s, k, v, at, x, u);
      assert FindLive(s, x, u) == RefLive(r, x, u);
    }
    assert s'[0].deadline == NextDeadline(c, s, at);
  }

  lemma SimPrune<K(!new), V>(c: Lifetime, s: seq<Segment<K, V>>, r: Ref<K, V>, at: int, t: int)
    requires Sim(c, s, r, t) && t <= at
    ensures Sim(c, SegmentList.Prune(s, at), r.(swept := at), at)
  {
    var s' := SegmentList.Prune(s, at);
    PruneKeepsWellFormed(s, at);
    PruneIsPrefix(s, at);
    forall x, u | at <= u ensures FindLive(s', x, u) == RefLive(r, x, u) {
      PruneLive(s, x, at, u);
    }
  }

  lemma SimErase<K(!new), V>(c: Lifetime, s: seq<Segment<K, V>>, r: Ref<K, V>, k: K, t: int)
    requires Sim(c, s, r, t)
    ensures Sim(c, EraseKey(s, k), r.(entries := r.entries - {k}), t)
  {
    var s', r' := EraseKey(s, k), r.(entries := r.entries - {k});
    EraseKeepsWellFormed(s, k);
    forall x, u | r.swept <= u ensures FindLive(s', x, u) == RefLive(r', x, u) {
      EraseLive(s, k, x, u);
      assert FindLive(s, x, u) == RefLive(r, x, u);
    }
  }

  lemma SimVisit<K(!new), V>(c: Lifetime, s: seq<Segment<K, V>>, r: Ref<K, V>, k: K, f: V -> V, at: int, t: int)
    requires Sim(c, s, r, t) && t <= at
    ensures Sim(c, Modify(s, k, f, at), RefStep(c, r, Visit(k, f, at)).0, at)
  {
    var s', r' := Modify(s, k, f, at), RefStep(c, r, Visit(k, f, at)).0;
    ModifyKeepsWellFormed(s, k, f, at);
    assert FindLive(s, k, at) == RefLive(r, k, at);
    forall x, u | r.swept <= u ensures FindLive(s', x, u) == RefLive(r', x, u) {
      ModifyLive(s, k, f, at, x, u);
      assert FindLive(s, x, u) == RefLive(r, x, u);
    }
  }

  lemma SimTouch<K(!new), V>(c: Lifetime, s: seq<Segment<K, V>>, r: Ref<K, V>, k: K, p: int, w: int, t: int)
    requires Sim(c, s, r, t) && t <= p <= w
    ensures var (s', v) := Touch(c, s, k, p, w);
            var (r', y) := RefStep(c, r, Get(k, p, w));
            Sim(c, s', r', w) && Value(v) == y
  {
    var q := SegmentList.Prune(s, p);
    SimPrune(c, s, r, p, t);
    FindPruned(s, k, p);
    assert FindLive(s, k, p) == RefLive(r, k, p);
    match Find(q, k)
    case None =>
    case Some(v) => SimInsert(c, q, r.(swept := p), k, v, w, p);
  }

  lemma SimSize<K(!new), V>(c: Lifetime, s: seq<Segment<K, V>>, r: Ref<K, V>, at: int, t: int)
    requires Sim(c, s, r, t) && t <= at
    ensures LiveSize(s, at) == |RefLiveKeys(r, at)|
  {
    SizeCountsLiveKeys(s, at);
    forall k ensures k in LiveKeys(s, at) <==> k in RefLiveKeys(r, at) {
      LiveKeysAreFindable(s, k, at);
      assert FindLive(s, k, at) == RefLive(r, k, at);
    }
    assert LiveKeys(s, at) == RefLiveKeys(r, at);
  }

  /** Whether any segment holds k is whether k was live at the latest prune. */
  lemma EraseFlag<K(!new), V>(c: Lifetime, s: seq<Segment<K, V>>, r: Ref<K, V>, k: K, t: int)
    requires Sim(c, s, r, t)
    ensures Find(s, k).Some? <==> RefLive(r, k, r.swept).Some?
  {
    PruneIsPrefix(s, r.swept);
    var p := SegmentList.Prune(s, r.swept);
    assert s != [] ==> r.swept <= s[|s| - 1].deadline;
    assert p == s;
    FindPruned(s, k, r.swept);
    assert FindLive(s, k, r.swept) == RefLive(r, k, r.swept);
  }

  /** Every operation keeps the simulation and returns the reference's result. */
  lemma StepRefines<K(!new), V>(c: Lifetime, s: seq<Segment<K, V>>, r: Ref<K, V>, op: Op<K, V>, t: int)
    requires Sim(c, s, r, t) && Timely(op, t)
    ensures Sim(c, Step(c, s, op).0, RefStep(c, r, op).0, After(op, t))
    ensures Step(c, s, op).1 == RefStep(c, r, op).1
  {
    match op
    case Put(k, v, at) => SimInsert(c, s, r, k, v, at, t);
    case Erase(k) =>
      SimErase(c, s, r, k, t);
      EraseFlag(c, s, r, k, t);
    case Clear =>
    case Get(k, p, w) => SimTouch(c, s, r, k, p, w, t);
    case At(k, at) => assert FindLive(s, k, at) == RefLive(r, k, at);
    case Contains(k, at) => assert FindLive(s, k, at) == RefLive(r, k, at);
    case GetOrPut(k, made, p, w) =>
      SimTouch(c, s, r, k, p, w, t);
      if RefLive(r, k, p).None? {
        SimInsert(c, Touch(c, s, k, p, w).0, r.(swept := p), k, made, w, w);
      }
    case Visit(k, f, at) =>
      SimVisit(c, s, r, k, f, at, t);
      assert FindLive(s, k, at) == RefLive(r, k, at);
    case Size(at) => SimSize(c, s, r, at, t);
    case Prune(at) => SimPrune(c, s, r, at, t);
  }

  // ---- Histories ----

  function Run<K(==), V>(c: Lifetime, s: seq<Segment<K, V>>, ops: seq<Op<K, V>>): (seq<Segment<K, V>>, seq<Result<V>>)
    decreases |ops|
  {
    if ops == [] then (s, [])
    else
      var (s', x) := Step(c, s, ops[0]);
      var (s'', xs) := Run(c, s', ops[1..]);
      (s'', [x] + xs)
  }

  function RefRun<K(==), V>(c: Lifetime, r: Ref<K, V>, ops: seq<Op<K, V>>): (Ref<K, V>, seq<Result<V>>)
    decreases |ops|
  {
    if ops == [] then (r, [])
    else
      var (r', x) := RefStep(c, r, ops[0]);
      var (r'', xs) := RefRun(c, r', ops[1..]);
      (r'', [x] + xs)
  }

  predicate TimelyRun<K, V>(ops: seq<Op<K, V>>, t: int)
    decreases |ops|
  {
    ops == [] || (Timely(ops[0], t) && TimelyRun(ops[1..], After(ops[0], t)))
  }

  function EndOf<K, V>(ops: seq<Op<K, V>>, t: int): int
    decreases |ops|
  {
    if ops == [] then t else EndOf(ops[1..], After(ops[0], t))
  }

  /** What the callers of a history see: no line for a prune, and no flag for an erase. */
  function Observed<K, V>(ops: seq<Op<K, V>>, results: seq<Result<V>>): seq<Result<V>>
    requires |ops| == |results|
    decreases |ops|
  {
    if ops == [] then []
    else if ops[0].Prune? then Observed(ops[1..], results[1..])
    else [if ops[0].Erase? then Done else results[0]] + Observed(ops[1..], results[1..])
  }

  function WithoutPrunes<K, V>(ops: seq<Op<K, V>>): seq<Op<K, V>>
    decreases |ops|
  {
    if ops == [] then []
    else if ops[0].Prune? then WithoutPrunes(ops[1..])
    else [ops[0]] + WithoutPrunes(ops[1..])
  }

  /** After any history the segmented cache has answered like the reference and still simulates it. */
  lemma {:induction false} RunRefines<K(!new), V>(c: Lifetime, s: seq<Segment<K, V>>, r: Ref<K, V>,
                                                  ops: seq<Op<K, V>>, t: int)
    requires Sim(c, s, r, t) && TimelyRun(ops, t)
    ensures Sim(c, Run(c, s, ops).0, RefRun(c, r, ops).0, EndOf(ops, t))
    ensures Run(c, s, ops).1 == RefRun(c, r, ops).1
    decreases |ops|
  {
    if ops != [] {
      StepRefines(c, s, r, ops[0], t);
      var s', r' := Step(c, s, ops[0]).0, RefStep(c, r, ops[0]).0;
      RunRefines(c, s', r', ops[1..], After(ops[0], t));
    }
  }

  /** The same entries and the same youngest deadline, whatever was pruned when. */
  ghost predicate SameEntries<K, V>(r: Ref<K, V>, q: Ref<K, V>) {
    r.entries == q.entries && r.youngest == q.youngest
  }

  lemma {:induction false} RefIgnoresPrunes<K, V>(c: Lifetime, r: Ref<K, V>, q: Ref<K, V>, ops: seq<Op<K, V>>)
    requires SameEntries(r, q)
    ensures |RefRun(c, r, ops).1| == |ops|
    ensures |RefRun(c, q, WithoutPrunes(ops)).1| == |WithoutPrunes(ops)|
    ensures Observed(ops, RefRun(c, r, ops).1) == Observed(WithoutPrunes(ops), RefRun(c, q, WithoutPrunes(ops)).1)
    ensures SameEntries(RefRun(c, r, ops).0, RefRun(c, q, WithoutPrunes(ops)).0)
    decreases |ops|
  {
    if ops != [] {
      var r' := RefStep(c, r, ops[0]).0;
      var w := WithoutPrunes(ops);
      assert RefRun(c, r, ops).1[1..] == RefRun(c, r', ops[1..]).1;
      if ops[0].Prune? {
        RefIgnoresPrunes(c, r', q, ops[1..]);
      } else {
        var q' := RefStep(c, q, ops[0]).0;
        RefIgnoresPrunes(c, r', q', ops[1..]);
        assert w[1..] == WithoutPrunes(ops[1..]);
        assert RefRun(c, q, w).1[1..] == RefRun(c, q', w[1..]).1;
      }
    }
  }

  /**
   Pruning is unobservable: two histories that differ only in when the background
   fiber pruned give their callers the same results, erase's flag aside.
   */
  lemma PruningUnobservable<K(!new), V>(c: Lifetime, a: seq<Op<K, V>>, b: seq<Op<K, V>>, t: int)
    requires TimelyRun(a, t) && TimelyRun(b, t)
    requires WithoutPrunes(a) == WithoutPrunes(b)
    ensures |Run(c, [], a).1| == |a| && |Run(c, [], b).1| == |b|
    ensures Observed(a, Run(c, [], a).1) == Observed(b, Run(c, [], b).1)
  {
    var r: Ref<K, V> := NewRef(t);
    RunRefines(c, [], r, a, t);
    RunRefines(c, [], r, b, t);
    RefIgnoresPrunes(c, r, r, a);
    RefIgnoresPrunes(c, r, r, b);
  }

  // ---- The flag of erase ----

  /** The latest prune of a history that starts at t: the background fiber's, or that of a get or get_or_put. */
  function LastSweep<K, V>(ops: seq<Op<K, V>>, t: int): int
    decreases |ops|
  {
    if ops == [] then t else LastSweep(ops[1..], SweptBy(ops[0], t))
  }

  lemma {:induction false} SweptIsLastSweep<K, V>(c: Lifetime, r: Ref<K, V>, ops: seq<Op<K, V>>)
    ensures RefRun(c, r, ops).0.swept == LastSweep(ops, r.swept)
    decreases |ops|
  {
    if ops != [] { SweptIsLastSweep(c, RefStep(c, r, ops[0]).0, ops[1..]); }
  }

  /** Each result of a history is that of its operation after the operations before it. */
  lemma {:induction false} ResultAt<K, V>(c: Lifetime, r: Ref<K, V>, ops: seq<Op<K, V>>, i: nat)
    requires i < |ops|
    ensures |RefRun(c, r, ops).1| == |ops| && RefRun(c, r, ops).1[i] == RefStep(c, RefRun(c, r, ops[..i]).0, ops[i]).1
    decreases |ops|
  {
    var r' := RefStep(c, r, ops[0]).0;
    if i > 0 {
      ResultAt(c, r', ops[1..], i - 1);
      assert ops[..i][1..] == ops[1..][..i - 1];
    } else if |ops| > 1 {
      ResultAt(c, r', ops[1..], 0);
    }
  }

  /** What erase of k at the end of a history answers: k was stored, and no prune came after its deadline. */
  predicate StillHeld<K(==), V>(c: Lifetime, ops: seq<Op<K, V>>, t: int, k: K) {
    var entries := RefRun(c, NewRef(t), ops).0.entries;
    k in entries && LastSweep(ops, t) <= entries[k].deadline
  }

  /** In every history erase returns true if and only if its key was stored and no prune came after its deadline. */
  lemma EraseFlagExact<K(!new), V>(c: Lifetime, ops: seq<Op<K, V>>, t: int, i: nat)
    requires TimelyRun(ops, t) && i < |ops| && ops[i].Erase?
    ensures |Run(c, [], ops).1| == |ops|
    ensures Run(c, [], ops).1[i] == Flag(StillHeld(c, ops[..i], t, ops[i].k))
  {
    var r: Ref<K, V> := NewRef(t);
    RunRefines(c, [], r, ops, t);
    ResultAt(c, r, ops, i);
    SweptIsLastSweep(c, r, ops[..i]);
  }

  /**
   Two histories that differ only in their prunes disagree on the flag of an erase
   exactly when one of them pruned after the key's deadline and the other did not.
   */
  lemma EraseFlagsAgree<K(!new), V>(c: Lifetime, a: seq<Op<K, V>>, i: nat, b: seq<Op<K, V>>, j: nat, t: int)
    requires TimelyRun(a, t) && TimelyRun(b, t)
    requires i < |a| && j < |b| && a[i] == b[j] && a[i].Erase? && WithoutPrunes(a[..i]) == WithoutPrunes(b[..j])
    ensures |Run(c, [], a).1| == |a| && |Run(c, [], b).1| == |b|
    ensures var entries := RefRun(c, NewRef(t), WithoutPrunes(a[..i])).0.entries;
            Run(c, [], a).1[i] == Run(c, [], b).1[j] <==>
            (a[i].k in entries ==>
               var d := entries[a[i].k].deadline; LastSweep(a[..i], t) <= d <==> LastSweep(b[..j], t) <= d)
  {
    var r: Ref<K, V> := NewRef(t);
    EraseFlagExact(c, a, t, i);
    EraseFlagExact(c, b, t, j);
    RefIgnoresPrunes(c, r, r, a[..i]);
    RefIgnoresPrunes(c, r, r, b[..j]);
  }

  /** They can disagree: the flag of an erase depends on whether its expired key was pruned first. */
  lemma EraseFlagSeesPrunes()
    ensures var c := Lifetime(1, 1);
            var a: seq<Op<int, int>> := [Put(7, 1, 0), Erase(7)];
            var b: seq<Op<int, int>> := [Put(7, 1, 0), Prune(3000), Erase(7)];
            && TimelyRun(a, 0) && TimelyRun(b, 0)
            && WithoutPrunes(a) == WithoutPrunes(b)
            && |Run(c, [], a).1| == 2 && |Run(c, [], b).1| == 3
            && Run(c, [], a).1[1] == Flag(true) && Run(c, [], b).1[2] == Flag(false)
  {
  }

  lemma {:induction false} RefRunKeepsWindow<K, V>(c: Lifetime, r: Ref<K, V>, ops: seq<Op<K, V>>, t: int)
    requires Windowed(c, r, t) && TimelyRun(ops, t)
    ensures Windowed(c, RefRun(c, r, ops).0, EndOf(ops, t))
    decreases |ops|
  {
    if ops != [] {
      StepKeepsWindow(c, r, ops[0], t);
      RefRunKeepsWindow(c, RefStep(c, r, ops[0]).0, ops[1..], After(ops[0], t));
    }
  }

  /**
   The exact lifetime: an entry last put or touched at p is found, with its value,
   at every time up to p + expiry, and at none after p + expiry + one partition;
   a key without an entry is never found.
   */
  lemma LifetimeWindow<K(!new), V>(c: Lifetime, ops: seq<Op<K, V>>, t: int, k: K, now: int)
    requires TimelyRun(ops, t) && EndOf(ops, t) <= now
    ensures var s := Run(c, [], ops).0;
            var entries := RefRun(c, NewRef(t), ops).0.entries;
            && (k !in entries ==> FindLive(s, k, now) == None)
            && (k in entries ==> LivesFrom(c, s, k, entries[k].value, entries[k].at, now))
  {
    var r: Ref<K, V> := NewRef(t);
    RunRefines(c, [], r, ops, t);
    RefRunKeepsWindow(c, r, ops, t);
    assert FindLive(Run(c, [], ops).0, k, now) == RefLive(RefRun(c, r, ops).0, k, now);
  }

  /** k holds v, stored at p: found until p + expiry, and not after p + expiry + one partition. */
  ghost predicate LivesFrom<K, V>(c: Lifetime, s: seq<Segment<K, V>>, k: K, v: V, p: int, now: int) {
    && (now <= p + 1000 * c.expiry ==> ValueOf(FindLive(s, k, now)) == Some(v))
    && (now > p + 1000 * c.expiry + 1000 * c.expiry / c.segments ==> FindLive(s, k, now) == None)
    && (FindLive(s, k, now).Some? ==> FindLive(s, k, now).value.value == v)
  }

  // ---- The number of segments ----

  lemma SpacedYoungest<K, V>(c: Lifetime, s: seq<Segment<K, V>>, k: K, v: V, at: int, t: int)
    requires Spaced(c, s, t) && t <= at
    ensures Spaced(c, Insert(c, s, k, v, at), at)
  {
  }

  lemma StepKeepsSpacing<K, V>(c: Lifetime, s: seq<Segment<K, V>>, op: Op<K, V>, t: int)
    requires WellFormed(s) && Spaced(c, s, t) && Timely(op, t)
    ensures WellFormed(Step(c, s, op).0) && Spaced(c, Step(c, s, op).0, After(op, t))
  {
    match op
    case Put(k, v, at) => InsertKeepsWellFormed(c, s, k, v, at); SpacedYoungest(c, s, k, v, at, t);
    case Erase(k) => EraseKeepsWellFormed(s, k);
    case Clear =>
    case Get(k, p, w) => TouchKeepsSpacing(c, s, k, p, w, t);
    case At(k, at) =>
    case Contains(k, at) =>
    case GetOrPut(k, made, p, w) =>
      TouchKeepsSpacing(c, s, k, p, w, t);
      var s' := Touch(c, s, k, p, w).0;
      InsertKeepsWellFormed(c, s', k, made, w);
      SpacedYoungest(c, s', k, made, w, w);
    case Visit(k, f, at) => ModifyKeepsWellFormed(s, k, f, at);
    case Size(at) =>
    case Prune(at) => PruneKeepsWellFormed(s, at); PruneIsPrefix(s, at);
  }

  lemma TouchKeepsSpacing<K, V>(c: Lifetime, s: seq<Segment<K, V>>, k: K, p: int, w: int, t: int)
    requires WellFormed(s) && Spaced(c, s, t) && t <= p <= w
    ensures WellFormed(Touch(c, s, k, p, w).0) && Spaced(c, Touch(c, s, k, p, w).0, w)
  {
    TouchKeepsWellFormed(c, s, k, p, w);
    PruneIsPrefix(s, p);
    var q := SegmentList.Prune(s, p);
    match Find(q, k)
    case None =>
    case Some(v) => SpacedYoungest(c, q, k, v, w, p);
  }

  lemma {:induction false} RunKeepsSpacing<K, V>(c: Lifetime, s: seq<Segment<K, V>>, ops: seq<Op<K, V>>, t: int)
    requires WellFormed(s) && Spaced(c, s, t) && TimelyRun(ops, t)
    ensures WellFormed(Run(c, s, ops).0) && Spaced(c, Run(c, s, ops).0, EndOf(ops, t))
    decreases |ops|
  {
    if ops != [] {
      StepKeepsSpacing(c, s, ops[0], t);
      RunKeepsSpacing(c, Step(c, s, ops[0]).0, ops[1..], After(ops[0], t));
    }
  }

  /** In every history, at every time, at most segments + 1 segments are unexpired. */
  lemma UnexpiredSegmentsBounded<K, V>(c: Lifetime, ops: seq<Op<K, V>>, t: int, now: int)
    requires TimelyRun(ops, t) && EndOf(ops, t) <= now
    ensures |SegmentList.Prune(Run(c, [], ops).0, now)| <= c.segments + 1
  {
    var s: seq<Segment<K, V>> := [];
    RunKeepsSpacing(c, s, ops, t);
    SegmentBound(c, Run(c, s, ops).0, now);
  }

  // ---- What each operation does to a key, in terms of lookups alone ----

  /** Where any history leaves the list. */
  ghost predicate Grown<K, V>(c: Lifetime, s: seq<Segment<K, V>>, t: int) { WellFormed(s) && Spaced(c, s, t) }

  lemma HistoryGrows<K, V>(c: Lifetime, ops: seq<Op<K, V>>, t: int)
    requires TimelyRun(ops, t)
    ensures Grown(c, Run(c, [], ops).0, EndOf(ops, t))
  {
    RunKeepsSpacing(c, [], ops, t);
  }

  lemma StoreLives<K, V>(c: Lifetime, s: seq<Segment<K, V>>, k: K, v: V, at: int, t: int, now: int)
    requires Grown(c, s, t) && t <= at
    ensures LivesFrom(c, Insert(c, s, k, v, at), k, v, at, now)
  {
    DeadlineWindow(c, s, at);
    InsertLive(c, s, k, v, at, k, now);
  }

  /** A touch finds the value that is live at its first clock reading, and the value lives on from its second. */
  lemma TouchLives<K, V>(c: Lifetime, s: seq<Segment<K, V>>, k: K, p: int, w: int, t: int, now: int)
    requires Grown(c, s, t) && t <= p <= w <= now
    ensures var (s', found) := Touch(c, s, k, p, w);
            && found == ValueOf(FindLive(s, k, p))
            && (found.Some? ==> LivesFrom(c, s', k, found.value, w, now))
            && (found.None? ==> FindLive(s', k, now) == None)
  {
    var q := SegmentList.Prune(s, p);
    FindPruned(s, k, p);
    PruneIsPrefix(s, p);
    PruneKeepsWellFormed(s, p);
    match Find(q, k)
    case Some(v) => StoreLives(c, q, k, v, w, p, now);
    case None =>
      PruneLive(s, k, p, now);
      NeverReturns(s, k, p, now);
  }

  lemma {:induction false} NeverReturns<K, V>(s: seq<Segment<K, V>>, k: K, p: int, now: int)
    requires FindLive(s, k, p) == None && p <= now
    ensures FindLive(s, k, now) == None
    decreases |s|
  {
    if s != [] && p <= s[0].deadline { NeverReturns(s[1..], k, p, now); }
  }

  lemma TouchOther<K, V>(c: Lifetime, s: seq<Segment<K, V>>, x: K, p: int, w: int, k: K, now: int)
    requires WellFormed(s) && p <= now && x != k
    ensures FindLive(Touch(c, s, x, p, w).0, k, now) == FindLive(s, k, now)
  {
    var q := SegmentList.Prune(s, p);
    PruneLive(s, k, p, now);
    match Find(q, x)
    case None =>
    case Some(v) => InsertLive(c, q, x, v, w, k, now);
  }

  /** Whether op stores, removes or visits k; all other operations leave k as it is. */
  predicate Concerns<K(==), V>(op: Op<K, V>, k: K) {
    match op
    case Put(x, _, _) => x == k
    case Erase(x) => x == k
    case Clear => true
    case Get(x, _, _) => x == k
    case GetOrPut(x, _, _, _) => x == k
    case Visit(x, _, _) => x == k
    case At(_, _) => false
    case Contains(_, _) => false
    case Size(_) => false
    case Prune(_) => false
  }

  /** Reads, prunes and operations on other keys change neither value nor deadline of k. */
  lemma OthersLeaveKey<K, V>(c: Lifetime, s: seq<Segment<K, V>>, op: Op<K, V>, t: int, k: K, now: int)
    requires Grown(c, s, t) && Timely(op, t) && After(op, t) <= now && !Concerns(op, k)
    ensures FindLive(Step(c, s, op).0, k, now) == FindLive(s, k, now)
  {
    match op
    case Put(x, v, at) => InsertLive(c, s, x, v, at, k, now);
    case Erase(x) => EraseLive(s, x, k, now);
    case Get(x, p, w) => TouchOther(c, s, x, p, w, k, now);
    case GetOrPut(x, made, p, w) =>
      TouchOther(c, s, x, p, w, k, now);
      InsertLive(c, Touch(c, s, x, p, w).0, x, made, w, k, now);
    case Visit(x, f, at) => ModifyLive(s, x, f, at, k, now);
    case Prune(at) => PruneLive(s, k, at, now);
    case At(_, _) =>
    case Contains(_, _) =>
    case Size(_) =>
  }

  /**
   After any history: a put lives from its time on; get and get_or_put return the live value
   (or the made one) and it lives from then on; a visit changes a live value and no
   deadline; an erased or cleared key is gone.
   */
  lemma OperationOnKey<K, V>(c: Lifetime, ops: seq<Op<K, V>>, t: int, op: Op<K, V>, k: K, now: int)
    requires TimelyRun(ops, t) && Timely(op, EndOf(ops, t)) && After(op, EndOf(ops, t)) <= now
    ensures var s := Run(c, [], ops).0;
            var (s', r) := Step(c, s, op);
            && (!Concerns(op, k) ==> FindLive(s', k, now) == FindLive(s, k, now))
            && (op.Put? && op.k == k ==> LivesFrom(c, s', k, op.v, op.at, now))
            && (op.Get? && op.k == k ==>
                  && r == Value(ValueOf(FindLive(s, k, op.pruneAt)))
                  && if r.v.Some? then LivesFrom(c, s', k, r.v.value, op.storeAt, now)
                     else FindLive(s', k, now) == None)
            && (op.GetOrPut? && op.k == k ==>
                  var found := FindLive(s, k, op.pruneAt);
                  var v := if found.Some? then found.value.value else op.made;
                  r == Value(Some(v)) && LivesFrom(c, s', k, v, op.storeAt, now))
            && (op.Visit? && op.k == k ==>
                  && r == Flag(FindLive(s, k, op.at).Some?)
                  && FindLive(s', k, now) == match FindLive(s, k, now)
                                             case None => None
                                             case Some(e) => Some(Timed(op.f(e.value), e.deadline)))
            && ((op.Erase? && op.k == k) || op.Clear? ==> FindLive(s', k, now) == None)
  {
    var s, end := Run(c, [], ops).0, EndOf(ops, t);
    HistoryGrows(c, ops, t);
    if !Concerns(op, k) { OthersLeaveKey(c, s, op, end, k, now); } else { StepOnKey(c, s, op, end, k, now); }
  }

  lemma StepOnKey<K, V>(c: Lifetime, s: seq<Segment<K, V>>, op: Op<K, V>, t: int, k: K, now: int)
    requires Grown(c, s, t) && Timely(op, t) && After(op, t) <= now && Concerns(op, k)
    ensures var (s', r) := Step(c, s, op);
            && (op.Put? ==> LivesFrom(c, s', k, op.v, op.at, now))
            && (op.Get? ==>
                  && r == Value(ValueOf(FindLive(s, k, op.pruneAt)))
                  && if r.v.Some? then LivesFrom(c, s', k, r.v.value, op.storeAt, now)
                     else FindLive(s', k, now) == None)
            && (op.GetOrPut? ==>
                  var found := FindLive(s, k, op.pruneAt);
                  var v := if found.Some? then found.value.value else op.made;
                  r == Value(Some(v)) && LivesFrom(c, s', k, v, op.storeAt, now))
            && (op.Visit? ==>
                  FindLive(s', k, now) == match FindLive(s, k, now)
                                          case None => None
                                          case Some(e) => Some(Timed(op.f(e.value), e.deadline)))
            && (op.Erase? || op.Clear? ==> FindLive(s', k, now) == None)
  {
    match op
    case Put(_, v, at) => StoreLives(c, s, k, v, at, t, now);
    case Erase(_) => EraseLive(s, k, k, now);
    case Clear =>
    case Get(_, p, w) => TouchLives(c, s, k, p, w, t, now);
    case GetOrPut(_, made, p, w) =>
      TouchLives(c, s, k, p, w, t, now);
      TouchKeepsSpacing(c, s, k, p, w, t);
      StoreLives(c, Touch(c, s, k, p, w).0, k, made, w, w, now);
    case Visit(_, f, at) => ModifyLive(s, k, f, at, k, now);
  }

  /**
   Exactly how long the first entry of an empty cache lives, and that a second one stored
   within a partition expires with it, later ones on their own.
   */
  lemma FirstPutsExactly<K, V>(c: Lifetime, k: K, v: V, p: int, x: K, y: V, p': int, now: int)
    requires p <= p' <= now && x != k
    ensures var part := 1000 * c.expiry / c.segments;
            var first := p + 1000 * c.expiry + part;
            var second := if p' <= p + part then first else p' + 1000 * c.expiry + part;
            var s := Run(c, [], [Put(k, v, p), Put(x, y, p')]).0;
            && FindLive(s, k, now) == (if now <= first then Some(Timed(v, first)) else None)
            && FindLive(s, x, now) == (if now <= second then Some(Timed(y, second)) else None)
  {
    var ops: seq<Op<K, V>> := [Put(k, v, p), Put(x, y, p')];
    var s0: seq<Segment<K, V>> := [];
    assert ops[1..] == [Put(x, y, p')] && ops[1..][1..] == [];
    var s1 := Insert(c, s0, k, v, p);
    var s2 := Insert(c, s1, x, y, p');
    assert Run(c, s2, []).0 == s2;
    assert Run(c, s1, [Put(x, y, p')]).0 == s2;
    assert Run(c, s0, ops).0 == s2;
    DeadlineWindow(c, s0, p);
    DeadlineWindow(c, s1, p');
    InsertLive(c, s0, k, v, p, k, now);
    InsertLive(c, s1, x, y, p', k, now);
    InsertLive(c, s1, x, y, p', x, now);
  }
}
