/**
 Whole runs of the rate limiter.  The stack is the limiter over the 100-second,
 16-segment cache, with 32-bit stamps (`Narrow`) as in the source or with unbounded
 ones (`Wide`); the ideal limiter keeps an unbounded quota per key and never forgets.
 One clock reading serves a whole limiter operation, and the cache may be pruned
 between operations.
 */
module LimiterStack {
  import opened Arithmetic
  import opened Options
  import opened SegmentList
  import opened TokenBucket

  datatype Op<K> =
    | Checkpoint(k: K, point: nat, at: int)
    | Remaining(k: K, at: int)
    | Reset
    | Prune(at: int)

  datatype Clock = Wide | Narrow {
    function Stamp(t: int): int { if Wide? then t else t % U32 }
  }

  const STORE: Lifetime := Lifetime(100, 16)

  /** The quota of k after its refill at `now`, out of what the store returned. */
  function Refilled(w: Clock, l: Limit, found: Option<Quota>, now: int): Quota {
    match found
    case None => Quota(l.maxBucket, w.Stamp(now))
    case Some(q) => if w.Wide? then Refill(l, q, now) else RefillWords(l, q, now % U32)
  }

  function StackStep<K(==)>(w: Clock, l: Limit, s: seq<Segment<K, Quota>>, op: Op<K>): (seq<Segment<K, Quota>>, nat) {
    match op
    case Checkpoint(k, point, at) =>
      var (s', found) := Touch(STORE, s, k, at, at);
      var q := Refilled(w, l, found, at);
      var granted := Min(point, q.remaining);
      (Insert(STORE, s', k, Quota(q.remaining - granted, q.stamp), at), granted)
    case Remaining(k, at) =>
      var (s', found) := Touch(STORE, s, k, at, at);
      (s', Refilled(w, l, found, at).remaining)
    case Reset => ([], 0)
    case Prune(at) => (SegmentList.Prune(s, at), 0)
  }

  function IdealQuota<K(==)>(l: Limit, m: map<K, Quota>, k: K, now: int): Quota {
    if k in m then Refill(l, m[k], now) else Quota(l.maxBucket, now)
  }

  function IdealStep<K(==)>(l: Limit, m: map<K, Quota>, op: Op<K>): (map<K, Quota>, nat) {
    match op
    case Checkpoint(k, point, at) =>
      var q := IdealQuota(l, m, k, at);
      var granted := Min(point, q.remaining);
      (m[k := Quota(q.remaining - granted, q.stamp)], granted)
    case Remaining(k, at) => (m, IdealQuota(l, m, k, at).remaining)
    case Reset => (map[], 0)
    case Prune(_) => (m, 0)
  }

  predicate Timely<K>(op: Op<K>, t: int) { op.Reset? || t <= op.at }

  function After<K>(op: Op<K>, t: int): int { if op.Reset? then t else op.at }

  predicate TimelyRun<K>(ops: seq<Op<K>>, t: int)
    decreases |ops|
  {
    ops == [] || (Timely(ops[0], t) && TimelyRun(ops[1..], After(ops[0], t)))
  }

  function StackRun<K(==)>(w: Clock, l: Limit, s: seq<Segment<K, Quota>>, ops: seq<Op<K>>): (r: seq<nat>)
    ensures |r| == |ops|
    decreases |ops|
  {
    if ops == [] then []
    else var (s', x) := StackStep(w, l, s, ops[0]); [x] + StackRun(w, l, s', ops[1..])
  }

  lemma StackUnfolds<K>(w: Clock, l: Limit, s: seq<Segment<K, Quota>>, ops: seq<Op<K>>)
    requires ops != []
    ensures var (s', x) := StackStep(w, l, s, ops[0]); StackRun(w, l, s, ops) == [x] + StackRun(w, l, s', ops[1..])
  {
  }

  lemma IdealUnfolds<K>(l: Limit, m: map<K, Quota>, ops: seq<Op<K>>)
    requires ops != []
    ensures var (m', x) := IdealStep(l, m, ops[0]); IdealRun(l, m, ops) == [x] + IdealRun(l, m', ops[1..])
  {
  }

  function IdealRun<K(==)>(l: Limit, m: map<K, Quota>, ops: seq<Op<K>>): (r: seq<nat>)
    ensures |r| == |ops|
    decreases |ops|
  {
    if ops == [] then []
    else var (m', x) := IdealStep(l, m, ops[0]); [x] + IdealRun(l, m', ops[1..])
  }

  // ---- States along a run ----

  function StackAfter<K(==)>(w: Clock, l: Limit, s: seq<Segment<K, Quota>>, ops: seq<Op<K>>): seq<Segment<K, Quota>>
    decreases |ops|
  {
    if ops == [] then s else StackAfter(w, l, StackStep(w, l, s, ops[0]).0, ops[1..])
  }

  function IdealAfter<K(==)>(l: Limit, m: map<K, Quota>, ops: seq<Op<K>>): map<K, Quota>
    decreases |ops|
  {
    if ops == [] then m else IdealAfter(l, IdealStep(l, m, ops[0]).0, ops[1..])
  }

  function EndOf<K>(ops: seq<Op<K>>, t: int): int
    decreases |ops|
  {
    if ops == [] then t else EndOf(ops[1..], After(ops[0], t))
  }

  lemma {:induction false} TimelyAppend<K>(a: seq<Op<K>>, b: seq<Op<K>>, t: int)
    requires TimelyRun(a + b, t)
    ensures TimelyRun(a, t) && TimelyRun(b, EndOf(a, t)) && EndOf(a + b, t) == EndOf(b, EndOf(a, t))
    decreases |a|
  {
    if a == [] {
      assert a + b == b;
    } else {
      assert (a + b)[1..] == a[1..] + b;
      TimelyAppend(a[1..], b, After(a[0], t));
    }
  }

  lemma {:induction false} AfterAppend<K>(w: Clock, l: Limit, s: seq<Segment<K, Quota>>, m: map<K, Quota>,
                                          a: seq<Op<K>>, b: seq<Op<K>>)
    ensures StackAfter(w, l, s, a + b) == StackAfter(w, l, StackAfter(w, l, s, a), b)
    ensures IdealAfter(l, m, a + b) == IdealAfter(l, IdealAfter(l, m, a), b)
    decreases |a|
  {
    if a == [] {
      assert a + b == b;
    } else {
      assert (a + b)[1..] == a[1..] + b;
      AfterAppend(w, l, StackStep(w, l, s, a[0]).0, IdealStep(l, m, a[0]).0, a[1..], b);
    }
  }

  /** Each result of a run is that of its operation after the operations before it. */
  lemma {:induction false} ResultAt<K>(w: Clock, l: Limit, s: seq<Segment<K, Quota>>, m: map<K, Quota>,
                                       ops: seq<Op<K>>, t: int, i: nat)
    requires TimelyRun(ops, t) && i < |ops|
    ensures StackRun(w, l, s, ops)[i] == StackStep(w, l, StackAfter(w, l, s, ops[..i]), ops[i]).1
    ensures IdealRun(l, m, ops)[i] == IdealStep(l, IdealAfter(l, m, ops[..i]), ops[i]).1
    ensures Timely(ops[i], EndOf(ops[..i], t))
    decreases |ops|
  {
    StackUnfolds(w, l, s, ops);
    IdealUnfolds(l, m, ops);
    if i > 0 {
      ResultAt(w, l, StackStep(w, l, s, ops[0]).0, IdealStep(l, m, ops[0]).0, ops[1..], After(ops[0], t), i - 1);
      assert ops[..i][1..] == ops[1..][..i - 1];
    }
  }

  // ---- Operations of a key ----

  predicate AboutKey<K(==)>(op: Op<K>, k: K) { (op.Checkpoint? || op.Remaining?) && op.k == k }

  /** When each key was last checked since the last reset. */
  function LastAfter<K(==)>(last: map<K, int>, op: Op<K>): map<K, int> {
    match op case Checkpoint(k, _, at) => last[k := at] case Reset => map[] case _ => last
  }

  function LastOf<K(==)>(last: map<K, int>, ops: seq<Op<K>>): map<K, int>
    decreases |ops|
  {
    if ops == [] then last else LastOf(LastAfter(last, ops[0]), ops[1..])
  }

  /** A poll this long after the key's last checkpoint still cannot carry a stamp around 2^32. */
  const POLL_LIMIT: int := U32 - 107_250

  predicate PollIsClose<K(==)>(op: Op<K>, k: K, last: map<K, int>) {
    op.Remaining? && op.k == k && k in last ==> op.at <= last[k] + POLL_LIMIT
  }

  /** get_remaining is never called for k later than POLL_LIMIT after the last checkpoint of k. */
  predicate PollsClose<K(==)>(ops: seq<Op<K>>, k: K, last: map<K, int>)
    decreases |ops|
  {
    ops == [] || (PollIsClose(ops[0], k, last) && PollsClose(ops[1..], k, LastAfter(last, ops[0])))
  }

  predicate CheckpointsOnly<K>(ops: seq<Op<K>>) {
    forall i :: 0 <= i < |ops| ==> !ops[i].Remaining?
  }

  // ---- One key: forgetting and wraparound are invisible ----

  /** The quota of k is within bounds; `near`: its stamp is less than a token behind its last checkpoint. */
  predicate Sane<K(==)>(near: bool, l: Limit, m: map<K, Quota>, last: map<K, int>, k: K, t: int) {
    k in m ==>
      && m[k].stamp <= t && m[k].remaining <= l.maxBucket
      && (near ==> k in last && m[k].stamp <= last[k] <= t && (l.rate > 0 ==> last[k] - m[k].stamp < 1000))
  }

  /** What the live entry e of a key says about its ideal quota q; `near` keeps it within 2^32 of the stamp. */
  predicate Mirrors(w: Clock, near: bool, l: Limit, e: Timed<Quota>, q: Quota) {
    && e.value.remaining == q.remaining
    && (l.rate > 0 ==> e.value.stamp == w.Stamp(q.stamp))
    && q.stamp + STORE.ExpiryMs() <= e.deadline
    && (near && l.rate > 0 ==> e.deadline < q.stamp + U32)
  }

  /** A live key mirrors its ideal quota; a forgotten one has been idle for over 100 seconds. */
  predicate Entry<K(==)>(w: Clock, near: bool, l: Limit, s: seq<Segment<K, Quota>>, m: map<K, Quota>, k: K, u: int) {
    match FindLive(s, k, u)
    case None => k in m ==> m[k].stamp + STORE.ExpiryMs() < u
    case Some(e) => k in m && Mirrors(w, near, l, e, m[k])
  }

  /** From time t on the list s stands for the quota of k in m, whatever it holds of other keys. */
  ghost predicate Rel<K>(w: Clock, near: bool, l: Limit, s: seq<Segment<K, Quota>>, m: map<K, Quota>,
                         last: map<K, int>, k: K, t: int)
  {
    && WellFormed(s) && Sane(near, l, m, last, k, t)
    && (s != [] ==> s[0].deadline <= t + STORE.ExpiryMs() + STORE.SegmentMs())
    && (forall u :: t <= u ==> Entry(w, near, l, s, m, k, u))
  }

  lemma RelPrune<K>(w: Clock, near: bool, l: Limit, s: seq<Segment<K, Quota>>, m: map<K, Quota>, last: map<K, int>,
                    at: int, k: K, t: int)
    requires Rel(w, near, l, s, m, last, k, t) && t <= at
    ensures Rel(w, near, l, SegmentList.Prune(s, at), m, last, k, at)
  {
    PruneKeepsWellFormed(s, at);
    PruneIsPrefix(s, at);
    var p := SegmentList.Prune(s, at);
    forall u | at <= u ensures Entry(w, near, l, p, m, k, u) {
      PruneLive(s, k, at, u);
      assert Entry(w, near, l, s, m, k, u);
    }
  }

  predicate SameAt<K(==), V(==)>(a: map<K, V>, b: map<K, V>, k: K) {
    (k in a <==> k in b) && (k in a ==> a[k] == b[k])
  }

  /** v may be stored for k at `at`: it mirrors the quota of k, which `near` keeps close to its last checkpoint. */
  predicate MayStore<K(==)>(w: Clock, near: bool, l: Limit, m: map<K, Quota>, last: map<K, int>,
                            k: K, v: Quota, at: int)
  {
    && k in m && v.remaining == m[k].remaining && (l.rate > 0 ==> v.stamp == w.Stamp(m[k].stamp))
    && Sane(near, l, m, last, k, at)
    && (near ==> at <= last[k] + POLL_LIMIT)
  }

  /** A store for x keeps the relation for k: it stores a mirror of k's new quota, or leaves k as it was. */
  lemma RelInsert<K>(w: Clock, near: bool, l: Limit, s: seq<Segment<K, Quota>>, m: map<K, Quota>, last: map<K, int>,
                     m': map<K, Quota>, last': map<K, int>, x: K, v: Quota, at: int, k: K, t: int)
    requires Rel(w, near, l, s, m, last, k, t) && t <= at
    requires if x == k then MayStore(w, near, l, m', last', k, v, at) else SameAt(m, m', k) && SameAt(last, last', k)
    ensures Rel(w, near, l, Insert(STORE, s, x, v, at), m', last', k, at)
  {
    var s' := Insert(STORE, s, x, v, at);
    InsertKeepsWellFormed(STORE, s, x, v, at);
    DeadlineWindow(STORE, s, at);
    assert s'[0].deadline == NextDeadline(STORE, s, at);
    forall u | at <= u ensures Entry(w, near, l, s', m', k, u) {
      InsertLive(STORE, s, x, v, at, k, u);
      assert Entry(w, near, l, s, m, k, u);
    }
  }

  /** What a lookup returns, whether the key is live, forgotten or new, refills to the ideal quota. */
  lemma LookupAgrees<K>(w: Clock, near: bool, l: Limit, s: seq<Segment<K, Quota>>, m: map<K, Quota>,
                        last: map<K, int>, k: K, at: int, t: int)
    requires Accepted(l) && Rel(w, near, l, s, m, last, k, t) && t <= at
    requires w.Narrow? ==> near
    ensures var v, q := Refilled(w, l, Touch(STORE, s, k, at, at).1, at), IdealQuota(l, m, k, at);
            && v.remaining == q.remaining <= l.maxBucket
            && (l.rate > 0 ==> v.stamp == w.Stamp(q.stamp))
            && q.stamp <= at && (l.rate > 0 ==> at - q.stamp < 1000)
  {
    FindPruned(s, k, at);
    assert Entry(w, near, l, s, m, k, at);
    if k in m {
      RefillFacts(l, m[k], at);
      StampIsFresh(l, Refill(l, m[k], at), at);
      match FindLive(s, k, at)
      case None => IdleBucketIsFull(l, m[k], at);
      case Some(e) =>
        if w.Narrow? {
          if l.rate > 0 { WordsExact(l, m[k], at); }
          else { ZeroRate(l, e.value, at % U32); }
        } else if l.rate == 0 {
          ZeroRate(l, e.value, at);
        }
    }
  }

  lemma StampIsFresh(l: Limit, q: Quota, at: int)
    requires l.rate * (at - q.stamp) < 1000
    ensures l.rate > 0 ==> at - q.stamp < 1000
  {
  }

  lemma ZeroRate(l: Limit, q: Quota, now: int)
    requires l.rate == 0
    ensures Refill(l, q, now) == q
    ensures 0 <= now ==> RefillWords(l, q, now) == q
  {
  }

  /** get_remaining refreshes a live key and leaves a forgotten one alone. */
  lemma RelTouch<K>(w: Clock, near: bool, l: Limit, s: seq<Segment<K, Quota>>, m: map<K, Quota>, last: map<K, int>,
                    x: K, at: int, k: K, t: int)
    requires Rel(w, near, l, s, m, last, k, t) && t <= at
    requires near && x == k && k in last ==> at <= last[k] + POLL_LIMIT
    ensures Rel(w, near, l, Touch(STORE, s, x, at, at).0, m, last, k, at)
  {
    var p := SegmentList.Prune(s, at);
    RelPrune(w, near, l, s, m, last, at, k, t);
    FindPruned(s, x, at);
    assert Entry(w, near, l, s, m, k, at);
    match Find(p, x)
    case None =>
    case Some(v) => RelInsert(w, near, l, p, m, last, m, last, x, v, at, k, at);
  }

  /** Storing right after a touch at the same instant is storing into the pruned list. */
  lemma RelStore<K>(w: Clock, near: bool, l: Limit, s: seq<Segment<K, Quota>>, m: map<K, Quota>, last: map<K, int>,
                    m': map<K, Quota>, last': map<K, int>, x: K, v: Quota, at: int, k: K, t: int)
    requires Rel(w, near, l, s, m, last, k, t) && t <= at
    requires if x == k then MayStore(w, near, l, m', last', k, v, at) else SameAt(m, m', k) && SameAt(last, last', k)
    ensures Rel(w, near, l, Insert(STORE, Touch(STORE, s, x, at, at).0, x, v, at), m', last', k, at)
  {
    var p := SegmentList.Prune(s, at);
    RelPrune(w, near, l, s, m, last, at, k, t);
    RelInsert(w, near, l, p, m, last, m', last', x, v, at, k, at);
    match Find(p, x)
    case None =>
    case Some(y) => InsertTwice(p, x, y, v, at);
  }

  /** A second store at the same instant replaces the first one in the same segment. */
  lemma InsertTwice<K>(p: seq<Segment<K, Quota>>, k: K, x: Quota, v: Quota, at: int)
    ensures Insert(STORE, Insert(STORE, p, k, x, at), k, v, at) == Insert(STORE, p, k, v, at)
  {
    var e := EraseKey(p, k);
    var a := Insert(STORE, p, k, x, at);
    var y := Youngest(STORE, e, at);
    var f := EraseKey(a, k);
    forall i | 0 <= i < |y| ensures f[i] == y[i] {
      assert y[i].entries - {k} == y[i].entries;
      assert y[i].entries[k := x] - {k} == y[i].entries;
    }
    assert f == y;
  }

  lemma CheckpointKeepsRel<K>(w: Clock, near: bool, l: Limit, s: seq<Segment<K, Quota>>, m: map<K, Quota>,
                              last: map<K, int>, op: Op<K>, k: K, t: int)
    requires Rel(w, near, l, s, m, last, k, t) && op.Checkpoint? && t <= op.at
    requires op.k == k ==> Accepted(l) && (w.Narrow? ==> near)
    ensures Rel(w, near, l, StackStep(w, l, s, op).0, IdealStep(l, m, op).0, LastAfter(last, op), k, op.at)
  {
    var x, at := op.k, op.at;
    if x == k { LookupAgrees(w, near, l, s, m, last, k, at, t); }
    var v := Refilled(w, l, Touch(STORE, s, x, at, at).1, at);
    var stored := Quota(v.remaining - Min(op.point, v.remaining), v.stamp);
    RelStore(w, near, l, s, m, last, IdealStep(l, m, op).0, LastAfter(last, op), x, stored, at, k, t);
  }

  /** Every operation keeps the relation for k; a checkpoint of k needs an exact lookup. */
  lemma StepKeepsRel<K>(w: Clock, near: bool, l: Limit, s: seq<Segment<K, Quota>>, m: map<K, Quota>,
                        last: map<K, int>, op: Op<K>, k: K, t: int)
    requires Rel(w, near, l, s, m, last, k, t) && Timely(op, t)
    requires op.Checkpoint? && op.k == k ==> Accepted(l) && (w.Narrow? ==> near)
    requires near ==> PollIsClose(op, k, last)
    ensures Rel(w, near, l, StackStep(w, l, s, op).0, IdealStep(l, m, op).0, LastAfter(last, op), k, After(op, t))
  {
    match op
    case Checkpoint(_, _, _) => CheckpointKeepsRel(w, near, l, s, m, last, op, k, t);
    case Remaining(x, at) => RelTouch(w, near, l, s, m, last, x, at, k, t);
    case Reset =>
    case Prune(at) => RelPrune(w, near, l, s, m, last, at, k, t);
  }

  lemma ResultAgrees<K>(w: Clock, near: bool, l: Limit, s: seq<Segment<K, Quota>>, m: map<K, Quota>,
                        last: map<K, int>, op: Op<K>, k: K, t: int)
    requires Accepted(l) && Rel(w, near, l, s, m, last, k, t) && Timely(op, t) && AboutKey(op, k)
    requires w.Narrow? ==> near
    ensures StackStep(w, l, s, op).1 == IdealStep(l, m, op).1
  {
    LookupAgrees(w, near, l, s, m, last, k, op.at, t);
  }

  /** The results of k agree along a run, whatever is done with other keys. */
  lemma {:induction false} RunAgrees<K>(w: Clock, near: bool, l: Limit, s: seq<Segment<K, Quota>>, m: map<K, Quota>,
                                        last: map<K, int>, ops: seq<Op<K>>, k: K, t: int)
    requires Accepted(l) && Rel(w, near, l, s, m, last, k, t) && TimelyRun(ops, t)
    requires w.Narrow? ==> near
    requires near ==> PollsClose(ops, k, last)
    ensures forall i :: 0 <= i < |ops| && AboutKey(ops[i], k) ==> StackRun(w, l, s, ops)[i] == IdealRun(l, m, ops)[i]
    ensures Rel(w, near, l, StackAfter(w, l, s, ops), IdealAfter(l, m, ops), LastOf(last, ops), k, EndOf(ops, t))
    decreases |ops|
  {
    if ops != [] {
      var op, rest := ops[0], ops[1..];
      var s', m' := StackStep(w, l, s, op).0, IdealStep(l, m, op).0;
      StepKeepsRel(w, near, l, s, m, last, op, k, t);
      RunAgrees(w, near, l, s', m', LastAfter(last, op), rest, k, After(op, t));
      if AboutKey(op, k) { ResultAgrees(w, near, l, s, m, last, op, k, t); }
      StackUnfolds(w, l, s, ops);
      IdealUnfolds(l, m, ops);
      forall i | 0 <= i < |ops| && AboutKey(ops[i], k) ensures StackRun(w, l, s, ops)[i] == IdealRun(l, m, ops)[i] {
        if i > 0 { assert AboutKey(rest[i - 1], k); }
      }
    }
  }

  // ---- All keys ----

  /** Results that agree for every key agree; resets and prunes return nothing. */
  lemma ResultsOfKeys<K(!new)>(w: Clock, l: Limit, ops: seq<Op<K>>, t: int)
    requires TimelyRun(ops, t)
    requires forall k, i :: 0 <= i < |ops| && AboutKey(ops[i], k) ==>
               StackRun(w, l, [], ops)[i] == IdealRun(l, map[], ops)[i]
    ensures StackRun(w, l, [], ops) == IdealRun(l, map[], ops)
  {
    forall i | 0 <= i < |ops| ensures StackRun(w, l, [], ops)[i] == IdealRun(l, map[], ops)[i] {
      ResultAt(w, l, [], map[], ops, t, i);
      assert ops[i].Reset? || ops[i].Prune? || AboutKey(ops[i], ops[i].k);
    }
  }

  /**
   Forgetting is invisible: over the cache that drops idle keys, every run gives the
   grants and counts of a limiter that never forgets.
   */
  lemma {:induction false} ForgettingInvisible<K(!new)>(l: Limit, ops: seq<Op<K>>, t: int)
    requires Accepted(l) && TimelyRun(ops, t)
    ensures StackRun(Wide, l, [], ops) == IdealRun(l, map[], ops)
  {
    forall k, i | 0 <= i < |ops| && AboutKey(ops[i], k)
      ensures StackRun(Wide, l, [], ops)[i] == IdealRun(l, map[], ops)[i]
    {
      RunAgrees(Wide, false, l, [], map[], map[], ops, k, t);
    }
    ResultsOfKeys(Wide, l, ops, t);
  }

  /**
   Wraparound is harmless: the source's 32-bit limiter gives a key its ideal grants and
   counts while the key's own polls stay close to its checkpoints, whatever happens to
   other keys.
   */
  lemma {:induction false} WraparoundHarmless<K>(l: Limit, ops: seq<Op<K>>, k: K, t: int)
    requires Accepted(l) && TimelyRun(ops, t) && PollsClose(ops, k, map[])
    ensures forall i :: 0 <= i < |ops| && AboutKey(ops[i], k) ==>
              StackRun(Narrow, l, [], ops)[i] == IdealRun(l, map[], ops)[i]
  {
    RunAgrees(Narrow, true, l, [], map[], map[], ops, k, t);
  }

  lemma {:induction false} CheckpointsPollClose<K>(ops: seq<Op<K>>, k: K, last: map<K, int>)
    requires CheckpointsOnly(ops)
    ensures PollsClose(ops, k, last)
    decreases |ops|
  {
    if ops != [] {
      assert !ops[0].Remaining?;
      CheckpointsPollClose(ops[1..], k, LastAfter(last, ops[0]));
    }
  }

  /** In particular, runs of checkpoints of any length never notice the wrap. */
  lemma {:induction false} CheckpointRunsNeverWrap<K(!new)>(l: Limit, ops: seq<Op<K>>, t: int)
    requires Accepted(l) && TimelyRun(ops, t) && CheckpointsOnly(ops)
    ensures StackRun(Narrow, l, [], ops) == IdealRun(l, map[], ops)
  {
    forall k, i | 0 <= i < |ops| && AboutKey(ops[i], k)
      ensures StackRun(Narrow, l, [], ops)[i] == IdealRun(l, map[], ops)[i]
    {
      CheckpointsPollClose(ops, k, map[]);
      WraparoundHarmless(l, ops, k, t);
    }
    ResultsOfKeys(Narrow, l, ops, t);
  }

  // ---- Polls that outlive 2^32 milliseconds ----

  /** Nothing but polls of k, and anything with other keys. */
  predicate NoCheckpointOf<K(==)>(ops: seq<Op<K>>, k: K) {
    forall i :: 0 <= i < |ops| ==> !(ops[i].Checkpoint? && ops[i].k == k)
  }

  /** The count that 32-bit arithmetic gives a key with quota q, unless that is more than a full bucket. */
  function WrappedCount(l: Limit, q: Quota, at: int): nat {
    q.remaining + Recovered(l, (at - q.stamp) % U32)
  }

  /** The key has been forgotten, or its stamp is less than 2^32 old, or the wrapped age already fills the bucket. */
  predicate CountsRight<K(==)>(l: Limit, s: seq<Segment<K, Quota>>, m: map<K, Quota>, k: K, at: int) {
    || FindLive(s, k, at).None?
    || (k in m && (at - m[k].stamp < U32 || WrappedCount(l, m[k], at) >= l.maxBucket))
  }

  /** A 32-bit lookup that does not count right finds the wrapped count, and the bucket should be full. */
  lemma LookupExact<K>(l: Limit, s: seq<Segment<K, Quota>>, m: map<K, Quota>, k: K, at: int, t: int)
    requires Accepted(l) && Rel(Narrow, false, l, s, m, map[], k, t) && t <= at
    ensures var v, q := Refilled(Narrow, l, Touch(STORE, s, k, at, at).1, at), IdealQuota(l, m, k, at);
            && (v.remaining == q.remaining <==> CountsRight(l, s, m, k, at))
            && (!CountsRight(l, s, m, k, at) ==>
                  k in m && v.remaining == WrappedCount(l, m[k], at) && q.remaining == l.maxBucket)
  {
    FindPruned(s, k, at);
    assert Entry(Narrow, false, l, s, m, k, at);
    match FindLive(s, k, at)
    case None =>
      if k in m { IdleBucketIsFull(l, m[k], at); }
    case Some(e) =>
      if l.rate == 0 {
        ZeroRate(l, e.value, at % U32);
        ZeroRate(l, m[k], at);
        AcceptedBound(l);
      } else {
        WrapIsExact(l, m[k], at);
        WordsCount(l, m[k], at);
        if U32 <= at - m[k].stamp { IdleBucketIsFull(l, m[k], at); }
      }
  }

  lemma RelWeakens<K>(l: Limit, s: seq<Segment<K, Quota>>, m: map<K, Quota>, last: map<K, int>, k: K, t: int)
    requires Rel(Narrow, true, l, s, m, last, k, t)
    ensures Rel(Narrow, false, l, s, m, map[], k, t)
  {
    forall u | t <= u ensures Entry(Narrow, false, l, s, m, k, u) {
      assert Entry(Narrow, true, l, s, m, k, u);
    }
  }

  lemma {:induction false} QuietKeepsRel<K>(l: Limit, s: seq<Segment<K, Quota>>, m: map<K, Quota>, last: map<K, int>,
                                            ops: seq<Op<K>>, k: K, t: int)
    requires Rel(Narrow, false, l, s, m, last, k, t) && TimelyRun(ops, t) && NoCheckpointOf(ops, k)
    ensures var s', m' := StackAfter(Narrow, l, s, ops), IdealAfter(l, m, ops);
            Rel(Narrow, false, l, s', m', LastOf(last, ops), k, EndOf(ops, t))
    decreases |ops|
  {
    if ops != [] {
      var op := ops[0];
      StepKeepsRel(Narrow, false, l, s, m, last, op, k, t);
      var s', m' := StackStep(Narrow, l, s, op).0, IdealStep(l, m, op).0;
      QuietKeepsRel(l, s', m', LastAfter(last, op), ops[1..], k, After(op, t));
    }
  }

  /** A limiter that started empty, after a run with close polls of k, and then no checkpoint of k. */
  lemma AfterQuiet<K>(l: Limit, before: seq<Op<K>>, quiet: seq<Op<K>>, k: K, t: int)
    requires Accepted(l) && TimelyRun(before + quiet, t) && PollsClose(before, k, map[]) && NoCheckpointOf(quiet, k)
    ensures var all := before + quiet;
            Rel(Narrow, false, l, StackAfter(Narrow, l, [], all), IdealAfter(l, map[], all), map[], k, EndOf(all, t))
  {
    TimelyAppend(before, quiet, t);
    AfterAppend(Narrow, l, [], map[], before, quiet);
    RunAgrees(Narrow, true, l, [], map[], map[], before, k, t);
    var s, m := StackAfter(Narrow, l, [], before), IdealAfter(l, map[], before);
    RelWeakens(l, s, m, LastOf(map[], before), k, EndOf(before, t));
    QuietKeepsRel(l, s, m, map[], quiet, k, EndOf(before, t));
  }

  lemma BehindQuiet<K>(l: Limit, before: seq<Op<K>>, rest: seq<Op<K>>, k: K, t: int, i: nat) returns (end: int)
    requires Accepted(l) && TimelyRun(before + rest, t) && PollsClose(before, k, map[])
    requires i < |rest| && NoCheckpointOf(rest[..i], k) && !rest[i].Reset?
    ensures var ops, n := before + rest, |before| + i;
            var s, m := StackAfter(Narrow, l, [], ops[..n]), IdealAfter(l, map[], ops[..n]);
            && Rel(Narrow, false, l, s, m, map[], k, end) && end <= rest[i].at
            && StackRun(Narrow, l, [], ops)[n] == StackStep(Narrow, l, s, rest[i]).1
            && IdealRun(l, map[], ops)[n] == IdealStep(l, m, rest[i]).1
  {
    var ops, n := before + rest, |before| + i;
    assert ops[..n] == before + rest[..i] && ops[n] == rest[i];
    assert ops == ops[..n] + ops[n..];
    TimelyAppend(ops[..n], ops[n..], t);
    ResultAt(Narrow, l, [], map[], ops, t, n);
    AfterQuiet(l, before, rest[..i], k, t);
    end := EndOf(ops[..n], t);
  }

  /**
   Exactly when polling counts right: in the run of a new limiter, after any beginning
   with close polls of k and then anything but checkpoints of k, a poll of k returns the
   ideal count if and only if the key has been forgotten, or its stamp is less than 2^32
   old, or the wrapped age already fills the bucket.
   */
  lemma PollingExact<K>(l: Limit, before: seq<Op<K>>, rest: seq<Op<K>>, k: K, t: int, i: nat)
    requires Accepted(l) && TimelyRun(before + rest, t) && PollsClose(before, k, map[])
    requires i < |rest| && NoCheckpointOf(rest[..i], k) && rest[i].Remaining? && rest[i].k == k
    ensures var ops, n := before + rest, |before| + i;
            StackRun(Narrow, l, [], ops)[n] == IdealRun(l, map[], ops)[n] <==>
            CountsRight(l, StackAfter(Narrow, l, [], ops[..n]), IdealAfter(l, map[], ops[..n]), k, rest[i].at)
  {
    var past := (before + rest)[..|before| + i];
    var end := BehindQuiet(l, before, rest, k, t, i);
    LookupExact(l, StackAfter(Narrow, l, [], past), IdealAfter(l, map[], past), k, rest[i].at, end);
  }

  /**
   And a wrong count is a wrong grant: the next checkpoint of k grants what it should if
   and only if a poll would count right, or it asks for no more than the wrapped count.
   */
  lemma GrantAfterPollsExact<K>(l: Limit, before: seq<Op<K>>, rest: seq<Op<K>>, k: K, t: int, i: nat)
    requires Accepted(l) && TimelyRun(before + rest, t) && PollsClose(before, k, map[])
    requires i < |rest| && NoCheckpointOf(rest[..i], k) && rest[i].Checkpoint? && rest[i].k == k
    ensures var ops, n, at := before + rest, |before| + i, rest[i].at;
            var m := IdealAfter(l, map[], ops[..n]);
            StackRun(Narrow, l, [], ops)[n] == IdealRun(l, map[], ops)[n] <==>
            || CountsRight(l, StackAfter(Narrow, l, [], ops[..n]), m, k, at)
            || (k in m && rest[i].point <= WrappedCount(l, m[k], at))
  {
    var past := (before + rest)[..|before| + i];
    var end := BehindQuiet(l, before, rest, k, t, i);
    LookupExact(l, StackAfter(Narrow, l, [], past), IdealAfter(l, map[], past), k, rest[i].at, end);
  }

  /** A poll of k every 100 seconds, and one more 2^32 milliseconds after the start. */
  function LongPoll<K>(k: K, start: int): (r: seq<Op<K>>) {
    seq(42_950, i requires 0 <= i < 42_950 => Remaining(k, PollTime(start, i)))
  }

  function PollTime(start: int, i: nat): int {
    if i < 42_949 then start + 100_000 * (i + 1) else start + U32
  }

  lemma {:induction false} PollsStayTimely<K>(k: K, start: int, i: nat)
    requires i <= 42_950
    ensures TimelyRun(LongPoll(k, start)[i..], start + 100_000 * i)
    ensures 0 < i ==> TimelyRun(LongPoll(k, start)[i..], PollTime(start, i - 1))
    decreases 42_950 - i
  {
    if i < 42_950 {
      PollsStayTimely(k, start, i + 1);
      assert LongPoll(k, start)[i..][1..] == LongPoll(k, start)[i + 1..];
    }
  }

  /** A bucket emptied at `start` is in the cache for at least 100 seconds from time a on. */
  ghost predicate EmptyAndAlive<K>(s: seq<Segment<K, Quota>>, k: K, start: int, a: int) {
    && WellFormed(s)
    && (s != [] ==> s[0].deadline <= a + STORE.ExpiryMs() + STORE.SegmentMs())
    && (forall u :: a <= u <= a + 100_000 ==>
          FindLive(s, k, u).Some? && FindLive(s, k, u).value.value == Quota(0, start % U32))
  }

  lemma StoredIsAlive<K>(s: seq<Segment<K, Quota>>, k: K, start: int, a: int)
    requires WellFormed(s)
    requires s != [] ==> s[0].deadline <= a + STORE.ExpiryMs() + STORE.SegmentMs()
    ensures EmptyAndAlive(Insert(STORE, s, k, Quota(0, start % U32), a), k, start, a)
  {
  }

  lemma PollKeepsAlive<K>(l: Limit, s: seq<Segment<K, Quota>>, k: K, start: int, a: int, at: int)
    requires EmptyAndAlive(s, k, start, a) && a <= at <= a + 100_000
    ensures EmptyAndAlive(StackStep(Narrow, l, s, Remaining(k, at)).0, k, start, at)
    ensures StackStep(Narrow, l, s, Remaining(k, at)).1 == RefillWords(l, Quota(0, start % U32), at % U32).remaining
  {
    FindPruned(s, k, at);
    assert FindLive(s, k, at).Some?;
    var p := SegmentList.Prune(s, at);
    PruneKeepsWellFormed(s, at);
    PruneIsPrefix(s, at);
    StoredIsAlive(p, k, start, at);
  }

  lemma LastPoll<K>(k: K, m: map<K, Quota>, start: int)
    requires k in m && m[k] == Quota(0, start)
    ensures RefillWords(Limit(1, 1), Quota(0, start % U32), (start + U32) % U32).remaining == 0
    ensures IdealStep(Limit(1, 1), m, Remaining(k, start + U32)) == (m, 1)
  {
    var l, at := Limit(1, 1), start + U32;
    WordsCount(l, m[k], at);
    IdleBucketIsFull(l, m[k], at);
    assert (at - start) % U32 == 0;
  }

  lemma {:induction false} PollsReadEmpty<K>(s: seq<Segment<K, Quota>>, m: map<K, Quota>, k: K, start: int, i: nat)
    requires i < 42_950 && EmptyAndAlive(s, k, start, start + 100_000 * i)
    requires k in m && m[k] == Quota(0, start)
    ensures var l, ops := Limit(1, 1), LongPoll(k, start)[i..];
            StackRun(Narrow, l, s, ops)[|ops| - 1] == 0 && IdealRun(l, m, ops)[|ops| - 1] == 1
    decreases 42_950 - i
  {
    var l, ops := Limit(1, 1), LongPoll(k, start)[i..];
    var at := PollTime(start, i);
    assert ops[0] == Remaining(k, at);
    assert ops[1..] == LongPoll(k, start)[i + 1..];
    PollKeepsAlive(l, s, k, start, start + 100_000 * i, at);
    StackUnfolds(Narrow, l, s, ops);
    IdealUnfolds(l, m, ops);
    if i == 42_949 {
      LastPoll(k, m, start);
    } else {
      PollsReadEmpty(StackStep(Narrow, l, s, ops[0]).0, m, k, start, i + 1);
    }
  }

  /** A checkpoint that empties a one-token bucket, and the long poll after it. */
  function EmptyThenPoll<K>(k: K, start: int): (ops: seq<Op<K>>)
    ensures |ops| > 1 && ops[0] == Checkpoint(k, 1, start) && ops[1..] == LongPoll(k, start)
  {
    [Checkpoint(k, 1, start)] + LongPoll(k, start)
  }

  /**
   The property fails without the guard: a one-token bucket emptied and then polled
   every 100 seconds reads as still empty 2^32 milliseconds later, when it has long
   been full.
   */
  lemma PollingWraps<K>(k: K, start: int)
    ensures var l, ops := Limit(1, 1), EmptyThenPoll(k, start);
            && Accepted(l) && TimelyRun(ops, start)
            && StackRun(Narrow, l, [], ops)[|ops| - 1] == 0
            && IdealRun(l, map[], ops)[|ops| - 1] == 1
  {
    var ops := EmptyThenPoll(k, start);
    LongPollIsTimely(ops, k, start);
    LongPollReadsEmpty(ops, k, start);
  }

  lemma LongPollIsTimely<K>(ops: seq<Op<K>>, k: K, start: int)
    requires ops != [] && ops[0] == Checkpoint(k, 1, start) && ops[1..] == LongPoll(k, start)
    ensures TimelyRun(ops, start)
  {
    PollsStayTimely(k, start, 0);
    assert LongPoll(k, start)[0..] == LongPoll(k, start);
  }

  lemma LongPollReadsEmpty<K>(ops: seq<Op<K>>, k: K, start: int)
    requires |ops| > 1 && ops[0] == Checkpoint(k, 1, start) && ops[1..] == LongPoll(k, start)
    ensures StackRun(Narrow, Limit(1, 1), [], ops)[|ops| - 1] == 0
    ensures IdealRun(Limit(1, 1), map[], ops)[|ops| - 1] == 1
  {
    var l := Limit(1, 1);
    EmptyingCheckpoint(k, start);
    assert LongPoll(k, start)[0..] == LongPoll(k, start);
    PollsReadEmpty(StackStep(Narrow, l, [], ops[0]).0, map[k := Quota(0, start)], k, start, 0);
    StackUnfolds(Narrow, l, [], ops);
    IdealUnfolds(l, map[], ops);
  }

  lemma EmptyingCheckpoint<K>(k: K, start: int)
    ensures var op := Checkpoint(k, 1, start);
            && EmptyAndAlive(StackStep(Narrow, Limit(1, 1), [], op).0, k, start, start)
            && IdealStep(Limit(1, 1), map[], op).0 == map[k := Quota(0, start)]
  {
  }
}
