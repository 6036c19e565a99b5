/**
 How many tokens a key can be granted by the source's own stack: 32-bit stamps, the
 forgetting cache, any polls.  Behind the bounds is an account per key, an unbounded
 quota whose credit pays for every grant; where the 32-bit arithmetic loses time, or the
 cache forgets a key, the account only loses credit.
 */
module RateBounds {
  import opened Arithmetic
  import opened Options
  import opened SegmentList
  import opened TokenBucket
  import opened LimiterStack

  /** A checkpoint of k inside the window. */
  predicate CountsHere<K(==)>(op: Op<K>, k: K, lo: int, hi: int) {
    op.Checkpoint? && op.k == k && lo <= op.at <= hi
  }

  /** Tokens granted to k by the checkpoints with lo <= at <= hi. */
  function GrantedIn<K(==)>(ops: seq<Op<K>>, results: seq<nat>, k: K, lo: int, hi: int): nat
    requires |ops| == |results|
    decreases |ops|
  {
    if ops == [] then 0
    else
      (if CountsHere(ops[0], k, lo, hi) then results[0] else 0) + GrantedIn(ops[1..], results[1..], k, lo, hi)
  }

  /** No reset, which fills every bucket, before a later checkpoint of k inside the window. */
  predicate ResetsOver<K(==)>(ops: seq<Op<K>>, k: K, lo: int, hi: int) {
    forall i, j :: 0 <= i < j < |ops| && CountsHere(ops[j], k, lo, hi) ==> !ops[i].Reset?
  }

  /** No reset between two checkpoints of k inside the window. */
  predicate Unbroken<K(==)>(ops: seq<Op<K>>, k: K, lo: int, hi: int) {
    forall i, j, h :: 0 <= i < j < h < |ops| && CountsHere(ops[i], k, lo, hi) && CountsHere(ops[h], k, lo, hi) ==>
      !ops[j].Reset?
  }

  lemma UnbrokenRest<K>(ops: seq<Op<K>>, k: K, lo: int, hi: int)
    requires ops != [] && Unbroken(ops, k, lo, hi)
    ensures Unbroken(ops[1..], k, lo, hi)
    ensures CountsHere(ops[0], k, lo, hi) ==> ResetsOver(ops[1..], k, lo, hi)
  {
    var rest := ops[1..];
    assert forall i :: 0 <= i < |rest| ==> rest[i] == ops[i + 1];
  }

  lemma CreditAccrues(l: Limit, q: Quota, t: int, at: int)
    requires t <= at
    ensures Credit(l, q, at) == Credit(l, q, t) + l.rate * (at - t)
    ensures 0 <= l.rate * (at - t)
    ensures q.stamp <= t ==> 0 <= Credit(l, q, t)
  {
  }

  // ---- Accounts ----

  /** The account of k in m stands behind the list s: a live k mirrors it, up to a multiple of 2^32 in the stamp. */
  ghost predicate Backed<K>(l: Limit, s: seq<Segment<K, Quota>>, m: map<K, Quota>, k: K, t: int) {
    Rel(Narrow, false, l, s, m, map[], k, t)
  }

  /** The account of k when an operation at `at` looks it up. */
  function Settled<K(==)>(l: Limit, s: seq<Segment<K, Quota>>, m: map<K, Quota>, k: K, at: int): Quota {
    if FindLive(s, k, at).None? || k !in m then Quota(l.maxBucket, at) else Refill(l, Slip(m[k], at), at)
  }

  function Charged<K(==)>(l: Limit, s: seq<Segment<K, Quota>>, m: map<K, Quota>, op: Op<K>): map<K, Quota> {
    match op
    case Checkpoint(k, point, at) =>
      var q := Settled(l, s, m, k, at);
      m[k := Quota(q.remaining - Min(point, q.remaining), q.stamp)]
    case Reset => map[]
    case _ => m
  }

  /** Settling an account never adds credit and leaves at most a full bucket and less than one token of time. */
  lemma SettledFacts<K>(l: Limit, s: seq<Segment<K, Quota>>, m: map<K, Quota>, k: K, at: int, t: int)
    requires Accepted(l) && Backed(l, s, m, k, t) && t <= at
    ensures var q := Settled(l, s, m, k, at);
            && q.stamp <= at && q.remaining <= l.maxBucket
            && Credit(l, q, at) <= 1000 * l.maxBucket + 999
            && (k !in m || m[k].remaining < l.maxBucket || l.rate >= 1000 ==> Credit(l, q, at) <= 1000 * l.maxBucket)
            && (k in m ==> Credit(l, q, at) <= Credit(l, m[k], at))
  {
    assert Entry(Narrow, false, l, s, m, k, at);
    assert Credit(l, Quota(l.maxBucket, at), at) == 1000 * l.maxBucket;
    if k in m {
      if FindLive(s, k, at).None? {
        ForgottenIsPaid(l, m[k], at);
      } else {
        SlipFacts(m[k], at);
        SlipLosesCredit(l, m[k], at);
        RefillFacts(l, Slip(m[k], at), at);
        NoTimeLeft(l, Settled(l, s, m, k, at), at);
      }
    }
  }

  /** A millisecond of at least 1000 tokens a second is a token, so none is left over. */
  lemma NoTimeLeft(l: Limit, q: Quota, at: int)
    requires q.stamp <= at && l.rate * (at - q.stamp) < 1000
    ensures l.rate >= 1000 ==> q.stamp == at && Credit(l, q, at) == 1000 * q.remaining
  {
    if q.stamp < at { ProductOrder(l.rate, 1, at - q.stamp); }
  }

  lemma SlipLosesCredit(l: Limit, q: Quota, at: int)
    requires q.stamp <= at
    ensures Credit(l, Slip(q, at), at) <= Credit(l, q, at)
  {
  }

  /** A key idle for more than the cache's lifetime has accrued a full bucket. */
  lemma ForgottenIsPaid(l: Limit, q: Quota, at: int)
    requires Accepted(l) && q.stamp + 100_000 < at
    ensures 1000 * l.maxBucket <= Credit(l, q, at)
  {
    AcceptedBound(l);
    ProductOrder(l.rate, 100_000, at - q.stamp);
  }

  /** What the 32-bit limiter finds for a key is its settled account. */
  lemma LookupIsSettled<K>(l: Limit, s: seq<Segment<K, Quota>>, m: map<K, Quota>, k: K, at: int, t: int)
    requires Accepted(l) && Backed(l, s, m, k, t) && t <= at
    ensures var v, q := Refilled(Narrow, l, Touch(STORE, s, k, at, at).1, at), Settled(l, s, m, k, at);
            v.remaining == q.remaining && (l.rate > 0 ==> v.stamp == q.stamp % U32)
  {
    FindPruned(s, k, at);
    assert Entry(Narrow, false, l, s, m, k, at);
    match FindLive(s, k, at)
    case None =>
    case Some(e) =>
      SlipFacts(m[k], at);
      if l.rate > 0 {
        WordsExact(l, Slip(m[k], at), at);
      } else {
        ZeroRate(l, e.value, at % U32);
        ZeroRate(l, Slip(m[k], at), at);
      }
  }

  /** A checkpoint of k takes its grant out of the settled account, token for token. */
  lemma GrantIsPaid<K>(l: Limit, s: seq<Segment<K, Quota>>, m: map<K, Quota>, op: Op<K>, k: K, t: int)
    requires Accepted(l) && Backed(l, s, m, k, t) && op.Checkpoint? && op.k == k && t <= op.at
    ensures var q, g := Settled(l, s, m, k, op.at), StackStep(Narrow, l, s, op).1;
            var paid := Charged(l, s, m, op)[k];
            && g == Min(op.point, q.remaining)
            && 1000 * g + Credit(l, paid, op.at) == Credit(l, q, op.at) && paid.remaining + g == q.remaining
  {
    LookupIsSettled(l, s, m, k, op.at, t);
  }

  lemma CheckpointIsCharged<K>(l: Limit, s: seq<Segment<K, Quota>>, m: map<K, Quota>, op: Op<K>, k: K, t: int)
    requires Accepted(l) && Backed(l, s, m, k, t) && op.Checkpoint? && t <= op.at
    ensures Backed(l, StackStep(Narrow, l, s, op).0, Charged(l, s, m, op), k, op.at)
  {
    var m', v := Charged(l, s, m, op), Stored(l, s, op);
    if op.k == k { MayStoreCharged(l, s, m, op, k, t); }
    RelStore(Narrow, false, l, s, m, map[], m', map[], op.k, v, op.at, k, t);
  }

  /** What a checkpoint of the 32-bit limiter stores. */
  function Stored<K(==)>(l: Limit, s: seq<Segment<K, Quota>>, op: Op<K>): Quota
    requires op.Checkpoint?
  {
    var v := Refilled(Narrow, l, Touch(STORE, s, op.k, op.at, op.at).1, op.at);
    Quota(v.remaining - Min(op.point, v.remaining), v.stamp)
  }

  lemma MayStoreCharged<K>(l: Limit, s: seq<Segment<K, Quota>>, m: map<K, Quota>, op: Op<K>, k: K, t: int)
    requires Accepted(l) && Backed(l, s, m, k, t) && op.Checkpoint? && op.k == k && t <= op.at
    ensures MayStore(Narrow, false, l, Charged(l, s, m, op), map[], k, Stored(l, s, op), op.at)
  {
    SettledFacts(l, s, m, k, op.at, t);
    LookupIsSettled(l, s, m, k, op.at, t);
  }

  /** Every operation keeps the account of k behind the list. */
  lemma StepIsCharged<K>(l: Limit, s: seq<Segment<K, Quota>>, m: map<K, Quota>, op: Op<K>, k: K, t: int)
    requires Accepted(l) && Backed(l, s, m, k, t) && Timely(op, t)
    ensures Backed(l, StackStep(Narrow, l, s, op).0, Charged(l, s, m, op), k, After(op, t))
  {
    match op
    case Checkpoint(_, _, _) => CheckpointIsCharged(l, s, m, op, k, t);
    case Remaining(x, at) => RelTouch(Narrow, false, l, s, m, map[], x, at, k, t);
    case Reset =>
    case Prune(at) => RelPrune(Narrow, false, l, s, m, map[], at, k, t);
  }

  // ---- Sums over runs ----

  function Grants<K(==)>(l: Limit, s: seq<Segment<K, Quota>>, ops: seq<Op<K>>, k: K, lo: int, hi: int): nat {
    GrantedIn(ops, StackRun(Narrow, l, s, ops), k, lo, hi)
  }

  /** The grant of the first operation, if it counts, and the grants of the rest. */
  lemma GrantsUnfold<K>(l: Limit, s: seq<Segment<K, Quota>>, ops: seq<Op<K>>, k: K, lo: int, hi: int)
    requires ops != []
    ensures var (s', g) := StackStep(Narrow, l, s, ops[0]);
            Grants(l, s, ops, k, lo, hi) ==
            (if CountsHere(ops[0], k, lo, hi) then g else 0) + Grants(l, s', ops[1..], k, lo, hi)
  {
  }

  lemma {:induction false} NothingAfterWindow<K>(l: Limit, s: seq<Segment<K, Quota>>, ops: seq<Op<K>>, k: K, lo: int,
                                                 hi: int, t: int)
    requires TimelyRun(ops, t) && hi < t
    ensures Grants(l, s, ops, k, lo, hi) == 0
    decreases |ops|
  {
    if ops != [] {
      GrantsUnfold(l, s, ops, k, lo, hi);
      NothingAfterWindow(l, StackStep(Narrow, l, s, ops[0]).0, ops[1..], k, lo, hi, After(ops[0], t));
    }
  }

  /** What an operation grants to k, if anything. */
  function GrantTo<K(==)>(l: Limit, s: seq<Segment<K, Quota>>, op: Op<K>, k: K): nat {
    if op.Checkpoint? && op.k == k then StackStep(Narrow, l, s, op).1 else 0
  }

  /** An operation takes at least what it grants out of the account of k. */
  lemma AccountPays<K>(l: Limit, s: seq<Segment<K, Quota>>, m: map<K, Quota>, op: Op<K>, k: K, t: int)
    requires Accepted(l) && Backed(l, s, m, k, t) && Timely(op, t) && !op.Reset? && k in m
    ensures k in Charged(l, s, m, op)
    ensures 1000 * GrantTo(l, s, op, k) + Credit(l, Charged(l, s, m, op)[k], op.at) <= Credit(l, m[k], op.at)
  {
    if op.Checkpoint? && op.k == k {
      GrantIsPaid(l, s, m, op, k, t);
      SettledFacts(l, s, m, k, op.at, t);
    }
  }

  lemma GrantsAtMost<K>(l: Limit, s: seq<Segment<K, Quota>>, ops: seq<Op<K>>, k: K, lo: int, hi: int)
    requires ops != []
    ensures Grants(l, s, ops, k, lo, hi) <=
            GrantTo(l, s, ops[0], k) + Grants(l, StackStep(Narrow, l, s, ops[0]).0, ops[1..], k, lo, hi)
  {
  }

  lemma {:induction false} NoneCounts<K>(l: Limit, s: seq<Segment<K, Quota>>, ops: seq<Op<K>>, k: K, lo: int, hi: int)
    requires forall i :: 0 <= i < |ops| ==> !CountsHere(ops[i], k, lo, hi)
    ensures Grants(l, s, ops, k, lo, hi) == 0
    decreases |ops|
  {
    if ops != [] {
      assert !CountsHere(ops[0], k, lo, hi);
      GrantsUnfold(l, s, ops, k, lo, hi);
      NoneCounts(l, StackStep(Narrow, l, s, ops[0]).0, ops[1..], k, lo, hi);
    }
  }

  /** All grants of the rest of a window come out of the present credit and what accrues until hi. */
  lemma {:induction false} CreditBound<K>(l: Limit, s: seq<Segment<K, Quota>>, m: map<K, Quota>, ops: seq<Op<K>>,
                                          k: K, lo: int, hi: int, t: int)
    requires Accepted(l) && Backed(l, s, m, k, t) && k in m && t <= hi
    requires TimelyRun(ops, t) && ResetsOver(ops, k, lo, hi)
    ensures 1000 * Grants(l, s, ops, k, lo, hi) <= Credit(l, m[k], hi)
    decreases |ops|
  {
    CreditAccrues(l, m[k], t, hi);
    if ops != [] {
      var op, rest := ops[0], ops[1..];
      var s', m' := StackStep(Narrow, l, s, op).0, Charged(l, s, m, op);
      assert forall i :: 0 <= i < |rest| ==> rest[i] == ops[i + 1];
      if op.Reset? {
        GrantsUnfold(l, s, ops, k, lo, hi);
        NoneCounts(l, s', rest, k, lo, hi);
      } else if op.at > hi {
        GrantsUnfold(l, s, ops, k, lo, hi);
        NothingAfterWindow(l, s', rest, k, lo, hi, op.at);
      } else {
        StepIsCharged(l, s, m, op, k, t);
        AccountPays(l, s, m, op, k, t);
        GrantsAtMost(l, s, ops, k, lo, hi);
        CreditBound(l, s', m', rest, k, lo, hi, op.at);
        CreditAccrues(l, m[k], op.at, hi);
        CreditAccrues(l, m'[k], op.at, hi);
      }
    }
  }

  /** From a checkpoint of k inside the window on: its settled credit and what accrues until hi. */
  lemma FromCheckpoint<K>(l: Limit, s: seq<Segment<K, Quota>>, m: map<K, Quota>, ops: seq<Op<K>>, k: K, lo: int,
                          hi: int, t: int)
    requires Accepted(l) && Backed(l, s, m, k, t) && TimelyRun(ops, t) && Unbroken(ops, k, lo, hi)
    requires ops != [] && CountsHere(ops[0], k, lo, hi)
    ensures var at := ops[0].at;
            1000 * Grants(l, s, ops, k, lo, hi) <= Credit(l, Settled(l, s, m, k, at), at) + l.rate * (hi - lo)
  {
    var op := ops[0];
    var m' := Charged(l, s, m, op);
    GrantsUnfold(l, s, ops, k, lo, hi);
    GrantIsPaid(l, s, m, op, k, t);
    StepIsCharged(l, s, m, op, k, t);
    UnbrokenRest(ops, k, lo, hi);
    CreditBound(l, StackStep(Narrow, l, s, op).0, m', ops[1..], k, lo, hi, op.at);
    CreditAccrues(l, m'[k], op.at, hi);
    ProductOrder(l.rate, hi - op.at, hi - lo);
  }

  /** The first grant inside a window starts from a full bucket and less than one token of time. */
  lemma {:induction false} WindowBound<K>(l: Limit, s: seq<Segment<K, Quota>>, m: map<K, Quota>,
                                          ops: seq<Op<K>>, k: K, lo: int, hi: int, t: int)
    requires Accepted(l) && Backed(l, s, m, k, t) && TimelyRun(ops, t) && Unbroken(ops, k, lo, hi) && lo <= hi
    ensures 1000 * Grants(l, s, ops, k, lo, hi) <= 1000 * l.maxBucket + 999 + l.rate * (hi - lo)
    decreases |ops|
  {
    ProductOrder(l.rate, 0, hi - lo);
    if ops != [] {
      var op := ops[0];
      if CountsHere(op, k, lo, hi) {
        FromCheckpoint(l, s, m, ops, k, lo, hi, t);
        SettledFacts(l, s, m, k, op.at, t);
      } else {
        GrantsUnfold(l, s, ops, k, lo, hi);
        StepIsCharged(l, s, m, op, k, t);
        UnbrokenRest(ops, k, lo, hi);
        WindowBound(l, StackStep(Narrow, l, s, op).0, Charged(l, s, m, op), ops[1..], k, lo, hi, After(op, t));
      }
    }
  }

  predicate UsedFrom<K(==)>(ops: seq<Op<K>>, k: K, lo: int) {
    forall i :: 0 <= i < |ops| && ops[i].Checkpoint? && ops[i].k == k ==> lo <= ops[i].at
  }

  lemma {:induction false} FirstUseBound<K>(l: Limit, s: seq<Segment<K, Quota>>, m: map<K, Quota>,
                                            ops: seq<Op<K>>, k: K, lo: int, hi: int, t: int)
    requires Accepted(l) && Backed(l, s, m, k, t) && TimelyRun(ops, t) && Unbroken(ops, k, lo, hi) && lo <= hi
    requires k !in m && UsedFrom(ops, k, lo)
    ensures 1000 * Grants(l, s, ops, k, lo, hi) <= 1000 * l.maxBucket + l.rate * (hi - lo)
    decreases |ops|
  {
    ProductOrder(l.rate, 0, hi - lo);
    if ops != [] {
      var op := ops[0];
      var s' := StackStep(Narrow, l, s, op).0;
      if CountsHere(op, k, lo, hi) {
        FromCheckpoint(l, s, m, ops, k, lo, hi, t);
        SettledFacts(l, s, m, k, op.at, t);
      } else {
        GrantsUnfold(l, s, ops, k, lo, hi);
        if op.Checkpoint? && op.k == k {
          NothingAfterWindow(l, s', ops[1..], k, lo, hi, After(op, t));
        } else {
          StepIsCharged(l, s, m, op, k, t);
          UnbrokenRest(ops, k, lo, hi);
          FirstUseBound(l, s', Charged(l, s, m, op), ops[1..], k, lo, hi, After(op, t));
        }
      }
    }
  }

  predicate AsksForSome<K(==)>(ops: seq<Op<K>>, k: K) {
    forall i :: 0 <= i < |ops| && ops[i].Checkpoint? && ops[i].k == k ==> ops[i].point > 0
  }

  /** If every checkpoint of k asks for a token, or a millisecond is worth one, no window needs the extra token. */
  lemma {:induction false} TightWindowBound<K>(l: Limit, s: seq<Segment<K, Quota>>, m: map<K, Quota>,
                                               ops: seq<Op<K>>, k: K, lo: int, hi: int, t: int)
    requires Accepted(l) && Backed(l, s, m, k, t) && TimelyRun(ops, t) && Unbroken(ops, k, lo, hi) && lo <= hi
    requires l.rate >= 1000 || (AsksForSome(ops, k) && l.maxBucket > 0 && (k in m ==> m[k].remaining < l.maxBucket))
    ensures 1000 * Grants(l, s, ops, k, lo, hi) <= 1000 * l.maxBucket + l.rate * (hi - lo)
    decreases |ops|
  {
    ProductOrder(l.rate, 0, hi - lo);
    if ops != [] {
      var op := ops[0];
      SettledFacts(l, s, m, k, After(op, t), t);
      if CountsHere(op, k, lo, hi) {
        FromCheckpoint(l, s, m, ops, k, lo, hi, t);
      } else {
        GrantsUnfold(l, s, ops, k, lo, hi);
        StepIsCharged(l, s, m, op, k, t);
        UnbrokenRest(ops, k, lo, hi);
        TightWindowBound(l, StackStep(Narrow, l, s, op).0, Charged(l, s, m, op), ops[1..], k, lo, hi, After(op, t));
      }
    }
  }

  lemma {:induction false} NoBucketNoGrant<K>(l: Limit, s: seq<Segment<K, Quota>>, m: map<K, Quota>,
                                              ops: seq<Op<K>>, k: K, lo: int, hi: int, t: int)
    requires Accepted(l) && Backed(l, s, m, k, t) && TimelyRun(ops, t) && l.maxBucket == 0
    ensures Grants(l, s, ops, k, lo, hi) == 0
    decreases |ops|
  {
    if ops != [] {
      var op := ops[0];
      GrantsUnfold(l, s, ops, k, lo, hi);
      if op.Checkpoint? && op.k == k { GrantIsPaid(l, s, m, op, k, t); }
      StepIsCharged(l, s, m, op, k, t);
      SettledFacts(l, s, m, k, After(op, t), t);
      NoBucketNoGrant(l, StackStep(Narrow, l, s, op).0, Charged(l, s, m, op), ops[1..], k, lo, hi, After(op, t));
    }
  }

  lemma TokensFromCredit(granted: nat, bucket: nat, x: nat)
    requires 1000 * granted <= 1000 * bucket + x
    ensures granted <= bucket + x / 1000
  {
  }

  // ---- The bounds ----

  /** In any window of hi - lo milliseconds, for any mix of keys, checkpoint sizes, gaps, polls and prunes. */
  lemma RateBound<K>(l: Limit, ops: seq<Op<K>>, t: int, k: K, lo: int, hi: int)
    requires Accepted(l) && TimelyRun(ops, t) && Unbroken(ops, k, lo, hi) && lo <= hi
    ensures 0 <= l.rate * (hi - lo)
    ensures GrantedIn(ops, StackRun(Narrow, l, [], ops), k, lo, hi) <= l.maxBucket + (l.rate * (hi - lo) + 999) / 1000
  {
    WindowBound(l, [], map[], ops, k, lo, hi, t);
    ProductOrder(l.rate, 0, hi - lo);
    TokensFromCredit(Grants(l, [], ops, k, lo, hi), l.maxBucket, l.rate * (hi - lo) + 999);
  }

  /** One token less when the window starts no later than the key's first use. */
  lemma {:induction false} RateBoundFromFirstUse<K>(l: Limit, ops: seq<Op<K>>, t: int, k: K, lo: int, hi: int)
    requires Accepted(l) && TimelyRun(ops, t) && Unbroken(ops, k, lo, hi) && lo <= hi
    requires UsedFrom(ops, k, lo)
    ensures 0 <= l.rate * (hi - lo)
    ensures GrantedIn(ops, StackRun(Narrow, l, [], ops), k, lo, hi) <= l.maxBucket + l.rate * (hi - lo) / 1000
  {
    FirstUseBound(l, [], map[], ops, k, lo, hi, t);
    ProductOrder(l.rate, 0, hi - lo);
    TokensFromCredit(Grants(l, [], ops, k, lo, hi), l.maxBucket, l.rate * (hi - lo));
  }

  /** And in any window at all when no checkpoint of the key asks for zero tokens. */
  lemma {:induction false} RateBoundForPositivePoints<K>(l: Limit, ops: seq<Op<K>>, t: int, k: K, lo: int,
                                                         hi: int)
    requires Accepted(l) && TimelyRun(ops, t) && Unbroken(ops, k, lo, hi) && lo <= hi
    requires AsksForSome(ops, k)
    ensures 0 <= l.rate * (hi - lo)
    ensures GrantedIn(ops, StackRun(Narrow, l, [], ops), k, lo, hi) <= l.maxBucket + l.rate * (hi - lo) / 1000
  {
    ProductOrder(l.rate, 0, hi - lo);
    if l.maxBucket == 0 {
      NoBucketNoGrant(l, [], map[], ops, k, lo, hi, t);
    } else {
      TightWindowBound(l, [], map[], ops, k, lo, hi, t);
      TokensFromCredit(Grants(l, [], ops, k, lo, hi), l.maxBucket, l.rate * (hi - lo));
    }
  }

  /** The bound without the extra token, for one run and window. */
  ghost predicate KeepsTightBound<K>(l: Limit, ops: seq<Op<K>>, k: K, lo: int, hi: int) {
    GrantedIn(ops, StackRun(Narrow, l, [], ops), k, lo, hi) <= l.maxBucket + l.rate * (hi - lo) / 1000
  }

  ghost predicate AlwaysTight<K(!new)>(l: Limit) {
    forall ops: seq<Op<K>>, t: int, k: K, lo: int, hi: int
        {:trigger KeepsTightBound(l, ops, k, lo, hi), TimelyRun(ops, t)} ::
      TimelyRun(ops, t) && Unbroken(ops, k, lo, hi) && lo <= hi ==> KeepsTightBound(l, ops, k, lo, hi)
  }

  /** The bound without the extra token holds for all runs and windows if and only if a millisecond is worth a token. */
  lemma TightExactly<K(!new)>(l: Limit, k: K)
    requires Accepted(l)
    ensures AlwaysTight<K>(l) <==> l.maxBucket == 0 || l.rate >= 1000
  {
    if l.maxBucket == 0 || l.rate >= 1000 {
      forall ops: seq<Op<K>>, t: int, x: K, lo: int, hi: int | TimelyRun(ops, t) && Unbroken(ops, x, lo, hi) && lo <= hi
        ensures KeepsTightBound(l, ops, x, lo, hi)
      {
        FastRefillIsTight(l, ops, t, x, lo, hi);
      }
    } else {
      ZeroPointBuysAToken(l, k);
      assert !KeepsTightBound(l, ZeroPointOps(l, k), k, 1, Cost(l, 1));
    }
  }

  lemma {:induction false} FastRefillIsTight<K>(l: Limit, ops: seq<Op<K>>, t: int, k: K, lo: int, hi: int)
    requires Accepted(l) && (l.maxBucket == 0 || l.rate >= 1000)
    requires TimelyRun(ops, t) && Unbroken(ops, k, lo, hi) && lo <= hi
    ensures KeepsTightBound(l, ops, k, lo, hi)
  {
    ProductOrder(l.rate, 0, hi - lo);
    if l.maxBucket == 0 {
      NoBucketNoGrant(l, [], map[], ops, k, lo, hi, t);
    } else {
      TightWindowBound(l, [], map[], ops, k, lo, hi, t);
      TokensFromCredit(Grants(l, [], ops, k, lo, hi), l.maxBucket, l.rate * (hi - lo));
    }
  }

  /** Ask for nothing, a millisecond later for the whole bucket, and for one more token when that has accrued. */
  function ZeroPointOps<K>(l: Limit, k: K): seq<Op<K>>
    requires l.rate > 0
  {
    [Checkpoint(k, 0, 0), Checkpoint(k, l.maxBucket, 1), Checkpoint(k, 1, Cost(l, 1))]
  }

  /** Below 1000 tokens a second a zero-token checkpoint does buy the extra token, whatever the bucket. */
  lemma ZeroPointBuysAToken<K(!new)>(l: Limit, k: K)
    requires Accepted(l) && 0 < l.maxBucket && l.rate < 1000
    ensures l.rate > 0
    ensures var ops, end := ZeroPointOps(l, k), Cost(l, 1);
            && 1 <= end && TimelyRun(ops, 0) && Unbroken(ops, k, 1, end)
            && GrantedIn(ops, StackRun(Narrow, l, [], ops), k, 1, end) == l.maxBucket + 1
            && l.maxBucket + l.rate * (end - 1) / 1000 == l.maxBucket
  {
    AcceptedBound(l);
    FirstTokenTime(l);
    var end := Cost(l, 1);
    var a, b, c := Checkpoint(k, 0, 0), Checkpoint(k, l.maxBucket, 1), Checkpoint(k, 1, end);
    var ops := ZeroPointOps(l, k);
    assert ops == [a, b, c] && ops[1..] == [b, c] && [b, c][1..] == [c] && [c][1..] == [];
    assert TimelyRun([c], 1) && TimelyRun([b, c], 0);
    CheckpointRunsNeverWrap(l, ops, 0);
    ZeroPointRun(l, a, b, c, k);
    var r := [0, l.maxBucket, 1];
    assert r[1..] == [l.maxBucket, 1] && r[1..][1..] == [1] && [1][1..] == [];
    assert GrantedIn([c], [1], k, 1, end) == 1;
    assert GrantedIn([b, c], [l.maxBucket, 1], k, 1, end) == l.maxBucket + 1;
  }

  /** The first token takes more than a millisecond, and the last one before it buys nothing. */
  lemma FirstTokenTime(l: Limit)
    requires 0 < l.rate < 1000
    ensures var c := Cost(l, 1); 2 <= c && Recovered(l, c) == 1 && 0 <= l.rate * (c - 1) < 1000
  {
    var c := Cost(l, 1);
    CostBounds(l, 1, 1000);
    Distribute(l.rate, c, 1);
    if c < 2 { ProductOrder(l.rate, c, 1); }
    ProductOrder(l.rate, 0, c - 1);
    RecoveredBounds(l, c);
  }

  lemma ZeroPointRun<K>(l: Limit, a: Op<K>, b: Op<K>, c: Op<K>, k: K)
    requires 0 < l.maxBucket && 0 < l.rate < 1000
    requires a == Checkpoint(k, 0, 0) && b == Checkpoint(k, l.maxBucket, 1) && c == Checkpoint(k, 1, Cost(l, 1))
    ensures IdealRun(l, map[], [a, b, c]) == [0, l.maxBucket, 1]
  {
    FirstTokenTime(l);
    var m0: map<K, Quota> := map[];
    var m1 := m0[k := Quota(l.maxBucket, 0)];
    var m2 := m1[k := Quota(0, 0)];
    assert [a, b, c][1..] == [b, c] && [b, c][1..] == [c] && [c][1..] == [];
    assert IdealStep(l, m0, a) == (m1, 0);
    assert IdealStep(l, m1, b) == (m2, l.maxBucket) by { assert Recovered(l, 1) == 0; }
    assert IdealStep(l, m2, c).1 == 1;
    assert IdealRun(l, m2, [c]) == [1];
    assert IdealRun(l, m1, [b, c]) == [l.maxBucket, 1];
  }
}
