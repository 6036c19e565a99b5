/**
 How much a key can lose to rounding: the lower bound that goes with the bounds of
 `RateBounds`, first on the ideal limiter and then on the accounts of the 32-bit stack.
 */
module RateLoss {
  import opened Arithmetic
  import opened Options
  import opened SegmentList
  import opened TokenBucket
  import opened LimiterStack
  import opened RateBounds

  // ---- On the ideal limiter ----

  predicate NoReset<K>(ops: seq<Op<K>>) {
    forall i :: 0 <= i < |ops| ==> !ops[i].Reset?
  }

  predicate Plausible<K(==)>(l: Limit, m: map<K, Quota>, k: K, t: int) {
    k in m ==> m[k].stamp <= t && m[k].remaining <= l.maxBucket
  }

  lemma IdealQuotaFacts<K>(l: Limit, m: map<K, Quota>, k: K, at: int)
    requires Plausible(l, m, k, at)
    ensures var q := IdealQuota(l, m, k, at);
            q.stamp <= at && q.remaining <= l.maxBucket && (k !in m ==> Credit(l, q, at) == 1000 * l.maxBucket)
  {
    if k in m { RefillFacts(l, m[k], at); }
  }

  lemma IdealGrantIsPaid<K>(l: Limit, m: map<K, Quota>, k: K, point: nat, at: int)
    requires Plausible(l, m, k, at)
    ensures var (m', g) := IdealStep(l, m, Checkpoint(k, point, at));
            Plausible(l, m', k, at) && 1000 * g + Credit(l, m'[k], at) == Credit(l, IdealQuota(l, m, k, at), at)
  {
    IdealQuotaFacts(l, m, k, at);
  }

  lemma StepPlausible<K>(l: Limit, m: map<K, Quota>, op: Op<K>, k: K, t: int)
    requires Plausible(l, m, k, t) && Timely(op, t)
    ensures Plausible(l, IdealStep(l, m, op).0, k, After(op, t))
  {
    if op.Checkpoint? && op.k == k { IdealGrantIsPaid(l, m, k, op.point, op.at); }
  }

  predicate RefillsAt<K(==)>(l: Limit, m: map<K, Quota>, op: Op<K>, k: K) {
    op.Checkpoint? && op.k == k && k in m && m[k].stamp <= op.at && Recovered(l, op.at - m[k].stamp) > 0
  }

  /** Checkpoints of k that move its stamp. */
  function Refills<K(==)>(l: Limit, m: map<K, Quota>, ops: seq<Op<K>>, k: K): nat
    decreases |ops|
  {
    if ops == [] then 0
    else (if RefillsAt(l, m, ops[0], k) then 1 else 0) + Refills(l, IdealStep(l, m, ops[0]).0, ops[1..], k)
  }

  predicate NeverFull<K(==)>(l: Limit, m: map<K, Quota>, ops: seq<Op<K>>, k: K)
    decreases |ops|
  {
    ops == [] ||
    (&& (RefillsAt(l, m, ops[0], k) ==> !Clamps(l, m[k], ops[0].at))
     && NeverFull(l, IdealStep(l, m, ops[0]).0, ops[1..], k))
  }

  lemma {:induction false} EndIsLater<K>(ops: seq<Op<K>>, t: int)
    requires TimelyRun(ops, t)
    ensures t <= EndOf(ops, t)
    decreases |ops|
  {
    if ops != [] { EndIsLater(ops[1..], After(ops[0], t)); }
  }

  /** Until the bucket fills, credit plus grants fall short of what accrued by less than a millisecond per refill. */
  lemma {:induction false} LossPerRefill<K>(l: Limit, m: map<K, Quota>, ops: seq<Op<K>>, k: K, lo: int, hi: int, t: int)
    requires Plausible(l, m, k, t) && TimelyRun(ops, t) && NoReset(ops) && k in m
    requires lo <= t && EndOf(ops, t) <= hi && NeverFull(l, m, ops, k)
    ensures var end, m', n := EndOf(ops, t), IdealAfter(l, m, ops), Refills(l, m, ops, k);
            var kept := 1000 * GrantedIn(ops, IdealRun(l, m, ops), k, lo, hi);
            k in m' && Credit(l, m[k], end) <= kept + Credit(l, m'[k], end) + n * (l.rate - 1)
    decreases |ops|
  {
    if ops != [] {
      var op, rest := ops[0], ops[1..];
      var m' := IdealStep(l, m, op).0;
      StepPlausible(l, m, op, k, t);
      EndIsLater(rest, op.at);
      var end := EndOf(ops, t);
      StepLoss(l, m, op, k);
      CreditAccrues(l, m[k], op.at, end);
      CreditAccrues(l, m'[k], op.at, end);
      LossPerRefill(l, m', rest, k, lo, hi, op.at);
      OneMore(Refills(l, m', rest, k), l.rate - 1);
    }
  }

  lemma OneMore(n: nat, x: int)
    ensures (n + 1) * x == n * x + x
  {
  }

  lemma StepLoss<K>(l: Limit, m: map<K, Quota>, op: Op<K>, k: K)
    requires !op.Reset? && k in m && Plausible(l, m, k, op.at)
    ensures var (m', g) := IdealStep(l, m, op);
            var paid := if op.Checkpoint? && op.k == k then 1000 * g else 0;
            var loss := Credit(l, m[k], op.at) - paid - Credit(l, m'[k], op.at);
            && 0 <= loss
            && (!RefillsAt(l, m, op, k) ==> loss == 0)
            && (RefillsAt(l, m, op, k) && !Clamps(l, m[k], op.at) ==> loss <= l.rate - 1)
  {
    if op.Checkpoint? && op.k == k {
      IdealGrantIsPaid(l, m, k, op.point, op.at);
      RefillFacts(l, m[k], op.at);
    }
  }

  // ---- The same on the stack's own accounts ----

  function AccountsAfter<K(==)>(l: Limit, s: seq<Segment<K, Quota>>, m: map<K, Quota>, ops: seq<Op<K>>): map<K, Quota>
    decreases |ops|
  {
    if ops == [] then m else AccountsAfter(l, StackStep(Narrow, l, s, ops[0]).0, Charged(l, s, m, ops[0]), ops[1..])
  }

  /** Over a whole run the account of k pays for its grants and still backs what the cache holds. */
  lemma {:induction false} RunIsCharged<K>(l: Limit, s: seq<Segment<K, Quota>>, m: map<K, Quota>, ops: seq<Op<K>>,
                                           k: K, lo: int, hi: int, t: int)
    requires Accepted(l) && Backed(l, s, m, k, t) && TimelyRun(ops, t) && NoReset(ops) && k in m
    ensures var a, end := AccountsAfter(l, s, m, ops), EndOf(ops, t);
            && k in a && Backed(l, StackAfter(Narrow, l, s, ops), a, k, end)
            && 1000 * Grants(l, s, ops, k, lo, hi) + Credit(l, a[k], end) <= Credit(l, m[k], end)
    decreases |ops|
  {
    if ops != [] {
      var op, rest := ops[0], ops[1..];
      var s', m' := StackStep(Narrow, l, s, op).0, Charged(l, s, m, op);
      StepIsCharged(l, s, m, op, k, t);
      AccountPays(l, s, m, op, k, t);
      GrantsAtMost(l, s, ops, k, lo, hi);
      RunIsCharged(l, s', m', rest, k, lo, hi, op.at);
      EndIsLater(rest, op.at);
      CreditAccrues(l, m[k], op.at, EndOf(ops, t));
      CreditAccrues(l, m'[k], op.at, EndOf(ops, t));
    }
  }

  predicate SameAccount(l: Limit, a: Quota, q: Quota) {
    a.remaining == q.remaining && (l.rate > 0 ==> a.stamp == q.stamp)
  }

  lemma SameCredit(l: Limit, a: Quota, q: Quota, at: int)
    requires SameAccount(l, a, q)
    ensures Credit(l, a, at) == Credit(l, q, at)
  {
  }

  lemma IdleClamps(l: Limit, q: Quota, at: int)
    requires Accepted(l) && l.rate > 0 && q.stamp + 100_000 < at
    ensures Recovered(l, at - q.stamp) > 0 && Clamps(l, q, at)
  {
    AcceptedBound(l);
    RecoveredBounds(l, at - q.stamp);
    ProductOrder(l.rate, 100_000, at - q.stamp);
    Distribute(l.rate, at - q.stamp, 0);
  }

  /** An account that does not fill up at `at` has neither wrapped nor been forgotten: it settles to the ideal quota. */
  lemma SettledIsIdeal<K>(l: Limit, s: seq<Segment<K, Quota>>, a: map<K, Quota>, q: Quota, k: K, at: int, t: int)
    requires Accepted(l) && Backed(l, s, a, k, t) && t <= at && k in a && SameAccount(l, a[k], q) && q.stamp <= at
    requires l.rate > 0 ==> !Clamps(l, q, at)
    ensures SameAccount(l, Settled(l, s, a, k, at), Refill(l, q, at))
  {
    assert Entry(Narrow, false, l, s, a, k, at);
    if l.rate == 0 {
      AcceptedBound(l);
      ZeroRate(l, q, at);
      SettledFacts(l, s, a, k, at, t);
    } else {
      if q.stamp + 100_000 < at { IdleClamps(l, q, at); }
      SlipFacts(q, at);
      SmallMod(at - q.stamp, U32);
    }
  }

  lemma StepIsIdeal<K>(l: Limit, s: seq<Segment<K, Quota>>, a: map<K, Quota>, m: map<K, Quota>, op: Op<K>, k: K,
                       t: int)
    requires Accepted(l) && Backed(l, s, a, k, t) && Timely(op, t) && !op.Reset?
    requires k in a && k in m && SameAccount(l, a[k], m[k]) && m[k].stamp <= t
    requires RefillsAt(l, m, op, k) ==> !Clamps(l, m[k], op.at)
    ensures k in Charged(l, s, a, op) && k in IdealStep(l, m, op).0
    ensures SameAccount(l, Charged(l, s, a, op)[k], IdealStep(l, m, op).0[k])
    ensures GrantTo(l, s, op, k) == if op.Checkpoint? && op.k == k then IdealStep(l, m, op).1 else 0
  {
    if op.Checkpoint? && op.k == k {
      GrantIsPaid(l, s, a, op, k, t);
      SettledIsIdeal(l, s, a, m[k], k, op.at, t);
    }
  }

  /** While the bucket of k does not fill up, its account is its ideal quota and its grants are the ideal ones. */
  lemma {:induction false} AccountIsIdeal<K>(l: Limit, s: seq<Segment<K, Quota>>, a: map<K, Quota>,
                                             m: map<K, Quota>, ops: seq<Op<K>>, k: K, lo: int, hi: int, t: int)
    requires Accepted(l) && Backed(l, s, a, k, t) && Plausible(l, m, k, t) && TimelyRun(ops, t) && NoReset(ops)
    requires k in a && k in m && SameAccount(l, a[k], m[k]) && NeverFull(l, m, ops, k)
    ensures k in AccountsAfter(l, s, a, ops) && k in IdealAfter(l, m, ops)
    ensures SameAccount(l, AccountsAfter(l, s, a, ops)[k], IdealAfter(l, m, ops)[k])
    ensures Grants(l, s, ops, k, lo, hi) == GrantedIn(ops, IdealRun(l, m, ops), k, lo, hi)
    decreases |ops|
  {
    if ops != [] {
      var op, rest := ops[0], ops[1..];
      StepIsIdeal(l, s, a, m, op, k, t);
      StepIsCharged(l, s, a, op, k, t);
      StepPlausible(l, m, op, k, t);
      GrantsUnfold(l, s, ops, k, lo, hi);
      IdealUnfolds(l, m, ops);
      var s', a', m' := StackStep(Narrow, l, s, op).0, Charged(l, s, a, op), IdealStep(l, m, op).0;
      AccountIsIdeal(l, s', a', m', rest, k, lo, hi, op.at);
    }
  }

  /** What the cache holds of k from time `end` on is this account, or nothing once the account has long been idle. */
  ghost predicate HoldsAccount<K>(l: Limit, s: seq<Segment<K, Quota>>, k: K, a: Quota, end: int) {
    forall u :: end <= u ==> FoundAccount(l, FindLive(s, k, u), a, u)
  }

  predicate FoundAccount(l: Limit, found: Option<Timed<Quota>>, a: Quota, u: int) {
    match found
    case None => a.stamp + 100_000 < u
    case Some(e) => e.value.remaining == a.remaining && (l.rate > 0 ==> e.value.stamp == a.stamp % U32)
  }

  /** A key that was not checked since the last reset has no account, and none in the ideal limiter. */
  lemma {:induction false} UncheckedHasNone<K>(l: Limit, s: seq<Segment<K, Quota>>, a: map<K, Quota>, m: map<K, Quota>,
                                               last: map<K, int>, ops: seq<Op<K>>, k: K, t: int)
    requires Accepted(l) && Backed(l, s, a, k, t) && TimelyRun(ops, t)
    requires (k in a <==> k in last) && (k in m <==> k in last)
    ensures Backed(l, StackAfter(Narrow, l, s, ops), AccountsAfter(l, s, a, ops), k, EndOf(ops, t))
    ensures k in AccountsAfter(l, s, a, ops) <==> k in LastOf(last, ops)
    ensures k in IdealAfter(l, m, ops) <==> k in LastOf(last, ops)
    decreases |ops|
  {
    if ops != [] {
      var op := ops[0];
      StepIsCharged(l, s, a, op, k, t);
      var s', a', m' := StackStep(Narrow, l, s, op).0, Charged(l, s, a, op), IdealStep(l, m, op).0;
      UncheckedHasNone(l, s', a', m', LastAfter(last, op), ops[1..], k, After(op, t));
    }
  }

  lemma {:induction false} AccountsAppend<K>(l: Limit, s: seq<Segment<K, Quota>>, m: map<K, Quota>,
                                             a: seq<Op<K>>, b: seq<Op<K>>)
    ensures AccountsAfter(l, s, m, a + b) == AccountsAfter(l, StackAfter(Narrow, l, s, a), AccountsAfter(l, s, m, a), b)
    ensures StackRun(Narrow, l, s, a + b)[|a|..] == StackRun(Narrow, l, StackAfter(Narrow, l, s, a), b)
    decreases |a|
  {
    if a == [] {
      assert a + b == b;
    } else {
      assert (a + b)[1..] == a[1..] + b;
      StackUnfolds(Narrow, l, s, a + b);
      AccountsAppend(l, StackStep(Narrow, l, s, a[0]).0, Charged(l, s, m, a[0]), a[1..], b);
    }
  }

  /** A full bucket plus the time from `start` to `end`, in thousandths of a token. */
  function Full(l: Limit, start: int, end: int): int { 1000 * l.maxBucket + l.rate * (end - start) }

  /** Tokens granted, tokens left and time not yet turned into tokens. */
  function Kept(l: Limit, granted: nat, left: Quota, end: int): int { 1000 * granted + Credit(l, left, end) }

  lemma NothingFound<K>(l: Limit, s: seq<Segment<K, Quota>>, a: map<K, Quota>, k: K, at: int, t: int)
    requires Backed(l, s, a, k, t) && k !in a && t <= at
    ensures Settled(l, s, a, k, at) == Quota(l.maxBucket, at)
  {
  }

  /** The bounds from the first use on, out of any state that has no account of k. */
  lemma {:induction false} LossFromFirstUse<K>(l: Limit, s: seq<Segment<K, Quota>>, a: map<K, Quota>, m: map<K, Quota>,
                                               k: K, point: nat, t: int, ops: seq<Op<K>>, t0: int)
    requires Accepted(l) && Backed(l, s, a, k, t0) && k !in a && k !in m && t0 <= t && TimelyRun(ops, t) && NoReset(ops)
    ensures var first := Checkpoint(k, point, t);
            var all, m1, end := [first] + ops, IdealStep(l, m, first).0, EndOf(ops, t);
            var a', granted := AccountsAfter(l, s, a, all), Grants(l, s, all, k, t, end);
            && k in a' && HoldsAccount(l, StackAfter(Narrow, l, s, all), k, a'[k], end)
            && Kept(l, granted, a'[k], end) <= Full(l, t, end)
            && (NeverFull(l, m1, ops, k) ==>
                  Full(l, t, end) - Refills(l, m1, ops, k) * (l.rate - 1) <= Kept(l, granted, a'[k], end))
  {
    var first, end := Checkpoint(k, point, t), EndOf(ops, t);
    var all := [first] + ops;
    assert all[1..] == ops;
    var s1, a1, m1 := StackStep(Narrow, l, s, first).0, Charged(l, s, a, first), IdealStep(l, m, first).0;
    GrantIsPaid(l, s, a, first, k, t0);
    StepIsCharged(l, s, a, first, k, t0);
    NothingFound(l, s, a, k, t, t0);
    assert a1[k] == m1[k];
    EndIsLater(ops, t);
    GrantsUnfold(l, s, all, k, t, end);
    CreditAccrues(l, a1[k], t, end);
    RunIsCharged(l, s1, a1, ops, k, t, end, t);
    BackedHolds(l, StackAfter(Narrow, l, s1, ops), AccountsAfter(l, s1, a1, ops), k, end);
    if NeverFull(l, m1, ops, k) {
      LossIsBounded(l, s1, a1, m1, ops, k, t);
    }
  }

  /**
   In any run of the 32-bit stack, from a key's first use at time t on (or the first one
   after a reset), whatever happened before and happens to other keys: what is kept never
   exceeds a full bucket plus the elapsed time, and until the bucket fills up falls short of
   it by at most rate - 1 thousandths of a token per refill.
   */
  lemma {:induction false} BoundedLoss<K>(l: Limit, before: seq<Op<K>>, k: K, point: nat, t: int, ops: seq<Op<K>>,
                                          t0: int)
    requires Accepted(l) && TimelyRun(before + ([Checkpoint(k, point, t)] + ops), t0)
    requires k !in LastOf(map[], before) && NoReset(ops)
    ensures var used := [Checkpoint(k, point, t)] + ops;
            var all, end := before + used, EndOf(ops, t);
            var a, m1 := AccountsAfter(l, [], map[], all), IdealStep(l, IdealAfter(l, map[], before), used[0]).0;
            var granted := GrantedIn(used, StackRun(Narrow, l, [], all)[|before|..], k, t, end);
            && k in a && HoldsAccount(l, StackAfter(Narrow, l, [], all), k, a[k], end)
            && Kept(l, granted, a[k], end) <= Full(l, t, end)
            && (NeverFull(l, m1, ops, k) ==>
                  Full(l, t, end) - Refills(l, m1, ops, k) * (l.rate - 1) <= Kept(l, granted, a[k], end))
  {
    var used := [Checkpoint(k, point, t)] + ops;
    TimelyAppend(before, used, t0);
    assert used[1..] == ops;
    UncheckedHasNone(l, [], map[], map[], map[], before, k, t0);
    AccountsAppend(l, [], map[], before, used);
    AfterAppend(Narrow, l, [], map[], before, used);
    var s, a, m := StackAfter(Narrow, l, [], before), AccountsAfter(l, [], map[], before), IdealAfter(l, map[], before);
    LossFromFirstUse(l, s, a, m, k, point, t, ops, EndOf(before, t0));
  }

  lemma BackedHolds<K>(l: Limit, s: seq<Segment<K, Quota>>, a: map<K, Quota>, k: K, end: int)
    requires Backed(l, s, a, k, end) && k in a
    ensures HoldsAccount(l, s, k, a[k], end)
  {
    forall u | end <= u ensures FoundAccount(l, FindLive(s, k, u), a[k], u) {
      assert Entry(Narrow, false, l, s, a, k, u);
    }
  }

  lemma {:induction false} LossIsBounded<K>(l: Limit, s: seq<Segment<K, Quota>>, a: map<K, Quota>, m: map<K, Quota>,
                                            ops: seq<Op<K>>, k: K, t: int)
    requires Accepted(l) && Backed(l, s, a, k, t) && TimelyRun(ops, t) && NoReset(ops)
    requires k in a && k in m && a[k] == m[k] && NeverFull(l, m, ops, k)
    ensures var a', end := AccountsAfter(l, s, a, ops), EndOf(ops, t);
            && k in a'
            && Credit(l, a[k], end) <=
               1000 * Grants(l, s, ops, k, t, end) + Credit(l, a'[k], end) + Refills(l, m, ops, k) * (l.rate - 1)
  {
    var end := EndOf(ops, t);
    AccountIsIdeal(l, s, a, m, ops, k, t, end, t);
    SameCredit(l, AccountsAfter(l, s, a, ops)[k], IdealAfter(l, m, ops)[k], end);
    LossPerRefill(l, m, ops, k, t, end, t);
  }
}
