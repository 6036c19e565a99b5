/**
 The arithmetic of one bucket.  `Refill` is the intended meaning over unbounded
 integers; `RefillWords` is the source's computation in 32- and 64-bit unsigned words.
 */
module TokenBucket {
  import opened Arithmetic

  const U32: int := 0x1_0000_0000
  const U64: int := 0x1_0000_0000_0000_0000

  datatype Limit = Limit(maxBucket: nat, rate: nat)

  /** Tokens left, and the time up to which refilled tokens have been accounted for. */
  datatype Quota = Quota(remaining: nat, stamp: int)

  /** The constructor's guard; `rate * 100` is an unsigned 32-bit product. */
  predicate Accepted(l: Limit) {
    l.maxBucket < U32 && l.rate < U32 && l.maxBucket <= (l.rate * 100) % U32
  }

  lemma AcceptedBound(l: Limit)
    requires Accepted(l)
    ensures l.maxBucket <= 100 * l.rate
  {
  }

  /** A rate's guard accepts every bucket of at most 100 * rate if and only if that product fits 32 bits. */
  lemma GuardExactly(rate: nat)
    requires rate < U32
    ensures (forall b: nat :: b < U32 ==> (Accepted(Limit(b, rate)) <==> b <= 100 * rate)) <==> 100 * rate < U32
  {
    if 100 * rate >= U32 {
      LargestIsRefused(rate);
    } else {
      SmallMod(rate * 100, U32);
    }
  }

  /** The product is even, so its residue is not the largest 32-bit number. */
  lemma LargestIsRefused(rate: nat)
    ensures !Accepted(Limit(U32 - 1, rate))
  {
    var q, r := rate * 100 / U32, rate * 100 % U32;
    assert rate * 100 == U32 * q + r;
    assert r == 2 * (rate * 50 - 0x8000_0000 * q);
  }

  /** Five tokens, refilled at a rate that fills them in a millisecond, are refused. */
  lemma GuardWraps()
    ensures !Accepted(Limit(5, 42_949_673)) && 5 <= 100 * 42_949_673
  {
  }

  function Recovered(l: Limit, distance: nat): nat {
    (distance * l.rate) / 1000
  }

  /** Milliseconds that r tokens take, rounded up. */
  function Cost(l: Limit, r: nat): nat
    requires l.rate > 0
  {
    (r * 1000 + l.rate - 1) / l.rate
  }

  function Refill(l: Limit, q: Quota, now: int): Quota {
    if now < q.stamp then q
    else
      var r := Recovered(l, now - q.stamp);
      if r == 0 then q
      else if q.remaining + r >= l.maxBucket then Quota(l.maxBucket, now)
      else Quota(q.remaining + r, q.stamp + Cost(l, r))
  }

  /** The refill tops the bucket up and forgets any further idle time. */
  predicate Clamps(l: Limit, q: Quota, now: int)
    requires q.stamp <= now
  {
    var r := Recovered(l, now - q.stamp);
    r > 0 && q.remaining + r >= l.maxBucket
  }

  function RefillWords(l: Limit, q: Quota, now: nat): Quota {
    var distance := (now - q.stamp) % U32;
    var recovered := (distance * l.rate) % U64 / 1000;
    if recovered == 0 then q
    else if (q.remaining + recovered) % U64 >= l.maxBucket then Quota(l.maxBucket, now)
    else Quota((q.remaining + recovered % U32) % U32,
               (q.stamp + (recovered * 1000 + l.rate - 1) % U64 / l.rate % U32) % U32)
  }

  // ---- Credit: tokens and accrued time, in thousandths of a token ----

  function Credit(l: Limit, q: Quota, now: int): int {
    1000 * q.remaining + l.rate * (now - q.stamp)
  }

  lemma RecoveredBounds(l: Limit, d: nat)
    ensures 1000 * Recovered(l, d) <= d * l.rate < 1000 * Recovered(l, d) + 1000
  {
  }

  /** Rounding up never under-charges and over-charges less than one millisecond. */
  lemma CostBounds(l: Limit, r: nat, d: nat)
    requires l.rate > 0 && r * 1000 <= d * l.rate
    ensures r * 1000 <= l.rate * Cost(l, r) <= r * 1000 + l.rate - 1
    ensures 0 <= Cost(l, r) <= d
  {
    var x := r * 1000 + l.rate - 1;
    DivisionBounds(x, l.rate);
    assert l.rate * (d + 1) == d * l.rate + l.rate;
    if Cost(l, r) > d {
      ProductOrder(l.rate, d + 1, Cost(l, r));
    }
  }

  /**
   A refill never moves the stamp past now, leaves less than one token of time
   unaccounted, never creates credit, and loses less than a millisecond's worth of
   it unless the bucket is full.
   */
  lemma RefillFacts(l: Limit, q: Quota, now: int)
    requires q.stamp <= now && q.remaining <= l.maxBucket
    ensures var q' := Refill(l, q, now);
            && q.remaining <= q'.remaining <= l.maxBucket
            && q.stamp <= q'.stamp <= now
            && 0 <= l.rate * (now - q'.stamp) < 1000
            && Credit(l, q', now) <= Credit(l, q, now)
            && (!Clamps(l, q, now) ==>
                  Credit(l, q, now) - Credit(l, q', now) <=
                  if Recovered(l, now - q.stamp) == 0 then 0 else l.rate - 1)
  {
    var d := now - q.stamp;
    var r := Recovered(l, d);
    RecoveredBounds(l, d);
    ProductOrder(l.rate, 0, d);
    if r > 0 {
      RateIsPositive(l, d);
      CostBounds(l, r, d);
      var a := Cost(l, r);
      Distribute(l.rate, d, a);
      ProductOrder(l.rate, 0, d - a);
    }
  }

  lemma RateIsPositive(l: Limit, d: nat)
    requires Recovered(l, d) > 0
    ensures l.rate > 0
  {
  }

  /** After a hundred seconds an accepted bucket is full, whatever was left in it. */
  lemma IdleBucketIsFull(l: Limit, q: Quota, now: int)
    requires Accepted(l) && q.remaining <= l.maxBucket && q.stamp + 100_000 < now
    ensures Refill(l, q, now).remaining == l.maxBucket
    ensures l.rate > 0 ==> Refill(l, q, now).stamp == now
  {
    AcceptedBound(l);
    var d := now - q.stamp;
    RecoveredBounds(l, d);
    ProductOrder(l.rate, 100_000, d);
    Distribute(l.rate, d, 0);
  }

  // ---- The word arithmetic ----

  lemma ProductFits(d: nat, r: nat)
    requires d < U32 && r < U32
    ensures d * r + r < U64
  {
    assert (d + 1) * r == d * r + r;
    ProductOrder(r, d + 1, U32);
    ProductOrder(U32, r, U32 - 1);
  }

  /** While the distance is below 2^32 the words compute the intended refill, and nothing overflows. */
  lemma WordsExact(l: Limit, q: Quota, now: int)
    requires Accepted(l) && q.remaining <= l.maxBucket && 0 <= now - q.stamp < U32
    ensures var ideal := Refill(l, q, now);
            RefillWords(l, Quota(q.remaining, q.stamp % U32), now % U32) == Quota(ideal.remaining, ideal.stamp % U32)
  {
    var d := now - q.stamp;
    ModDifference(now, q.stamp, U32);
    SmallMod(d, U32);
    ProductFits(d, l.rate);
    SmallMod(d * l.rate, U64);
    var r := Recovered(l, d);
    RecoveredBounds(l, d);
    SmallMod(q.remaining + r, U64);
    if r > 0 && q.remaining + r < l.maxBucket {
      RateIsPositive(l, d);
      SmallMod(r, U32);
      SmallMod(q.remaining + r, U32);
      SmallMod(r * 1000 + l.rate - 1, U64);
      CostBounds(l, r, d);
      SmallMod(Cost(l, r), U32);
      ModSum(q.stamp, Cost(l, r), U32);
    }
  }

  /**
   Exactly when the words give the intended count: while the true distance is below
   2^32, or when the wrapped distance is itself enough to fill the bucket.
   */
  lemma WrapIsExact(l: Limit, q: Quota, now: int)
    requires Accepted(l) && q.remaining <= l.maxBucket && q.stamp <= now
    ensures RefillWords(l, Quota(q.remaining, q.stamp % U32), now % U32).remaining == Refill(l, q, now).remaining
            <==> (now - q.stamp < U32 ||
                  q.remaining + Recovered(l, (now - q.stamp) % U32) >= l.maxBucket)
  {
    var d := now - q.stamp;
    if d < U32 {
      WordsExact(l, q, now);
    } else {
      IdleBucketIsFull(l, q, now);
      WordsCount(l, q, now);
    }
  }

  /** The latest stamp not after `at` with the same 32 bits. */
  function Slip(q: Quota, at: int): Quota { Quota(q.remaining, at - (at - q.stamp) % U32) }

  lemma SlipFacts(q: Quota, at: int)
    ensures 0 <= at - Slip(q, at).stamp < U32 && at - Slip(q, at).stamp == (at - q.stamp) % U32
    ensures q.stamp <= at ==> q.stamp <= Slip(q, at).stamp
    ensures Slip(q, at).stamp % U32 == q.stamp % U32
  {
  }

  /** The count the words arrive at: a refill over the wrapped distance. */
  lemma WordsCount(l: Limit, q: Quota, now: int)
    requires Accepted(l) && q.remaining <= l.maxBucket
    ensures var r := Recovered(l, (now - q.stamp) % U32);
            RefillWords(l, Quota(q.remaining, q.stamp % U32), now % U32).remaining ==
            if q.remaining + r >= l.maxBucket then l.maxBucket else q.remaining + r
  {
    SlipFacts(q, now);
    WordsExact(l, Slip(q, now), now);
  }
}
