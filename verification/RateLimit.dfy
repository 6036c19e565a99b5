/**
 The in-memory rate limiter, in the source's 32- and 64-bit unsigned words, over the
 segmented cache.  `now` is the one clock reading of each operation; its low 32 bits
 are the limiter's own time stamp.
 */
module RateLimit {
  import opened Arithmetic
  import opened Options
  import opened SegmentList
  import opened TokenBucket
  import opened LimiterStack
  import Memcache

  class Limiter {
    const limit: Limit
    const cache: Memcache.Cache<string, Quota>

    ghost predicate Valid()
      reads cache
    {
      cache.Valid() && cache.life == STORE && Accepted(limit)
    }

    constructor (maxBucket: nat, rate: nat)
      requires Accepted(Limit(maxBucket, rate))
      ensures Valid() && limit == Limit(maxBucket, rate) && fresh(cache) && cache.mapList == []
    {
      limit := Limit(maxBucket, rate);
      cache := new Memcache.Cache(STORE);
    }

    /** Grants min(point, what is there) and stores the rest with the advanced stamp. */
    method Checkpoint(hash: string, point: nat, now: int) returns (granted: nat)
      requires Valid()
      modifies cache
      ensures Valid()
      ensures (cache.mapList, granted) == StackStep(Narrow, limit, old(cache.mapList), Op.Checkpoint(hash, point, now))
    {
      var remaining, currentMs := GetRemainingInt(hash, now);
      granted := if point > remaining then remaining else point;
      remaining := remaining - granted;
      cache.Put(hash, Quota(remaining, currentMs), now);
    }

    method GetRemaining(hash: string, now: int) returns (remaining: nat)
      requires Valid()
      modifies cache
      ensures Valid()
      ensures (cache.mapList, remaining) == StackStep(Narrow, limit, old(cache.mapList), Remaining(hash, now))
    {
      var currentMs: int;
      remaining, currentMs := GetRemainingInt(hash, now);
    }

    method Reset()
      requires Valid()
      modifies cache
      ensures Valid() && cache.mapList == []
    {
      cache.Clear();
    }

    method GetRemainingInt(hash: string, now: int) returns (remaining: nat, currentMs: int)
      requires Valid()
      modifies cache
      ensures Valid()
      ensures var (s, found) := Touch(STORE, old(cache.mapList), hash, now, now);
              cache.mapList == s && Quota(remaining, currentMs) == Refilled(Narrow, limit, found, now)
    {
      var nowMs := now % U32;
      var stored := cache.Get(hash, now, now);
      match stored {
        case None =>
          remaining, currentMs := limit.maxBucket, nowMs;
        case Some(q) =>
          remaining, currentMs := q.remaining, q.stamp;
          var distanceMs := (nowMs - currentMs) % U32;
          var recoveredQuota := (distanceMs * limit.rate) % U64 / 1000;
          if recoveredQuota != 0 {
            if (remaining + recoveredQuota) % U64 >= limit.maxBucket {
              remaining, currentMs := limit.maxBucket, nowMs;
            } else {
              remaining := (remaining + recoveredQuota % U32) % U32;
              currentMs := (currentMs + (recoveredQuota * 1000 + limit.rate - 1) % U64 / limit.rate % U32) % U32;
            }
          }
      }
    }
  }

  /** None is the constructor's std::out_of_range. */
  method MakeRateLimitMemory(maxBucket: nat, rate: nat) returns (r: Option<Limiter>)
    requires maxBucket < U32 && rate < U32
    ensures r.Some? <==> maxBucket <= (rate * 100) % U32
    ensures r.Some? ==> fresh(r.value) && r.value.Valid() && r.value.limit == Limit(maxBucket, rate)
    ensures r.Some? ==> fresh(r.value.cache) && r.value.cache.mapList == []
  {
    if maxBucket > (rate * 100) % U32 {
      r := None;
    } else {
      var l := new Limiter(maxBucket, rate);
      r := Some(l);
    }
  }

  // ---- A client's whole run ----

  method Perform(l: Limiter, op: Op<string>) returns (x: nat)
    requires l.Valid()
    modifies l.cache
    ensures l.Valid()
    ensures (l.cache.mapList, x) == StackStep(Narrow, l.limit, old(l.cache.mapList), op)
  {
    x := 0;
    match op {
      case Checkpoint(k, point, at) => x := l.Checkpoint(k, point, at);
      case Remaining(k, at) => x := l.GetRemaining(k, at);
      case Reset => l.Reset();
      case Prune(at) => l.cache.PruneExpired(at);
    }
  }

  /**
   A new limiter serving any run answers every key whose own polls are close like the
   limiter that keeps an unbounded quota for every key and never forgets one.
   */
  method Serve(l: Limiter, ops: seq<Op<string>>, ghost t: int) returns (results: seq<nat>)
    requires l.Valid() && l.cache.mapList == []
    requires TimelyRun(ops, t)
    modifies l.cache
    ensures l.Valid() && results == StackRun(Narrow, l.limit, [], ops)
    ensures forall k, i :: PollsClose(ops, k, map[]) && 0 <= i < |ops| && AboutKey(ops[i], k) ==>
              results[i] == IdealRun(l.limit, map[], ops)[i]
  {
    forall k | PollsClose(ops, k, map[])
      ensures forall i :: 0 <= i < |ops| && AboutKey(ops[i], k) ==>
                StackRun(Narrow, l.limit, [], ops)[i] == IdealRun(l.limit, map[], ops)[i]
    {
      WraparoundHarmless(l.limit, ops, k, t);
    }
    results := PerformAll(l, ops);
  }

  method PerformAll(l: Limiter, ops: seq<Op<string>>) returns (results: seq<nat>)
    requires l.Valid()
    modifies l.cache
    ensures l.Valid()
    ensures results == StackRun(Narrow, l.limit, old(l.cache.mapList), ops)
  {
    ghost var all := StackRun(Narrow, l.limit, l.cache.mapList, ops);
    assert ops[0..] == ops;
    results := [];
    for i := 0 to |ops|
      invariant l.Valid()
      invariant results + StackRun(Narrow, l.limit, l.cache.mapList, ops[i..]) == all
    {
      assert ops[i..][1..] == ops[i + 1..];
      StackUnfolds(Narrow, l.limit, l.cache.mapList, ops[i..]);
      var x := Perform(l, ops[i]);
      results := results + [x];
    }
    assert results + [] == results;
  }
}
