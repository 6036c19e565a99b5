/**
 Any history of calls on a cache object.  `Replay` ties the methods of `Memcache.Cache`
 to the step functions that `CacheRefinement` reasons about, and so to the reference.
 */
module CacheReplay {
  import opened Options
  import opened SegmentList
  import opened CacheRefinement
  import Memcache

  method Perform<K(==), V>(c: Memcache.Cache<K, V>, op: Op<K, V>) returns (r: Result<V>)
    requires c.Valid()
    modifies c
    ensures c.Valid() && (c.mapList, r) == Step(c.life, old(c.mapList), op)
  {
    match op {
      case Put(k, v, at) => c.Put(k, v, at); r := Done;
      case Erase(k) =>
        PresentIsFound(c.mapList, k);
        var b := c.Erase(k);
        r := Flag(b);
      case Clear => c.Clear(); r := Done;
      case Get(k, p, w) => var v := c.Get(k, p, w); r := Value(v);
      case At(k, at) =>
        EarlyStopIsFullScan(c.mapList, k, at);
        var v := c.At(k, at);
        r := Value(v);
      case Contains(k, at) =>
        EarlyStopIsFullScan(c.mapList, k, at);
        var b := c.Contains(k, at);
        r := Flag(b);
      case GetOrPut(k, made, p, w) =>
        EarlyStopIsFullScan(c.mapList, k, p);
        FindPruned(c.mapList, k, p);
        var v := c.GetOrPut(k, made, p, w);
        r := Value(Some(v));
      case Visit(k, f, at) =>
        EarlyStopIsFullScan(c.mapList, k, at);
        var b := c.Visit(k, f, at);
        r := Flag(b);
      case Size(at) =>
        SizeCountsLiveKeys(c.mapList, at);
        var n := c.Size(at);
        r := Count(n);
      case Prune(at) => c.PruneExpired(at); r := Done;
    }
  }

  lemma {:induction false} PresentIsFound<K, V>(s: seq<Segment<K, V>>, k: K)
    ensures Find(s, k).Some? <==> exists i :: 0 <= i < |s| && k in s[i].entries
    decreases |s|
  {
    if s != [] {
      PresentIsFound(s[1..], k);
      assert forall i :: 1 <= i < |s| ==> s[i] == s[1..][i - 1];
      if Find(s[1..], k).Some? {
        var i :| 0 <= i < |s[1..]| && k in s[1..][i].entries;
        assert k in s[i + 1].entries;
      }
    }
  }

  lemma RunUnfolds<K, V>(c: Lifetime, s: seq<Segment<K, V>>, ops: seq<Op<K, V>>, i: nat)
    requires i < |ops|
    ensures var (s', x) := Step(c, s, ops[i]);
            var (s'', xs) := Run(c, s', ops[i + 1..]);
            Run(c, s, ops[i..]) == (s'', [x] + xs)
  {
  }

  method PerformAll<K(==), V>(c: Memcache.Cache<K, V>, ops: seq<Op<K, V>>) returns (results: seq<Result<V>>)
    requires c.Valid()
    modifies c
    ensures c.Valid() && (c.mapList, results) == Run(c.life, old(c.mapList), ops)
  {
    results := [];
    ghost var whole := Run(c.life, c.mapList, ops);
    assert ops[0..] == ops;
    for i := 0 to |ops|
      invariant c.Valid()
      invariant Run(c.life, c.mapList, ops[i..]).0 == whole.0
      invariant results + Run(c.life, c.mapList, ops[i..]).1 == whole.1
    {
      RunUnfolds(c.life, c.mapList, ops, i);
      var x := Perform(c, ops[i]);
      results := results + [x];
    }
    assert ops[|ops|..] == [];
    assert results + [] == results;
  }

  /** A new cache answers any history like the flat reference. */
  method Replay<K(==, !new), V>(c: Memcache.Cache<K, V>, ops: seq<Op<K, V>>,
                                ghost t: int) returns (results: seq<Result<V>>)
    requires c.Valid() && c.mapList == [] && TimelyRun(ops, t)
    modifies c
    ensures c.Valid() && Sim(c.life, c.mapList, RefRun(c.life, NewRef(t), ops).0, EndOf(ops, t))
    ensures results == RefRun(c.life, NewRef(t), ops).1
  {
    RunRefines(c.life, [], NewRef(t), ops, t);
    results := PerformAll(c, ops);
  }
}
