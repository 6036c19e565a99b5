/**
 The value of memcache's `map_list`: an ordered map from expiry time to a map of
 entries, iterated youngest first.  It is a sequence of segments in iteration
 order.  The functions here are the simple forms that the methods of
 `Memcache.Cache` are proved against, and the lemmas say what each of them does to
 the only thing a caller can observe: which entry is live at which time.
 */
module SegmentList {
  import opened Arithmetic
  import opened Options

  type pos = n: nat | 1 <= n witness 1

  /** `expiry` seconds split into `segments` partitions (the template arguments). */
  datatype Lifetime = Lifetime(expiry: nat, segments: pos) {
    function ExpiryMs(): nat { expiry * 1000 }

    function SegmentMs(): nat { ExpiryMs() / segments }
  }

  datatype Segment<K, V> = Segment(deadline: int, entries: map<K, V>)

  /** A value together with the last instant at which it can be looked up. */
  datatype Timed<+V> = Timed(value: V, deadline: int)

  // ---- Well-formed lists ----

  ghost predicate Descending<K, V>(s: seq<Segment<K, V>>) {
    forall i, j :: 0 <= i < j < |s| ==> s[j].deadline < s[i].deadline
  }

  /** Every key lives in at most one segment. */
  ghost predicate SingleResidence<K, V>(s: seq<Segment<K, V>>) {
    forall i, j, k :: 0 <= i < j < |s| && k in s[i].entries ==> k !in s[j].entries
  }

  ghost predicate WellFormed<K, V>(s: seq<Segment<K, V>>) {
    Descending(s) && SingleResidence(s)
  }

  // ---- Operations on the list ----

  /** The live entry of k: the scan stops at the first expired segment. */
  function FindLive<K(==), V>(s: seq<Segment<K, V>>, k: K, now: int): (r: Option<Timed<V>>)
    ensures r.Some? ==> now <= r.value.deadline
  {
    if s == [] || now > s[0].deadline then None
    else if k in s[0].entries then Some(Timed(s[0].entries[k], s[0].deadline))
    else FindLive(s[1..], k, now)
  }

  /** The scan that looks at every segment, expired or not, and skips the expired ones. */
  function FullScan<K(==), V>(s: seq<Segment<K, V>>, k: K, now: int): Option<Timed<V>> {
    if s == [] then None
    else if now <= s[0].deadline && k in s[0].entries then Some(Timed(s[0].entries[k], s[0].deadline))
    else FullScan(s[1..], k, now)
  }

  /** The entry of k in whatever segment, without looking at the clock. */
  function Find<K(==), V>(s: seq<Segment<K, V>>, k: K): Option<V> {
    if s == [] then None
    else if k in s[0].entries then Some(s[0].entries[k])
    else Find(s[1..], k)
  }

  function EraseKey<K(==), V>(s: seq<Segment<K, V>>, k: K): (r: seq<Segment<K, V>>)
    ensures |r| == |s|
    ensures forall i :: 0 <= i < |s| ==> r[i] == Segment(s[i].deadline, s[i].entries - {k})
  {
    if s == [] then [] else [Segment(s[0].deadline, s[0].entries - {k})] + EraseKey(s[1..], k)
  }

  function Prune<K(==), V>(s: seq<Segment<K, V>>, now: int): seq<Segment<K, V>> {
    if s == [] then []
    else if now > s[0].deadline then Prune(s[1..], now)
    else [s[0]] + Prune(s[1..], now)
  }

  /** The expiry time of the segment that an entry stored at `now` goes to. */
  function NextDeadline<K, V>(c: Lifetime, s: seq<Segment<K, V>>, now: int): int {
    if s == [] || s[0].deadline < now + c.ExpiryMs() then now + c.ExpiryMs() + c.SegmentMs()
    else s[0].deadline
  }

  /** The list with the segment for entries stored at `now` in front. */
  function Youngest<K(==), V>(c: Lifetime, s: seq<Segment<K, V>>, now: int): (r: seq<Segment<K, V>>)
    ensures |r| > 0 && r[0].deadline == NextDeadline(c, s, now)
  {
    if s == [] || s[0].deadline < now + c.ExpiryMs() then [Segment(NextDeadline(c, s, now), map[])] + s
    else s
  }

  function Insert<K(==), V>(c: Lifetime, s: seq<Segment<K, V>>, k: K, v: V, now: int): seq<Segment<K, V>> {
    var y := Youngest(c, EraseKey(s, k), now);
    y[0 := Segment(y[0].deadline, y[0].entries[k := v])]
  }

  /** `pruneAt` and `storeAt` are the two clock readings of one touch. */
  function Touch<K(==), V>(c: Lifetime, s: seq<Segment<K, V>>, k: K, pruneAt: int, storeAt: int)
    : (seq<Segment<K, V>>, Option<V>)
  {
    var p := Prune(s, pruneAt);
    match Find(p, k)
    case None => (p, None)
    case Some(v) => (Insert(c, p, k, v, storeAt), Some(v))
  }

  /** Applies f to the live entry of k where it stands. */
  function Modify<K(==), V>(s: seq<Segment<K, V>>, k: K, f: V -> V, now: int): (r: seq<Segment<K, V>>)
    ensures |r| == |s|
    ensures forall i :: 0 <= i < |s| ==> r[i].deadline == s[i].deadline && r[i].entries.Keys == s[i].entries.Keys
  {
    if s == [] || now > s[0].deadline then s
    else if k in s[0].entries then
      [Segment(s[0].deadline, s[0].entries[k := f(s[0].entries[k])])] + s[1..]
    else [s[0]] + Modify(s[1..], k, f, now)
  }

  function LiveSize<K, V>(s: seq<Segment<K, V>>, now: int): nat {
    if s == [] || now > s[0].deadline then 0 else |s[0].entries| + LiveSize(s[1..], now)
  }

  // ---- Well-formedness is kept ----

  lemma EraseKeepsWellFormed<K, V>(s: seq<Segment<K, V>>, k: K)
    requires WellFormed(s)
    ensures WellFormed(EraseKey(s, k))
  {
  }

  /** On a descending list, pruning keeps exactly a prefix. */
  lemma {:induction false} PruneIsPrefix<K, V>(s: seq<Segment<K, V>>, now: int)
    requires Descending(s)
    ensures Prune(s, now) <= s
    ensures forall i :: 0 <= i < |s| ==> (i < |Prune(s, now)| <==> now <= s[i].deadline)
    decreases |s|
  {
    if s != [] {
      var rest := s[1..];
      PruneIsPrefix(rest, now);
      assert forall i :: 1 <= i < |s| ==> s[i] == rest[i - 1];
      if now > s[0].deadline {
        assert |s| > 1 ==> s[1].deadline < s[0].deadline;
      }
    }
  }

  lemma PruneKeepsWellFormed<K, V>(s: seq<Segment<K, V>>, now: int)
    requires WellFormed(s)
    ensures WellFormed(Prune(s, now))
  {
    PruneIsPrefix(s, now);
    var p := Prune(s, now);
    assert forall i :: 0 <= i < |p| ==> p[i] == s[i];
  }

  lemma YoungestKeepsWellFormed<K, V>(c: Lifetime, s: seq<Segment<K, V>>, now: int)
    requires WellFormed(s)
    ensures WellFormed(Youngest(c, s, now))
  {
  }

  lemma InsertKeepsWellFormed<K, V>(c: Lifetime, s: seq<Segment<K, V>>, k: K, v: V, now: int)
    requires WellFormed(s)
    ensures WellFormed(Insert(c, s, k, v, now))
  {
  }

  lemma TouchKeepsWellFormed<K, V>(c: Lifetime, s: seq<Segment<K, V>>, k: K, pruneAt: int, storeAt: int)
    requires WellFormed(s)
    ensures WellFormed(Touch(c, s, k, pruneAt, storeAt).0)
  {
    PruneKeepsWellFormed(s, pruneAt);
    var p := Prune(s, pruneAt);
    match Find(p, k)
    case None =>
    case Some(v) => InsertKeepsWellFormed(c, p, k, v, storeAt);
  }

  lemma ModifyKeepsWellFormed<K, V>(s: seq<Segment<K, V>>, k: K, f: V -> V, now: int)
    requires WellFormed(s)
    ensures WellFormed(Modify(s, k, f, now))
  {
  }

  // ---- What each operation does to the live entries ----

  /** Stopping at the first expired segment loses nothing. */
  lemma {:induction false} EarlyStopIsFullScan<K, V>(s: seq<Segment<K, V>>, k: K, now: int)
    requires Descending(s)
    ensures FindLive(s, k, now) == FullScan(s, k, now)
    decreases |s|
  {
    if s != [] {
      EarlyStopIsFullScan(s[1..], k, now);
      if now > s[0].deadline && |s| > 1 {
        assert s[1].deadline < s[0].deadline;
      }
    }
  }

  lemma {:induction false} EraseLive<K, V>(s: seq<Segment<K, V>>, k: K, x: K, now: int)
    ensures FindLive(EraseKey(s, k), x, now) == if x == k then None else FindLive(s, x, now)
    decreases |s|
  {
    if s != [] {
      EraseLive(s[1..], k, x, now);
      assert EraseKey(s, k)[1..] == EraseKey(s[1..], k);
    }
  }

  lemma {:induction false} PruneLive<K, V>(s: seq<Segment<K, V>>, x: K, pruned: int, now: int)
    requires Descending(s) && pruned <= now
    ensures FindLive(Prune(s, pruned), x, now) == FindLive(s, x, now)
    decreases |s|
  {
    if s != [] {
      PruneLive(s[1..], x, pruned, now);
      if pruned > s[0].deadline {
        if |s| > 1 {
          assert s[1].deadline < s[0].deadline;
        }
      } else {
        assert Prune(s, pruned)[1..] == Prune(s[1..], pruned);
      }
    }
  }

  /** After pruning, an entry found without looking at the clock is live. */
  lemma {:induction false} FindPruned<K, V>(s: seq<Segment<K, V>>, k: K, now: int)
    requires Descending(s)
    ensures Find(Prune(s, now), k) == match FindLive(s, k, now) case None => None case Some(e) => Some(e.value)
    decreases |s|
  {
    if s != [] {
      FindPruned(s[1..], k, now);
      if now > s[0].deadline {
        if |s| > 1 {
          assert s[1].deadline < s[0].deadline;
        }
      } else {
        assert Prune(s, now)[1..] == Prune(s[1..], now);
      }
    }
  }

  lemma YoungestLive<K, V>(c: Lifetime, s: seq<Segment<K, V>>, x: K, stored: int, now: int)
    ensures FindLive(Youngest(c, s, stored), x, now) == FindLive(s, x, now)
  {
  }

  /** A stored key gets its new value and deadline; every other key keeps both. */
  lemma InsertLive<K, V>(c: Lifetime, s: seq<Segment<K, V>>, k: K, v: V, stored: int, x: K, now: int)
    ensures var d := NextDeadline(c, s, stored);
            FindLive(Insert(c, s, k, v, stored), x, now) ==
            if x != k then FindLive(s, x, now) else if now <= d then Some(Timed(v, d)) else None
  {
    var e := EraseKey(s, k);
    EraseLive(s, k, x, now);
    YoungestLive(c, e, x, stored, now);
    var y := Youngest(c, e, stored);
    var r := Insert(c, s, k, v, stored);
    assert r[1..] == y[1..];
  }

  lemma {:induction false} FoundNotLater<K, V>(s: seq<Segment<K, V>>, k: K, now: int)
    requires Descending(s) && FindLive(s, k, now).Some?
    ensures FindLive(s, k, now).value.deadline <= s[0].deadline
    decreases |s|
  {
    if k !in s[0].entries {
      assert s[1].deadline < s[0].deadline;
      FoundNotLater(s[1..], k, now);
    }
  }

  /** A visit at `at` changes the value of an entry that is live then, and no deadline. */
  lemma {:induction false} ModifyLive<K, V>(s: seq<Segment<K, V>>, k: K, f: V -> V, at: int, x: K, now: int)
    requires WellFormed(s)
    ensures FindLive(Modify(s, k, f, at), x, now) ==
            match FindLive(s, x, now)
            case None => None
            case Some(e) => Some(Timed(if x == k && at <= e.deadline then f(e.value) else e.value, e.deadline))
    decreases |s|
  {
    if s != [] {
      var r := Modify(s, k, f, at);
      if at > s[0].deadline {
        if FindLive(s, x, now).Some? { FoundNotLater(s, x, now); }
      } else if k in s[0].entries {
        assert r[1..] == s[1..];
      } else {
        ModifyLive(s[1..], k, f, at, x, now);
        assert r[1..] == Modify(s[1..], k, f, at);
      }
    }
  }

  // ---- The window, the size and the number of segments ----

  /** Expiry in milliseconds, and the largest partition of which `segments` fit into it. */
  lemma PartitionIsExact(c: Lifetime)
    ensures c.ExpiryMs() == 1000 * c.expiry
    ensures c.segments * c.SegmentMs() <= 1000 * c.expiry < c.segments * (c.SegmentMs() + 1)
  {
    DivisionBounds(1000 * c.expiry, c.segments);
  }

  /**
   An entry stored at p expires within [p + expiry, p + expiry + one partition]: with the
   youngest segment if that lives long enough, otherwise at the end of the window.
   */
  lemma DeadlineWindow<K, V>(c: Lifetime, s: seq<Segment<K, V>>, p: int)
    requires s != [] ==> s[0].deadline <= p + 1000 * c.expiry + 1000 * c.expiry / c.segments
    ensures p + 1000 * c.expiry <= NextDeadline(c, s, p) <= p + 1000 * c.expiry + 1000 * c.expiry / c.segments
    ensures NextDeadline(c, s, p) ==
            if s != [] && p + 1000 * c.expiry <= s[0].deadline then s[0].deadline
            else p + 1000 * c.expiry + 1000 * c.expiry / c.segments
  {
  }

  function LiveKeys<K, V>(s: seq<Segment<K, V>>, now: int): set<K> {
    if s == [] || now > s[0].deadline then {} else s[0].entries.Keys + LiveKeys(s[1..], now)
  }

  lemma {:induction false} LiveKeysAreFindable<K, V>(s: seq<Segment<K, V>>, k: K, now: int)
    ensures k in LiveKeys(s, now) <==> FindLive(s, k, now).Some?
    decreases |s|
  {
    if s != [] { LiveKeysAreFindable(s[1..], k, now); }
  }

  lemma {:induction false} LiveKeysResideSomewhere<K, V>(s: seq<Segment<K, V>>, k: K, now: int)
    requires k in LiveKeys(s, now)
    ensures exists i :: 0 <= i < |s| && k in s[i].entries
    decreases |s|
  {
    if k !in s[0].entries {
      LiveKeysResideSomewhere(s[1..], k, now);
      var i :| 0 <= i < |s[1..]| && k in s[1..][i].entries;
      assert k in s[i + 1].entries;
    }
  }

  /** Adding up the sizes of the unexpired segments counts every live key once. */
  lemma {:induction false} SizeCountsLiveKeys<K, V>(s: seq<Segment<K, V>>, now: int)
    requires SingleResidence(s)
    ensures LiveSize(s, now) == |LiveKeys(s, now)|
    decreases |s|
  {
    if s != [] && now <= s[0].deadline {
      SizeCountsLiveKeys(s[1..], now);
      var rest := LiveKeys(s[1..], now);
      forall k | k in rest ensures k !in s[0].entries {
        LiveKeysResideSomewhere(s[1..], k, now);
        var i :| 0 <= i < |s[1..]| && k in s[1..][i].entries;
        assert k in s[i + 1].entries;
      }
      assert s[0].entries.Keys !! rest;
    }
  }

  /** Neighbouring segments are more than one partition apart, and none is newer than the clock allows. */
  ghost predicate Spaced<K, V>(c: Lifetime, s: seq<Segment<K, V>>, now: int) {
    && (forall i :: 0 <= i < |s| - 1 ==> s[i + 1].deadline + c.SegmentMs() < s[i].deadline)
    && (s != [] ==> s[0].deadline <= now + c.ExpiryMs() + c.SegmentMs())
  }

  lemma {:induction false} SpacedSpan<K, V>(c: Lifetime, s: seq<Segment<K, V>>, now: int, n: nat)
    requires Spaced(c, s, now) && n < |s|
    ensures s[n].deadline + n * (c.SegmentMs() + 1) <= s[0].deadline
    decreases n
  {
    if n > 0 {
      SpacedSpan(c, s, now, n - 1);
      assert s[n - 1 + 1].deadline + c.SegmentMs() < s[n - 1].deadline;
      assert n * (c.SegmentMs() + 1) == (n - 1) * (c.SegmentMs() + 1) + (c.SegmentMs() + 1);
    }
  }

  /** At most segments + 1 segments are unexpired at any one time. */
  lemma SegmentBound<K, V>(c: Lifetime, s: seq<Segment<K, V>>, now: int)
    requires Descending(s) && Spaced(c, s, now)
    ensures |Prune(s, now)| <= c.segments + 1
  {
    PruneIsPrefix(s, now);
    var n := |Prune(s, now)|;
    if n > c.segments + 1 {
      var g := c.segments + 1;
      SpacedSpan(c, s, now, g);
      PartitionsCoverExpiry(c);
    }
  }

  lemma PartitionsCoverExpiry(c: Lifetime)
    ensures c.ExpiryMs() + c.SegmentMs() < (c.segments + 1) * (c.SegmentMs() + 1)
  {
  }
}
