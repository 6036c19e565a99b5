/**
 The segmented time-to-live cache.  `mapList` is the ordered map of segments; the
 methods walk and edit it as the source does, one clock reading per `now` parameter.
 A missing or expired key is `None`, where the source throws std::out_of_range or
 returns nullopt.
 */
module Memcache {
  import opened Options
  import opened SegmentList

  // ---- Index forms of the specification functions ----

  lemma {:induction false} EraseKeyAt<K, V>(s: seq<Segment<K, V>>, k: K, i: nat)
    requires SingleResidence(s) && i < |s| && k in s[i].entries
    ensures EraseKey(s, k) == s[i := Segment(s[i].deadline, s[i].entries - {k})]
  {
    var e := EraseKey(s, k);
    forall j | 0 <= j < |s| && j != i ensures e[j] == s[j] {
      assert k !in s[j].entries;
      assert s[j].entries - {k} == s[j].entries;
    }
  }

  lemma {:induction false} ModifyAt<K, V>(s: seq<Segment<K, V>>, k: K, f: V -> V, now: int, i: nat)
    requires i < |s| && k in s[i].entries
    requires forall j :: 0 <= j <= i ==> now <= s[j].deadline
    requires forall j :: 0 <= j < i ==> k !in s[j].entries
    ensures Modify(s, k, f, now) == s[i := Segment(s[i].deadline, s[i].entries[k := f(s[i].entries[k])])]
    decreases i
  {
    if i > 0 {
      ModifyAt(s[1..], k, f, now, i - 1);
      assert s == [s[0]] + s[1..];
    }
  }

  lemma {:induction false} NotLive<K, V>(s: seq<Segment<K, V>>, k: K, f: V -> V, now: int)
    requires FindLive(s, k, now).None?
    ensures Modify(s, k, f, now) == s
    decreases |s|
  {
    if s != [] && now <= s[0].deadline { NotLive(s[1..], k, f, now); }
  }

  lemma {:induction false} FindAt<K, V>(s: seq<Segment<K, V>>, k: K, i: nat)
    requires i < |s| && k in s[i].entries
    requires forall j :: 0 <= j < i ==> k !in s[j].entries
    ensures Find(s, k) == Some(s[i].entries[k])
    decreases i
  {
    if i > 0 { FindAt(s[1..], k, i - 1); }
  }

  /** The entry is already in the youngest segment's list: only one segment's map changes, or two. */
  lemma MovedInPlace<K, V>(c: Lifetime, p: seq<Segment<K, V>>, k: K, i: nat, storeAt: int)
    requires WellFormed(p) && i < |p| && k in p[i].entries && Youngest(c, p, storeAt) == p
    ensures var v := p[i].entries[k];
            Insert(c, p, k, v, storeAt) ==
            if i == 0 then p
            else p[0 := Segment(p[0].deadline, p[0].entries[k := v])][i := Segment(p[i].deadline, p[i].entries - {k})]
  {
    EraseKeyAt(p, k, i);
    var v := p[i].entries[k];
    if i == 0 {
      assert (p[0].entries - {k})[k := v] == p[0].entries;
    }
  }

  lemma MovedToNewSegment<K, V>(c: Lifetime, p: seq<Segment<K, V>>, k: K, i: nat, storeAt: int)
    requires WellFormed(p) && i < |p| && k in p[i].entries && Youngest(c, p, storeAt) != p
    ensures var y, v := Youngest(c, p, storeAt), p[i].entries[k];
            && y == [Segment(y[0].deadline, map[])] + p
            && Insert(c, p, k, v, storeAt) ==
               y[0 := Segment(y[0].deadline, map[k := v])][i + 1 := Segment(p[i].deadline, p[i].entries - {k})]
  {
    EraseKeyAt(p, k, i);
    var y, e := Youngest(c, p, storeAt), EraseKey(p, k);
    assert Youngest(c, e, storeAt) == [y[0]] + e;
  }

  /**
   Moving an entry into the youngest segment gives the same list as erasing it and
   storing it again, and the youngest segment never already holds the key.
   */
  lemma MovedIsInserted<K, V>(c: Lifetime, p: seq<Segment<K, V>>, k: K, i: nat, storeAt: int)
    requires WellFormed(p) && i < |p| && k in p[i].entries
    ensures var y, v := Youngest(c, p, storeAt), p[i].entries[k];
            var home := i + (|y| - |p|);
            && 0 <= home < |y| && y[home] == p[i]
            && (home != 0 ==> k !in y[0].entries)
            && Insert(c, p, k, v, storeAt) ==
               if home == 0 then y
               else y[0 := Segment(y[0].deadline, y[0].entries[k := v])]
                     [home := Segment(y[home].deadline, y[home].entries - {k})]
  {
    if Youngest(c, p, storeAt) == p {
      MovedInPlace(c, p, k, i, storeAt);
    } else {
      MovedToNewSegment(c, p, k, i, storeAt);
    }
  }

  class Cache<K(==), V> {
    const life: Lifetime
    var mapList: seq<Segment<K, V>>

    ghost predicate Valid()
      reads this
    {
      WellFormed(mapList)
    }

    constructor (life: Lifetime)
      ensures Valid() && this.life == life && mapList == []
    {
      this.life := life;
      mapList := [];
    }

    // ---- Public operations ----

    method Put(k: K, v: V, now: int)
      requires Valid()
      modifies this
      ensures Valid() && mapList == Insert(life, old(mapList), k, v, now)
    {
      InsertEntry(k, v, now);
    }

    method Erase(k: K) returns (found: bool)
      requires Valid()
      modifies this
      ensures Valid() && mapList == EraseKey(old(mapList), k)
      ensures found <==> exists i :: 0 <= i < |old(mapList)| && k in old(mapList)[i].entries
    {
      found := false;
      for i := 0 to |mapList|
        invariant |mapList| == |old(mapList)|
        invariant forall j :: 0 <= j < i ==> mapList[j] == EraseKey(old(mapList), k)[j]
        invariant forall j :: i <= j < |mapList| ==> mapList[j] == old(mapList)[j]
        invariant found <==> exists j :: 0 <= j < i && k in old(mapList)[j].entries
      {
        found := found || k in mapList[i].entries;
        mapList := mapList[i := Segment(mapList[i].deadline, mapList[i].entries - {k})];
      }
      assert mapList == EraseKey(old(mapList), k);
      EraseKeepsWellFormed(old(mapList), k);
    }

    method Clear()
      modifies this
      ensures Valid() && mapList == []
    {
      mapList := [];
    }

    method Get(k: K, pruneAt: int, storeAt: int) returns (r: Option<V>)
      requires Valid()
      modifies this
      ensures Valid() && (mapList, r) == Touch(life, old(mapList), k, pruneAt, storeAt)
    {
      r := TouchEntry(k, pruneAt, storeAt);
    }

    method At(k: K, now: int) returns (r: Option<V>)
      requires Valid()
      ensures r == match FullScan(mapList, k, now) case None => None case Some(e) => Some(e.value)
    {
      var i := FindLiveIndex(k, now);
      r := match i case None => None case Some(n) => Some(mapList[n].entries[k]);
      EarlyStopIsFullScan(mapList, k, now);
    }

    method Contains(k: K, now: int) returns (r: bool)
      requires Valid()
      ensures r <==> FullScan(mapList, k, now).Some?
    {
      var i := FindLiveIndex(k, now);
      r := i.Some?;
      EarlyStopIsFullScan(mapList, k, now);
    }

    /** `made` is the value make() returns when it is called. */
    method GetOrPut(k: K, made: V, pruneAt: int, storeAt: int) returns (r: V)
      requires Valid()
      modifies this
      ensures Valid()
      ensures match FullScan(old(mapList), k, pruneAt)
              case Some(e) => r == e.value && mapList == Touch(life, old(mapList), k, pruneAt, storeAt).0
              case None => r == made && mapList == Insert(life, Prune(old(mapList), pruneAt), k, made, storeAt)
    {
      FindPruned(mapList, k, pruneAt);
      EarlyStopIsFullScan(mapList, k, pruneAt);
      var t := TouchEntry(k, pruneAt, storeAt);
      if t.Some? { return t.value; }
      InsertEntry(k, made, storeAt);
      r := made;
    }

    method Visit(k: K, f: V -> V, now: int) returns (found: bool)
      requires Valid()
      modifies this
      ensures Valid() && mapList == Modify(old(mapList), k, f, now)
      ensures found <==> FullScan(old(mapList), k, now).Some?
    {
      EarlyStopIsFullScan(mapList, k, now);
      ModifyKeepsWellFormed(mapList, k, f, now);
      var i := FindLiveIndex(k, now);
      found := i.Some?;
      match i {
        case None => NotLive(mapList, k, f, now);
        case Some(n) =>
          ModifyAt(mapList, k, f, now, n);
          mapList := mapList[n := Segment(mapList[n].deadline, mapList[n].entries[k := f(mapList[n].entries[k])])];
      }
    }

    method Size(now: int) returns (n: nat)
      requires Valid()
      ensures n == |LiveKeys(mapList, now)|
    {
      n := 0;
      var i := 0;
      while i < |mapList| && !(now > mapList[i].deadline)
        invariant 0 <= i <= |mapList|
        invariant n + LiveSize(mapList[i..], now) == LiveSize(mapList, now)
      {
        n := n + |mapList[i].entries|;
        assert mapList[i..][1..] == mapList[i + 1..];
        i := i + 1;
      }
      SizeCountsLiveKeys(mapList, now);
    }

    method PruneExpired(now: int)
      requires Valid()
      modifies this
      ensures Valid() && mapList == Prune(old(mapList), now)
    {
      var i := 0;
      while i < |mapList|
        invariant 0 <= i <= |mapList|
        invariant mapList[..i] + Prune(mapList[i..], now) == Prune(old(mapList), now)
        decreases |mapList| - i
      {
        var rest := mapList[i + 1..];
        assert mapList[i..][1..] == rest;
        if now > mapList[i].deadline {
          mapList := mapList[..i] + rest;
          assert mapList[i..] == rest;
        } else {
          assert mapList[..i + 1] == mapList[..i] + [mapList[i]];
          i := i + 1;
        }
      }
      assert mapList[..i] + [] == mapList && mapList[i..] == [];
      PruneKeepsWellFormed(old(mapList), now);
    }

    // ---- Helpers that expect the caller to hold the lock ----

    method FindLiveIndex(k: K, now: int) returns (r: Option<nat>)
      ensures match r
              case None => FindLive(mapList, k, now).None?
              case Some(i) =>
                && i < |mapList| && k in mapList[i].entries
                && (forall j :: 0 <= j <= i ==> now <= mapList[j].deadline)
                && (forall j :: 0 <= j < i ==> k !in mapList[j].entries)
                && FindLive(mapList, k, now) == Some(Timed(mapList[i].entries[k], mapList[i].deadline))
    {
      var i := 0;
      while i < |mapList| && !(now > mapList[i].deadline)
        invariant 0 <= i <= |mapList|
        invariant FindLive(mapList, k, now) == FindLive(mapList[i..], k, now)
        invariant forall j :: 0 <= j < i ==> now <= mapList[j].deadline && k !in mapList[j].entries
      {
        if k in mapList[i].entries { return Some(i); }
        assert mapList[i..][1..] == mapList[i + 1..];
        i := i + 1;
      }
      r := None;
    }

    /** The ordered map's operator[]: the segment with this deadline, created in its place if missing. */
    method SegmentWith(deadline: int) returns (i: nat)
      requires Descending(mapList)
      modifies this
      ensures Descending(mapList) && i < |mapList| && mapList[i].deadline == deadline
      ensures if exists s :: s in old(mapList) && s.deadline == deadline then mapList == old(mapList)
              else i <= |old(mapList)| && mapList == old(mapList)[..i] + [Segment(deadline, map[])] + old(mapList)[i..]
    {
      i := 0;
      while i < |mapList| && mapList[i].deadline > deadline
        invariant 0 <= i <= |mapList|
        invariant forall j :: 0 <= j < i ==> mapList[j].deadline > deadline
      {
        i := i + 1;
      }
      if i < |mapList| && mapList[i].deadline == deadline {
        assert mapList[i] in mapList;
      } else {
        mapList := mapList[..i] + [Segment(deadline, map[])] + mapList[i..];
      }
    }

    /** The segment for entries stored now is always the first one. */
    method YoungestSegment(now: int) returns (i: nat)
      requires Valid()
      modifies this
      ensures Valid() && i == 0 && mapList == Youngest(life, old(mapList), now)
    {
      YoungestKeepsWellFormed(life, mapList, now);
      var expiryAt := now + life.ExpiryMs();
      if mapList == [] || mapList[0].deadline < expiryAt {
        i := SegmentWith(expiryAt + life.SegmentMs());
        assert mapList[0].deadline >= mapList[i].deadline;
      } else {
        i := 0;
      }
    }

    method InsertEntry(k: K, v: V, now: int)
      requires Valid()
      modifies this
      ensures Valid() && mapList == Insert(life, old(mapList), k, v, now)
    {
      InsertKeepsWellFormed(life, mapList, k, v, now);
      for i := 0 to |mapList|
        invariant |mapList| == |old(mapList)|
        invariant forall j :: 0 <= j < i ==> mapList[j] == EraseKey(old(mapList), k)[j]
        invariant forall j :: i <= j < |mapList| ==> mapList[j] == old(mapList)[j]
      {
        mapList := mapList[i := Segment(mapList[i].deadline, mapList[i].entries - {k})];
      }
      assert mapList == EraseKey(old(mapList), k);
      EraseKeepsWellFormed(old(mapList), k);
      var young := YoungestSegment(now);
      Emplace(young, k, v);
    }

    /** std::map::emplace: stores nothing when the key is already there. */
    method Emplace(i: nat, k: K, v: V)
      requires i < |mapList|
      modifies this
      ensures k in old(mapList)[i].entries ==> mapList == old(mapList)
      ensures k !in old(mapList)[i].entries ==>
                mapList == old(mapList)[i := Segment(old(mapList)[i].deadline, old(mapList)[i].entries[k := v])]
    {
      if k !in mapList[i].entries {
        mapList := mapList[i := Segment(mapList[i].deadline, mapList[i].entries[k := v])];
      }
    }

    method TouchEntry(k: K, pruneAt: int, storeAt: int) returns (r: Option<V>)
      requires Valid()
      modifies this
      ensures Valid() && (mapList, r) == Touch(life, old(mapList), k, pruneAt, storeAt)
    {
      TouchKeepsWellFormed(life, mapList, k, pruneAt, storeAt);
      PruneExpired(pruneAt);
      ghost var p := mapList;
      var i := 0;
      while i < |mapList|
        invariant 0 <= i <= |mapList| && mapList == p && Valid()
        invariant Find(p, k) == Find(p[i..], k)
        invariant forall j :: 0 <= j < i ==> k !in p[j].entries
      {
        if k in mapList[i].entries {
          FindAt(mapList, k, i);
          r := Some(mapList[i].entries[k]);
          MoveToYoungest(k, i, storeAt);
          return;
        }
        assert p[i..][1..] == p[i + 1..];
        i := i + 1;
      }
      r := None;
    }

    /** Moves the entry of k from segment i to the youngest segment, unless it is already there. */
    method MoveToYoungest(k: K, i: nat, storeAt: int)
      requires Valid() && i < |mapList| && k in mapList[i].entries
      modifies this
      ensures mapList == Insert(life, old(mapList), k, old(mapList)[i].entries[k], storeAt)
    {
      ghost var p := mapList;
      var before, v := |mapList|, mapList[i].entries[k];
      var young := YoungestSegment(storeAt);
      var home := i + (|mapList| - before);
      MovedIsInserted(life, p, k, i, storeAt);
      if young != home {
        Emplace(young, k, v);
        mapList := mapList[home := Segment(mapList[home].deadline, mapList[home].entries - {k})];
      }
    }
  }
}
