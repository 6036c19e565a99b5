/**
 The three-tier route table.  `log` records the registrations; `Find` is proved to
 return what a plain scan over them returns, tier after tier.  For routes made from their
 specs the prefix test makes no difference, and the hash none on the targets it is right
 about (`HashIsRight`): the scan returns the first route whose verb fits and whose pattern
 accepts.  A raw regex route's engine is an arbitrary function.
 */
module RouteTable {
  import opened Options
  import opened RoutePattern
  import opened RouteSpec

  datatype Regex = Compiled(toks: seq<Token>) | Raw(run: string -> Option<seq<string>>)
  datatype Route = Route(verb: string, re: Regex, handler: nat)
  datatype PrefixEntry = PrefixEntry(prefix: string, route: Route)

  /** regex_search: the whole match followed by the groups. */
  function RegexSearch(re: Regex, target: string): Option<seq<string>> {
    match re
    case Compiled(toks) => (match Search(toks, target) case None => None case Some(caps) => Some([target] + caps))
    case Raw(run) => run(target)
  }

  function Lower(c: char): char {
    if 'A' <= c <= 'Z' then (c as int + 32) as char else c
  }

  /** Equal, or the upper- and lower-case form of one letter. */
  predicate SameLetter(a: char, b: char) {
    || a == b
    || ('A' <= a <= 'Z' && b as int - 'a' as int == a as int - 'A' as int)
    || ('A' <= b <= 'Z' && a as int - 'a' as int == b as int - 'A' as int)
  }

  predicate SameMethod(a: string, b: string) {
    |a| == |b| && forall i :: 0 <= i < |a| ==> SameLetter(a[i], b[i])
  }

  predicate IEquals(a: string, b: string): (r: bool)
    ensures r <==> SameMethod(a, b)
  {
    |a| == |b| && forall i :: 0 <= i < |a| ==> Lower(a[i]) == Lower(b[i])
  }

  predicate VerbFits(route: Route, verb: string) { route.verb == "" || IEquals(route.verb, verb) }

  // ---- Registrations and the plain scan ----

  /** add_route takes a spec and a finished route, add_regex_route only a route. */
  datatype Registration =
    | Spec(spec: string, route: Route, front: bool)
    | Pattern(route: Route, front: bool)

  datatype Tier = Exact | Prefix | Fallback

  function TierOf(g: Registration): Tier {
    if g.Pattern? then Fallback else if IsStaticRoute(g.spec) then Exact else Prefix
  }

  /** What a route answers: a static spec by path, a tagged one by prefix and pattern, a raw one by pattern. */
  function Answer(g: Registration, verb: string, target: string): Option<seq<string>> {
    if !VerbFits(g.route, verb) then None
    else
      match TierOf(g)
      case Exact => if NormalisePath(target) == NormalisePath(g.spec) then Some([NormalisePath(target)]) else None
      case Prefix => if ExtractStaticPrefix(g.spec) <= target then RegexSearch(g.route.re, target) else None
      case Fallback => RegexSearch(g.route.re, target)
  }

  function Scan(list: seq<Registration>, verb: string, target: string): Option<(Route, seq<string>)> {
    if list == [] then None
    else
      match Answer(list[0], verb, target)
      case Some(args) => Some((list[0].route, args))
      case None => Scan(list[1..], verb, target)
  }

  /** The scan returns the first registration that answers, and nothing exactly when none does. */
  lemma {:induction false} ScanFindsFirst(list: seq<Registration>, verb: string, target: string)
    ensures match Scan(list, verb, target)
            case None => forall i :: 0 <= i < |list| ==> Answer(list[i], verb, target).None?
            case Some(found) =>
              exists i :: 0 <= i < |list| && found.0 == list[i].route && Answer(list[i], verb, target) == Some(found.1)
                          && forall j :: 0 <= j < i ==> Answer(list[j], verb, target).None?
    decreases |list|
  {
    if list != [] && Answer(list[0], verb, target).None? {
      var rest := list[1..];
      ScanFindsFirst(rest, verb, target);
      assert forall i :: 1 <= i < |list| ==> list[i] == rest[i - 1];
      match Scan(rest, verb, target)
      case None =>
      case Some(found) =>
        var i :| 0 <= i < |rest| && found.0 == rest[i].route && Answer(rest[i], verb, target) == Some(found.1)
                 && forall j :: 0 <= j < i ==> Answer(rest[j], verb, target).None?;
        assert found.0 == list[i + 1].route && Answer(list[i + 1], verb, target) == Some(found.1);
    }
  }

  lemma {:induction false} ScanAppend(a: seq<Registration>, b: seq<Registration>, verb: string, target: string)
    ensures Scan(a + b, verb, target) ==
            if Scan(a, verb, target).Some? then Scan(a, verb, target) else Scan(b, verb, target)
    decreases |a|
  {
    if a == [] {
      assert a + b == b;
    } else {
      assert (a + b)[1..] == a[1..] + b;
      ScanAppend(a[1..], b, verb, target);
    }
  }

  /** The registrations of one tier in the order of its vector. */
  function TierList(log: seq<Registration>, tier: Tier): (r: seq<Registration>)
    ensures forall g :: g in r ==> g in log && TierOf(g) == tier
    decreases |log|
  {
    if log == [] then []
    else
      var before, g := TierList(log[..|log| - 1], tier), log[|log| - 1];
      if TierOf(g) != tier then before
      else if g.front then [g] + before
      else before + [g]
  }

  function Select(log: seq<Registration>, tier: Tier, front: bool): seq<Registration>
    decreases |log|
  {
    if log == [] then []
    else
      var before, g := Select(log[..|log| - 1], tier, front), log[|log| - 1];
      if TierOf(g) == tier && g.front == front then before + [g] else before
  }

  function Reversed<T>(s: seq<T>): seq<T> {
    if s == [] then [] else [s[|s| - 1]] + Reversed(s[..|s| - 1])
  }

  /** A tier holds its front inserts, newest first, then its back inserts in order. */
  lemma {:induction false} TierOrder(log: seq<Registration>, tier: Tier)
    ensures TierList(log, tier) == Reversed(Select(log, tier, true)) + Select(log, tier, false)
    decreases |log|
  {
    if log != [] {
      var before, g := log[..|log| - 1], log[|log| - 1];
      TierOrder(before, tier);
      var f, b := Select(before, tier, true), Select(before, tier, false);
      if TierOf(g) == tier {
        if g.front {
          ReversedAppend(f, g);
          assert [g] + (Reversed(f) + b) == ([g] + Reversed(f)) + b;
        } else {
          assert (Reversed(f) + b) + [g] == Reversed(f) + (b + [g]);
        }
      }
    }
  }

  lemma ReversedAppend<T>(s: seq<T>, x: T)
    ensures Reversed(s + [x]) == [x] + Reversed(s)
  {
  }

  function Order(log: seq<Registration>): seq<Registration> {
    TierList(log, Exact) + TierList(log, Prefix) + TierList(log, Fallback)
  }

  // ---- The exact tier's hash buckets ----

  /** The routes of an exact-tier list that are stored under `key`. */
  function Bucket(list: seq<Registration>, key: string): seq<Route>
  {
    if list == [] then []
    else if list[0].Spec? && NormalisePath(list[0].spec) == key then [list[0].route] + Bucket(list[1..], key)
    else Bucket(list[1..], key)
  }

  lemma {:induction false} BucketAppend(a: seq<Registration>, b: seq<Registration>, key: string)
    ensures Bucket(a + b, key) == Bucket(a, key) + Bucket(b, key)
    decreases |a|
  {
    if a == [] {
      assert a + b == b;
    } else {
      assert (a + b)[1..] == a[1..] + b;
      BucketAppend(a[1..], b, key);
    }
  }

  /** The first route of the vector that takes the method. */
  function FirstWithVerb(routes: seq<Route>, verb: string): Option<Route> {
    if routes == [] then None
    else if VerbFits(routes[0], verb) then Some(routes[0])
    else FirstWithVerb(routes[1..], verb)
  }

  /** Looking only into one bucket is scanning the whole exact tier. */
  lemma {:induction false} BucketIsScan(list: seq<Registration>, verb: string, target: string)
    requires forall i :: 0 <= i < |list| ==> TierOf(list[i]) == Exact
    ensures var path := NormalisePath(target);
            Scan(list, verb, target) ==
            match FirstWithVerb(Bucket(list, path), verb) case None => None case Some(route) => Some((route, [path]))
    decreases |list|
  {
    if list != [] {
      BucketIsScan(list[1..], verb, target);
      var path := NormalisePath(target);
      assert list[0].Spec?;
      if NormalisePath(list[0].spec) == path {
        assert Bucket(list, path)[1..] == Bucket(list[1..], path);
      }
    }
  }

  ghost predicate EntryFits(g: Registration, e: PrefixEntry) {
    g.Spec? && e == PrefixEntry(ExtractStaticPrefix(g.spec), g.route)
  }

  ghost predicate RouteFits(g: Registration, r: Route) { r == g.route }

  lemma TierMembers(log: seq<Registration>, tier: Tier)
    ensures forall i :: 0 <= i < |TierList(log, tier)| ==> TierOf(TierList(log, tier)[i]) == tier
  {
  }

  function VectorAt(m: map<string, seq<Route>>, key: string): seq<Route> {
    if key in m then m[key] else []
  }

  function Placed<T>(x: T, s: seq<T>, front: bool): seq<T> { if front then [x] + s else s + [x] }

  lemma TierAfter(log: seq<Registration>, g: Registration, tier: Tier)
    ensures TierList(log + [g], tier) ==
            if TierOf(g) == tier then Placed(g, TierList(log, tier), g.front) else TierList(log, tier)
  {
  }

  ghost predicate ExactHolds(m: map<string, seq<Route>>, list: seq<Registration>) {
    forall key :: VectorAt(m, key) == Bucket(list, key)
  }

  ghost predicate PrefixHolds(entries: seq<PrefixEntry>, list: seq<Registration>) {
    |entries| == |list| && forall i :: 0 <= i < |list| ==> EntryFits(list[i], entries[i])
  }

  ghost predicate FallbackHolds(routes: seq<Route>, list: seq<Registration>) {
    |routes| == |list| && forall i :: 0 <= i < |list| ==> RouteFits(list[i], routes[i])
  }

  lemma BucketPlaced(list: seq<Registration>, g: Registration, k: string)
    requires g.Spec?
    ensures Bucket(Placed(g, list, g.front), k) ==
            if NormalisePath(g.spec) == k then Placed(g.route, Bucket(list, k), g.front) else Bucket(list, k)
  {
    var one := [g];
    assert one[1..] == [] && Bucket([], k) == [];
    assert Bucket(one, k) == if NormalisePath(g.spec) == k then [g.route] else [];
    if g.front { BucketAppend(one, list, k); } else { BucketAppend(list, one, k); }
  }

  lemma ExactPlaced(m: map<string, seq<Route>>, list: seq<Registration>, g: Registration)
    requires ExactHolds(m, list) && g.Spec?
    ensures var key := NormalisePath(g.spec);
            ExactHolds(m[key := Placed(g.route, VectorAt(m, key), g.front)], Placed(g, list, g.front))
  {
    var key, l := NormalisePath(g.spec), Placed(g, list, g.front);
    var m' := m[key := Placed(g.route, VectorAt(m, key), g.front)];
    forall k ensures VectorAt(m', k) == Bucket(l, k) {
      assert VectorAt(m, k) == Bucket(list, k);
      BucketPlaced(list, g, k);
    }
  }

  lemma PrefixInFront(entries: seq<PrefixEntry>, list: seq<Registration>, g: Registration, e: PrefixEntry)
    requires PrefixHolds(entries, list) && EntryFits(g, e)
    ensures PrefixHolds([e] + entries, [g] + list)
  {
    forall i | 0 <= i < |list| + 1 ensures EntryFits(([g] + list)[i], ([e] + entries)[i]) {
      if i > 0 { assert EntryFits(list[i - 1], entries[i - 1]); }
    }
  }

  lemma PrefixAtEnd(entries: seq<PrefixEntry>, list: seq<Registration>, g: Registration, e: PrefixEntry)
    requires PrefixHolds(entries, list) && EntryFits(g, e)
    ensures PrefixHolds(entries + [e], list + [g])
  {
    forall i | 0 <= i < |list| + 1 ensures EntryFits((list + [g])[i], (entries + [e])[i]) {
      if i < |list| { assert EntryFits(list[i], entries[i]); }
    }
  }

  lemma PrefixPlaced(entries: seq<PrefixEntry>, list: seq<Registration>, g: Registration, e: PrefixEntry)
    requires PrefixHolds(entries, list) && EntryFits(g, e)
    ensures PrefixHolds(Placed(e, entries, g.front), Placed(g, list, g.front))
  {
    if g.front { PrefixInFront(entries, list, g, e); } else { PrefixAtEnd(entries, list, g, e); }
  }

  lemma FallbackPlaced(routes: seq<Route>, list: seq<Registration>, g: Registration)
    requires FallbackHolds(routes, list)
    ensures FallbackHolds(Placed(g.route, routes, g.front), Placed(g, list, g.front))
  {
  }

  /** The three containers hold what the registrations put there. */
  ghost predicate Holds(exact: map<string, seq<Route>>, entries: seq<PrefixEntry>, fallback: seq<Route>,
                        log: seq<Registration>) {
    && ExactHolds(exact, TierList(log, Exact))
    && PrefixHolds(entries, TierList(log, Prefix))
    && FallbackHolds(fallback, TierList(log, Fallback))
  }

  lemma HoldsAfterExact(exact: map<string, seq<Route>>, entries: seq<PrefixEntry>, fallback: seq<Route>,
                        log: seq<Registration>, g: Registration)
    requires Holds(exact, entries, fallback, log) && TierOf(g) == Exact
    ensures var key := NormalisePath(g.spec);
            Holds(exact[key := Placed(g.route, VectorAt(exact, key), g.front)], entries, fallback, log + [g])
  {
    TierAfter(log, g, Exact);
    TierAfter(log, g, Prefix);
    TierAfter(log, g, Fallback);
    ExactPlaced(exact, TierList(log, Exact), g);
  }

  lemma HoldsAfterPrefix(exact: map<string, seq<Route>>, entries: seq<PrefixEntry>, fallback: seq<Route>,
                         log: seq<Registration>, g: Registration)
    requires Holds(exact, entries, fallback, log) && TierOf(g) == Prefix
    ensures var e := PrefixEntry(ExtractStaticPrefix(g.spec), g.route);
            Holds(exact, Placed(e, entries, g.front), fallback, log + [g])
  {
    TierAfter(log, g, Exact);
    TierAfter(log, g, Prefix);
    TierAfter(log, g, Fallback);
    PrefixPlaced(entries, TierList(log, Prefix), g, PrefixEntry(ExtractStaticPrefix(g.spec), g.route));
  }

  lemma HoldsAfterFallback(exact: map<string, seq<Route>>, entries: seq<PrefixEntry>, fallback: seq<Route>,
                           log: seq<Registration>, g: Registration)
    requires Holds(exact, entries, fallback, log) && TierOf(g) == Fallback
    ensures Holds(exact, entries, Placed(g.route, fallback, g.front), log + [g])
  {
    TierAfter(log, g, Exact);
    TierAfter(log, g, Prefix);
    TierAfter(log, g, Fallback);
    FallbackPlaced(fallback, TierList(log, Fallback), g);
  }

  lemma EntryAnswers(g: Registration, e: PrefixEntry, verb: string, target: string)
    requires EntryFits(g, e) && !IsStaticRoute(g.spec)
    ensures Answer(g, verb, target) ==
            if e.prefix <= target && VerbFits(e.route, verb) then RegexSearch(e.route.re, target) else None
  {
  }

  // ---- Routes made from their specs ----

  /** on_http_request compiles the pattern of a spec route from its spec. */
  predicate MadeFromSpec(g: Registration) {
    g.Spec? ==> ValidSpec(g.spec) && g.route.re == Compiled(Compile(g.spec))
  }

  /** What a route answers by its verb and pattern alone. */
  function PatternAnswer(g: Registration, verb: string, target: string): Option<seq<string>> {
    if VerbFits(g.route, verb) then RegexSearch(g.route.re, target) else None
  }

  /** The prefix test turns away no target that the pattern accepts. */
  lemma PrefixTestIsHarmless(g: Registration, verb: string, target: string)
    requires MadeFromSpec(g) && !TierOf(g).Exact?
    ensures Answer(g, verb, target) == PatternAnswer(g, verb, target)
  {
    if g.Spec? && Search(Compile(g.spec), target).Some? { PrefixNeverRejects(g.spec, target); }
  }

  /** The hash answers as the pattern would, where it is right about the target, and nowhere else. */
  lemma HashAnswersExactly(g: Registration, verb: string, target: string)
    requires MadeFromSpec(g) && TierOf(g).Exact? && VerbFits(g.route, verb) && target != "" && target[0] == '/'
    ensures (Answer(g, verb, target).Some? <==> PatternAnswer(g, verb, target).Some?) <==> HashIsRight(g.spec, target)
  {
    HashIsRightExactly(g.spec, target);
  }

  /** The first registration whose verb fits and whose pattern accepts. */
  function FirstAccepting(list: seq<Registration>, verb: string, target: string): (r: Option<Registration>)
    ensures r.Some? ==> r.value in list && PatternAnswer(r.value, verb, target).Some?
  {
    if list == [] then None
    else if PatternAnswer(list[0], verb, target).Some? then Some(list[0])
    else FirstAccepting(list[1..], verb, target)
  }

  /** Its route and captures; a static route's argument is the path. */
  function PatternScan(list: seq<Registration>, verb: string, target: string): Option<(Route, seq<string>)> {
    match FirstAccepting(list, verb, target)
    case None => None
    case Some(g) =>
      Some((g.route, if TierOf(g).Exact? then [NormalisePath(target)] else PatternAnswer(g, verb, target).value))
  }

  /** Routes made from their specs, and a path about which the hash is right for every static one. */
  ghost predicate Ordinary(list: seq<Registration>, target: string) {
    && target != "" && target[0] == '/'
    && forall g :: g in list ==> MadeFromSpec(g) && (TierOf(g).Exact? ==> HashIsRight(g.spec, target))
  }

  /** Then the scan over the tiers is a scan of the patterns. */
  lemma {:induction false} ScanIsPatternScan(list: seq<Registration>, verb: string, target: string)
    requires Ordinary(list, target)
    ensures Scan(list, verb, target) == PatternScan(list, verb, target)
    decreases |list|
  {
    if list != [] {
      var g := list[0];
      if TierOf(g).Exact? {
        if VerbFits(g.route, verb) { HashAnswersExactly(g, verb, target); }
      } else {
        PrefixTestIsHarmless(g, verb, target);
      }
      ScanIsPatternScan(list[1..], verb, target);
    }
  }

  // ---- What a lookup returns, written out ----

  /** The route answers: its method fits, and its path, pattern or engine does. */
  ghost predicate Answers(g: Registration, verb: string, target: string) {
    && (g.route.verb == "" || SameMethod(g.route.verb, verb))
    && if g.Spec? && '<' !in g.spec then NormalisePath(g.spec) == NormalisePath(target)
       else (g.Spec? ==> ExtractStaticPrefix(g.spec) <= target) && EngineAccepts(g.route.re, target)
  }

  ghost predicate EngineAccepts(re: Regex, target: string) {
    match re
    case Compiled(toks) => exists caps :: Accepts(toks, target, caps)
    case Raw(run) => run(target).Some?
  }

  /** The arguments of its handler: the path, or the whole target, the greediest captures and the query. */
  ghost predicate ArgsFit(g: Registration, target: string, args: seq<string>) {
    if g.Spec? && '<' !in g.spec then args == [NormalisePath(target)]
    else
      match g.route.re
      case Raw(run) => run(target) == Some(args)
      case Compiled(toks) =>
        && |args| == |Groups(toks)| + 2 && args[0] == target
        && Accepts(toks, target, args[1..])
        && forall caps :: Accepts(toks, target, caps) ==> Greedier(args[1..], caps)
  }

  lemma EngineMeans(g: Registration, target: string)
    requires !(g.Spec? && '<' !in g.spec)
    ensures RegexSearch(g.route.re, target).Some? <==> EngineAccepts(g.route.re, target)
    ensures RegexSearch(g.route.re, target).Some? ==> ArgsFit(g, target, RegexSearch(g.route.re, target).value)
  {
    match g.route.re
    case Raw(_) =>
    case Compiled(toks) =>
      SearchFindsGreediest(toks, target);
      if Search(toks, target).Some? {
        var caps := Search(toks, target).value;
        CapturesAreValid(toks, target, caps);
        assert ([target] + caps)[1..] == caps;
      }
  }

  lemma AnswerMeans(g: Registration, verb: string, target: string)
    ensures Answer(g, verb, target).Some? <==> Answers(g, verb, target)
    ensures Answer(g, verb, target).Some? ==> ArgsFit(g, target, Answer(g, verb, target).value)
  {
    if !(g.Spec? && '<' !in g.spec) { EngineMeans(g, target); }
  }

  /** The first registration of the list that answers, with its arguments; nothing if none does. */
  ghost predicate FirstAnswer(list: seq<Registration>, verb: string, target: string, r: Option<(Route, seq<string>)>) {
    match r
    case None => forall i :: 0 <= i < |list| ==> !Answers(list[i], verb, target)
    case Some(found) =>
      exists i :: 0 <= i < |list| && found.0 == list[i].route && Answers(list[i], verb, target)
                  && ArgsFit(list[i], target, found.1)
                  && forall j :: 0 <= j < i ==> !Answers(list[j], verb, target)
  }

  lemma ScanMeans(list: seq<Registration>, verb: string, target: string)
    ensures FirstAnswer(list, verb, target, Scan(list, verb, target))
  {
    ScanFindsFirst(list, verb, target);
    forall i | 0 <= i < |list|
      ensures Answer(list[i], verb, target).Some? <==> Answers(list[i], verb, target)
      ensures Answer(list[i], verb, target).Some? ==> ArgsFit(list[i], target, Answer(list[i], verb, target).value)
    {
      AnswerMeans(list[i], verb, target);
    }
  }

  /** Static specs come before tagged ones, those before raw patterns. */
  function Rank(g: Registration): nat { if g.Pattern? then 2 else if '<' in g.spec then 1 else 0 }

  lemma PlacedBag<T>(x: T, s: seq<T>, front: bool)
    ensures multiset(Placed(x, s, front)) == multiset(s) + multiset{x}
  {
  }

  lemma TierBag(log: seq<Registration>, g: Registration, tier: Tier)
    ensures multiset(TierList(log + [g], tier)) ==
            multiset(TierList(log, tier)) + if TierOf(g) == tier then multiset{g} else multiset{}
  {
    TierAfter(log, g, tier);
    PlacedBag(g, TierList(log, tier), g.front);
  }

  lemma {:induction false} TiersPartition(log: seq<Registration>)
    ensures multiset(TierList(log, Exact)) + multiset(TierList(log, Prefix)) + multiset(TierList(log, Fallback)) ==
            multiset(log)
    decreases |log|
  {
    if log != [] {
      var before, g := log[..|log| - 1], log[|log| - 1];
      assert log == before + [g];
      TiersPartition(before);
      TierBag(before, g, Exact);
      TierBag(before, g, Prefix);
      TierBag(before, g, Fallback);
    }
  }

  /** The order of the search has every registration once, sorted by tier. */
  lemma OrderIsByTier(log: seq<Registration>)
    ensures multiset(Order(log)) == multiset(log)
    ensures forall i, j :: 0 <= i < j < |Order(log)| ==> Rank(Order(log)[i]) <= Rank(Order(log)[j])
  {
    TiersPartition(log);
    var e, p, f := TierList(log, Exact), TierList(log, Prefix), TierList(log, Fallback);
    assert forall i :: 0 <= i < |e| ==> e[i] in e;
    assert forall i :: 0 <= i < |p| ==> p[i] in p;
    assert forall i :: 0 <= i < |f| ==> f[i] in f;
  }

  class Table {
    var exactRoutes: map<string, seq<Route>>
    var prefixRoutes: seq<PrefixEntry>
    var fallbackRoutes: seq<Route>
    ghost var log: seq<Registration>

    ghost predicate Valid()
      reads this
    {
      Holds(exactRoutes, prefixRoutes, fallbackRoutes, log)
    }

    constructor ()
      ensures Valid() && log == []
    {
      exactRoutes, prefixRoutes, fallbackRoutes := map[], [], [];
      log := [];
    }

    method AddRoute(spec: string, route: Route, front: bool)
      requires Valid()
      modifies this
      ensures Valid() && log == old(log) + [Spec(spec, route, front)]
    {
      if IsStaticRoute(spec) {
        InsertExact(spec, route, front);
      } else {
        InsertPrefix(spec, route, front);
      }
    }

    method InsertExact(spec: string, route: Route, front: bool)
      requires Valid() && IsStaticRoute(spec)
      modifies this
      ensures Valid() && log == old(log) + [Spec(spec, route, front)]
    {
      HoldsAfterExact(exactRoutes, prefixRoutes, fallbackRoutes, log, Spec(spec, route, front));
      var key := NormalisePath(spec);
      var vec := VectorAt(exactRoutes, key);
      exactRoutes := exactRoutes[key := if front then [route] + vec else vec + [route]];
      log := log + [Spec(spec, route, front)];
    }

    method InsertPrefix(spec: string, route: Route, front: bool)
      requires Valid() && !IsStaticRoute(spec)
      modifies this
      ensures Valid() && log == old(log) + [Spec(spec, route, front)]
    {
      HoldsAfterPrefix(exactRoutes, prefixRoutes, fallbackRoutes, log, Spec(spec, route, front));
      var entry := PrefixEntry(ExtractStaticPrefix(spec), route);
      prefixRoutes := if front then [entry] + prefixRoutes else prefixRoutes + [entry];
      log := log + [Spec(spec, route, front)];
    }

    method AddRegexRoute(route: Route, front: bool)
      requires Valid()
      modifies this
      ensures Valid() && log == old(log) + [Pattern(route, front)]
    {
      HoldsAfterFallback(exactRoutes, prefixRoutes, fallbackRoutes, log, Pattern(route, front));
      fallbackRoutes := if front then [route] + fallbackRoutes else fallbackRoutes + [route];
      log := log + [Pattern(route, front)];
    }

    /** None is not_found_error; the second component is args. */
    method Find(verb: string, target: string) returns (r: Option<(Route, seq<string>)>)
      requires Valid()
      ensures r == Scan(Order(log), verb, target) && FirstAnswer(Order(log), verb, target, r)
      ensures Ordinary(log, target) ==> r == PatternScan(Order(log), verb, target)
    {
      ScanMeans(Order(log), verb, target);
      if Ordinary(log, target) { ScanIsPatternScan(Order(log), verb, target); }
      ghost var e, p, f := TierList(log, Exact), TierList(log, Prefix), TierList(log, Fallback);
      ScanAppend(e, p, verb, target);
      ScanAppend(e + p, f, verb, target);
      r := FindExact(verb, target);
      if r.Some? { return; }
      r := FindPrefix(verb, target);
      if r.Some? { return; }
      r := FindFallback(verb, target);
    }

    method FindExact(verb: string, target: string) returns (r: Option<(Route, seq<string>)>)
      requires Valid()
      ensures r == Scan(TierList(log, Exact), verb, target)
    {
      var path := NormalisePath(target);
      TierMembers(log, Exact);
      BucketIsScan(TierList(log, Exact), verb, target);
      if path in exactRoutes {
        var vec := exactRoutes[path];
        assert vec == VectorAt(exactRoutes, path);
        for i := 0 to |vec|
          invariant FirstWithVerb(vec, verb) == FirstWithVerb(vec[i..], verb)
        {
          if vec[i].verb == "" || IEquals(vec[i].verb, verb) {
            return Some((vec[i], [path]));
          }
          assert vec[i..][1..] == vec[i + 1..];
        }
      } else {
        assert VectorAt(exactRoutes, path) == [];
      }
      r := None;
    }

    method FindPrefix(verb: string, target: string) returns (r: Option<(Route, seq<string>)>)
      requires Valid()
      ensures r == Scan(TierList(log, Prefix), verb, target)
    {
      ghost var list := TierList(log, Prefix);
      TierMembers(log, Prefix);
      for i := 0 to |prefixRoutes|
        invariant Scan(list, verb, target) == Scan(list[i..], verb, target)
      {
        var entry := prefixRoutes[i];
        EntryAnswers(list[i], entry, verb, target);
        assert list[i..][1..] == list[i + 1..];
        if |target| >= |entry.prefix| && target[..|entry.prefix|] == entry.prefix {
          if entry.route.verb == "" || IEquals(entry.route.verb, verb) {
            var m := RegexSearch(entry.route.re, target);
            if m.Some? { return Some((entry.route, m.value)); }
          }
        }
      }
      r := None;
    }

    method FindFallback(verb: string, target: string) returns (r: Option<(Route, seq<string>)>)
      requires Valid()
      ensures r == Scan(TierList(log, Fallback), verb, target)
    {
      ghost var list := TierList(log, Fallback);
      TierMembers(log, Fallback);
      for i := 0 to |fallbackRoutes|
        invariant Scan(list, verb, target) == Scan(list[i..], verb, target)
      {
        var route := fallbackRoutes[i];
        assert RouteFits(list[i], route);
        assert list[i..][1..] == list[i + 1..];
        if route.verb == "" || IEquals(route.verb, verb) {
          var m := RegexSearch(route.re, target);
          if m.Some? { return Some((route, m.value)); }
        }
      }
      r := None;
    }
  }
}
