/**
 Compiled route patterns: literal characters and capture groups, anchored at both
 ends, followed by an optional slash and an optional query.  `Accepts` says which
 captures a target admits; `Search` is the backtracking regex engine, greedy groups
 and first alternative first.
 */
module RoutePattern {
  import opened Options
  import opened Strings

  datatype Kind = IntKind | StringKind | PathKind

  /** `src` is the text of the tag in the spec. */
  datatype Token = Lit(c: char) | Tag(kind: Kind, src: string)

  /** The character class of a group: [0-9], [^\/\?\s] or [^?#\s]. */
  predicate InClass(kind: Kind, c: char) {
    match kind
    case IntKind => '0' <= c <= '9'
    case StringKind => c != '/' && c != '?' && !IsSpace(c)
    case PathKind => c != '?' && c != '#' && !IsSpace(c)
  }

  /** + for int and string, * for path. */
  function MinLength(kind: Kind): nat { if kind.PathKind? then 0 else 1 }

  predicate ValidCapture(kind: Kind, cap: string) {
    MinLength(kind) <= |cap| && forall i :: 0 <= i < |cap| ==> InClass(kind, cap[i])
  }

  /** The last group: nothing, or a question mark followed by no space or second question mark. */
  predicate ValidQuery(q: string) {
    q == "" || (q[0] == '?' && forall i :: 1 <= i < |q| ==> q[i] != '?' && !IsSpace(q[i]))
  }

  // ---- What a pattern accepts ----

  predicate Accepts(toks: seq<Token>, s: string, caps: seq<string>)
    decreases |toks|
  {
    if toks == [] then |caps| == 1 && ValidQuery(caps[0]) && (s == caps[0] || s == "/" + caps[0])
    else
      match toks[0]
      case Lit(c) => s != "" && s[0] == c && Accepts(toks[1..], s[1..], caps)
      case Tag(kind, _) =>
        caps != [] && ValidCapture(kind, caps[0]) && caps[0] <= s && Accepts(toks[1..], s[|caps[0]|..], caps[1..])
  }

  // ---- The regex engine ----

  /** The longest prefix a greedy group can take. */
  function RunLength(kind: Kind, s: string): (n: nat)
    ensures n <= |s| && (forall i :: 0 <= i < n ==> InClass(kind, s[i]))
    ensures n < |s| ==> !InClass(kind, s[n])
  {
    if s != "" && InClass(kind, s[0]) then
      var n := RunLength(kind, s[1..]);
      assert forall i :: 1 <= i < n + 1 ==> s[i] == s[1..][i - 1];
      n + 1
    else 0
  }

  lemma {:induction false} CaptureFitsRun(kind: Kind, s: string, cap: string)
    requires cap <= s && forall i :: 0 <= i < |cap| ==> InClass(kind, cap[i])
    ensures |cap| <= RunLength(kind, s)
    decreases |cap|
  {
  }

  function QueryGroup(s: string): Option<string> {
    if ValidQuery(s) then Some(s) else None
  }

  /** `\/?(|\?[^\?\s]*)$`: with the slash if there is one, otherwise without. */
  function TailSearch(s: string): Option<string> {
    if s != "" && s[0] == '/' && QueryGroup(s[1..]).Some? then QueryGroup(s[1..]) else QueryGroup(s)
  }

  function Search(toks: seq<Token>, s: string): Option<seq<string>>
    decreases |toks|, 1, 0
  {
    if toks == [] then
      match TailSearch(s) case None => None case Some(q) => Some([q])
    else
      match toks[0]
      case Lit(c) => if s != "" && s[0] == c then Search(toks[1..], s[1..]) else None
      case Tag(kind, _) => Backtrack(kind, toks, s, RunLength(kind, s))
  }

  /** Tries the group toks[0] with n characters, then with ever fewer. */
  function Backtrack(kind: Kind, toks: seq<Token>, s: string, n: nat): Option<seq<string>>
    requires toks != [] && n <= |s|
    decreases |toks|, 0, n
  {
    if n < MinLength(kind) then None
    else
      match Search(toks[1..], s[n..])
      case Some(caps) => Some([s[..n]] + caps)
      case None => if n == 0 then None else Backtrack(kind, toks, s, n - 1)
  }

  /** a's groups are lexicographically at least as long as b's: the engine's preference. */
  predicate Greedier(a: seq<string>, b: seq<string>)
    decreases |a|
  {
    a == b || (a != [] && b != [] && (|a[0]| > |b[0]| || (a[0] == b[0] && Greedier(a[1..], b[1..]))))
  }

  /** The engine finds captures exactly when the pattern accepts the target, and finds the greediest. */
  lemma {:induction false} SearchFindsGreediest(toks: seq<Token>, s: string)
    ensures Search(toks, s).Some? ==> Accepts(toks, s, Search(toks, s).value)
    ensures forall caps :: Accepts(toks, s, caps) ==> Search(toks, s).Some? && Greedier(Search(toks, s).value, caps)
    decreases |toks|, 1, 0
  {
    if toks == [] {
      forall caps | Accepts(toks, s, caps) ensures Search(toks, s).Some? && Greedier(Search(toks, s).value, caps) {
        assert caps == [caps[0]];
        if s == "/" + caps[0] { assert s[1..] == caps[0]; }
      }
      if Search(toks, s).Some? && s != "" && s[0] == '/' { assert s == "/" + s[1..]; }
    } else {
      match toks[0]
      case Lit(c) =>
        if s != "" { SearchFindsGreediest(toks[1..], s[1..]); }
      case Tag(kind, _) =>
        var n := RunLength(kind, s);
        BacktrackFindsGreediest(kind, toks, s, n);
        forall caps | Accepts(toks, s, caps) ensures |caps[0]| <= n {
          CaptureFitsRun(kind, s, caps[0]);
        }
    }
  }

  lemma {:induction false} BacktrackFindsGreediest(kind: Kind, toks: seq<Token>, s: string, n: nat)
    requires toks != [] && toks[0].Tag? && toks[0].kind == kind
    requires n <= |s| && forall i :: 0 <= i < n ==> InClass(kind, s[i])
    ensures Backtrack(kind, toks, s, n).Some? ==> Accepts(toks, s, Backtrack(kind, toks, s, n).value)
    ensures forall caps :: Accepts(toks, s, caps) && |caps[0]| <= n ==>
              Backtrack(kind, toks, s, n).Some? && Greedier(Backtrack(kind, toks, s, n).value, caps)
    decreases |toks|, 0, n
  {
    if MinLength(kind) <= n {
      SearchFindsGreediest(toks[1..], s[n..]);
      var found := Search(toks[1..], s[n..]);
      if found.None? && n > 0 { BacktrackFindsGreediest(kind, toks, s, n - 1); }
      if found.Some? {
        var r := [s[..n]] + found.value;
        assert r[1..] == found.value;
      }
      forall caps | Accepts(toks, s, caps) && |caps[0]| <= n
        ensures Backtrack(kind, toks, s, n).Some? && Greedier(Backtrack(kind, toks, s, n).value, caps)
      {
        if |caps[0]| == n {
          assert caps[0] == s[..n];
          assert Accepts(toks[1..], s[n..], caps[1..]);
          assert caps == [caps[0]] + caps[1..];
        }
      }
    }
  }

  // ---- Putting the captures back ----

  /** The pattern's text with each group replaced by its capture. */
  function Fill(toks: seq<Token>, caps: seq<string>): string
    decreases |toks|
  {
    if toks == [] then ""
    else
      match toks[0]
      case Lit(c) => [c] + Fill(toks[1..], caps)
      case Tag(_, _) => if caps == [] then "" else caps[0] + Fill(toks[1..], caps[1..])
  }

  function Groups(toks: seq<Token>): seq<Kind>
    decreases |toks|
  {
    if toks == [] then [] else if toks[0].Tag? then [toks[0].kind] + Groups(toks[1..]) else Groups(toks[1..])
  }

  /** There is one capture per group, of its kind, and a query at the end. */
  lemma {:induction false} CapturesAreValid(toks: seq<Token>, s: string, caps: seq<string>)
    requires Accepts(toks, s, caps)
    ensures |caps| == |Groups(toks)| + 1
    ensures forall i :: 0 <= i < |Groups(toks)| ==> ValidCapture(Groups(toks)[i], caps[i])
    ensures ValidQuery(caps[|caps| - 1])
    decreases |toks|
  {
    if toks != [] {
      match toks[0]
      case Lit(c) => CapturesAreValid(toks[1..], s[1..], caps);
      case Tag(kind, _) =>
        CapturesAreValid(toks[1..], s[|caps[0]|..], caps[1..]);
        assert forall i :: 1 <= i < |caps| ==> caps[i] == caps[1..][i - 1];
    }
  }

  /** The captures put back start the target; an optional slash and the query end it. */
  lemma {:induction false} FillIsPrefix(toks: seq<Token>, s: string, caps: seq<string>)
    requires Accepts(toks, s, caps)
    ensures caps != [] && Fill(toks, caps) <= s
    ensures var q, rest := caps[|caps| - 1], s[|Fill(toks, caps)|..]; rest == q || rest == "/" + q
    decreases |toks|
  {
    if toks != [] {
      var taken, more := if toks[0].Lit? then [toks[0].c] else caps[0], if toks[0].Lit? then caps else caps[1..];
      var n := |taken|;
      assert taken <= s && Accepts(toks[1..], s[n..], more);
      FillIsPrefix(toks[1..], s[n..], more);
      var f := Fill(toks[1..], more);
      assert Fill(toks, caps) == taken + f;
      PrefixAppends(taken, f, s);
      assert caps[|caps| - 1] == more[|more| - 1];
    }
  }

  lemma PrefixAppends(a: string, b: string, s: string)
    requires a <= s && b <= s[|a|..]
    ensures a + b <= s && s[|a + b|..] == s[|a|..][|b|..]
  {
  }

  /** Put back with the optional slash and the query, the captures rebuild the target. */
  lemma FillRebuilds(toks: seq<Token>, s: string, caps: seq<string>)
    requires Accepts(toks, s, caps)
    ensures caps != []
    ensures var q := caps[|caps| - 1]; s == Fill(toks, caps) + q || s == Fill(toks, caps) + "/" + q
  {
    FillIsPrefix(toks, s, caps);
    var f := Fill(toks, caps);
    assert s == f + s[|f|..];
    assert f + ("/" + caps[|caps| - 1]) == f + "/" + caps[|caps| - 1];
  }

  /** A target that a pattern accepts starts with the pattern's leading literals. */
  lemma {:induction false} LiteralPrefix(toks: seq<Token>, p: string, s: string, caps: seq<string>)
    requires Accepts(toks, s, caps) && |p| <= |toks|
    requires forall i :: 0 <= i < |p| ==> toks[i] == Lit(p[i])
    ensures p <= s
    decreases |p|
  {
    if p != "" {
      assert forall i :: 0 <= i < |p[1..]| ==> toks[1..][i] == Lit(p[1..][i]);
      LiteralPrefix(toks[1..], p[1..], s[1..], caps);
      assert s == [s[0]] + s[1..] && p == [p[0]] + p[1..];
    }
  }

  // ---- What is accepted, written out ----

  /** What may stand for a group: digits, part of a path segment, or the rest of a path. */
  predicate FitsGroup(kind: Kind, cap: string) {
    match kind
    case IntKind => cap != "" && forall c :: c in cap ==> c in "0123456789"
    case StringKind => cap != "" && forall c :: c in cap ==> c !in "/? \t\n\r\U{b}\U{c}"
    case PathKind => forall c :: c in cap ==> c !in "?# \t\n\r\U{b}\U{c}"
  }

  predicate FitsQuery(q: string) {
    q == "" || (q[0] == '?' && forall c :: c in q[1..] ==> c !in "? \t\n\r\U{b}\U{c}")
  }

  lemma DigitChars(c: char)
    ensures c in "0123456789" <==> '0' <= c <= '9'
  {
    var d := "0123456789";
    if '0' <= c <= '9' {
      var i := c as int - '0' as int;
      assert d[i] == c;
    }
  }

  lemma SpaceChars(c: char)
    ensures c in "/? \t\n\r\U{b}\U{c}" <==> c == '/' || c == '?' || IsSpace(c)
    ensures c in "?# \t\n\r\U{b}\U{c}" <==> c == '?' || c == '#' || IsSpace(c)
    ensures c in "? \t\n\r\U{b}\U{c}" <==> c == '?' || IsSpace(c)
  {
  }

  lemma GroupExactly(kind: Kind, cap: string)
    ensures ValidCapture(kind, cap) <==> FitsGroup(kind, cap)
  {
    forall c ensures InClass(kind, c) <==> match kind
                                           case IntKind => c in "0123456789"
                                           case StringKind => c !in "/? \t\n\r\U{b}\U{c}"
                                           case PathKind => c !in "?# \t\n\r\U{b}\U{c}"
    {
      DigitChars(c);
      SpaceChars(c);
    }
    assert forall i :: 0 <= i < |cap| ==> cap[i] in cap;
  }

  lemma QueryExactly(q: string)
    ensures ValidQuery(q) <==> FitsQuery(q)
  {
    if q != "" {
      var rest := q[1..];
      forall i | 1 <= i < |q| ensures q[i] in rest { assert rest[i - 1] == q[i]; }
      assert forall c :: c in rest ==> exists i :: 1 <= i < |q| && q[i] == c by {
        assert forall i :: 0 <= i < |rest| ==> rest[i] == q[i + 1];
      }
      forall c ensures c in "? \t\n\r\U{b}\U{c}" <==> c == '?' || IsSpace(c) { SpaceChars(c); }
    }
  }

  predicate FitsPattern(toks: seq<Token>, caps: seq<string>) {
    && |caps| == |Groups(toks)| + 1
    && (forall i :: 0 <= i < |Groups(toks)| ==> FitsGroup(Groups(toks)[i], caps[i]))
    && FitsQuery(caps[|caps| - 1])
  }

  lemma {:induction false} FilledIsAccepted(toks: seq<Token>, s: string, caps: seq<string>)
    requires FitsPattern(toks, caps)
    requires var q := caps[|caps| - 1]; s == Fill(toks, caps) + q || s == Fill(toks, caps) + ("/" + q)
    ensures Accepts(toks, s, caps)
    decreases |toks|
  {
    if toks == [] {
      QueryExactly(caps[0]);
    } else {
      match toks[0]
      case Lit(c) =>
        assert s[0] == c;
        FilledIsAccepted(toks[1..], s[1..], caps);
      case Tag(kind, _) =>
        var n, more := |caps[0]|, caps[1..];
        GroupExactly(kind, caps[0]);
        assert forall i :: 0 <= i < |Groups(toks[1..])| ==> Groups(toks[1..])[i] == Groups(toks)[i + 1];
        assert more[|more| - 1] == caps[|caps| - 1];
        assert s[..n] == caps[0];
        FilledIsAccepted(toks[1..], s[n..], more);
    }
  }

  /**
   A pattern accepts a target with these captures if and only if the captures fit their
   groups and, put back with a query that fits, with or without a slash before it, they
   spell the target.
   */
  lemma AcceptsExactly(toks: seq<Token>, s: string, caps: seq<string>)
    ensures Accepts(toks, s, caps) <==>
            FitsPattern(toks, caps) &&
            var q := caps[|caps| - 1]; s == Fill(toks, caps) + q || s == Fill(toks, caps) + ("/" + q)
  {
    if Accepts(toks, s, caps) {
      CapturesAreValid(toks, s, caps);
      FillIsPrefix(toks, s, caps);
      var f := Fill(toks, caps);
      assert s == f + s[|f|..];
      forall i | 0 <= i < |Groups(toks)| ensures FitsGroup(Groups(toks)[i], caps[i]) {
        GroupExactly(Groups(toks)[i], caps[i]);
      }
      QueryExactly(caps[|caps| - 1]);
    }
    if FitsPattern(toks, caps) {
      var q := caps[|caps| - 1];
      if s == Fill(toks, caps) + q || s == Fill(toks, caps) + ("/" + q) { FilledIsAccepted(toks, s, caps); }
    }
  }
}
