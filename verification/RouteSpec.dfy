/**
 From route spec to pattern (`route_spec_to_regex`), and the path arithmetic of the
 route table.  Escaping turns every character of a backslash-free spec into a literal;
 three passes then replace the <int>, <string> and <path> tags.
 */
module RouteSpec {
  import opened Options
  import opened Strings
  import opened RoutePattern

  /** The source escapes every regex metacharacter except the backslash, and reads the last character. */
  predicate ValidSpec(spec: string) { spec != "" && '\\' !in spec }

  function Trim(spec: string): string
    requires spec != ""
  {
    if spec[|spec| - 1] == '/' then spec[..|spec| - 1] else spec
  }

  function Lits(s: string): (toks: seq<Token>)
    ensures |toks| == |s| && forall i :: 0 <= i < |s| ==> toks[i] == Lit(s[i])
  {
    seq(|s|, i requires 0 <= i < |s| => Lit(s[i]))
  }

  function Name(kind: Kind): string {
    match kind case IntKind => "int" case StringKind => "string" case PathKind => "path"
  }

  predicate LitAt(toks: seq<Token>, i: nat, c: char) { i < |toks| && toks[i] == Lit(c) }

  function SkipSpace(toks: seq<Token>, i: nat): (j: nat)
    requires i <= |toks|
    ensures i <= j <= |toks|
    ensures forall n :: i <= n < j ==> toks[n].Lit? && IsSpace(toks[n].c)
    ensures j < |toks| ==> !(toks[j].Lit? && IsSpace(toks[j].c))
    decreases |toks| - i
  {
    if i < |toks| && toks[i].Lit? && IsSpace(toks[i].c) then SkipSpace(toks, i + 1) else i
  }

  predicate NameAt(toks: seq<Token>, i: nat, name: string) {
    i + |name| <= |toks| && forall n :: 0 <= n < |name| ==> toks[i + n] == Lit(name[n])
  }

  /** The length of the tag `<\s*name\s*>` that starts here, or 0. */
  function NamedTagLength(toks: seq<Token>, name: string): (n: nat)
    ensures n <= |toks|
  {
    if !LitAt(toks, 0, '<') then 0
    else
      var i := SkipSpace(toks, 1);
      if !NameAt(toks, i, name) then 0
      else
        var e := SkipSpace(toks, i + |name|);
        if LitAt(toks, e, '>') then e + 1 else 0
  }

  function TagLength(toks: seq<Token>, kind: Kind): (n: nat)
    ensures n <= |toks|
  {
    NamedTagLength(toks, Name(kind))
  }

  function Text(tok: Token): string { if tok.Lit? then [tok.c] else tok.src }

  /** The spec text of a token list. */
  function Source(toks: seq<Token>): string
    decreases |toks|
  {
    if toks == [] then "" else Text(toks[0]) + Source(toks[1..])
  }

  /** How many tokens the next output token of a pass stands for. */
  function Taken(toks: seq<Token>, kind: Kind): (n: nat)
    requires toks != []
    ensures 1 <= n <= |toks|
  {
    if TagLength(toks, kind) > 0 then TagLength(toks, kind) else 1
  }

  function Head(toks: seq<Token>, kind: Kind): Token
    requires toks != []
  {
    if TagLength(toks, kind) > 0 then Tag(kind, Source(toks[..TagLength(toks, kind)])) else toks[0]
  }

  /** One regex_replace pass: leftmost tags first, without overlap. */
  function Replace(toks: seq<Token>, kind: Kind): seq<Token>
    decreases |toks|
  {
    if toks == [] then [] else [Head(toks, kind)] + Replace(toks[Taken(toks, kind)..], kind)
  }

  function Compile(spec: string): seq<Token>
    requires spec != ""
  {
    Replace(Replace(Replace(Lits(Trim(spec)), IntKind), StringKind), PathKind)
  }

  // ---- The passes find every tag and nothing else ----

  lemma {:induction false} SourceSplits(toks: seq<Token>, n: nat)
    requires n <= |toks|
    ensures Source(toks) == Source(toks[..n]) + Source(toks[n..])
    decreases n
  {
    if n == 0 {
      assert toks[0..] == toks;
    } else {
      SourceSplits(toks[1..], n - 1);
      var a := toks[..n];
      assert a[0] == toks[0] && a[1..] == toks[1..][..n - 1];
      assert toks[1..][n - 1..] == toks[n..];
    }
  }

  lemma ReplaceUnfolds(toks: seq<Token>, kind: Kind)
    requires toks != []
    ensures var r := Replace(toks, kind);
            r != [] && r[0] == Head(toks, kind) && r[1..] == Replace(toks[Taken(toks, kind)..], kind)
  {
  }

  lemma HeadText(toks: seq<Token>, kind: Kind)
    requires toks != []
    ensures Text(Head(toks, kind)) == Source(toks[..Taken(toks, kind)])
  {
  }

  lemma {:induction false} ReplaceKeepsSource(toks: seq<Token>, kind: Kind)
    ensures Source(Replace(toks, kind)) == Source(toks)
    decreases |toks|
  {
    if toks != [] {
      var n, r := Taken(toks, kind), Replace(toks, kind);
      ReplaceUnfolds(toks, kind);
      assert Source(r) == Text(r[0]) + Source(r[1..]);
      HeadText(toks, kind);
      ReplaceKeepsSource(toks[n..], kind);
      SourceSplits(toks, n);
    }
  }

  lemma {:induction false} SourceOfLits(s: string)
    ensures Source(Lits(s)) == s
    decreases |s|
  {
    if s != "" {
      assert Lits(s)[1..] == Lits(s[1..]);
      SourceOfLits(s[1..]);
    }
  }

  lemma NamedTagLengthLocal(a: seq<Token>, b: seq<Token>, name: string)
    requires 0 < NamedTagLength(a, name) <= |b|
    requires forall j :: 0 <= j < NamedTagLength(a, name) ==> a[j] == b[j]
    ensures NamedTagLength(b, name) == NamedTagLength(a, name)
  {
  }

  /** Whether a tag starts here depends on the tag's own tokens only. */
  lemma TagLengthLocal(a: seq<Token>, b: seq<Token>, kind: Kind)
    requires 0 < TagLength(a, kind) <= |b|
    requires forall j :: 0 <= j < TagLength(a, kind) ==> a[j] == b[j]
    ensures TagLength(b, kind) == TagLength(a, kind)
  {
    NamedTagLengthLocal(a, b, Name(kind));
  }

  lemma NamedTagIsLiteral(toks: seq<Token>, name: string)
    ensures forall i :: 0 <= i < NamedTagLength(toks, name) ==> toks[i].Lit?
  {
    var n := NamedTagLength(toks, name);
    if n > 0 {
      var i := SkipSpace(toks, 1);
      forall j | 0 <= j < n ensures toks[j].Lit? {
        if i <= j < i + |name| { assert toks[i + (j - i)] == Lit(name[j - i]); }
      }
    }
  }

  lemma TagIsLiteral(toks: seq<Token>, kind: Kind)
    ensures forall i :: 0 <= i < TagLength(toks, kind) ==> toks[i].Lit?
  {
    NamedTagIsLiteral(toks, Name(kind));
  }

  /** Leading literals of the output of a pass were copied from its input. */
  lemma {:induction false} LiteralsAreCopied(toks: seq<Token>, kind: Kind, n: nat)
    requires n <= |Replace(toks, kind)| && forall i :: 0 <= i < n ==> Replace(toks, kind)[i].Lit?
    ensures n <= |toks| && forall i :: 0 <= i < n ==> toks[i] == Replace(toks, kind)[i]
    decreases n
  {
    if n > 0 {
      var r := Replace(toks, kind);
      assert toks != [];
      ReplaceUnfolds(toks, kind);
      assert r[0].Lit?;
      var rest := r[1..];
      assert forall i :: 0 <= i < n - 1 ==> rest[i] == r[i + 1];
      LiteralsAreCopied(toks[1..], kind, n - 1);
      forall i | 0 <= i < n ensures toks[i] == r[i] {
        if i > 0 { assert toks[1..][i - 1] == rest[i - 1]; }
      }
    }
  }

  /** No tag of kind k starts anywhere. */
  ghost predicate NoTags(toks: seq<Token>, k: Kind) {
    forall i :: 0 <= i <= |toks| ==> TagLength(toks[i..], k) == 0
  }

  lemma PassStep(toks: seq<Token>, kind: Kind) returns (n: nat)
    requires Replace(toks, kind) != []
    ensures 1 <= n <= |toks| && Replace(toks, kind)[1..] == Replace(toks[n..], kind)
  {
    ReplaceUnfolds(toks, kind);
    n := Taken(toks, kind);
  }

  lemma SuffixOfSuffix<T>(s: seq<T>, n: nat, m: nat)
    requires n + m <= |s|
    ensures s[n..][m..] == s[n + m..]
  {
  }

  lemma {:induction false} PassSuffix(toks: seq<Token>, kind: Kind, i: nat) returns (j: nat)
    requires i <= |Replace(toks, kind)|
    ensures j <= |toks| && Replace(toks, kind)[i..] == Replace(toks[j..], kind)
    decreases |toks|
  {
    if i == 0 {
      j := 0;
      assert toks[0..] == toks;
    } else {
      var r := Replace(toks, kind);
      var n := PassStep(toks, kind);
      var m := PassSuffix(toks[n..], kind, i - 1);
      j := n + m;
      SuffixOfSuffix(r, 1, i - 1);
      SuffixOfSuffix(toks, n, m);
    }
  }

  lemma PassMakesNoTag(toks: seq<Token>, kind: Kind, k: Kind)
    ensures TagLength(Replace(toks, kind), k) > 0 ==> k != kind && TagLength(toks, k) > 0
  {
    var r := Replace(toks, kind);
    var n := TagLength(r, k);
    if n > 0 {
      TagIsLiteral(r, k);
      LiteralsAreCopied(toks, kind, n);
      TagLengthLocal(r, toks, k);
      assert r[0].Lit?;
    }
  }

  /** A pass leaves no tag of its kind and brings none of another kind into being. */
  lemma PassRemovesTags(toks: seq<Token>, kind: Kind, k: Kind)
    requires k == kind || NoTags(toks, k)
    ensures NoTags(Replace(toks, kind), k)
  {
    var r := Replace(toks, kind);
    forall i | 0 <= i <= |r| ensures TagLength(r[i..], k) == 0 {
      var j := PassSuffix(toks, kind, i);
      PassMakesNoTag(toks[j..], kind, k);
    }
  }

  /** Every group stands for a tag of its kind in the spec. */
  predicate IsTag(tok: Token) {
    tok.Tag? ==> tok.src != "" && TagLength(Lits(tok.src), tok.kind) == |tok.src|
  }

  predicate TagsAreTags(toks: seq<Token>) {
    forall i :: 0 <= i < |toks| ==> IsTag(toks[i])
  }

  lemma {:induction false} LiteralText(toks: seq<Token>)
    requires forall i :: 0 <= i < |toks| ==> toks[i].Lit?
    ensures |Source(toks)| == |toks| && forall i :: 0 <= i < |toks| ==> Lit(Source(toks)[i]) == toks[i]
    decreases |toks|
  {
    if toks != [] {
      var rest := toks[1..];
      LiteralText(rest);
      forall i | 0 <= i < |toks| ensures Lit(Source(toks)[i]) == toks[i] {
        if i > 0 { assert Source(toks)[i] == Source(rest)[i - 1] && toks[i] == rest[i - 1]; }
      }
    }
  }

  lemma LitsOfSource(toks: seq<Token>)
    requires forall i :: 0 <= i < |toks| ==> toks[i].Lit?
    ensures Lits(Source(toks)) == toks
  {
    LiteralText(toks);
  }

  lemma HeadIsTag(toks: seq<Token>, kind: Kind)
    requires toks != [] && IsTag(toks[0])
    ensures IsTag(Head(toks, kind))
  {
    if TagLength(toks, kind) > 0 { FoundTag(toks, kind); }
  }

  lemma TagOfPrefix(toks: seq<Token>, name: string)
    requires NamedTagLength(toks, name) > 0
    ensures NamedTagLength(toks[..NamedTagLength(toks, name)], name) == NamedTagLength(toks, name)
  {
    NamedTagLengthLocal(toks, toks[..NamedTagLength(toks, name)], name);
  }

  lemma FoundTag(toks: seq<Token>, kind: Kind)
    requires TagLength(toks, kind) > 0
    ensures var src := Source(toks[..TagLength(toks, kind)]);
            src != "" && TagLength(Lits(src), kind) == |src|
  {
    var head := toks[..TagLength(toks, kind)];
    TagIsLiteral(toks, kind);
    LitsOfSource(head);
    TagOfPrefix(toks, Name(kind));
  }

  lemma PassHeadIsTag(toks: seq<Token>, kind: Kind)
    requires toks != [] && IsTag(toks[0])
    ensures Replace(toks, kind) != [] && IsTag(Replace(toks, kind)[0])
  {
    ReplaceUnfolds(toks, kind);
    HeadIsTag(toks, kind);
  }

  lemma {:induction false} PassKeepsTags(toks: seq<Token>, kind: Kind)
    requires TagsAreTags(toks)
    ensures TagsAreTags(Replace(toks, kind))
    decreases |toks|
  {
    if toks != [] {
      var r := Replace(toks, kind);
      PassHeadIsTag(toks, kind);
      var n := PassStep(toks, kind);
      var rest := toks[n..];
      assert forall i :: 0 <= i < |rest| ==> rest[i] == toks[i + n];
      PassKeepsTags(rest, kind);
      assert forall i :: 1 <= i < |r| ==> r[i] == r[1..][i - 1];
    }
  }

  /**
   The compiled pattern spells the trimmed spec; its groups stand for tags of their
   kinds, and no tag is left among its literals.
   */
  lemma CompileIsTokenisation(spec: string)
    requires ValidSpec(spec)
    ensures Source(Compile(spec)) == Trim(spec)
    ensures TagsAreTags(Compile(spec))
    ensures forall k :: NoTags(Compile(spec), k)
  {
    var a := Lits(Trim(spec));
    var b := Replace(a, IntKind);
    var c := Replace(b, StringKind);
    SourceOfLits(Trim(spec));
    ReplaceKeepsSource(a, IntKind);
    ReplaceKeepsSource(b, StringKind);
    ReplaceKeepsSource(c, PathKind);
    PassKeepsTags(a, IntKind);
    PassKeepsTags(b, StringKind);
    PassKeepsTags(c, PathKind);
    PassRemovesTags(a, IntKind, IntKind);
    PassRemovesTags(b, StringKind, IntKind);
    PassRemovesTags(c, PathKind, IntKind);
    PassRemovesTags(b, StringKind, StringKind);
    PassRemovesTags(c, PathKind, StringKind);
    PassRemovesTags(c, PathKind, PathKind);
    forall k ensures NoTags(Compile(spec), k) {
      match k case IntKind => case StringKind => case PathKind =>
    }
  }

  /**
   The capture round trip: what the engine captures for a route puts the target back
   together, each group of its kind: digits, a path segment or a path.
   */
  lemma CaptureRoundTrip(spec: string, target: string)
    requires ValidSpec(spec) && Search(Compile(spec), target).Some?
    ensures var toks, caps := Compile(spec), Search(Compile(spec), target).value;
            && |caps| == |Groups(toks)| + 1
            && (forall i :: 0 <= i < |Groups(toks)| ==> ValidCapture(Groups(toks)[i], caps[i]))
            && (forall i :: 0 <= i < |Groups(toks)| && Groups(toks)[i].IntKind? ==>
                  caps[i] != "" && forall c :: c in caps[i] ==> '0' <= c <= '9')
            && (forall i :: 0 <= i < |Groups(toks)| && Groups(toks)[i].StringKind? ==>
                  caps[i] != "" && '/' !in caps[i] && '?' !in caps[i] && ' ' !in caps[i])
            && (forall i :: 0 <= i < |Groups(toks)| && Groups(toks)[i].PathKind? ==>
                  '?' !in caps[i] && '#' !in caps[i] && ' ' !in caps[i])
            && var q := caps[|caps| - 1];
               ValidQuery(q) && (target == Fill(toks, caps) + q || target == Fill(toks, caps) + "/" + q)
  {
    var toks := Compile(spec);
    SearchFindsGreediest(toks, target);
    var caps := Search(toks, target).value;
    CapturesAreValid(toks, target, caps);
    FillRebuilds(toks, target, caps);
  }

  // ---- Static prefixes ----

  predicate IsStaticRoute(spec: string) { '<' !in spec }

  function ExtractStaticPrefix(spec: string): (p: string)
    ensures p <= spec && '<' !in p
    ensures !IsStaticRoute(spec) ==> |p| < |spec| && spec[|p|] == '<'
    ensures IsStaticRoute(spec) ==> spec == if spec != "" && spec[|spec| - 1] == '/' then p + "/" else p
  {
    match IndexOf(spec, '<')
    case None => if spec != "" && spec[|spec| - 1] == '/' then spec[..|spec| - 1] else spec
    case Some(n) => spec[..n]
  }

  lemma {:induction false} PassKeepsPrefix(toks: seq<Token>, kind: Kind, n: nat)
    requires n <= |toks| && forall i :: 0 <= i < n ==> toks[i].Lit? && toks[i].c != '<'
    ensures n <= |Replace(toks, kind)| && Replace(toks, kind)[..n] == toks[..n]
    decreases n
  {
    if n > 0 {
      ReplaceUnfolds(toks, kind);
      PassKeepsPrefix(toks[1..], kind, n - 1);
      var r := Replace(toks, kind);
      assert r[..n] == [r[0]] + r[1..][..n - 1];
      assert toks[..n] == [toks[0]] + toks[1..][..n - 1];
    }
  }

  lemma CompileKeepsPrefix(spec: string, n: nat)
    requires spec != "" && n <= |Trim(spec)| && '<' !in spec[..n]
    ensures n <= |Compile(spec)| && forall i :: 0 <= i < n ==> Compile(spec)[i] == Lit(spec[i])
  {
    var a := Lits(Trim(spec));
    var b := Replace(a, IntKind);
    var c := Replace(b, StringKind);
    assert forall i :: 0 <= i < n ==> spec[i] == spec[..n][i];
    PassKeepsPrefix(a, IntKind, n);
    assert forall i :: 0 <= i < n ==> b[i] == b[..n][i] == a[i];
    PassKeepsPrefix(b, StringKind, n);
    assert forall i :: 0 <= i < n ==> c[i] == c[..n][i] == b[i];
    PassKeepsPrefix(c, PathKind, n);
    var d := Compile(spec);
    assert forall i :: 0 <= i < n ==> d[i] == d[..n][i] == c[i];
  }

  /** Any target that a tagged spec's pattern accepts starts with its static prefix. */
  lemma PrefixNeverRejects(spec: string, target: string)
    requires ValidSpec(spec) && !IsStaticRoute(spec) && Search(Compile(spec), target).Some?
    ensures ExtractStaticPrefix(spec) <= target
  {
    var n := IndexOf(spec, '<').value;
    CompileKeepsPrefix(spec, n);
    SearchFindsGreediest(Compile(spec), target);
    LiteralPrefix(Compile(spec), spec[..n], target, Search(Compile(spec), target).value);
  }

  // ---- The exact tier against the compiled pattern ----

  function StripSlash(s: string): string {
    if |s| > 1 && s[|s| - 1] == '/' then s[..|s| - 1] else s
  }

  function PathLength(target: string): (n: nat)
    ensures n <= |target|
  {
    match IndexOf(target, '?') case None => |target| case Some(n) => n
  }

  function NormalisePath(target: string): string {
    StripSlash(target[..PathLength(target)])
  }

  function QueryOf(target: string): string { target[PathLength(target)..] }

  lemma StaticCompile(spec: string)
    requires spec != "" && IsStaticRoute(spec)
    ensures Compile(spec) == Lits(Trim(spec))
  {
    var p := Trim(spec);
    assert forall i :: 0 <= i < |p| ==> p[i] == spec[i];
    var a := Lits(p);
    StaticPass(a, IntKind);
    StaticPass(a, StringKind);
    StaticPass(a, PathKind);
  }

  lemma {:induction false} StaticPass(toks: seq<Token>, kind: Kind)
    requires forall i :: 0 <= i < |toks| ==> toks[i].Lit? && toks[i].c != '<'
    ensures Replace(toks, kind) == toks
    decreases |toks|
  {
    if toks != [] {
      StaticPass(toks[1..], kind);
      assert toks == [toks[0]] + toks[1..];
    }
  }

  lemma {:induction false} LiteralSearch(p: string, s: string)
    ensures Search(Lits(p), s).Some? <==> p <= s && TailSearch(s[|p|..]).Some?
    decreases |p|
  {
    if p == "" {
      assert s[0..] == s;
    } else {
      assert Lits(p)[1..] == Lits(p[1..]);
      if s != "" && s[0] == p[0] {
        LiteralSearch(p[1..], s[1..]);
        assert s == [s[0]] + s[1..] && p == [p[0]] + p[1..];
        assert p <= s <==> p[1..] <= s[1..];
        if p <= s { assert s[|p|..] == s[1..][|p[1..]|..]; }
      }
    }
  }

  /** Where the query starts in a target made of a path without '?' and a valid query. */
  lemma PathOfParts(path: string, q: string)
    requires '?' !in path && ValidQuery(q)
    ensures (path + q)[..PathLength(path + q)] == path && QueryOf(path + q) == q
  {
    var s := path + q;
    assert forall i :: 0 <= i < |path| ==> s[i] == path[i];
    assert q != "" ==> s[|path|] == '?';
    assert forall n :: |path| < n <= |s| ==> s[..n][|path|] == s[|path|];
    assert q == "" ==> s == path;
  }

  /** What follows the literals decides: nothing or a query, after an optional slash. */
  lemma AcceptedPath(p: string, s: string)
    requires '?' !in p && p <= s && TailSearch(s[|p|..]).Some?
    ensures (s[..PathLength(s)] == p || s[..PathLength(s)] == p + "/") && ValidQuery(QueryOf(s))
  {
    var r := s[|p|..];
    assert s == p + r;
    if r != "" && r[0] == '/' && ValidQuery(r[1..]) {
      assert s == (p + "/") + r[1..];
      PathOfParts(p + "/", r[1..]);
    } else {
      PathOfParts(p, r);
    }
  }

  lemma PathIsAccepted(p: string, s: string)
    requires s[..PathLength(s)] == p || s[..PathLength(s)] == p + "/"
    requires ValidQuery(QueryOf(s))
    ensures p <= s && TailSearch(s[|p|..]).Some?
  {
    var path, q := s[..PathLength(s)], QueryOf(s);
    assert s == path + q;
    if path == p {
      assert s[|p|..] == q;
    } else {
      assert s[|p|..] == "/" + q;
      assert s[|p|..][1..] == q;
    }
  }

  /** A pattern of literals accepts its own path, with or without a slash, and any valid query. */
  lemma StaticAccepts(p: string, s: string)
    requires '?' !in p
    ensures Search(Lits(p), s).Some? <==>
            (s[..PathLength(s)] == p || s[..PathLength(s)] == p + "/") && ValidQuery(QueryOf(s))
  {
    LiteralSearch(p, s);
    if p <= s && TailSearch(s[|p|..]).Some? {
      AcceptedPath(p, s);
    }
    if (s[..PathLength(s)] == p || s[..PathLength(s)] == p + "/") && ValidQuery(QueryOf(s)) {
      PathIsAccepted(p, s);
    }
  }

  predicate EndsInTwoSlashes(s: string) { |s| >= 2 && s[|s| - 1] == '/' && s[|s| - 2] == '/' }

  /** A static spec whose hash key can be compared with its pattern. */
  predicate PlainStatic(spec: string) {
    ValidSpec(spec) && IsStaticRoute(spec) && spec[0] == '/' && '?' !in spec
  }

  lemma KeyIsTrimmed(spec: string)
    requires PlainStatic(spec) && spec != "/"
    ensures NormalisePath(spec) == Trim(spec)
  {
  }

  /** The path of a target. */
  function PathOf(target: string): string { target[..PathLength(target)] }

  /** A path longer than "//" that ends in two slashes: its pattern accepts a target that the hash misses. */
  predicate HashMisses(spec: string) { EndsInTwoSlashes(spec) && |spec| > 2 && spec[0] == '/' && '?' !in spec }

  /** The pattern accepts a target exactly when the hash key fits and the query is valid. */
  lemma ExactTierIsPattern(spec: string, target: string)
    requires PlainStatic(spec) && spec != "/" && !HashMisses(spec)
    requires target != "" && target[0] == '/'
    ensures Search(Compile(spec), target).Some? <==>
            NormalisePath(target) == NormalisePath(spec) && ValidQuery(QueryOf(target))
  {
    var p := Trim(spec);
    KeyIsTrimmed(spec);
    StaticCompile(spec);
    assert forall c :: c in p ==> c in spec;
    StaticAccepts(p, target);
    StripsTo(PathOf(target), p);
  }

  lemma StripsTo(path: string, p: string)
    requires p != "" && (p[|p| - 1] != '/' || |p| == 1)
    ensures StripSlash(path) == p <==> path == p || path == p + "/"
  {
    if StripSlash(path) == p && path != p {
      assert path == path[..|path| - 1] + "/";
    }
    if path == p + "/" {
      assert path[..|path| - 1] == p;
    }
  }

  /** The hash lookup finds the key for every target the pattern accepts. */
  ghost predicate HashNeverMisses(spec: string)
    requires spec != ""
  {
    forall target: string :: target != "" && target[0] == '/' && Search(Compile(spec), target).Some? ==>
      NormalisePath(target) == NormalisePath(spec)
  }

  /** A literal pattern with a query in it fixes the path of every target it accepts. */
  lemma QuerySpecFixesPath(p: string, target: string)
    requires '?' in p && p <= target
    ensures PathLength(target) == PathLength(p) && target[..PathLength(target)] == p[..PathLength(p)]
  {
    var n, i := PathLength(target), PathLength(p);
    assert target[i] == p[i] == '?';
  }

  lemma TrimKeepsQuery(spec: string)
    requires '?' in spec
    ensures '?' in Trim(spec) && PathLength(Trim(spec)) == PathLength(spec)
    ensures NormalisePath(Trim(spec)) == NormalisePath(spec)
  {
    var p := Trim(spec);
    assert p + "/" == spec || p == spec;
    assert '?' in p;
    QuerySpecFixesPath(p, spec);
  }

  lemma HashHits(spec: string, target: string)
    requires ValidSpec(spec) && IsStaticRoute(spec) && !HashMisses(spec)
    requires target != "" && target[0] == '/' && Search(Compile(spec), target).Some?
    ensures NormalisePath(target) == NormalisePath(spec)
  {
    var p := Trim(spec);
    StaticCompile(spec);
    LiteralSearch(p, target);
    assert forall c :: c in p ==> c in spec;
    if '?' in spec {
      TrimKeepsQuery(spec);
      QuerySpecFixesPath(p, target);
    } else if spec == "/" {
      StaticAccepts(p, target);
    } else {
      assert p != "" && spec[0] == p[0] == target[0];
      ExactTierIsPattern(spec, target);
    }
  }

  /** Exactly these specs have targets the hash misses. */
  lemma HashMissesOnlyDoubleSlash(spec: string)
    requires ValidSpec(spec) && IsStaticRoute(spec)
    ensures HashNeverMisses(spec) <==> !HashMisses(spec)
  {
    if HashMisses(spec) {
      var p := Trim(spec);
      StaticCompile(spec);
      assert forall c :: c in p ==> c in spec;
      KeyIsTrimmed(spec);
      StaticAccepts(p, p);
      assert p[..|p|] == p && QueryOf(p) == "";
      assert Search(Compile(spec), p).Some? && NormalisePath(p) != p;
    } else {
      forall target: string | target != "" && target[0] == '/' && Search(Compile(spec), target).Some?
        ensures NormalisePath(target) == NormalisePath(spec)
      {
        HashHits(spec, target);
      }
    }
  }

  // ---- Exactly where the hash and the pattern agree ----

  /** Over all targets, the pattern accepts exactly what the hash finds with a valid query. */
  ghost predicate HashIsPattern(spec: string)
    requires spec != ""
  {
    forall target: string :: target != "" && target[0] == '/' ==>
      (Search(Compile(spec), target).Some? <==>
       NormalisePath(target) == NormalisePath(spec) && ValidQuery(QueryOf(target)))
  }

  /** A spec without a leading slash is found by neither. */
  lemma NoSlashNoTarget(spec: string, target: string)
    requires ValidSpec(spec) && IsStaticRoute(spec) && spec[0] != '/' && target != "" && target[0] == '/'
    ensures Search(Compile(spec), target).None? && NormalisePath(target) != NormalisePath(spec)
  {
    StaticCompile(spec);
    LiteralSearch(Trim(spec), target);
    assert Trim(spec)[0] == spec[0];
    assert NormalisePath(target)[0] == '/';
  }

  /** A static spec with a query has a path that the hash finds and the pattern rejects. */
  lemma QuerySpecHashesMore(spec: string)
    requires ValidSpec(spec) && IsStaticRoute(spec) && spec[0] == '/' && '?' in spec
    ensures var target := PathOf(spec);
            && target != "" && target[0] == '/' && QueryOf(target) == ""
            && NormalisePath(target) == NormalisePath(spec) && Search(Compile(spec), target).None?
  {
    var target, p := PathOf(spec), Trim(spec);
    assert '?' !in target;
    assert target[..|target|] == target;
    StaticCompile(spec);
    LiteralSearch(p, target);
    TrimKeepsQuery(spec);
    assert p <= target ==> forall c :: c in p ==> c in target;
  }

  /** The hash finds "/" for the target "//", which the pattern of "/" rejects. */
  lemma RootHashesMore()
    ensures NormalisePath("//") == NormalisePath("/") && QueryOf("//") == "" && Search(Compile("/"), "//").None?
  {
    StaticCompile("/");
    assert Trim("/") == "";
    StaticAccepts("", "//");
    assert PathLength("//") == 2 && "//"[..2] == "//" && PathLength("/") == 1 && "/"[..1] == "/";
  }

  /** Whatever the spec, the hash does not look at the query: a second question mark is enough to disagree. */
  lemma BadQueryHashesMore(spec: string)
    requires PlainStatic(spec) && spec != "/" && !HashMisses(spec)
    ensures var target := Trim(spec) + "?x?y";
            NormalisePath(target) == NormalisePath(spec) && Search(Compile(spec), target).None?
  {
    var p, q := Trim(spec), "?x?y";
    var target := p + q;
    assert forall c :: c in p ==> c in spec;
    KeyIsTrimmed(spec);
    assert target[|p|] == '?' && PathLength(target) == |p| by {
      assert forall i :: 0 <= i < |p| ==> target[i] == p[i];
    }
    assert PathOf(target) == p && QueryOf(target) == q && q[2] == '?';
    StripsTo(p, p);
    ExactTierIsPattern(spec, target);
  }

  /** Exactly the specs for which hash and pattern agree on all targets, queries aside. */
  lemma HashIsPatternExactly(spec: string)
    requires ValidSpec(spec) && IsStaticRoute(spec)
    ensures HashIsPattern(spec) <==> spec[0] != '/' || ('?' !in spec && spec != "/" && !HashMisses(spec))
  {
    if spec[0] != '/' || ('?' !in spec && spec != "/" && !HashMisses(spec)) {
      forall target: string | target != "" && target[0] == '/'
        ensures Search(Compile(spec), target).Some? <==>
                NormalisePath(target) == NormalisePath(spec) && ValidQuery(QueryOf(target))
      {
        if spec[0] != '/' { NoSlashNoTarget(spec, target); } else { ExactTierIsPattern(spec, target); }
      }
    } else if '?' in spec {
      QuerySpecHashesMore(spec);
    } else if spec == "/" {
      RootHashesMore();
    } else {
      HashMissesOnlyDoubleSlash(spec);
    }
  }

  /**
   Whether the hash is right about one target: a key that fits needs a valid query, and not
   "//" for the root; a key that does not fit must not be the doubled slash of the spec.
   */
  predicate HashIsRight(spec: string, target: string)
    requires spec != ""
  {
    var p := Trim(spec);
    if NormalisePath(target) != NormalisePath(spec) then
      !(HashMisses(spec) && PathOf(target) == p && ValidQuery(QueryOf(target)))
    else if '?' in spec then p <= target && TailSearch(target[|p|..]).Some?
    else ValidQuery(QueryOf(target)) && !(spec == "/" && PathOf(target) == "//")
  }

  lemma DoubledSlashKeys(spec: string, path: string)
    requires HashMisses(spec)
    ensures path == Trim(spec) ==> StripSlash(path) != Trim(spec)
    ensures StripSlash(path) == Trim(spec) <==> path == Trim(spec) + "/"
  {
    var p := Trim(spec);
    if StripSlash(path) == p {
      assert path == p || path == path[..|path| - 1] + "/";
    }
    if path == p + "/" { assert path[..|path| - 1] == p; }
  }

  /** Hash and pattern agree on a target exactly then. */
  lemma HashIsRightExactly(spec: string, target: string)
    requires ValidSpec(spec) && IsStaticRoute(spec) && target != "" && target[0] == '/'
    ensures (Search(Compile(spec), target).Some? <==> NormalisePath(target) == NormalisePath(spec)) <==>
            HashIsRight(spec, target)
  {
    var p := Trim(spec);
    assert forall c :: c in p ==> c in spec;
    StaticCompile(spec);
    if '?' in spec {
      LiteralSearch(p, target);
      if Search(Compile(spec), target).Some? { HashHits(spec, target); }
    } else if spec[0] != '/' {
      NoSlashNoTarget(spec, target);
    } else if spec == "/" {
      StaticAccepts("", target);
      StripsTo(PathOf(target), "/");
      assert "/"[..1] == "/" && PathLength("/") == 1;
    } else if HashMisses(spec) {
      KeyIsTrimmed(spec);
      StaticAccepts(p, target);
      DoubledSlashKeys(spec, PathOf(target));
    } else {
      ExactTierIsPattern(spec, target);
    }
  }
}
