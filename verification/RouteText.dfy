/**
 Route specs by what is written in them: text, and tags with the words int, string and
 path.  Writing a list of parts and compiling it gives back its parts.
 */
module RouteText {
  import opened Strings
  import opened RoutePattern
  import opened RouteSpec

  /** `before` and `after` are the spaces inside the brackets. */
  datatype Part = Plain(text: string) | IntTag(before: string, after: string)
                | StringTag(before: string, after: string) | PathTag(before: string, after: string)

  predicate AllSpace(s: string) { forall i :: 0 <= i < |s| ==> IsSpace(s[i]) }

  predicate ValidPart(p: Part) { if p.Plain? then '<' !in p.text else AllSpace(p.before) && AllSpace(p.after) }

  predicate ValidParts(parts: seq<Part>) { forall i :: 0 <= i < |parts| ==> ValidPart(parts[i]) }

  function Written(p: Part): string {
    match p
    case Plain(text) => text
    case IntTag(u, v) => "<" + u + "int" + v + ">"
    case StringTag(u, v) => "<" + u + "string" + v + ">"
    case PathTag(u, v) => "<" + u + "path" + v + ">"
  }

  function WrittenAll(parts: seq<Part>): string
    decreases |parts|
  {
    if parts == [] then "" else Written(parts[0]) + WrittenAll(parts[1..])
  }

  /** What a part compiles to: its characters, or one group. */
  function Meaning(p: Part): seq<Token> {
    match p
    case Plain(text) => Lits(text)
    case IntTag(_, _) => [Tag(IntKind, Written(p))]
    case StringTag(_, _) => [Tag(StringKind, Written(p))]
    case PathTag(_, _) => [Tag(PathKind, Written(p))]
  }

  function MeaningAll(parts: seq<Part>): seq<Token>
    decreases |parts|
  {
    if parts == [] then [] else Meaning(parts[0]) + MeaningAll(parts[1..])
  }

  // ---- The three passes, part by part ----

  predicate Done(p: Part, passes: nat) {
    (p.IntTag? && passes >= 1) || (p.StringTag? && passes >= 2) || (p.PathTag? && passes >= 3)
  }

  /** A part after so many passes. */
  function After(p: Part, passes: nat): seq<Token> { if Done(p, passes) then Meaning(p) else Lits(Written(p)) }

  function AfterAll(parts: seq<Part>, passes: nat): seq<Token>
    decreases |parts|
  {
    if parts == [] then [] else After(parts[0], passes) + AfterAll(parts[1..], passes)
  }

  function Pass(n: nat): Kind
    requires n < 3
  {
    if n == 0 then IntKind else if n == 1 then StringKind else PathKind
  }

  lemma LitsAppend(a: string, b: string)
    ensures Lits(a + b) == Lits(a) + Lits(b)
  {
  }

  lemma {:induction false} UntouchedIsLits(parts: seq<Part>)
    ensures AfterAll(parts, 0) == Lits(WrittenAll(parts))
    decreases |parts|
  {
    if parts != [] {
      UntouchedIsLits(parts[1..]);
      LitsAppend(Written(parts[0]), WrittenAll(parts[1..]));
    }
  }

  lemma {:induction false} AllDone(parts: seq<Part>)
    ensures AfterAll(parts, 3) == MeaningAll(parts)
    decreases |parts|
  {
    if parts != [] { AllDone(parts[1..]); }
  }

  lemma CopyOne(tok: Token, rest: seq<Token>, kind: Kind)
    requires TagLength([tok] + rest, kind) == 0
    ensures Replace([tok] + rest, kind) == [tok] + Replace(rest, kind)
  {
    var all := [tok] + rest;
    assert all[1..] == rest;
    ReplaceUnfolds(all, kind);
  }

  lemma FirstApart(a: seq<Token>, rest: seq<Token>)
    requires a != []
    ensures a + rest == [a[0]] + (a[1..] + rest)
  {
  }

  /** A pass copies what starts no tag. */
  lemma {:induction false} PassCopies(a: seq<Token>, rest: seq<Token>, kind: Kind)
    requires forall i :: 0 <= i < |a| ==> a[i] != Lit('<')
    ensures Replace(a + rest, kind) == a + Replace(rest, kind)
    decreases |a|
  {
    if a == [] {
      assert a + rest == rest && a + Replace(rest, kind) == Replace(rest, kind);
    } else {
      FirstApart(a, rest);
      CopyOne(a[0], a[1..] + rest, kind);
      PassCopies(a[1..], rest, kind);
      FirstApart(a, Replace(rest, kind));
    }
  }

  lemma {:induction false} SpacesSkipped(toks: seq<Token>, i: nat, n: nat)
    requires i + n < |toks| && (forall j :: i <= j < i + n ==> toks[j].Lit? && IsSpace(toks[j].c))
    requires toks[i + n].Lit? && !IsSpace(toks[i + n].c)
    ensures SkipSpace(toks, i) == i + n
    decreases n
  {
    if n > 0 { SpacesSkipped(toks, i + 1, n - 1); }
  }

  /** A tag text with this word, followed by anything. */
  predicate Starts(toks: seq<Token>, u: string, word: string, v: string) {
    var n := 2 + |u| + |word| + |v|;
    && n <= |toks| && toks[0] == Lit('<') && toks[n - 1] == Lit('>')
    && (forall i :: 0 <= i < |u| ==> toks[1 + i] == Lit(u[i]))
    && (forall i :: 0 <= i < |word| ==> toks[1 + |u| + i] == Lit(word[i]))
    && (forall i :: 0 <= i < |v| ==> toks[1 + |u| + |word| + i] == Lit(v[i]))
  }

  predicate Word(w: string) { w != "" && forall i :: 0 <= i < |w| ==> !IsSpace(w[i]) && w[i] != '<' && w[i] != '>' }

  lemma WrittenStarts(u: string, word: string, v: string, rest: seq<Token>)
    ensures Starts(Lits("<" + u + word + v + ">") + rest, u, word, v)
  {
    var s := "<" + u + word + v + ">";
    var toks := Lits(s) + rest;
    assert forall i :: 0 <= i < |s| ==> toks[i] == Lit(s[i]);
    assert forall i :: 0 <= i < |u| ==> s[1 + i] == u[i];
    assert forall i :: 0 <= i < |word| ==> s[1 + |u| + i] == word[i];
    assert forall i :: 0 <= i < |v| ==> s[1 + |u| + |word| + i] == v[i];
  }

  lemma WordAfterSpace(toks: seq<Token>, u: string, word: string, v: string)
    requires Starts(toks, u, word, v) && AllSpace(u) && Word(word)
    ensures SkipSpace(toks, 1) == 1 + |u|
  {
    assert toks[1 + |u| + 0] == Lit(word[0]);
    assert forall j :: 1 <= j < 1 + |u| ==> toks[j] == Lit(u[j - 1]);
    SpacesSkipped(toks, 1, |u|);
  }

  /** The tag is recognised, exactly as far as it goes. */
  lemma TagFound(toks: seq<Token>, u: string, word: string, v: string)
    requires Starts(toks, u, word, v) && AllSpace(u) && AllSpace(v) && Word(word)
    ensures NamedTagLength(toks, word) == 2 + |u| + |word| + |v|
  {
    WordAfterSpace(toks, u, word, v);
    var i := 1 + |u| + |word|;
    assert forall j :: i <= j < i + |v| ==> toks[j] == Lit(v[j - i]);
    SpacesSkipped(toks, i, |v|);
  }

  /** A tag with a word that starts differently is not. */
  lemma OtherTag(toks: seq<Token>, u: string, word: string, v: string, other: string)
    requires Starts(toks, u, word, v) && AllSpace(u) && Word(word) && other != "" && other[0] != word[0]
    ensures NamedTagLength(toks, other) == 0
  {
    WordAfterSpace(toks, u, word, v);
    assert toks[1 + |u| + 0] == Lit(word[0]);
    assert toks[1 + |u| + 0] != Lit(other[0]);
  }

  function WordOf(p: Part): string
    requires !p.Plain?
  {
    match p case IntTag(_, _) => "int" case StringTag(_, _) => "string" case PathTag(_, _) => "path"
  }

  /** No bracket opens inside a tag. */
  lemma OneBracket(u: string, word: string, v: string)
    requires AllSpace(u) && AllSpace(v) && Word(word)
    ensures var s := "<" + u + word + v + ">"; forall i :: 1 <= i < |s| ==> s[i] != '<'
  {
    var s := "<" + u + word + v + ">";
    forall i | 1 <= i < |s| ensures s[i] != '<' {
      if i < 1 + |u| {
        assert s[i] == u[i - 1];
      } else if i < 1 + |u| + |word| {
        assert s[i] == word[i - 1 - |u|];
      } else if i < |s| - 1 {
        assert s[i] == v[i - 1 - |u| - |word|];
      }
    }
  }

  lemma TagText(p: Part)
    requires !p.Plain? && ValidPart(p)
    ensures Word(WordOf(p)) && Written(p) == "<" + p.before + WordOf(p) + p.after + ">"
    ensures |Written(p)| == 2 + |p.before| + |WordOf(p)| + |p.after|
  {
  }

  /** The pass for its own kind turns a tag into its group. */
  lemma {:induction false} PassTakesTag(p: Part, rest: seq<Token>, n: nat)
    requires ValidPart(p) && n < 3 && !p.Plain? && Done(p, n + 1) && !Done(p, n)
    ensures Replace(Lits(Written(p)) + rest, Pass(n)) == Meaning(p) + Replace(rest, Pass(n))
  {
    var lits, kind := Lits(Written(p)), Pass(n);
    TagText(p);
    WrittenStarts(p.before, WordOf(p), p.after, rest);
    TagFound(lits + rest, p.before, WordOf(p), p.after);
    assert Name(kind) == WordOf(p);
    TakeOne(lits, rest, kind);
    SourceOfLits(Written(p));
  }

  lemma TakeOne(lits: seq<Token>, rest: seq<Token>, kind: Kind)
    requires TagLength(lits + rest, kind) == |lits| > 0
    ensures Replace(lits + rest, kind) == [Tag(kind, Source(lits))] + Replace(rest, kind)
  {
    var all := lits + rest;
    assert all[..|lits|] == lits && all[|lits|..] == rest;
    ReplaceUnfolds(all, kind);
  }

  /** An earlier pass leaves it as it is written. */
  lemma {:induction false} PassSkipsTag(p: Part, rest: seq<Token>, n: nat)
    requires ValidPart(p) && n < 3 && !p.Plain? && !Done(p, n + 1)
    ensures Replace(Lits(Written(p)) + rest, Pass(n)) == Lits(Written(p)) + Replace(rest, Pass(n))
  {
    var lits, kind := Lits(Written(p)), Pass(n);
    TagText(p);
    OneBracket(p.before, WordOf(p), p.after);
    WrittenStarts(p.before, WordOf(p), p.after, rest);
    NamesDiffer(p, n);
    OtherTag(lits + rest, p.before, WordOf(p), p.after, Name(kind));
    SkipAll(lits, rest, kind);
  }

  lemma NamesDiffer(p: Part, n: nat)
    requires n < 3 && !p.Plain? && !Done(p, n + 1)
    ensures Name(Pass(n)) != "" && Name(Pass(n))[0] != WordOf(p)[0]
  {
  }

  lemma SkipAll(lits: seq<Token>, rest: seq<Token>, kind: Kind)
    requires lits != [] && TagLength(lits + rest, kind) == 0 && forall i :: 1 <= i < |lits| ==> lits[i] != Lit('<')
    ensures Replace(lits + rest, kind) == lits + Replace(rest, kind)
  {
    FirstApart(lits, rest);
    CopyOne(lits[0], lits[1..] + rest, kind);
    PassCopies(lits[1..], rest, kind);
    FirstApart(lits, Replace(rest, kind));
  }

  lemma PassOnPart(p: Part, rest: seq<Token>, n: nat)
    requires ValidPart(p) && n < 3
    ensures Replace(After(p, n) + rest, Pass(n)) == After(p, n + 1) + Replace(rest, Pass(n))
  {
    if p.Plain? || Done(p, n) {
      assert p.Plain? ==> forall i :: 0 <= i < |p.text| ==> p.text[i] in p.text;
      PassCopies(After(p, n), rest, Pass(n));
    } else if Done(p, n + 1) {
      PassTakesTag(p, rest, n);
    } else {
      PassSkipsTag(p, rest, n);
    }
  }

  lemma {:induction false} PassOnParts(parts: seq<Part>, n: nat)
    requires ValidParts(parts) && n < 3
    ensures Replace(AfterAll(parts, n), Pass(n)) == AfterAll(parts, n + 1)
    decreases |parts|
  {
    if parts != [] {
      PassOnPart(parts[0], AfterAll(parts[1..], n), n);
      PassOnParts(parts[1..], n);
    }
  }

  lemma {:induction false} PassNumber(parts: seq<Part>, n: nat, kind: Kind, later: nat)
    requires ValidParts(parts) && n < 3 && kind == Pass(n) && later == n + 1
    ensures Replace(AfterAll(parts, n), kind) == AfterAll(parts, later)
  {
    PassOnParts(parts, n);
  }

  lemma {:induction false} PassesOnWritten(parts: seq<Part>)
    requires ValidParts(parts)
    ensures Replace(Replace(Replace(Lits(WrittenAll(parts)), IntKind), StringKind), PathKind) == MeaningAll(parts)
  {
    UntouchedIsLits(parts);
    PassNumber(parts, 0, IntKind, 1);
    PassNumber(parts, 1, StringKind, 2);
    PassNumber(parts, 2, PathKind, 3);
    AllDone(parts);
  }

  /**
   Compiling what is written gives its parts back: every character of a text as itself,
   <int>, <string> and <path>, with any spaces inside, as the groups of those kinds; a
   final slash is dropped.
   */
  lemma {:induction false} CompileOfWritten(parts: seq<Part>, spec: string)
    requires ValidParts(parts) && spec != ""
    requires spec == WrittenAll(parts) + "/" || (spec == WrittenAll(parts) && spec[|spec| - 1] != '/')
    ensures Compile(spec) == MeaningAll(parts)
  {
    assert Trim(spec) == WrittenAll(parts);
    PassesOnWritten(parts);
  }
}
