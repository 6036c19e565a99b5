/**
 The streaming search for a multipart boundary line.  A stream is the list of what its
 reads will return; what matters to the caller is the outcome and the data that remains,
 in the buffer and unread.  When the reads run out, the source throws (`EndOfStream`).
 */
module Multipart {
  import opened Options

  datatype Outcome = Found | Closed | EndOfStream

  const READ_SIZE: nat := 65536

  // ---- Substring search ----

  predicate OccursAt(s: string, p: string, i: nat) { i + |p| <= |s| && s[i..i + |p|] == p }

  /** string_view::find: the leftmost occurrence. */
  function FindFirst(s: string, p: string): (r: Option<nat>)
    ensures r.Some? ==> OccursAt(s, p, r.value) && forall i :: 0 <= i < r.value ==> !OccursAt(s, p, i)
    ensures r.None? ==> forall i: nat :: !OccursAt(s, p, i)
  {
    FindFrom(s, p, 0)
  }

  function FindFrom(s: string, p: string, i: nat): (r: Option<nat>)
    requires i <= |s| + 1 && forall j :: 0 <= j < i ==> !OccursAt(s, p, j)
    ensures r.Some? ==> OccursAt(s, p, r.value) && forall j :: 0 <= j < r.value ==> !OccursAt(s, p, j)
    ensures r.None? ==> forall j: nat :: !OccursAt(s, p, j)
    decreases |s| + 1 - i
  {
    if i > |s| then None else if OccursAt(s, p, i) then Some(i) else FindFrom(s, p, i + 1)
  }

  function Concat(chunks: seq<string>): string {
    if chunks == [] then "" else chunks[0] + Concat(chunks[1..])
  }

  function BoundaryLine(boundary: string): string { boundary + "\r\n" }

  function TerminateLine(boundary: string): string { boundary + "--\r\n" }

  // ---- The search ----

  /** The outcome, the buffer and the unread chunks. */
  datatype Result = Result(outcome: Outcome, buffer: string, unread: seq<string>)

  function Search(boundary: string, buffer: string, chunks: seq<string>): Result
    decreases |chunks|
  {
    match FindFirst(buffer, BoundaryLine(boundary))
    case Some(pos) => Result(Found, buffer[pos + |BoundaryLine(boundary)|..], chunks)
    case None =>
      if FindFirst(buffer, TerminateLine(boundary)).Some? then Result(Closed, buffer, chunks)
      else if chunks == [] then Result(EndOfStream, buffer, [])
      else Search(boundary, buffer + chunks[0], chunks[1..])
  }

  /**
   The source's loop.  Whatever the reads, Found leaves exactly the data after the
   leftmost boundary line of the whole stream, Closed leaves all of it and happens only
   if a closing line occurs, and the reads run out only if neither line occurs.
   */
  method FindMultipartBoundary(boundary: string, buffer: string, chunks: seq<string>)
    returns (outcome: Outcome, rest: string, unread: seq<string>)
    ensures Result(outcome, rest, unread) == Search(boundary, buffer, chunks)
    ensures Means(boundary, buffer + Concat(chunks), Result(outcome, rest, unread))
    ensures ReadsNoMore(boundary, buffer, chunks, unread)
  {
    SearchMeans(boundary, buffer, chunks);
    SearchReadsNoMore(boundary, buffer, chunks);
    var boundaryLine := boundary + "\r\n";
    var terminateLine := boundary + "--\r\n";
    rest, unread := buffer, chunks;
    while true
      invariant Search(boundary, rest, unread) == Search(boundary, buffer, chunks)
      decreases |unread|
    {
      var pos := FindFirst(rest, boundaryLine);
      if pos.None? {
        var end := FindFirst(rest, terminateLine);
        if end.Some? {
          return Closed, rest, unread;
        }
        if unread == [] {
          return EndOfStream, rest, [];
        }
        rest, unread := rest + unread[0], unread[1..];
      } else {
        return Found, rest[pos.value + |boundaryLine|..], unread;
      }
    }
  }

  /** In terms of the whole stream: all that is buffered and all that will be read. */
  ghost predicate Means(boundary: string, all: string, r: Result) {
    var line, closing := FindFirst(all, boundary + "\r\n"), FindFirst(all, boundary + "--\r\n");
    match r.outcome
    case Found => line.Some? && r.buffer + Concat(r.unread) == all[line.value + |boundary| + 2..]
    case Closed => closing.Some? && r.buffer + Concat(r.unread) == all
    case EndOfStream => line.None? && closing.None? && r.buffer == all && r.unread == []
  }

  lemma {:induction false} SearchMeans(boundary: string, buffer: string, chunks: seq<string>)
    ensures Means(boundary, buffer + Concat(chunks), Search(boundary, buffer, chunks))
    decreases |chunks|
  {
    var more := Concat(chunks);
    var b, t := BoundaryLine(boundary), TerminateLine(boundary);
    PrefixFinds(buffer, more, b);
    PrefixFinds(buffer, more, t);
    match FindFirst(buffer, b)
    case Some(pos) => assert (buffer + more)[pos + |b|..] == buffer[pos + |b|..] + more;
    case None =>
      if FindFirst(buffer, t).None? {
        if chunks == [] {
          assert buffer + more == buffer;
        } else {
          SearchMeans(boundary, buffer + chunks[0], chunks[1..]);
          assert (buffer + chunks[0]) + Concat(chunks[1..]) == buffer + more;
        }
      }
  }

  /** Neither line is in the text. */
  ghost predicate NoLine(boundary: string, s: string) {
    forall i: nat :: !OccursAt(s, boundary + "\r\n", i) && !OccursAt(s, boundary + "--\r\n", i)
  }

  /** What is unread are the last chunks, and no chunk was read while a line was in the buffer. */
  ghost predicate ReadsNoMore(boundary: string, buffer: string, chunks: seq<string>, unread: seq<string>) {
    && |unread| <= |chunks| && unread == chunks[|chunks| - |unread|..]
    && forall j :: 0 <= j < |chunks| - |unread| ==> NoLine(boundary, buffer + Concat(chunks[..j]))
  }

  lemma {:induction false} SearchReadsNoMore(boundary: string, buffer: string, chunks: seq<string>)
    ensures ReadsNoMore(boundary, buffer, chunks, Search(boundary, buffer, chunks).unread)
    decreases |chunks|
  {
    var b, t := BoundaryLine(boundary), TerminateLine(boundary);
    if FindFirst(buffer, b).None? && FindFirst(buffer, t).None? && chunks != [] {
      var next, rest := buffer + chunks[0], chunks[1..];
      SearchReadsNoMore(boundary, next, rest);
      var unread := Search(boundary, next, rest).unread;
      assert NoLine(boundary, buffer);
      forall j | 0 <= j < |chunks| - |unread| ensures NoLine(boundary, buffer + Concat(chunks[..j])) {
        if j == 0 {
          assert buffer + Concat([]) == buffer;
        } else {
          assert chunks[..j][1..] == rest[..j - 1];
          assert buffer + Concat(chunks[..j]) == next + Concat(rest[..j - 1]);
        }
      }
    }
  }

  /** An occurrence inside a prefix is the leftmost one of the whole. */
  lemma PrefixFinds(a: string, b: string, p: string)
    ensures FindFirst(a, p).Some? ==> FindFirst(a + b, p) == FindFirst(a, p)
  {
    if FindFirst(a, p).Some? {
      var i := FindFirst(a, p).value;
      assert (a + b)[i..i + |p|] == a[i..i + |p|];
      assert OccursAt(a + b, p, i);
      forall j | 0 <= j < i ensures !OccursAt(a + b, p, j) {
        assert (a + b)[j..j + |p|] == a[j..j + |p|];
        assert !OccursAt(a, p, j);
      }
    }
  }

  // ---- Which cuts decide what ----

  /** The length of the shortest prefix of s that contains p. */
  function EndOf(s: string, p: string): (r: Option<nat>)
    ensures r.Some? ==> r.value <= |s|
  {
    match FindFirst(s, p) case None => None case Some(i) => Some(i + |p|)
  }

  lemma PrefixContains(s: string, p: string, n: nat)
    requires n <= |s|
    ensures FindFirst(s[..n], p).Some? <==> EndOf(s, p).Some? && EndOf(s, p).value <= n
  {
    assert s == s[..n] + s[n..];
    PrefixFinds(s[..n], s[n..], p);
    if EndOf(s, p).Some? && EndOf(s, p).value <= n {
      var i := FindFirst(s, p).value;
      assert s[..n][i..i + |p|] == s[i..i + |p|];
      assert OccursAt(s[..n], p, i);
    }
  }

  predicate Reached(end: Option<nat>, n: nat) { end.Some? && end.value <= n }

  /** The outcome as a function of the lengths at which the buffer is inspected. */
  function Decide(line: Option<nat>, closing: Option<nat>, n: nat, chunks: seq<string>): Outcome
    decreases |chunks|
  {
    if Reached(line, n) then Found
    else if Reached(closing, n) then Closed
    else if chunks == [] then EndOfStream
    else Decide(line, closing, n + |chunks[0]|, chunks[1..])
  }

  lemma {:induction false} SearchDecides(boundary: string, buffer: string, chunks: seq<string>)
    ensures var all := buffer + Concat(chunks);
            Search(boundary, buffer, chunks).outcome ==
            Decide(EndOf(all, BoundaryLine(boundary)), EndOf(all, TerminateLine(boundary)), |buffer|, chunks)
    decreases |chunks|
  {
    var all := buffer + Concat(chunks);
    var b, t := BoundaryLine(boundary), TerminateLine(boundary);
    assert all[..|buffer|] == buffer;
    PrefixContains(all, b, |buffer|);
    PrefixContains(all, t, |buffer|);
    if FindFirst(buffer, b).None? && FindFirst(buffer, t).None? && chunks != [] {
      SearchDecides(boundary, buffer + chunks[0], chunks[1..]);
      assert (buffer + chunks[0]) + Concat(chunks[1..]) == all;
    }
  }

  /** A way the reads can cut the data: positive pieces no longer than the read buffer. */
  predicate Cuts(data: string, chunks: seq<string>) {
    Concat(chunks) == data && forall i :: 0 <= i < |chunks| ==> 0 < |chunks[i]| <= READ_SIZE
  }

  /** A read can jump from before the closing line's end to the boundary line's end. */
  predicate CutsMatter(line: Option<nat>, closing: Option<nat>, n: nat) {
    line.Some? && closing.Some? && n < closing.value < line.value && line.value - closing.value < READ_SIZE
  }

  /** What every cut decides when no read can jump over the gap. */
  function Verdict(line: Option<nat>, closing: Option<nat>, n: nat): Outcome {
    if line.None? then (if closing.None? then EndOfStream else Closed)
    else if closing.None? || line.value <= closing.value || line.value <= n then Found
    else Closed
  }

  lemma {:induction false} CutsAgree(line: Option<nat>, closing: Option<nat>, n: nat, data: string, chunks: seq<string>)
    requires Cuts(data, chunks) && !CutsMatter(line, closing, n)
    requires (line.Some? ==> line.value <= n + |data|) && (closing.Some? ==> closing.value <= n + |data|)
    ensures Decide(line, closing, n, chunks) == Verdict(line, closing, n)
    decreases |chunks|
  {
    if !Reached(line, n) && !Reached(closing, n) && chunks != [] {
      var c, rest := chunks[0], Concat(chunks[1..]);
      assert data == c + rest;
      assert forall i :: 0 <= i < |chunks[1..]| ==> chunks[1..][i] == chunks[i + 1];
      CutsAgree(line, closing, n + |c|, rest, chunks[1..]);
    }
  }

  // ---- Two cuts that differ ----

  function Bytes(data: string): (r: seq<string>)
    ensures Concat(r) == data
    ensures forall i :: 0 <= i < |r| ==> |r[i]| == 1
  {
    if data == "" then []
    else
      var r := [data[..1]] + Bytes(data[1..]);
      assert r[1..] == Bytes(data[1..]);
      r
  }

  /** Byte by byte, the closing line is complete before the boundary line is. */
  lemma {:induction false} BytesClose(line: Option<nat>, closing: Option<nat>, n: nat, data: string)
    requires CutsMatter(line, closing, n) && line.value <= n + |data|
    ensures Decide(line, closing, n, Bytes(data)) == Closed
    decreases |data|
  {
    assert Bytes(data)[1..] == Bytes(data[1..]);
    if n + 1 < closing.value {
      BytesClose(line, closing, n + 1, data[1..]);
    }
  }

  /** Bytes up to just before the closing line's end, one long read to the boundary line's end, then bytes. */
  function Jump(data: string, i: nat, j: nat): (r: seq<string>)
    requires i < j <= |data| && j - i <= READ_SIZE
    ensures Cuts(data, r)
  {
    if i == 0 then
      var r := [data[..j]] + Bytes(data[j..]);
      assert r[1..] == Bytes(data[j..]);
      assert data == data[..j] + data[j..];
      r
    else
      var r := [data[..1]] + Jump(data[1..], i - 1, j - 1);
      assert r[1..] == Jump(data[1..], i - 1, j - 1);
      assert data == data[..1] + data[1..];
      r
  }

  lemma {:induction false} JumpFinds(line: Option<nat>, closing: Option<nat>, n: nat, data: string)
    requires CutsMatter(line, closing, n) && line.value <= n + |data|
    ensures Decide(line, closing, n, Jump(data, closing.value - 1 - n, line.value - n)) == Found
    decreases |data|
  {
    var i, j := closing.value - 1 - n, line.value - n;
    var r := Jump(data, i, j);
    if i == 0 {
      assert r[0] == data[..j];
    } else {
      assert r[1..] == Jump(data[1..], i - 1, j - 1);
      JumpFinds(line, closing, n + 1, data[1..]);
    }
  }

  /** The outcome of a search does not depend on how the reads cut the data. */
  ghost predicate CutIndependent(boundary: string, buffer: string, data: string) {
    forall a, b :: Cuts(data, a) && Cuts(data, b) ==>
      Search(boundary, buffer, a).outcome == Search(boundary, buffer, b).outcome
  }

  lemma CutsDiffer(boundary: string, buffer: string, data: string, line: Option<nat>, closing: Option<nat>)
    requires line == EndOf(buffer + data, BoundaryLine(boundary))
    requires closing == EndOf(buffer + data, TerminateLine(boundary))
    requires CutsMatter(line, closing, |buffer|)
    ensures !CutIndependent(boundary, buffer, data)
  {
    var a, b := Bytes(data), Jump(data, closing.value - 1 - |buffer|, line.value - |buffer|);
    BytesClose(line, closing, |buffer|, data);
    JumpFinds(line, closing, |buffer|, data);
    CutDecides(boundary, buffer, data, a);
    CutDecides(boundary, buffer, data, b);
  }

  /**
   Exactly when the cuts do not matter: unless a closing line not yet in the buffer
   ends before the first boundary line does, within the reach of one read.
   */
  lemma CutIndependence(boundary: string, buffer: string, data: string)
    ensures var all := buffer + data;
            var line, closing := FindFirst(all, boundary + "\r\n"), FindFirst(all, boundary + "--\r\n");
            CutIndependent(boundary, buffer, data) <==>
            !(&& line.Some? && closing.Some? && |buffer| < closing.value + |boundary| + 4
              && 0 < (line.value + |boundary| + 2) - (closing.value + |boundary| + 4) < 65536)
  {
    var all := buffer + data;
    var line, closing := EndOf(all, BoundaryLine(boundary)), EndOf(all, TerminateLine(boundary));
    if CutsMatter(line, closing, |buffer|) {
      CutsDiffer(boundary, buffer, data, line, closing);
    } else {
      forall a, b | Cuts(data, a) && Cuts(data, b)
        ensures Search(boundary, buffer, a).outcome == Search(boundary, buffer, b).outcome
      {
        CutDecides(boundary, buffer, data, a);
        CutDecides(boundary, buffer, data, b);
        CutsAgree(line, closing, |buffer|, data, a);
        CutsAgree(line, closing, |buffer|, data, b);
      }
    }
  }

  lemma {:induction false} CutDecides(boundary: string, buffer: string, data: string, chunks: seq<string>)
    requires Cuts(data, chunks)
    ensures var all := buffer + data;
            Search(boundary, buffer, chunks).outcome ==
            Decide(EndOf(all, BoundaryLine(boundary)), EndOf(all, TerminateLine(boundary)), |buffer|, chunks)
  {
    SearchDecides(boundary, buffer, chunks);
  }
}
