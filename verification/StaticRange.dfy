/**
 Range requests of the static file handler: parsing the Range header, reading the slice
 under short reads, and the 206 / 200 / 500 response.
 */
module StaticRange {
  import opened Arithmetic
  import opened Options
  import opened Strings

  // ---- std::stoll and std::to_string ----

  const LLONG_MAX: int := 0x7FFF_FFFF_FFFF_FFFF

  predicate IsDigit(c: char) { '0' <= c <= '9' }

  function SkipSpaces(s: string): string {
    if s != "" && IsSpace(s[0]) then SkipSpaces(s[1..]) else s
  }

  /** The longest run of digits at the start. */
  function Digits(s: string): (d: string)
    ensures d <= s && forall i :: 0 <= i < |d| ==> IsDigit(d[i])
    ensures |d| < |s| ==> !IsDigit(s[|d|])
  {
    if s != "" && IsDigit(s[0]) then
      var d := [s[0]] + Digits(s[1..]);
      assert d <= s;
      d
    else ""
  }

  function Value(d: string): nat
    requires forall i :: 0 <= i < |d| ==> IsDigit(d[i])
  {
    if d == "" then 0 else Value(d[..|d| - 1]) * 10 + DigitValue(d[|d| - 1])
  }

  function DigitValue(c: char): nat
    requires IsDigit(c)
  {
    c as int - '0' as int
  }

  /** Leading space, a sign and a run of digits; anything after them is ignored. None is an exception. */
  function Stoll(s: string): Option<int> { SignedNumber(SkipSpaces(s)) }

  function SignedNumber(t: string): Option<int> {
    if t != "" && t[0] == '-' then Number(true, t[1..])
    else if t != "" && t[0] == '+' then Number(false, t[1..])
    else Number(false, t)
  }

  function Number(negative: bool, s: string): (r: Option<int>)
    ensures r.Some? ==> Digits(s) != ""
  {
    var d := Digits(s);
    var v: int := Value(d);
    Bounded(if negative then -v else v, d)
  }

  function Bounded(v: int, d: string): (r: Option<int>)
    ensures r.Some? ==> d != ""
  {
    if d == "" || v > LLONG_MAX || v < -LLONG_MAX - 1 then None else Some(v)
  }

  function Decimal(n: nat): (d: string)
    ensures d != "" && forall i :: 0 <= i < |d| ==> IsDigit(d[i])
  {
    if n < 10 then [('0' as int + n) as char] else Decimal(n / 10) + [('0' as int + n % 10) as char]
  }

  lemma {:induction false} ValueOfDecimal(n: nat)
    ensures Value(Decimal(n)) == n
    decreases n
  {
    var d := Decimal(n);
    if n < 10 {
      assert d[..0] == "";
    } else {
      ValueOfDecimal(n / 10);
      assert d[..|d| - 1] == Decimal(n / 10);
    }
  }

  lemma {:induction false} DigitsOfPrefix(d: string, tail: string)
    requires forall i :: 0 <= i < |d| ==> IsDigit(d[i])
    requires tail == "" || !IsDigit(tail[0])
    ensures Digits(d + tail) == d
    decreases |d|
  {
    if d != "" {
      assert (d + tail)[1..] == d[1..] + tail;
      DigitsOfPrefix(d[1..], tail);
    } else {
      assert d + tail == tail;
    }
  }

  lemma {:induction false} SpacesAreSkipped(spaces: string, s: string)
    requires forall i :: 0 <= i < |spaces| ==> IsSpace(spaces[i])
    requires s != "" && !IsSpace(s[0])
    ensures SkipSpaces(spaces + s) == s
    decreases |spaces|
  {
    if spaces == "" {
      assert spaces + s == s;
    } else {
      assert (spaces + s)[1..] == spaces[1..] + s;
      SpacesAreSkipped(spaces[1..], s);
    }
  }

  function Signed(sign: string, n: int): int { if sign == "-" then -n else n }

  predicate IsSign(sign: string) { sign == "" || sign == "+" || sign == "-" }

  lemma SignLeads(sign: string, rest: string)
    requires IsSign(sign) && rest != "" && IsDigit(rest[0])
    ensures SignedNumber(sign + rest) == Number(sign == "-", rest)
  {
    var t := sign + rest;
    if sign == "" {
      assert t == rest;
    } else {
      assert t[0] == sign[0] && t[1..] == rest;
    }
  }

  lemma NumberIsBounded(sign: string, s: string)
    requires s != "" && IsDigit(s[0])
    ensures var v := Signed(sign, Value(Digits(s)));
            Number(sign == "-", s) == if -LLONG_MAX - 1 <= v <= LLONG_MAX then Some(v) else None
  {
  }

  lemma SignIsRead(sign: string, digits: string)
    requires IsSign(sign) && digits != "" && IsDigit(digits[0])
    ensures var v := Signed(sign, Value(Digits(digits)));
            SignedNumber(sign + digits) == if -LLONG_MAX - 1 <= v <= LLONG_MAX then Some(v) else None
  {
    SignLeads(sign, digits);
    NumberIsBounded(sign, digits);
  }

  /** stoll reads back what to_string wrote, after any space and a sign, whatever non-digit follows. */
  lemma StollOfDecimal(spaces: string, sign: string, n: nat, tail: string)
    requires forall i :: 0 <= i < |spaces| ==> IsSpace(spaces[i])
    requires IsSign(sign) && n <= LLONG_MAX && (tail == "" || !IsDigit(tail[0]))
    ensures Stoll(spaces + (sign + (Decimal(n) + tail))) == Some(Signed(sign, n))
  {
    DigitsOfPrefix(Decimal(n), tail);
    ValueOfDecimal(n);
    SignIsRead(sign, Decimal(n) + tail);
    SpacesAreSkipped(spaces, sign + (Decimal(n) + tail));
  }

  lemma {:induction false} SpacesSplit(s: string) returns (spaces: string)
    ensures s == spaces + SkipSpaces(s) && (forall i :: 0 <= i < |spaces| ==> IsSpace(spaces[i]))
    ensures SkipSpaces(s) == "" || !IsSpace(SkipSpaces(s)[0])
    decreases |s|
  {
    spaces := "";
    if s != "" && IsSpace(s[0]) {
      var rest := SpacesSplit(s[1..]);
      spaces := [s[0]] + rest;
      assert s == [s[0]] + s[1..];
    }
  }

  predicate InRange(v: int) { -0x8000_0000_0000_0000 <= v <= 0x7FFF_FFFF_FFFF_FFFF }

  /** A text that begins with white space, a sign and a run of digits. */
  ghost predicate IsNumeral(s: string, spaces: string, sign: string, digits: string, tail: string) {
    && s == spaces + (sign + (digits + tail))
    && (forall i :: 0 <= i < |spaces| ==> IsSpace(spaces[i])) && IsSign(sign)
    && digits != "" && (forall i :: 0 <= i < |digits| ==> IsDigit(digits[i])) && (tail == "" || !IsDigit(tail[0]))
  }

  lemma NumeralIsRead(s: string, spaces: string, sign: string, digits: string, tail: string)
    requires IsNumeral(s, spaces, sign, digits, tail)
    ensures var v := Signed(sign, Value(digits)); Stoll(s) == if InRange(v) then Some(v) else None
  {
    DigitsOfPrefix(digits, tail);
    SignIsRead(sign, digits + tail);
    SpacesAreSkipped(spaces, sign + (digits + tail));
  }

  lemma SignSplits(t: string) returns (sign: string, rest: string)
    requires SignedNumber(t).Some?
    ensures t == sign + rest && IsSign(sign) && Digits(rest) != ""
  {
    if t != "" && (t[0] == '-' || t[0] == '+') {
      sign, rest := t[..1], t[1..];
    } else {
      sign, rest := "", t;
    }
  }

  lemma DigitsSplit(s: string) returns (digits: string, tail: string)
    ensures digits == Digits(s) && s == digits + tail && (tail == "" || !IsDigit(tail[0]))
  {
    digits := Digits(s);
    tail := s[|digits|..];
  }

  lemma ReadIsNumeral(s: string) returns (spaces: string, sign: string, digits: string, tail: string)
    requires Stoll(s).Some?
    ensures IsNumeral(s, spaces, sign, digits, tail)
  {
    spaces := SpacesSplit(s);
    var rest;
    sign, rest := SignSplits(SkipSpaces(s));
    digits, tail := DigitsSplit(rest);
  }

  /** stoll accepts exactly the texts that begin with a numeral in range, and returns its value. */
  lemma StollExactly(s: string, v: int)
    ensures Stoll(s) == Some(v) <==>
            InRange(v) && exists spaces, sign, digits, tail ::
                            IsNumeral(s, spaces, sign, digits, tail) && v == Signed(sign, Value(digits))
  {
    if Stoll(s) == Some(v) {
      var spaces, sign, digits, tail := ReadIsNumeral(s);
      NumeralIsRead(s, spaces, sign, digits, tail);
    }
    forall spaces, sign, digits, tail | IsNumeral(s, spaces, sign, digits, tail)
      ensures var v := Signed(sign, Value(digits)); Stoll(s) == if InRange(v) then Some(v) else None
    {
      NumeralIsRead(s, spaces, sign, digits, tail);
    }
  }

  lemma StollOfNumber(n: nat)
    requires n <= LLONG_MAX
    ensures Stoll(Decimal(n)) == Some(n)
  {
    var d := Decimal(n);
    ValueOfDecimal(n);
    DigitsOfPrefix(d, "");
    assert d + "" == "" + d == d;
    SignIsRead("", d);
    SpacesAreSkipped("", d);
  }

  // ---- Parsing the header ----

  datatype Slice = Slice(start: int, end: int)

  /** The texts around the dash name this slice: the last bytes of the file, or a first and a last byte inside it. */
  ghost predicate AsksFor(first: string, last: string, size: int, slice: Slice) {
    && 0 <= slice.start <= slice.end < size
    && if first == "" then
         slice.end == size - 1 && exists n :: Stoll(last) == Some(n) && 0 < n && slice.start == Max(0, size - n)
       else
         Stoll(first) == Some(slice.start) && (Stoll(last) == Some(slice.end) || (last == "" && slice.end == size - 1))
  }

  /** The slice the handler accepts; None falls through to the whole file. */
  function ParseRange(header: string, size: int): (r: Option<Slice>)
    ensures r.Some? ==> 0 <= r.value.start <= r.value.end < size
  {
    if size <= 0 || |header| < 6 || header[..6] != "bytes=" then None
    else
      var spec := header[6..];
      match IndexOf(spec, '-')
      case None => None
      case Some(dash) =>
        SliceOf(spec[..dash], spec[dash + 1..], size)
  }

  /** The slice that the texts before and after the dash ask for. */
  function SliceOf(first: string, last: string, size: int): (r: Option<Slice>)
    requires 0 < size
    ensures forall slice :: r == Some(slice) <==> AsksFor(first, last, size, slice)
  {
    if first == "" then
      match Stoll(last)
      case None => None
      case Some(n) => if n > 0 then Some(Slice(if n >= size then 0 else size - n, size - 1)) else None
    else
      match Stoll(first)
      case None => None
      case Some(start) =>
        match (if last == "" then Some(size - 1) else Stoll(last))
        case None => None
        case Some(end) => if 0 <= start && end < size && start <= end then Some(Slice(start, end)) else None
  }

  lemma HeaderParts(first: string, last: string)
    requires '-' !in first
    ensures var h := "bytes=" + first + "-" + last;
            |h| >= 6 && h[..6] == "bytes=" && h[6..] == first + "-" + last && IndexOf(h[6..], '-') == Some(|first|)
            && h[6..][..|first|] == first && h[6..][|first| + 1..] == last
  {
    var s := first + "-" + last;
    var h := "bytes=" + first + "-" + last;
    assert h == "bytes=" + s;
    assert s[|first|] == '-';
    assert forall i :: 0 <= i < |first| ==> s[i] == first[i];
    assert forall n :: |first| < n <= |s| ==> s[..n][|first|] == '-';
  }

  lemma PartsOfHeader(header: string, size: int) returns (first: string, last: string)
    requires ParseRange(header, size).Some?
    ensures '-' !in first && header == "bytes=" + first + "-" + last
    ensures ParseRange(header, size) == SliceOf(first, last, size)
  {
    var spec := header[6..];
    var dash := IndexOf(spec, '-').value;
    first, last := spec[..dash], spec[dash + 1..];
    PartsRejoin("bytes=", header, dash);
  }

  lemma PartsRejoin(p: string, header: string, dash: nat)
    requires p <= header && dash < |header[|p|..]| && header[|p|..][dash] == '-'
    ensures header == p + header[|p|..][..dash] + "-" + header[|p|..][dash + 1..]
  {
  }

  /** Exactly the headers bytes=first-last whose texts ask for a slice are accepted; all others get the whole file. */
  lemma ParsedExactly(header: string, size: int, slice: Slice)
    ensures ParseRange(header, size) == Some(slice) <==>
            && 0 < size
            && exists first, last ::
                 '-' !in first && header == "bytes=" + first + "-" + last && AsksFor(first, last, size, slice)
  {
    if ParseRange(header, size) == Some(slice) {
      var first, last := PartsOfHeader(header, size);
    }
    forall first, last |
      0 < size && '-' !in first && header == "bytes=" + first + "-" + last && AsksFor(first, last, size, slice)
      ensures ParseRange(header, size) == Some(slice)
    {
      HeaderParts(first, last);
    }
  }

  lemma DecimalHasNoDash(n: nat)
    ensures '-' !in Decimal(n)
  {
  }

  /** bytes=-n asks for the last min(n, size) bytes. */
  lemma SuffixRange(n: nat, size: int)
    requires 0 < n <= LLONG_MAX && 0 < size
    ensures var r := ParseRange("bytes=-" + Decimal(n), size);
            r.Some? && r.value.end == size - 1 && r.value.end - r.value.start + 1 == if n < size then n else size
  {
    HeaderParts("", Decimal(n));
    assert "bytes=" + "" + "-" + Decimal(n) == "bytes=-" + Decimal(n);
    StollOfNumber(n);
  }

  /** bytes=a-b is honoured exactly when a <= b < size; a last byte beyond the end is not clamped. */
  lemma {:induction false} ExplicitRange(a: nat, b: nat, size: int)
    requires a <= LLONG_MAX && b <= LLONG_MAX && 0 < size
    ensures ParseRange("bytes=" + Decimal(a) + "-" + Decimal(b), size) ==
            if a <= b < size then Some(Slice(a, b)) else None
  {
    DecimalHasNoDash(a);
    HeaderParts(Decimal(a), Decimal(b));
    StollOfNumber(a);
    StollOfNumber(b);
  }

  /** bytes=a- runs to the end of the file. */
  lemma OpenRange(a: nat, size: int)
    requires a <= LLONG_MAX && 0 < size
    ensures ParseRange("bytes=" + Decimal(a) + "-", size) == if a < size then Some(Slice(a, size - 1)) else None
  {
    DecimalHasNoDash(a);
    HeaderParts(Decimal(a), "");
    assert "bytes=" + Decimal(a) + "-" + "" == "bytes=" + Decimal(a) + "-";
    StollOfNumber(a);
  }

  // ---- Reading under short reads ----

  /** What one read() returns: at most what the system grants, what is asked for and what is left of the file. */
  function ReadSize(grants: seq<nat>, i: nat, asked: nat, left: nat): nat {
    if i < |grants| then Min(grants[i], Min(asked, left)) else 0
  }

  /**
   Fills buf with file[offset..offset + length] or fails; it fails only when a read
   returns nothing, which needs a short file or a system that grants nothing.
   */
  method ReadRange(file: string, buf: array<char>, offset: nat, length: nat, grants: seq<nat>) returns (ok: bool)
    requires buf.Length == length
    modifies buf
    ensures ok && length > 0 ==> offset + length <= |file| && buf[..] == file[offset..offset + length]
    ensures offset + length <= |file| && length <= |grants| && (forall i :: 0 <= i < |grants| ==> grants[i] > 0) ==> ok
  {
    var remaining := length;
    var calls := 0;
    while remaining > 0
      invariant 0 <= remaining <= length && calls <= length - remaining
      invariant remaining < length ==> offset + (length - remaining) <= |file|
      invariant forall i :: 0 <= i < length - remaining ==> buf[i] == file[offset + i]
    {
      var done := length - remaining;
      var left := if offset + done <= |file| then |file| - (offset + done) else 0;
      var n := ReadSize(grants, calls, remaining, left);
      if n <= 0 {
        return false;
      }
      forall i | 0 <= i < n {
        buf[done + i] := file[offset + done + i];
      }
      remaining := remaining - n;
      calls := calls + 1;
    }
    ok := true;
  }

  // ---- The response ----

  datatype Response = Response(status: nat, body: string, contentRange: Option<string>)

  function ContentRange(s: Slice, size: int): string
    requires 0 <= s.start <= s.end < size
  {
    "bytes " + Decimal(s.start) + "-" + Decimal(s.end) + "/" + Decimal(size)
  }

  /** The text starts with the digits of this number and a separator. */
  predicate NumberAt(s: string, n: int, sep: char) {
    var d := Digits(s); Value(d) == n && |d| < |s| && s[|d|] == sep
  }

  function Behind(s: string): string
    requires |Digits(s)| < |s|
  {
    s[|Digits(s)| + 1..]
  }

  lemma NumberRead(d: string, sep: char, rest: string)
    requires AllDigits(d) && !IsDigit(sep)
    ensures var s := d + ([sep] + rest); NumberAt(s, Value(d), sep) && Behind(s) == rest
  {
    DigitsOfPrefix(d, [sep] + rest);
  }

  /** A number before a slash, and one at the end. */
  predicate ReadsLast(r: string, end: int, size: int) {
    NumberAt(r, end, '/') && Digits(Behind(r)) == Behind(r) && Value(Digits(Behind(r))) == size
  }

  /** "bytes ", a number before a dash, and the other two. */
  predicate ReadsAs(h: string, start: int, end: int, size: int) {
    "bytes " <= h && NumberAt(h[6..], start, '-') && ReadsLast(Behind(h[6..]), end, size)
  }

  lemma LastRead(b: string, c: string)
    requires AllDigits(b) && AllDigits(c)
    ensures ReadsLast(b + (['/'] + c), Value(b), Value(c))
  {
    NumberRead(b, '/', c);
    DigitsOfPrefix(c, "");
    assert c + "" == c;
  }

  lemma Regrouped(a: string, b: string, c: string)
    ensures var h := "bytes " + a + "-" + b + "/" + c;
            "bytes " <= h && h[6..] == a + (['-'] + (b + (['/'] + c)))
  {
    var h, r := "bytes " + a + "-" + b + "/" + c, a + (['-'] + (b + (['/'] + c)));
    assert h == "bytes " + r;
  }

  lemma PartsRead(a: string, b: string, c: string)
    requires AllDigits(a) && AllDigits(b) && AllDigits(c)
    ensures ReadsAs("bytes " + a + "-" + b + "/" + c, Value(a), Value(b), Value(c))
  {
    Regrouped(a, b, c);
    NumberRead(a, '-', b + (['/'] + c));
    LastRead(b, c);
  }

  /** A client that reads the value finds start, end and size, in this order. */
  lemma ContentRangeReads(s: Slice, size: int)
    requires 0 <= s.start <= s.end < size
    ensures ReadsAs(ContentRange(s, size), s.start, s.end, size)
  {
    PartsRead(Decimal(s.start), Decimal(s.end), Decimal(size));
    ValueOfDecimal(s.start);
    ValueOfDecimal(s.end);
    ValueOfDecimal(size);
  }

  /** A string that states the bounds states no others. */
  lemma ContentRangeIsExact(s: Slice, size: int, s': Slice, size': int)
    requires 0 <= s.start <= s.end < size && 0 <= s'.start <= s'.end < size'
    requires ContentRange(s, size) == ContentRange(s', size')
    ensures s == s' && size == size'
  {
    SameNumbers(Decimal(s.start), Decimal(s.end), Decimal(size), Decimal(s'.start), Decimal(s'.end), Decimal(size'));
    ValueOfDecimal(s.start);
    ValueOfDecimal(s'.start);
    ValueOfDecimal(s.end);
    ValueOfDecimal(s'.end);
    ValueOfDecimal(size);
    ValueOfDecimal(size');
  }

  predicate AllDigits(d: string) { forall i :: 0 <= i < |d| ==> IsDigit(d[i]) }

  lemma SameNumbers(a: string, b: string, c: string, a': string, b': string, c': string)
    requires AllDigits(a) && AllDigits(b) && AllDigits(a') && AllDigits(b')
    requires "bytes " + a + "-" + b + "/" + c == "bytes " + a' + "-" + b' + "/" + c'
    ensures a == a' && b == b' && c == c'
  {
    var h, h' := "bytes " + a + "-" + b + "/" + c, "bytes " + a' + "-" + b' + "/" + c';
    var t, t' := "-" + b + "/" + c, "-" + b' + "/" + c';
    assert h[6..] == a + t && h'[6..] == a' + t';
    SplitDigits(a, t, a', t');
    assert t[1..] == b + ("/" + c) && t'[1..] == b' + ("/" + c');
    SplitDigits(b, "/" + c, b', "/" + c');
    assert ("/" + c)[1..] == c && ("/" + c')[1..] == c';
  }

  lemma SplitDigits(d: string, tail: string, d': string, tail': string)
    requires d + tail == d' + tail'
    requires (forall i :: 0 <= i < |d| ==> IsDigit(d[i])) && (forall i :: 0 <= i < |d'| ==> IsDigit(d'[i]))
    requires tail != "" && !IsDigit(tail[0]) && tail' != "" && !IsDigit(tail'[0])
    ensures d == d' && tail == tail'
  {
    DigitsOfPrefix(d, tail);
    DigitsOfPrefix(d', tail');
    assert (d + tail)[|d|..] == tail && (d' + tail')[|d'|..] == tail';
  }

  /**
   Steps 7 to 9 of the handler, for a regular file whose size was `size` when it was
   looked up and whose content is now `file`.
   */
  method Respond(enableRange: bool, header: string, size: int, file: string, grants: seq<nat>) returns (r: Response)
    requires 0 <= size
    ensures r.status == 206 || r.status == 200 || r.status == 500
    ensures r.status == 500 ==> r.body == "Internal Server Error" && r.contentRange == None
    ensures r.status == 206 ==>
              && enableRange && ParseRange(header, size).Some?
              && var s := ParseRange(header, size).value;
                 s.end < |file| && r.body == file[s.start..s.end + 1] && r.contentRange == Some(ContentRange(s, size))
    ensures r.status == 200 ==>
              && !(enableRange && ParseRange(header, size).Some?)
              && size <= |file| && r.body == file[..size] && r.contentRange == None
    ensures size <= |file| && size <= |grants| && (forall i :: 0 <= i < |grants| ==> grants[i] > 0) ==> r.status != 500
  {
    var slice := if enableRange then ParseRange(header, size) else None;
    if slice.Some? {
      var s := slice.value;
      var length := s.end - s.start + 1;
      var buf := new char[length];
      var ok := ReadRange(file, buf, s.start, length, grants);
      if !ok {
        return Response(500, "Internal Server Error", None);
      }
      return Response(206, buf[..], Some(ContentRange(s, size)));
    }
    var body := "";
    if size > 0 {
      var buf := new char[size];
      var ok := ReadRange(file, buf, 0, size, grants);
      if !ok {
        return Response(500, "Internal Server Error", None);
      }
      body := buf[..];
    }
    r := Response(200, body, None);
  }
}
