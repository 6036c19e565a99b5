/** Characters and searches that the route compiler and the range parser share. */
module Strings {
  import opened Options

  /** std::isspace, and what \s matches. */
  predicate IsSpace(c: char) {
    c == ' ' || c == '\t' || c == '\n' || c == '\U{b}' || c == '\U{c}' || c == '\r'
  }

  function IndexOf(s: string, c: char): (r: Option<nat>)
    ensures match r
            case None => c !in s
            case Some(n) => n < |s| && s[n] == c && c !in s[..n]
  {
    if s == "" then None
    else if s[0] == c then Some(0)
    else
      match IndexOf(s[1..], c)
      case None => None
      case Some(n) =>
        assert s[..n + 1] == [s[0]] + s[1..][..n];
        Some(n + 1)
  }
}
