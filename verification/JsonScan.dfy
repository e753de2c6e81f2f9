/** What the validator (src/common/json.cpp) and the DOM parser (src/cli/json_dom.cpp) do alike: white
    space, single characters, words, runs of digits. Both move a position over a text; their functions
    are stated on the text that is left. */
module JsonScan {
  import opened Decimal

  /** A value read off the front of a text and the text left, or a failure. */
  datatype Parsed<+T> = Fail | Got(value: T, rest: string)

  function Max(a: nat, b: nat): nat { if a < b then b else a }

  predicate IsSpace(c: char) {
    c == ' ' || c == '\n' || c == '\r' || c == '\t'
  }

  function SkipSpace(t: string): (u: string)
    ensures |u| <= |t| && (u != "" ==> !IsSpace(u[0]))
    ensures t != "" && !IsSpace(t[0]) ==> u == t
  {
    if t != "" && IsSpace(t[0]) then SkipSpace(t[1..]) else t
  }

  predicate Peek(t: string, c: char) {
    t != "" && t[0] == c
  }

  lemma Peeked(t: string, c: char)
    requires Peek(t, c)
    ensures t == [c] + t[1..]
  {
  }

  lemma Assoc(a: string, b: string, c: string)
    ensures a + (b + c) == a + b + c && "" + a == a
  {
  }

  predicate StartsWith(t: string, word: string) {
    word <= t
  }

  /** What stands after an element of a container: a comma, its closing bracket, or something else. */
  datatype Delimiter = Comma(rest: string) | Closing(rest: string) | Neither

  function AfterElement(t: string, close: char): (d: Delimiter)
    ensures !d.Neither? ==> |d.rest| < |t|
  {
    var c := SkipSpace(t);
    if Peek(c, ',') then Comma(c[1..]) else if Peek(c, close) then Closing(c[1..]) else Neither
  }

  function Digits(t: string): (n: nat)
    ensures n <= |t|
  {
    if t != "" && IsDigit(t[0]) then 1 + Digits(t[1..]) else 0
  }

  /** The text of a number is taken whole when no digit follows it. */
  lemma {:induction false} DigitsOf(s: string, rest: string)
    requires AllDigits(s) && (rest == "" || !IsDigit(rest[0]))
    ensures Digits(s + rest) == |s|
    decreases |s|
  {
    if s == "" {
      assert s + rest == rest;
    } else {
      DigitsOf(s[1..], rest);
      assert (s + rest)[1..] == s[1..] + rest;
    }
  }

  /** What can follow a value in written text. */
  predicate Ends(rest: string) {
    rest == "" || rest[0] == ',' || rest[0] == ']' || rest[0] == '}'
  }

  lemma Dropped(t: string, i: nat, j: nat)
    requires i + j <= |t|
    ensures t[i..][j..] == t[i + j..]
    ensures i + j < |t| ==> t[i..][j] == t[i + j]
  {
  }

  lemma NoSpaceAtBracket(bracket: char, rest: string)
    requires !IsSpace(bracket)
    ensures SkipSpace([bracket] + rest) == [bracket] + rest && ([bracket] + rest)[1..] == rest
  {
  }
}
