/** The DOM parser (src/cli/json_dom.cpp), and the documents it reads back from written text. Numbers stay
    literals: `strtod` is stood for by the decimal subject sequence of the C standard. */
module JsonDom {
  import opened Decimal
  import opened Utf8
  import opened JsonScan
  import opened Wrappers
  import T = JsonText

  const MAX_DEPTH: nat := 128

  datatype Value =
    | Null | Boolean(boolean: bool) | Number(literal: string) | String(text: string)
    | Array(array: seq<Value>) | Object(keys: seq<string>, values: seq<Value>)

  // ---- strings ----

  function HexValue(c: char): (v: int)
    ensures -1 <= v < 16
  {
    if '0' <= c <= '9' then c as int - '0' as int
    else if 'a' <= c <= 'f' then c as int - 'a' as int + 10
    else if 'A' <= c <= 'F' then c as int - 'A' as int + 10
    else -1
  }

  /** `hex4`. */
  function Hex4(t: string): (r: Parsed<nat>)
    ensures r.Got? ==> r.value < 0x10000 && |t| >= 4 && r.rest == t[4..]
  {
    if |t| >= 4 && HexValue(t[0]) >= 0 && HexValue(t[1]) >= 0 && HexValue(t[2]) >= 0 && HexValue(t[3]) >= 0
    then Got(((HexValue(t[0]) * 16 + HexValue(t[1])) * 16 + HexValue(t[2])) * 16 + HexValue(t[3]), t[4..])
    else Fail
  }

  /** `put_utf8`. */
  function PutUtf8(cp: nat): string
    requires cp < 0x110000
  {
    if cp < 0x80 then [cp as char]
    else if cp < 0x800 then [(0xC0 + cp / 64) as char, (0x80 + cp % 64) as char]
    else if cp < 0x10000 then [(0xE0 + cp / 4096) as char, (0x80 + cp / 64 % 64) as char, (0x80 + cp % 64) as char]
    else [(0xF0 + cp / 262144) as char, (0x80 + cp / 4096 % 64) as char, (0x80 + cp / 64 % 64) as char,
          (0x80 + cp % 64) as char]
  }

  /** The code point of a `\u` escape: a high surrogate followed by another escape must be a pair. */
  function CodePoint(t: string): (r: Parsed<nat>)
    ensures r.Got? ==> r.value < 0x110000 && |r.rest| < |t|
  {
    match Hex4(t)
    case Fail => Fail
    case Got(hi, u) =>
      if 0xD800 <= hi <= 0xDBFF && |u| >= 2 && u[0] == '\\' && u[1] == 'u' then
        match Hex4(u[2..])
        case Fail => Fail
        case Got(lo, v) =>
          if 0xDC00 <= lo <= 0xDFFF then Got(0x10000 + (hi - 0xD800) * 1024 + (lo - 0xDC00), v) else Fail
      else Got(hi, u)
  }

  function Prepend(s: string, r: Parsed<string>): Parsed<string> {
    if r.Fail? then Fail else Got(s + r.value, r.rest)
  }

  /** What a two-character escape stands for, "" if there is none. */
  function Unescaped(e: char): string {
    if e == '\"' then "\"" else if e == '\\' then "\\" else if e == '/' then "/"
    else if e == 'b' then [8 as char] else if e == 'f' then [12 as char]
    else if e == 'n' then "\n" else if e == 'r' then "\r" else if e == 't' then "\t" else ""
  }

  /** The next piece of a string: its closing quote, or some text. */
  datatype Piece = End(rest: string) | More(text: string, rest: string) | Bad

  function StringPiece(t: string): (p: Piece)
    ensures !p.Bad? ==> |p.rest| < |t|
  {
    if t == "" then Bad
    else if t[0] == '\"' then End(t[1..])
    else if t[0] as int < 0x20 then Bad
    else if t[0] != '\\' then More([t[0]], t[1..])
    else if |t| < 2 then Bad
    else if t[1] == 'u' then
      match CodePoint(t[2..])
      case Fail => Bad
      case Got(cp, rest) => More(PutUtf8(cp), rest)
    else if Unescaped(t[1]) == "" then Bad
    else More(Unescaped(t[1]), t[2..])
  }

  /** The string whose opening quote was read, up to its closing quote. */
  function StringTail(t: string): (r: Parsed<string>)
    ensures r.Got? ==> |r.rest| < |t|
    decreases |t|
  {
    match StringPiece(t)
    case Bad => Fail
    case End(rest) => Got("", rest)
    case More(text, rest) => Prepend(text, StringTail(rest))
  }

  // ---- numbers ----

  predicate IsNumberChar(c: char) {
    c == '-' || c == '+' || c == '.' || c == 'e' || c == 'E' || IsDigit(c)
  }

  function NumberSpan(t: string): (n: nat)
    ensures n <= |t|
  {
    if t != "" && IsNumberChar(t[0]) then 1 + NumberSpan(t[1..]) else 0
  }

  function SkipSign(t: string): string {
    if Peek(t, '-') || Peek(t, '+') then t[1..] else t
  }

  predicate ExponentOrEnd(t: string) {
    t == "" || ((t[0] == 'e' || t[0] == 'E') && Digits(SkipSign(t[1..])) == |SkipSign(t[1..])| > 0)
  }

  /** `strtod` consumes the whole of a run of number characters. */
  predicate StrtodTakesAll(s: string) {
    var t := SkipSign(s);
    var d := Digits(t);
    if Peek(t[d..], '.') then
      var f := Digits(t[d..][1..]);
      d + f > 0 && ExponentOrEnd(t[d..][1..][f..])
    else d > 0 && ExponentOrEnd(t[d..])
  }

  lemma SpanStep(t: string)
    ensures NumberSpan(t) == if t != "" && IsNumberChar(t[0]) then 1 + NumberSpan(t[1..]) else 0
  {
  }

  function ReadNumber(t: string): (r: Parsed<Value>)
    ensures r.Got? ==> |r.rest| < |t|
  {
    var n := NumberSpan(t);
    if n > 0 && StrtodTakesAll(t[..n]) then Got(Number(t[..n]), t[n..]) else Fail
  }

  // ---- values ----

  function ReadValue(t: string, depth: nat): (r: Parsed<Value>)
    ensures r.Got? ==> |r.rest| < |t|
    decreases |t|, 2
  {
    if depth > MAX_DEPTH || t == "" then Fail
    else if t[0] == '{' then ReadObject(t[1..], depth + 1)
    else if t[0] == '[' then ReadArray(t[1..], depth + 1)
    else if t[0] == '\"' then
      match StringTail(t[1..])
      case Fail => Fail
      case Got(s, rest) => Got(String(s), rest)
    else if StartsWith(t, "true") then Got(Boolean(true), t[4..])
    else if StartsWith(t, "false") then Got(Boolean(false), t[5..])
    else if StartsWith(t, "null") then Got(Null, t[4..])
    else ReadNumber(t)
  }

  function ReadObject(t: string, depth: nat): (r: Parsed<Value>)
    ensures r.Got? ==> |r.rest| < |t|
    decreases |t|, 3
  {
    var u := SkipSpace(t);
    if Peek(u, '}') then Got(Object([], []), u[1..]) else ReadMembers(u, [], [], depth)
  }

  /** A key and its colon, up to the value. */
  function ReadKey(t: string): (r: Parsed<string>)
    ensures r.Got? ==> |r.rest| < |t|
  {
    var a := SkipSpace(t);
    if !Peek(a, '\"') then Fail
    else
      match StringTail(a[1..])
      case Fail => Fail
      case Got(key, rest) =>
        var b := SkipSpace(rest);
        if Peek(b, ':') then Got(key, SkipSpace(b[1..])) else Fail
  }

  /** The members still to be read of an object whose `keys` and `values` were read. */
  function ReadMembers(t: string, keys: seq<string>, values: seq<Value>, depth: nat): (r: Parsed<Value>)
    ensures r.Got? ==> |r.rest| < |t|
    decreases |t|, 1
  {
    match ReadKey(t)
    case Fail => Fail
    case Got(key, rest) =>
      match ReadValue(rest, depth)
      case Fail => Fail
      case Got(v, more) =>
        match AfterElement(more, '}')
        case Comma(next) => ReadMembers(next, keys + [key], values + [v], depth)
        case Closing(end) => Got(Object(keys + [key], values + [v]), end)
        case Neither => Fail
  }

  function ReadArray(t: string, depth: nat): (r: Parsed<Value>)
    ensures r.Got? ==> |r.rest| < |t|
    decreases |t|, 4
  {
    var u := SkipSpace(t);
    if Peek(u, ']') then Got(Array([]), u[1..]) else ReadItems(u, [], depth)
  }

  function ReadItems(t: string, items: seq<Value>, depth: nat): (r: Parsed<Value>)
    ensures r.Got? ==> |r.rest| < |t|
    decreases |t|, 3
  {
    match ReadValue(SkipSpace(t), depth)
    case Fail => Fail
    case Got(v, rest) =>
      match AfterElement(rest, ']')
      case Comma(next) => ReadItems(next, items + [v], depth)
      case Closing(end) => Got(Array(items + [v]), end)
      case Neither => Fail
  }

  /** `parse`: one value and nothing but white space around it. */
  function Parse(t: string): Option<Value> {
    match ReadValue(SkipSpace(t), 0)
    case Fail => None
    case Got(v, rest) => if SkipSpace(rest) == "" then Some(v) else None
  }

  // ---- the parser object ----

  /** A method that answers `ok` did what the function `r` says, and left `rest` unread. */
  ghost predicate Agrees<U>(r: Parsed<U>, ok: bool, v: U, rest: string) {
    r == if ok then Got(v, rest) else Fail
  }

  class Parser {
    const t: string
    var pos: nat

    ghost predicate Valid()
      reads this
    {
      pos <= |t|
    }

    ghost function Rest(): string
      requires Valid()
      reads this
    {
      t[pos..]
    }

    constructor (text: string)
      ensures Valid() && t == text && pos == 0
    {
      t, pos := text, 0;
    }

    method Ws()
      requires Valid()
      modifies this
      ensures Valid() && Rest() == SkipSpace(old(Rest())) && pos >= old(pos)
    {
      while pos < |t| && IsSpace(t[pos])
        invariant Valid() && pos >= old(pos)
        invariant SkipSpace(Rest()) == SkipSpace(old(Rest()))
      {
        Dropped(t, pos, 1);
        pos := pos + 1;
      }
    }

    predicate PeekAt(c: char)
      requires Valid()
      reads this
      ensures PeekAt(c) == JsonScan.Peek(Rest(), c)
    {
      pos < |t| && t[pos] == c
    }

    method ParseHex4() returns (ok: bool, out: nat)
      requires Valid()
      modifies this
      ensures Valid() && pos >= old(pos) && Agrees(Hex4(old(Rest())), ok, out, Rest())
    {
      hide HexValue;
      ghost var u := Rest();
      ghost var start := pos;
      ok, out := false, 0;
      for i := 0 to 4
        invariant Valid() && pos == start + i
        invariant forall k :: 0 <= k < i ==> HexValue(u[k]) >= 0
        invariant i == 0 ==> out == 0
        invariant i == 1 ==> out == HexValue(u[0])
        invariant i == 2 ==> out == HexValue(u[0]) * 16 + HexValue(u[1])
        invariant i == 3 ==> out == (HexValue(u[0]) * 16 + HexValue(u[1])) * 16 + HexValue(u[2])
        invariant i == 4 ==>
                    out == ((HexValue(u[0]) * 16 + HexValue(u[1])) * 16 + HexValue(u[2])) * 16 + HexValue(u[3])
      {
        if pos >= |t| {
          return;
        }
        var c := t[pos];
        assert c == u[i];
        pos := pos + 1;
        if HexValue(c) < 0 {
          return;
        }
        out := out * 16 + HexValue(c);
      }
      ok := true;
      Dropped(t, start, 4);
    }

    /** The `\u` case: the pair of a high surrogate is read at once. */
    method ParseCodePoint() returns (ok: bool, cp: nat)
      requires Valid()
      modifies this
      ensures Valid() && pos >= old(pos) && Agrees(CodePoint(old(Rest())), ok, cp, Rest())
    {
      hide Hex4;
      ok, cp := ParseHex4();
      if !ok {
        return;
      }
      if cp >= 0xD800 && cp <= 0xDBFF && pos + 1 < |t| && t[pos] == '\\' && t[pos + 1] == 'u' {
        Dropped(t, pos, 2);
        pos := pos + 2;
        var good, lo := ParseHex4();
        if !good || lo < 0xDC00 || lo > 0xDFFF {
          return false, 0;
        }
        cp := 0x10000 + (cp - 0xD800) * 1024 + (lo - 0xDC00);
      }
    }

    /** One turn of the string loop. */
    method ParsePiece() returns (done: bool, ok: bool, text: string)
      requires Valid() && pos < |t|
      modifies this
      ensures Valid() && pos > old(pos)
      ensures match StringPiece(old(Rest()))
              case End(rest) => done && ok && Rest() == rest
              case More(s, rest) => !done && ok && text == s && Rest() == rest
              case Bad => !ok
    {
      hide CodePoint, PutUtf8, Unescaped;
      var c := t[pos];
      Dropped(t, pos, 1);
      if pos + 1 < |t| {
        Dropped(t, pos, 2);
      }
      pos := pos + 1;
      if c == '\"' {
        return true, true, "";
      }
      if c as int < 0x20 {
        return false, false, "";
      }
      if c != '\\' {
        return false, true, [c];
      }
      if pos >= |t| {
        return false, false, "";
      }
      var e := t[pos];
      pos := pos + 1;
      if e == 'u' {
        var good, cp := ParseCodePoint();
        if !good {
          return false, false, "";
        }
        return false, true, PutUtf8(cp);
      }
      return false, Unescaped(e) != "", Unescaped(e);
    }

    method ParseString() returns (ok: bool, out: string)
      requires Valid() && PeekAt('\"')
      modifies this
      ensures Valid() && pos > old(pos) && Agrees(StringTail(old(Rest())[1..]), ok, out, Rest())
    {
      hide StringPiece;
      Dropped(t, pos, 1);
      pos := pos + 1;
      ghost var whole := StringTail(Rest());
      out := "";
      PrependNothing(whole);
      while pos < |t|
        invariant Valid() && pos > old(pos)
        invariant whole == Prepend(out, StringTail(Rest()))
        decreases |t| - pos
      {
        ghost var was := out;
        var done, good, text := ParsePiece();
        if !good {
          return false, out;
        }
        if done {
          assert was + "" == was;
          return true, out;
        }
        PrependTwice(was, text, StringTail(Rest()));
        out := out + text;
      }
      assert StringPiece("") == Bad by { NoPiece(); }
      ok := false;
    }

    method ParseNumber() returns (ok: bool, v: Value)
      requires Valid()
      modifies this
      ensures Valid() && pos >= old(pos) && (ok ==> pos > old(pos)) && Agrees(ReadNumber(old(Rest())), ok, v, Rest())
    {
      hide StrtodTakesAll, NumberSpan, IsNumberChar;
      var start := pos;
      while pos < |t| && IsNumberChar(t[pos])
        invariant start <= pos <= |t|
        invariant NumberSpan(t[start..]) == pos - start + NumberSpan(Rest())
      {
        Dropped(t, pos, 1);
        SpanStep(Rest());
        pos := pos + 1;
      }
      SpanStep(Rest());
      ok, v := false, Null;
      if pos == start {
        return;
      }
      var literal := t[start..pos];
      assert t[start..][..pos - start] == literal;
      Dropped(t, start, pos - start);
      if StrtodTakesAll(literal) {
        ok, v := true, Number(literal);
      }
    }

    method Literal(word: string) returns (ok: bool)
      requires Valid()
      modifies this
      ensures Valid() && ok == StartsWith(old(Rest()), word)
      ensures if ok then Rest() == old(Rest())[|word|..] && pos == old(pos) + |word| else pos == old(pos)
    {
      ok := |t| - pos >= |word| && t[pos..pos + |word|] == word;
      assert ok ==> t[pos..][..|word|] == word;
      if ok {
        Dropped(t, pos, |word|);
        pos := pos + |word|;
      }
    }

    method ParseValue(depth: nat) returns (ok: bool, v: Value)
      requires Valid()
      modifies this
      ensures Valid() && (ok ==> pos > old(pos)) && Agrees(ReadValue(old(Rest()), depth), ok, v, Rest())
      decreases |t| - pos, 2
    {
      hide StringTail, ReadNumber, ReadArray, ReadObject;
      ok, v := false, Null;
      if depth > MAX_DEPTH || pos >= |t| {
        return;
      }
      var c := t[pos];
      if c == '{' {
        ok, v := ParseObject(depth + 1);
        return;
      }
      if c == '[' {
        ok, v := ParseArray(depth + 1);
        return;
      }
      if c == '\"' {
        var good, s := ParseString();
        if good {
          return true, String(s);
        }
        return;
      }
      ok := Literal("true");
      if ok {
        return true, Boolean(true);
      }
      ok := Literal("false");
      if ok {
        return true, Boolean(false);
      }
      ok := Literal("null");
      if ok {
        return true, Null;
      }
      ok, v := ParseNumber();
    }

    method ParseKey() returns (ok: bool, key: string)
      requires Valid()
      modifies this
      ensures Valid() && pos >= old(pos) && (ok ==> pos > old(pos)) && Agrees(ReadKey(old(Rest())), ok, key, Rest())
    {
      hide StringTail, SkipSpace;
      ok, key := false, "";
      Ws();
      if !PeekAt('\"') {
        return;
      }
      var good, k := ParseString();
      if !good {
        return;
      }
      Ws();
      if !PeekAt(':') {
        return;
      }
      Dropped(t, pos, 1);
      pos := pos + 1;
      Ws();
      return true, k;
    }

    /** The comma or the bracket after an element. */
    method ParseDelimiter(close: char) returns (comma: bool, closed: bool)
      requires Valid()
      modifies this
      ensures Valid() && pos >= old(pos) && (comma || closed ==> pos > old(pos)) && !(comma && closed)
      ensures AfterElement(old(Rest()), close) ==
              if comma then Comma(Rest()) else if closed then Closing(Rest()) else Neither
    {
      hide SkipSpace;
      comma, closed := false, false;
      Ws();
      if PeekAt(',') {
        Dropped(t, pos, 1);
        pos := pos + 1;
        comma := true;
      } else if PeekAt(close) {
        Dropped(t, pos, 1);
        pos := pos + 1;
        closed := true;
      }
    }

    method ParseObject(depth: nat) returns (ok: bool, v: Value)
      requires Valid() && PeekAt('{')
      modifies this
      ensures Valid() && (ok ==> pos > old(pos)) && Agrees(ReadObject(old(Rest())[1..], depth), ok, v, Rest())
      decreases |t| - pos, 1
    {
      hide ReadKey, ReadValue, ReadMembers, AfterElement, SkipSpace;
      ok, v := false, Null;
      Dropped(t, pos, 1);
      pos := pos + 1;
      Ws();
      if PeekAt('}') {
        Dropped(t, pos, 1);
        pos := pos + 1;
        return true, Object([], []);
      }
      ok, v := ParseMembers(depth);
    }

    method ParseMembers(depth: nat) returns (ok: bool, v: Value)
      requires Valid()
      modifies this
      ensures Valid() && (ok ==> pos > old(pos)) && Agrees(ReadMembers(old(Rest()), [], [], depth), ok, v, Rest())
      decreases |t| - pos, 3
    {
      hide ReadKey, ReadValue, AfterElement;
      ok, v := false, Null;
      var keys: seq<string>, values: seq<Value> := [], [];
      while true
        invariant Valid() && pos >= old(pos)
        invariant ReadMembers(old(Rest()), [], [], depth) == ReadMembers(Rest(), keys, values, depth)
        decreases |t| - pos
      {
        var good, key := ParseKey();
        if !good {
          return;
        }
        var fine, m := ParseValue(depth);
        if !fine {
          return;
        }
        keys, values := keys + [key], values + [m];
        var comma, closed := ParseDelimiter('}');
        if closed {
          return true, Object(keys, values);
        }
        if !comma {
          return;
        }
      }
    }

    method ParseArray(depth: nat) returns (ok: bool, v: Value)
      requires Valid() && PeekAt('[')
      modifies this
      ensures Valid() && (ok ==> pos > old(pos)) && Agrees(ReadArray(old(Rest())[1..], depth), ok, v, Rest())
      decreases |t| - pos, 1
    {
      hide ReadValue, ReadItems, SkipSpace;
      ok, v := false, Null;
      Dropped(t, pos, 1);
      pos := pos + 1;
      Ws();
      if PeekAt(']') {
        Dropped(t, pos, 1);
        pos := pos + 1;
        return true, Array([]);
      }
      ok, v := ParseItems(depth);
    }

    method ParseItems(depth: nat) returns (ok: bool, v: Value)
      requires Valid()
      modifies this
      ensures Valid() && (ok ==> pos > old(pos)) && Agrees(ReadItems(old(Rest()), [], depth), ok, v, Rest())
      decreases |t| - pos, 3
    {
      hide ReadValue, AfterElement, SkipSpace;
      ok, v := false, Null;
      var items: seq<Value> := [];
      while true
        invariant Valid() && pos >= old(pos)
        invariant ReadItems(old(Rest()), [], depth) == ReadItems(Rest(), items, depth)
        decreases |t| - pos
      {
        Ws();
        var fine, m := ParseValue(depth);
        if !fine {
          return;
        }
        items := items + [m];
        var comma, closed := ParseDelimiter(']');
        if closed {
          return true, Array(items);
        }
        if !comma {
          return;
        }
      }
    }

    /** `parse`. */
    method Run() returns (r: Option<Value>)
      requires pos == 0
      modifies this
      ensures r == Parse(t)
    {
      hide ReadValue, SkipSpace;
      assert t[0..] == t;
      Ws();
      var ok, v := ParseValue(0);
      if !ok {
        return None;
      }
      Ws();
      if pos != |t| {
        return None;
      }
      return Some(v);
    }
  }

  lemma NoPiece()
    ensures StringPiece("") == Bad
  {
  }

  // ---- strings read back ----

  predicate Plain(u: string) {
    forall i :: 0 <= i < |u| ==> u[i] as int >= 0x20 && u[i] != '\"' && u[i] != '\\'
  }

  lemma {:induction false} PlainRun(u: string, more: string)
    requires Plain(u)
    ensures StringTail(u + more) == Prepend(u, StringTail(more))
    decreases |u|
  {
    if u == "" {
      assert u + more == more;
      PrependNothing(StringTail(more));
    } else {
      PlainRun(u[1..], more);
      assert (u + more)[1..] == u[1..] + more;
      assert StringTail(u + more) == Prepend([u[0]], StringTail(u[1..] + more));
      PrependTwice([u[0]], u[1..], StringTail(more));
      assert [u[0]] + u[1..] == u;
    }
  }

  lemma PrependTwice(a: string, b: string, r: Parsed<string>)
    ensures Prepend(a, Prepend(b, r)) == Prepend(a + b, r)
  {
    if r.Got? {
      assert a + (b + r.value) == a + b + r.value;
    }
  }

  lemma PrependNothing(r: Parsed<string>)
    ensures Prepend("", r) == r
  {
    if r.Got? {
      assert "" + r.value == r.value;
    }
  }

  lemma HexRoundTrip(d: nat)
    requires d < 16
    ensures HexValue(T.HexDigit(d)) == d
  {
  }

  lemma UnicodeEscape(h: string, more: string)
    requires |h| == 4 && Hex4(h).Got? && !(0xD800 <= Hex4(h).value <= 0xDBFF)
    ensures StringTail("\\u" + h + more) == Prepend(PutUtf8(Hex4(h).value), StringTail(more))
  {
    var t := "\\u" + h + more;
    assert t[2..] == h + more;
    assert (h + more)[4..] == more;
    assert CodePoint(h + more) == Got(Hex4(h).value, more);
  }

  lemma ShortEscape(e: char, more: string)
    requires e != 'u' && Unescaped(e) != ""
    ensures StringTail(['\\', e] + more) == Prepend(Unescaped(e), StringTail(more))
  {
    assert (['\\', e] + more)[2..] == more;
  }

  /** The control characters that have no short escape. */
  lemma ControlEscape(c: char, more: string)
    requires c as int < 0x20
    ensures StringTail("\\u00" + [T.HexDigit(c as int / 16), T.HexDigit(c as int % 16)] + more) ==
            Prepend([c], StringTail(more))
  {
    hide StringTail, T.HexDigit;
    var h := "00" + [T.HexDigit(c as int / 16), T.HexDigit(c as int % 16)];
    HexRoundTrip(c as int / 16);
    HexRoundTrip(c as int % 16);
    assert HexValue('0') == 0;
    assert Hex4(h) == Got(c as nat, "");
    UnicodeEscape(h, more);
    assert "\\u" + h + more == "\\u00" + [T.HexDigit(c as int / 16), T.HexDigit(c as int % 16)] + more;
  }

  lemma ReplacementEscape(more: string)
    ensures StringTail("\\ufffd" + more) == Prepend(T.REPLACEMENT, StringTail(more))
  {
    hide StringTail;
    assert HexValue('f') == 15 && HexValue('d') == 13;
    assert Hex4("fffd") == Got(0xFFFD, "");
    UnicodeEscape("fffd", more);
    assert "\\u" + "fffd" + more == "\\ufffd" + more;
  }

  lemma EscapedReadsBack(c: char, more: string)
    requires T.Escaped(c) != ""
    ensures StringTail(T.Escaped(c) + more) == Prepend([c], StringTail(more))
  {
    hide StringTail, T.HexDigit, Prepend;
    if c == '\"' { ShortEscape('\"', more); }
    else if c == '\\' { ShortEscape('\\', more); }
    else if c == '\n' { ShortEscape('n', more); }
    else if c == '\r' { ShortEscape('r', more); }
    else if c == '\t' { ShortEscape('t', more); }
    else if c as int == 8 { ShortEscape('b', more); }
    else if c as int == 12 { ShortEscape('f', more); }
    else { ControlEscape(c, more); }
  }

  /** A copied sequence has no quote, backslash or control character in it. */
  lemma CopiedIsPlain(u: string)
    requires Utf8Char(u) && T.Escaped(u[0]) == ""
    ensures Plain(u)
  {
    T.EscapedLong(u[0]);
  }

  lemma ChunkReadsBack(s: string, more: string)
    requires s != ""
    ensures StringTail(T.Chunk(s) + more) == Prepend(T.SaneChunk(s), StringTail(more))
  {
    hide StringTail, Prepend, SequenceLength, Utf8Char, Plain, T.Escaped;
    if T.Escaped(s[0]) != "" {
      EscapedReadsBack(s[0], more);
      T.EscapedLong(s[0]);
      OneByte(s[..1]);
      SequenceLengthUnique(s, 1);
      assert s[..1] == [s[0]];
    } else if SequenceLength(s) == 0 {
      ReplacementEscape(more);
    } else {
      CopiedIsPlain(s[..SequenceLength(s)]);
      PlainRun(s[..SequenceLength(s)], more);
    }
  }

  /** String round trip: what `json_escape_into` wrote is read back as the sanitised string. */
  lemma {:induction false} EscapeReadsBack(s: string, rest: string)
    ensures StringTail(T.Escape(s) + "\"" + rest) == Got(T.Sanitised(s), rest)
    decreases |s|
  {
    hide StringTail, T.Chunk, T.SaneChunk;
    if s == "" {
      QuoteEnds(rest);
      assert "" + "\"" + rest == "\"" + rest;
    } else {
      var tail := s[T.Width(s)..];
      EscapeReadsBack(tail, rest);
      ChunkReadsBack(s, T.Escape(tail) + "\"" + rest);
      assert T.Escape(s) + "\"" + rest == T.Chunk(s) + (T.Escape(tail) + "\"" + rest);
    }
  }

  lemma QuoteEnds(rest: string)
    ensures StringTail("\"" + rest) == Got("", rest)
  {
    assert ("\"" + rest)[1..] == rest;
  }

  lemma QuoteReadsBack(s: string, rest: string)
    ensures T.Quote(s) + rest != "" && (T.Quote(s) + rest)[0] == '\"'
    ensures StringTail((T.Quote(s) + rest)[1..]) == Got(T.Sanitised(s), rest)
  {
    hide StringTail, T.Escape;
    EscapeReadsBack(s, rest);
    assert (T.Quote(s) + rest)[1..] == T.Escape(s) + "\"" + rest;
  }

  // ---- numbers read back ----

  lemma {:induction false} NumberSpanOf(s: string, rest: string)
    requires (forall i :: 0 <= i < |s| ==> IsNumberChar(s[i])) && (rest == "" || !IsNumberChar(rest[0]))
    ensures NumberSpan(s + rest) == |s|
    decreases |s|
  {
    if s == "" {
      assert s + rest == rest;
    } else {
      NumberSpanOf(s[1..], rest);
      assert (s + rest)[1..] == s[1..] + rest;
    }
  }

  lemma NumberReadsBack(n: int, rest: string)
    requires Ends(rest)
    ensures ReadNumber(T.NumberText(n) + rest) == Got(Number(T.NumberText(n)), rest)
  {
    hide NumberSpan, Digits, ToDecimal;
    var s := T.NumberText(n);
    NumberSpanOf(s, rest);
    assert (s + rest)[..|s|] == s && (s + rest)[|s|..] == rest;
    var m: nat := if n < 0 then -n else n;
    var digits := ToDecimal(m);
    assert SkipSign(s) == digits by { assert IsDigit(digits[0]); }
    assert digits + "" == digits;
    DigitsOf(digits, "");
    assert digits[|digits|..] == "";
  }

  // ---- documents read back ----

  /** The tree a document is read back as: the same shape, its strings and keys sanitised. */
  function ReadBack(d: T.Doc): Value {
    match d
    case Null => Null
    case Flag(b) => Boolean(b)
    case Number(n) => Number(T.NumberText(n))
    case Text(s) => String(T.Sanitised(s))
    case Array(items) => Array(ReadBackAll(items))
    case Object(members) => Object(KeysOf(members), ValuesOf(members))
  }

  /** Values that hold no other values. */
  lemma ScalarReadsBack(d: T.Doc, rest: string, depth: nat)
    requires Ends(rest) && !d.Array? && !d.Object?
    ensures ReadValue(T.Render(d) + rest, depth) == if depth <= MAX_DEPTH then Got(ReadBack(d), rest) else Fail
  {
    hide StringTail, ReadNumber, ToDecimal, T.Escape, T.Sanitised, ReadObject, ReadArray;
    var t := T.Render(d) + rest;
    if depth <= MAX_DEPTH {
      match d
      case Null =>
        assert t[..4] == "null" && t[4..] == rest;
      case Flag(b) =>
        if b { assert t[..4] == "true" && t[4..] == rest; } else { assert t[..5] == "false" && t[5..] == rest; }
      case Text(s) => QuoteReadsBack(s, rest);
      case Number(n) =>
        NumberReadsBack(n, rest);
        assert n >= 0 ==> IsDigit(ToDecimal(n)[0]);
    }
  }

  function ReadBackAll(items: seq<T.Doc>): seq<Value> {
    seq(|items|, i requires 0 <= i < |items| => ReadBack(items[i]))
  }

  function KeysOf(members: seq<T.Member>): seq<string> {
    seq(|members|, i requires 0 <= i < |members| => T.Sanitised(members[i].key))
  }

  function ValuesOf(members: seq<T.Member>): seq<Value> {
    seq(|members|, i requires 0 <= i < |members| => ReadBack(members[i].value))
  }

  /** Document round trip at any depth: a document is read back exactly when it is nested deep enough to
      fit, and what follows it is left alone. */
  lemma {:induction false} ValueReadsBack(d: T.Doc, rest: string, depth: nat)
    requires Ends(rest)
    ensures ReadValue(T.Render(d) + rest, depth) ==
            if depth + T.Depth(d) <= MAX_DEPTH then Got(ReadBack(d), rest) else Fail
    decreases d, 1
  {
    hide StringTail, ReadNumber, ToDecimal, T.Escape, T.Sanitised, SkipSpace, ReadMembers, ReadItems;
    hide T.RenderItems, T.RenderMembers, T.ItemsDepth, T.MembersDepth;
    if depth > MAX_DEPTH {
      T.StartsAValue(d, rest);
    } else if d.Array? {
      ArrayReadsBack(d, rest, depth);
    } else if d.Object? {
      ObjectReadsBack(d, rest, depth);
    } else {
      ScalarReadsBack(d, rest, depth);
    }
  }

  lemma {:induction false} ArrayReadsBack(d: T.Doc, rest: string, depth: nat)
    requires Ends(rest) && d.Array? && depth <= MAX_DEPTH
    ensures ReadValue(T.Render(d) + rest, depth) ==
            if depth + T.Depth(d) <= MAX_DEPTH then Got(ReadBack(d), rest) else Fail
    decreases d, 0
  {
    hide StringTail, ReadNumber, ToDecimal, T.Escape, T.Sanitised, SkipSpace, ReadItems, T.RenderItems, T.Render;
    var items := d.items;
    var body := T.RenderItems(items) + ("]" + rest);
    assert T.Render(d) + rest == "[" + body by { T.ArrayText(items, rest); }
    assert ReadValue("[" + body, depth) == ReadArray(body, depth + 1) by { ReadsArray(body, depth); }
    if items == [] {
      assert body == "]" + rest by { T.NothingToRender(); }
      NoSpaceAtBracket(']', rest);
      assert ReadBack(d) == Array([]);
    } else {
      T.FirstItemText(items, "]" + rest);
      assert !Peek(body, ']') && SkipSpace(body) == body
        by { T.StartsAValue(items[0], T.RenderMore(items[1..]) + ("]" + rest)); }
      ItemsReadBack(items, [], rest, depth + 1);
      assert [] + ReadBackAll(items) == ReadBackAll(items);
      assert ReadBack(d) == Array(ReadBackAll(items));
    }
  }

  lemma ReadsArray(body: string, depth: nat)
    requires depth <= MAX_DEPTH
    ensures ReadValue("[" + body, depth) == ReadArray(body, depth + 1)
  {
    hide ReadArray, ReadObject, StringTail, ReadNumber;
    assert ("[" + body)[1..] == body;
  }

  lemma {:induction false} ItemsReadBack(items: seq<T.Doc>, before: seq<Value>, rest: string, depth: nat)
    requires items != [] && Ends(rest)
    ensures ReadItems(T.RenderItems(items) + ("]" + rest), before, depth) ==
            if depth - 1 + T.ItemsDepth(items) <= MAX_DEPTH then Got(Array(before + ReadBackAll(items)), rest) else Fail
    decreases items, 0
  {
    hide ReadValue, T.Render, T.RenderItems, T.RenderMore, SkipSpace, ReadBack, T.Depth;
    var after := T.RenderMore(items[1..]) + ("]" + rest);
    T.FirstItemText(items, "]" + rest);
    T.StartsAValue(items[0], after);
    assert Ends(after) && SkipSpace(after) == after by { T.AfterItem(items[1..], rest); }
    ValueReadsBack(items[0], after, depth);
    var more := before + [ReadBack(items[0])];
    assert T.ItemsDepth(items) == Max(1 + T.Depth(items[0]), T.ItemsDepth(items[1..]));
    if |items| == 1 {
      assert T.ItemsDepth(items[1..]) == 0;
      assert after == "]" + rest by { T.NothingToRender(); }
      assert ("]" + rest)[1..] == rest;
      assert before + ReadBackAll(items) == more;
    } else {
      assert after[0] == ',' && after[1..] == T.RenderItems(items[1..]) + ("]" + rest)
        by { T.NextItem(items[1..], "]" + rest); }
      ItemsReadBack(items[1..], more, rest, depth);
      assert before + ReadBackAll(items) == more + ReadBackAll(items[1..]);
    }
  }

  lemma {:induction false} ObjectReadsBack(d: T.Doc, rest: string, depth: nat)
    requires Ends(rest) && d.Object? && depth <= MAX_DEPTH
    ensures ReadValue(T.Render(d) + rest, depth) ==
            if depth + T.Depth(d) <= MAX_DEPTH then Got(ReadBack(d), rest) else Fail
    decreases d, 0
  {
    hide StringTail, ReadNumber, ToDecimal, T.Quote, T.Sanitised, SkipSpace, ReadMembers, T.RenderMembers, T.Render;
    var members := d.members;
    var body := T.RenderMembers(members) + ("}" + rest);
    assert T.Render(d) + rest == "{" + body by { T.ObjectText(members, rest); }
    assert ReadValue("{" + body, depth) == ReadObject(body, depth + 1) by { ReadsObject(body, depth); }
    if members == [] {
      assert body == "}" + rest by { T.NothingToRender(); }
      NoSpaceAtBracket('}', rest);
      assert ReadBack(d) == Object([], []);
    } else {
      T.FirstMemberText(members, "}" + rest);
      QuoteFirst(members[0].key,
                 ":" + (T.Render(members[0].value) + (T.RenderMoreMembers(members[1..]) + ("}" + rest))));
      assert !Peek(body, '}') && SkipSpace(body) == body;
      MembersReadBack(members, [], [], rest, depth + 1);
      assert [] + KeysOf(members) == KeysOf(members) && [] + ValuesOf(members) == ValuesOf(members);
      assert ReadBack(d) == Object(KeysOf(members), ValuesOf(members));
    }
  }

  lemma ReadsObject(body: string, depth: nat)
    requires depth <= MAX_DEPTH
    ensures ReadValue("{" + body, depth) == ReadObject(body, depth + 1)
  {
    hide ReadArray, ReadObject, StringTail, ReadNumber;
    assert ("{" + body)[1..] == body;
  }

  lemma QuoteFirst(s: string, rest: string)
    ensures T.Quote(s) + rest != "" && (T.Quote(s) + rest)[0] == '\"'
    ensures SkipSpace(T.Quote(s) + rest) == T.Quote(s) + rest
  {
    hide T.Escape;
  }

  lemma {:induction false} MembersReadBack(members: seq<T.Member>, keys: seq<string>, values: seq<Value>, rest: string,
                                           depth: nat)
    requires members != [] && Ends(rest)
    ensures ReadMembers(T.RenderMembers(members) + ("}" + rest), keys, values, depth) ==
            if depth - 1 + T.MembersDepth(members) <= MAX_DEPTH
            then Got(Object(keys + KeysOf(members), values + ValuesOf(members)), rest) else Fail
    decreases members, 0
  {
    hide StringTail, ReadValue, T.Render, T.RenderMembers, T.RenderMoreMembers, T.Quote, SkipSpace, ReadBack, T.Depth;
    hide T.Sanitised;
    var m := members[0];
    var after := T.RenderMoreMembers(members[1..]) + ("}" + rest);
    var value := T.Render(m.value) + after;
    T.FirstMemberText(members, "}" + rest);
    QuoteFirst(m.key, ":" + value);
    QuoteReadsBack(m.key, ":" + value);
    NoSpaceAtBracket(':', value);
    T.StartsAValue(m.value, after);
    assert Ends(after) && SkipSpace(after) == after by { T.AfterMember(members[1..], rest); }
    ValueReadsBack(m.value, after, depth);
    var moreKeys, moreValues := keys + [T.Sanitised(m.key)], values + [ReadBack(m.value)];
    assert T.MembersDepth(members) == Max(1 + T.Depth(m.value), T.MembersDepth(members[1..]));
    if |members| == 1 {
      assert T.MembersDepth(members[1..]) == 0;
      assert after == "}" + rest by { T.NothingToRender(); }
      assert ("}" + rest)[1..] == rest;
      assert keys + KeysOf(members) == moreKeys && values + ValuesOf(members) == moreValues;
    } else {
      assert after[0] == ',' && after[1..] == T.RenderMembers(members[1..]) + ("}" + rest) by {
        T.NextMember(members[1..], "}" + rest);
      }
      MembersReadBack(members[1..], moreKeys, moreValues, rest, depth);
      assert keys + KeysOf(members) == moreKeys + KeysOf(members[1..]);
      assert values + ValuesOf(members) == moreValues + ValuesOf(members[1..]);
    }
  }

  /** Document round trip: for every well-nested sequence of writer calls, the DOM parser returns the tree
      of the document, with the same literals and with sanitised keys and strings, exactly when nesting
      does not go beyond its limit. */
  lemma WrittenDocumentReadsBack(ops: seq<T.Op>)
    requires T.TakeAll(ops).Complete?
    ensures var d := T.TakeAll(ops).doc;
            Parse(T.WriteAll(ops).out) == if T.Depth(d) <= MAX_DEPTH then Some(ReadBack(d)) else None
  {
    hide ReadValue, T.TakeAll, T.WriteAll, T.Render;
    var d := T.TakeAll(ops).doc;
    T.WriterRenders(ops);
    T.StartsAValue(d, "");
    ValueReadsBack(d, "", 0);
    assert T.Render(d) + "" == T.Render(d);
  }

  /** String round trip through whole texts: `json_quote(s)` parses to the sanitised string, so to `s`
      itself exactly when `s` is valid UTF-8. */
  lemma QuotedStringParses(s: string)
    ensures Parse(T.Quote(s)) == Some(String(T.Sanitised(s)))
    ensures Parse(T.Quote(s)) == Some(String(s)) <==> ValidUtf8(s)
  {
    hide ReadValue, T.Quote, ValidUtf8;
    assert T.Render(T.Text(s)) == T.Quote(s);
    T.StartsAValue(T.Text(s), "");
    ValueReadsBack(T.Text(s), "", 0);
    assert T.Quote(s) + "" == T.Quote(s);
    T.SanitisedIsIdentityIff(s);
  }
}
