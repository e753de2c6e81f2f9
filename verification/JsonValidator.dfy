/** The strict validator (src/common/json.cpp). */
module JsonValidator {
  import opened Decimal
  import opened JsonScan
  import opened Utf8
  import G = JsonGrammar

  const MAX_DEPTH: nat := 256

  /** Whether a piece of grammar was met, and the text left behind it. */
  datatype Checked = No | Yes(rest: string)

  // ---- strings ----

  /** The next piece of a string: its closing quote, or something that may stand in one. */
  datatype Piece = End(rest: string) | More(rest: string) | Bad

  function StringPiece(t: string): (p: Piece)
    ensures !p.Bad? ==> |p.rest| < |t|
  {
    if t == "" then Bad
    else if t[0] == '\"' then End(t[1..])
    else if t[0] as int < 0x20 then Bad
    else if t[0] == '\\' then
      if |t| < 2 then Bad
      else if t[1] == 'u' then
        if |t| >= 6 && G.IsHex(t[2]) && G.IsHex(t[3]) && G.IsHex(t[4]) && G.IsHex(t[5]) then More(t[6..]) else Bad
      else if G.IsEscape(t[1]) then More(t[2..]) else Bad
    else if SequenceLength(t) == 0 then Bad
    else More(t[SequenceLength(t)..])
  }

  function StringTail(t: string): (r: Checked)
    ensures r.Yes? ==> |r.rest| < |t|
    decreases |t|
  {
    match StringPiece(t)
    case Bad => No
    case End(rest) => Yes(rest)
    case More(rest) => StringTail(rest)
  }

  // ---- numbers ----

  function IntegerPart(t: string): (r: Checked)
    ensures r.Yes? ==> |r.rest| < |t|
  {
    var a := if Peek(t, '-') then t[1..] else t;
    if Peek(a, '0') then Yes(a[1..]) else if Digits(a) > 0 then Yes(a[Digits(a)..]) else No
  }

  function FractionPart(t: string): (r: Checked)
    ensures r.Yes? ==> |r.rest| <= |t|
  {
    if !Peek(t, '.') then Yes(t) else if Digits(t[1..]) > 0 then Yes(t[1..][Digits(t[1..])..]) else No
  }

  function ExponentPart(t: string): (r: Checked)
    ensures r.Yes? ==> |r.rest| <= |t|
  {
    if !(Peek(t, 'e') || Peek(t, 'E')) then Yes(t)
    else
      var a := if Peek(t[1..], '+') || Peek(t[1..], '-') then t[1..][1..] else t[1..];
      if Digits(a) > 0 then Yes(a[Digits(a)..]) else No
  }

  /** `number`: section 6 of RFC 8259. */
  function CheckNumber(t: string): (r: Checked)
    ensures r.Yes? ==> |r.rest| < |t|
  {
    match IntegerPart(t)
    case No => No
    case Yes(a) => match FractionPart(a)
      case No => No
      case Yes(b) => ExponentPart(b)
  }

  // ---- values ----

  function CheckWord(t: string, word: string): (r: Checked)
    requires word != ""
    ensures r.Yes? ==> |r.rest| < |t|
  {
    if StartsWith(t, word) then Yes(t[|word|..]) else No
  }

  function CheckValue(t: string, depth: nat): (r: Checked)
    ensures r.Yes? ==> |r.rest| < |t|
    decreases |t|, 2
  {
    if depth > MAX_DEPTH || t == "" then No
    else if t[0] == '{' then CheckObject(t[1..], depth + 1)
    else if t[0] == '[' then CheckArray(t[1..], depth + 1)
    else if t[0] == '\"' then StringTail(t[1..])
    else if t[0] == 't' then CheckWord(t, "true")
    else if t[0] == 'f' then CheckWord(t, "false")
    else if t[0] == 'n' then CheckWord(t, "null")
    else CheckNumber(t)
  }

  function CheckObject(t: string, depth: nat): (r: Checked)
    ensures r.Yes? ==> |r.rest| < |t|
    decreases |t|, 3
  {
    var u := SkipSpace(t);
    if Peek(u, '}') then Yes(u[1..]) else CheckMembers(u, depth)
  }

  /** A key and its colon, up to the value. */
  function CheckKey(t: string): (r: Checked)
    ensures r.Yes? ==> |r.rest| < |t|
  {
    var a := SkipSpace(t);
    if !Peek(a, '\"') then No
    else
      match StringTail(a[1..])
      case No => No
      case Yes(rest) =>
        var b := SkipSpace(rest);
        if Peek(b, ':') then Yes(SkipSpace(b[1..])) else No
  }

  function CheckMembers(t: string, depth: nat): (r: Checked)
    ensures r.Yes? ==> |r.rest| < |t|
    decreases |t|, 1
  {
    match CheckKey(t)
    case No => No
    case Yes(rest) =>
      match CheckValue(rest, depth)
      case No => No
      case Yes(more) =>
        match AfterElement(more, '}')
        case Comma(next) => CheckMembers(next, depth)
        case Closing(end) => Yes(end)
        case Neither => No
  }

  function CheckArray(t: string, depth: nat): (r: Checked)
    ensures r.Yes? ==> |r.rest| < |t|
    decreases |t|, 4
  {
    var u := SkipSpace(t);
    if Peek(u, ']') then Yes(u[1..]) else CheckItems(u, depth)
  }

  function CheckItems(t: string, depth: nat): (r: Checked)
    ensures r.Yes? ==> |r.rest| < |t|
    decreases |t|, 3
  {
    match CheckValue(SkipSpace(t), depth)
    case No => No
    case Yes(rest) =>
      match AfterElement(rest, ']')
      case Comma(next) => CheckItems(next, depth)
      case Closing(end) => Yes(end)
      case Neither => No
  }

  /** `json_validate`: one value and nothing but white space around it. */
  predicate Valid(t: string) {
    var r := CheckValue(SkipSpace(t), 0);
    r.Yes? && SkipSpace(r.rest) == ""
  }

  // ---- the validator object ----

  /** A method that answers `ok` did what the function `r` says, and left `rest` unread. */
  ghost predicate Agrees(r: Checked, ok: bool, rest: string) {
    r == if ok then Yes(rest) else No
  }

  class Validator {
    const t: string
    var pos: nat

    ghost predicate Within()
      reads this
    {
      pos <= |t|
    }

    ghost function Rest(): string
      requires Within()
      reads this
    {
      t[pos..]
    }

    constructor (text: string)
      ensures Within() && t == text && pos == 0
    {
      t, pos := text, 0;
    }

    method Ws()
      requires Within()
      modifies this
      ensures Within() && Rest() == SkipSpace(old(Rest())) && pos >= old(pos)
    {
      while pos < |t| && IsSpace(t[pos])
        invariant Within() && pos >= old(pos)
        invariant SkipSpace(Rest()) == SkipSpace(old(Rest()))
      {
        Dropped(t, pos, 1);
        pos := pos + 1;
      }
    }

    predicate PeekAt(c: char)
      requires Within()
      reads this
      ensures PeekAt(c) == Peek(Rest(), c)
    {
      pos < |t| && t[pos] == c
    }

    /** `++pos_` past a character that was peeked at. */
    method Advance()
      requires Within() && pos < |t|
      modifies this
      ensures Within() && pos == old(pos) + 1 && Rest() == old(Rest())[1..]
    {
      Dropped(t, pos, 1);
      pos := pos + 1;
    }

    /** `digit` until it refuses; `some` says whether it ever took one. */
    method TakeDigits() returns (some: bool)
      requires Within()
      modifies this
      ensures Within() && pos >= old(pos) && (some ==> pos > old(pos))
      ensures some == (Digits(old(Rest())) > 0) && Rest() == old(Rest())[Digits(old(Rest()))..]
    {
      ghost var start := pos;
      some := false;
      while pos < |t| && IsDigit(t[pos])
        invariant start <= pos <= |t| && some == (pos > start)
        invariant Digits(t[start..]) == pos - start + Digits(Rest())
      {
        Dropped(t, pos, 1);
        pos := pos + 1;
        some := true;
      }
      Dropped(t, start, pos - start);
    }

    method Number() returns (ok: bool)
      requires Within()
      modifies this
      ensures Within() && (ok ==> pos > old(pos)) && Agrees(CheckNumber(old(Rest())), ok, Rest())
    {
      ok := IntegerDigits();
      if !ok {
        return;
      }
      ok := Fraction();
      if !ok {
        return;
      }
      ok := Exponent();
    }

    method IntegerDigits() returns (ok: bool)
      requires Within()
      modifies this
      ensures Within() && (ok ==> pos > old(pos)) && Agrees(IntegerPart(old(Rest())), ok, Rest())
    {
      hide Digits;
      if PeekAt('-') {
        Advance();
      }
      if PeekAt('0') {
        Advance();
        return true;
      }
      ok := TakeDigits();
    }

    method Fraction() returns (ok: bool)
      requires Within()
      modifies this
      ensures Within() && (ok ==> pos >= old(pos)) && Agrees(FractionPart(old(Rest())), ok, Rest())
    {
      hide Digits;
      ok := true;
      if PeekAt('.') {
        Advance();
        ok := TakeDigits();
      }
    }

    method Exponent() returns (ok: bool)
      requires Within()
      modifies this
      ensures Within() && (ok ==> pos >= old(pos)) && Agrees(ExponentPart(old(Rest())), ok, Rest())
    {
      hide Digits;
      ok := true;
      if PeekAt('e') || PeekAt('E') {
        Advance();
        if PeekAt('+') || PeekAt('-') {
          Advance();
        }
        ok := TakeDigits();
      }
    }

    /** One turn of the string loop. */
    method PieceOfString() returns (done: bool, ok: bool)
      requires Within() && pos < |t|
      modifies this
      ensures Within() && (ok ==> pos > old(pos))
      ensures match StringPiece(old(Rest()))
              case End(rest) => done && ok && Rest() == rest
              case More(rest) => !done && ok && Rest() == rest
              case Bad => !ok
    {
      hide SequenceLength, G.IsHex;
      ghost var u := Rest();
      ghost var start := pos;
      var c := t[pos];
      if c == '\"' {
        Advance();
        return true, true;
      }
      if c as int < 0x20 {
        return false, false;
      }
      if c == '\\' {
        pos := pos + 1;
        if pos >= |t| {
          return false, false;
        }
        var e := t[pos];
        assert e == u[1];
        if e == 'u' {
          for k := 0 to 4
            invariant pos == start + 1 + k && pos < |t|
            invariant forall j :: 2 <= j < 2 + k ==> G.IsHex(u[j])
          {
            pos := pos + 1;
            if pos >= |t| || !G.IsHex(t[pos]) {
              assert pos < |t| ==> t[pos] == u[2 + k];
              return false, false;
            }
            assert t[pos] == u[2 + k];
          }
          pos := pos + 1;
          Dropped(t, start, 6);
          return false, true;
        }
        if !G.IsEscape(e) {
          return false, false;
        }
        pos := pos + 1;
        Dropped(t, start, 2);
        return false, true;
      }
      var n := SeqLen(t, pos);
      if n == 0 {
        return false, false;
      }
      Dropped(t, pos, n);
      pos := pos + n;
      return false, true;
    }

    method String() returns (ok: bool)
      requires Within() && PeekAt('\"')
      modifies this
      ensures Within() && (ok ==> pos > old(pos)) && Agrees(StringTail(old(Rest())[1..]), ok, Rest())
    {
      hide StringPiece;
      Advance();
      ghost var whole := StringTail(Rest());
      while pos < |t|
        invariant Within() && pos > old(pos)
        invariant whole == StringTail(Rest())
        decreases |t| - pos
      {
        var done, good := PieceOfString();
        if !good || done {
          return good;
        }
      }
      assert StringPiece("") == Bad by { NoPiece(); }
      ok := false;
    }

    method Literal(word: string) returns (ok: bool)
      requires Within() && word != ""
      modifies this
      ensures Within() && (ok ==> pos > old(pos)) && Agrees(CheckWord(old(Rest()), word), ok, Rest())
    {
      if |t| - pos < |word| || t[pos..pos + |word|] != word {
        assert |t| - pos >= |word| ==> t[pos..][..|word|] == t[pos..pos + |word|];
        return false;
      }
      assert t[pos..][..|word|] == word;
      Dropped(t, pos, |word|);
      pos := pos + |word|;
      return true;
    }

    method Value(depth: nat) returns (ok: bool)
      requires Within()
      modifies this
      ensures Within() && (ok ==> pos > old(pos)) && Agrees(CheckValue(old(Rest()), depth), ok, Rest())
      decreases |t| - pos, 2
    {
      hide StringTail, CheckNumber, CheckArray, CheckObject, CheckWord;
      if depth > MAX_DEPTH || pos >= |t| {
        return false;
      }
      var c := t[pos];
      if c == '{' {
        ok := Object(depth + 1);
      } else if c == '[' {
        ok := Array(depth + 1);
      } else if c == '\"' {
        ok := String();
      } else if c == 't' {
        ok := Literal("true");
      } else if c == 'f' {
        ok := Literal("false");
      } else if c == 'n' {
        ok := Literal("null");
      } else {
        ok := Number();
      }
    }

    method Key() returns (ok: bool)
      requires Within()
      modifies this
      ensures Within() && (ok ==> pos > old(pos)) && Agrees(CheckKey(old(Rest())), ok, Rest())
    {
      hide StringTail, SkipSpace;
      Ws();
      if !PeekAt('\"') {
        return false;
      }
      ok := String();
      if !ok {
        return;
      }
      Ws();
      if !PeekAt(':') {
        return false;
      }
      Advance();
      Ws();
    }

    /** The comma or the bracket after an element. */
    method ReadDelimiter(close: char) returns (comma: bool, closed: bool)
      requires Within()
      modifies this
      ensures Within() && (comma || closed ==> pos > old(pos)) && !(comma && closed)
      ensures AfterElement(old(Rest()), close) ==
              if comma then Comma(Rest()) else if closed then Closing(Rest()) else Neither
    {
      hide SkipSpace;
      comma, closed := false, false;
      Ws();
      if PeekAt(',') {
        Advance();
        comma := true;
      } else if PeekAt(close) {
        Advance();
        closed := true;
      }
    }

    method Object(depth: nat) returns (ok: bool)
      requires Within() && PeekAt('{')
      modifies this
      ensures Within() && (ok ==> pos > old(pos)) && Agrees(CheckObject(old(Rest())[1..], depth), ok, Rest())
      decreases |t| - pos, 1
    {
      hide CheckMembers, SkipSpace;
      Advance();
      Ws();
      if PeekAt('}') {
        Advance();
        return true;
      }
      ok := Members(depth);
    }

    method Members(depth: nat) returns (ok: bool)
      requires Within()
      modifies this
      ensures Within() && (ok ==> pos > old(pos)) && Agrees(CheckMembers(old(Rest()), depth), ok, Rest())
      decreases |t| - pos, 3
    {
      hide CheckKey, CheckValue, AfterElement;
      while true
        invariant Within() && pos >= old(pos)
        invariant CheckMembers(old(Rest()), depth) == CheckMembers(Rest(), depth)
        decreases |t| - pos
      {
        ok := Key();
        if !ok {
          return;
        }
        ok := Value(depth);
        if !ok {
          return;
        }
        var comma, closed := ReadDelimiter('}');
        if !comma {
          return closed;
        }
      }
    }

    method Array(depth: nat) returns (ok: bool)
      requires Within() && PeekAt('[')
      modifies this
      ensures Within() && (ok ==> pos > old(pos)) && Agrees(CheckArray(old(Rest())[1..], depth), ok, Rest())
      decreases |t| - pos, 1
    {
      hide CheckItems, SkipSpace;
      Advance();
      Ws();
      if PeekAt(']') {
        Advance();
        return true;
      }
      ok := Items(depth);
    }

    method Items(depth: nat) returns (ok: bool)
      requires Within()
      modifies this
      ensures Within() && (ok ==> pos > old(pos)) && Agrees(CheckItems(old(Rest()), depth), ok, Rest())
      decreases |t| - pos, 3
    {
      hide CheckValue, AfterElement, SkipSpace;
      while true
        invariant Within() && pos >= old(pos)
        invariant CheckItems(old(Rest()), depth) == CheckItems(Rest(), depth)
        decreases |t| - pos
      {
        Ws();
        ok := Value(depth);
        if !ok {
          return;
        }
        var comma, closed := ReadDelimiter(']');
        if !comma {
          return closed;
        }
      }
    }

    /** `run`. */
    method Run() returns (ok: bool)
      requires pos == 0
      modifies this
      ensures ok == Valid(t)
    {
      hide CheckValue, SkipSpace;
      assert t[0..] == t;
      Ws();
      ok := Value(0);
      if !ok {
        return;
      }
      Ws();
      ok := pos == |t|;
    }
  }

  lemma NoPiece()
    ensures StringPiece("") == Bad
  {
  }
}
