/** The validator accepts exactly the JSON texts of RFC 8259 whose strings are UTF-8 and whose nesting stays
    within its limit, and so exactly the documents the writer can write within that limit. */
module JsonAcceptance {
  import opened Decimal
  import opened JsonScan
  import opened JsonValidator
  import opened Utf8
  import G = JsonGrammar
  import T = JsonText

  // ---- strings ----

  lemma PieceSound(t: string) returns (c: G.Char)
    requires StringPiece(t).More?
    ensures G.CharOk(c) && t == G.CharText(c) + StringPiece(t).rest
  {
    if t[0] != '\\' {
      c := G.Unescaped(t[..SequenceLength(t)]);
    } else if t[1] == 'u' {
      c := G.Unicode(t[2..6]);
      assert t == "\\u" + t[2..6] + t[6..];
    } else {
      c := G.Escape(t[1]);
      assert t == ['\\', t[1]] + t[2..];
    }
  }

  lemma TailStep(t: string)
    ensures StringPiece(t).More? ==> StringTail(t) == StringTail(StringPiece(t).rest)
    ensures StringTail(t).Yes? && !StringPiece(t).More? ==> Peek(t, '\"') && StringTail(t).rest == t[1..]
  {
  }

  lemma CharsStep(c: G.Char, more: seq<G.Char>)
    ensures G.CharsText([c] + more) == G.CharText(c) + G.CharsText(more) && G.CharsText([]) == ""
    ensures G.CharsOk([c] + more) <==> G.CharOk(c) && G.CharsOk(more)
  {
    hide G.CharText, G.CharOk;
    assert ([c] + more)[1..] == more;
    if G.CharsOk([c] + more) {
      assert ([c] + more)[0] == c;
      forall i | 0 <= i < |more| ensures G.CharOk(more[i]) {
        assert ([c] + more)[i + 1] == more[i];
      }
    }
  }

  lemma {:induction false} StringSound(t: string) returns (chars: seq<G.Char>)
    requires StringTail(t).Yes?
    ensures G.CharsOk(chars) && t == G.CharsText(chars) + ("\"" + StringTail(t).rest)
    decreases |t|
  {
    hide G.CharOk, G.CharText, G.CharsText, StringTail, StringPiece;
    TailStep(t);
    chars := [];
    var end := "\"" + StringTail(t).rest;
    if StringPiece(t).More? {
      var c := PieceSound(t);
      var more := StringSound(StringPiece(t).rest);
      CharsStep(c, more);
      chars := [c] + more;
      Assoc(G.CharText(c), G.CharsText(more), end);
    } else {
      CharsStep(G.Escape('n'), []);
      Peeked(t, '\"');
      Assoc(end, "", "");
    }
  }

  lemma PieceComplete(c: G.Char, more: string)
    requires G.CharOk(c)
    ensures StringPiece(G.CharText(c) + more) == More(more)
  {
    hide SequenceLength;
    var e := G.CharText(c);
    assert (e + more)[|e|..] == more;
    if c.Unescaped? {
      SequenceLengthOfPrefix(c.u, more);
    }
  }

  lemma {:induction false} StringComplete(chars: seq<G.Char>, rest: string)
    requires G.CharsOk(chars)
    ensures StringTail(G.CharsText(chars) + ("\"" + rest)) == Yes(rest)
    decreases |chars|
  {
    hide G.CharOk, G.CharText, StringPiece;
    if chars == [] {
      assert "" + ("\"" + rest) == "\"" + rest;
      QuoteIsAnEnd(rest);
    } else {
      assert G.CharOk(chars[0]);
      var more := G.CharsText(chars[1..]) + ("\"" + rest);
      StringComplete(chars[1..], rest);
      PieceComplete(chars[0], more);
      assert G.CharsText(chars) + ("\"" + rest) == G.CharText(chars[0]) + more;
    }
  }

  lemma QuoteIsAnEnd(rest: string)
    ensures StringPiece("\"" + rest) == End(rest)
  {
    assert ("\"" + rest)[1..] == rest;
  }

  // ---- numbers ----

  /** The digits a text starts with. */
  lemma {:induction false} DigitsPrefix(t: string)
    ensures AllDigits(t[..Digits(t)])
    decreases |t|
  {
    if t != "" && IsDigit(t[0]) {
      DigitsPrefix(t[1..]);
      assert t[..Digits(t)] == [t[0]] + t[1..][..Digits(t[1..])];
    }
  }

  lemma UnsignedSound(a: string) returns (int_: string)
    requires Peek(a, '0') || Digits(a) > 0
    ensures G.IsInt(int_) && a == int_ + (if Peek(a, '0') then a[1..] else a[Digits(a)..])
  {
    hide Digits;
    if Peek(a, '0') {
      int_ := "0";
    } else {
      DigitsPrefix(a);
      int_ := a[..Digits(a)];
    }
  }

  lemma IntegerParts(t: string)
    requires IntegerPart(t).Yes?
    ensures var a := if Peek(t, '-') then t[1..] else t;
            (Peek(a, '0') || Digits(a) > 0) && IntegerPart(t).rest == if Peek(a, '0') then a[1..] else a[Digits(a)..]
  {
    hide Digits;
  }

  lemma IntegerSound(t: string) returns (minus: string, int_: string)
    requires IntegerPart(t).Yes?
    ensures (minus == "" || minus == "-") && G.IsInt(int_) && t == minus + int_ + IntegerPart(t).rest
  {
    hide Digits, G.IsInt, IntegerPart;
    IntegerParts(t);
    minus := "";
    if Peek(t, '-') {
      minus := "-";
      Peeked(t, '-');
      int_ := UnsignedSound(t[1..]);
    } else {
      int_ := UnsignedSound(t);
    }
    Assoc(minus, int_, IntegerPart(t).rest);
    Assoc(int_, "", "");
  }

  lemma FractionSound(t: string) returns (frac: string)
    requires FractionPart(t).Yes?
    ensures G.IsFrac(frac) && t == frac + FractionPart(t).rest
  {
    hide Digits;
    frac := "";
    if Peek(t, '.') {
      var a := t[1..];
      DigitsPrefix(a);
      frac := "." + a[..Digits(a)];
      assert frac[1..] == a[..Digits(a)];
      assert t == "." + a && a == a[..Digits(a)] + a[Digits(a)..];
    }
  }

  lemma ExponentShape(head: string, digits: string)
    requires G.DigitRun(digits) && 1 <= |head| <= 2 && (head[0] == 'e' || head[0] == 'E')
    requires |head| == 2 ==> head[1] == '+' || head[1] == '-'
    ensures G.IsExp(head + digits)
  {
    assert (head + digits)[|head|..] == digits;
  }

  lemma ExponentSound(t: string) returns (exp: string)
    requires ExponentPart(t).Yes?
    ensures G.IsExp(exp) && t == exp + ExponentPart(t).rest
  {
    hide Digits, G.IsExp;
    if Peek(t, 'e') || Peek(t, 'E') {
      var signed := Peek(t[1..], '+') || Peek(t[1..], '-');
      var a := if signed then t[1..][1..] else t[1..];
      var head := if signed then [t[0], t[1]] else [t[0]];
      assert t == head + a;
      DigitsPrefix(a);
      ExponentShape(head, a[..Digits(a)]);
      exp := head + a[..Digits(a)];
      Halves(head, a, Digits(a));
    } else {
      exp := "";
      NoExponent();
    }
  }

  lemma NoExponent()
    ensures G.IsExp("")
  {
  }

  lemma Halves(head: string, a: string, n: nat)
    requires n <= |a|
    ensures head + a == head + a[..n] + a[n..]
  {
  }

  lemma NumberSound(t: string) returns (j: G.Json)
    requires CheckNumber(t).Yes?
    ensures j.Number? && G.Ok(j) && t == G.NumberText(j) + CheckNumber(t).rest
  {
    hide IntegerPart, FractionPart, ExponentPart, G.IsInt, G.IsFrac, G.IsExp;
    var minus, int_ := IntegerSound(t);
    var a := IntegerPart(t).rest;
    var frac := FractionSound(a);
    var b := FractionPart(a).rest;
    var exp := ExponentSound(b);
    j := G.Number(minus, int_, frac, exp);
    var c := ExponentPart(b).rest;
    assert minus + int_ + (frac + (exp + c)) == minus + int_ + frac + exp + c;
  }

  /** No number goes on here. */
  predicate NumberStops(rest: string) {
    rest == "" || !(IsDigit(rest[0]) || rest[0] == '.' || rest[0] == 'e' || rest[0] == 'E')
  }

  lemma IntegerComplete(minus: string, int_: string, rest: string)
    requires (minus == "" || minus == "-") && G.IsInt(int_) && (rest == "" || !IsDigit(rest[0]))
    ensures IntegerPart(minus + int_ + rest) == Yes(rest)
  {
    hide Digits;
    var t := minus + int_ + rest;
    assert (if minus == "-" then t[1..] else t) == int_ + rest;
    assert IsDigit(int_[0]);
    assert !Peek(int_ + rest, '-');
    DigitsOf(int_, rest);
    assert (int_ + rest)[|int_|..] == rest;
  }

  lemma FractionComplete(frac: string, rest: string)
    requires G.IsFrac(frac) && (rest == "" || !IsDigit(rest[0])) && !Peek(rest, '.')
    ensures FractionPart(frac + rest) == Yes(rest)
  {
    hide Digits;
    if frac == "" {
      assert frac + rest == rest;
    } else {
      assert (frac + rest)[1..] == frac[1..] + rest;
      DigitsOf(frac[1..], rest);
      assert (frac[1..] + rest)[|frac[1..]|..] == rest;
    }
  }

  lemma ExponentComplete(exp: string, rest: string)
    requires G.IsExp(exp) && NumberStops(rest)
    ensures ExponentPart(exp + rest) == Yes(rest)
  {
    hide Digits;
    if exp == "" {
      assert exp + rest == rest;
    } else {
      var t := exp + rest;
      assert t[1..] == exp[1..] + rest;
      if G.DigitRun(exp[1..]) {
        assert IsDigit(exp[1..][0]);
        DigitsOf(exp[1..], rest);
        assert t[1..][|exp[1..]|..] == rest;
      } else {
        assert t[1..][1..] == exp[2..] + rest;
        DigitsOf(exp[2..], rest);
        assert t[1..][1..][|exp[2..]|..] == rest;
      }
    }
  }

  lemma NumberComplete(j: G.Json, rest: string)
    requires j.Number? && G.Ok(j) && NumberStops(rest)
    ensures CheckNumber(G.NumberText(j) + rest) == Yes(rest)
  {
    hide IntegerPart, FractionPart, ExponentPart, G.IsInt;
    var c := j.exp + rest;
    var b := j.frac + c;
    assert G.NumberText(j) + rest == j.minus + j.int_ + b;
    assert c == "" || !IsDigit(c[0]);
    assert !Peek(c, '.');
    assert b == "" || !IsDigit(b[0]);
    IntegerComplete(j.minus, j.int_, b);
    FractionComplete(j.frac, c);
    ExponentComplete(j.exp, rest);
  }

  // ---- values: what is accepted is grammatical ----

  lemma {:induction false} ValueSound(t: string, depth: nat) returns (j: G.Json)
    requires CheckValue(t, depth).Yes?
    ensures G.Ok(j) && t == G.TextOf(j) + CheckValue(t, depth).rest && depth + G.Nesting(j) <= MAX_DEPTH
    decreases |t|, 2
  {
    hide StringTail, CheckNumber, CheckMembers, CheckItems, SkipSpace, G.ItemsText, G.MembersText, G.CharsText,
         G.NumberText;
    hide G.ItemsOk, G.MembersOk, G.CharsOk, G.SpaceRun;
    if t[0] == '{' {
      j := ObjectSound(t, depth);
    } else if t[0] == '[' {
      j := ArraySound(t, depth);
    } else if t[0] == '\"' {
      var chars := StringSound(t[1..]);
      j := G.String(chars);
      assert t == "\"" + t[1..];
    } else if t[0] == 't' {
      j := G.Word("true");
    } else if t[0] == 'f' {
      j := G.Word("false");
    } else if t[0] == 'n' {
      j := G.Word("null");
    } else {
      j := NumberSound(t);
    }
  }

  lemma {:induction false} ArraySound(t: string, depth: nat) returns (j: G.Json)
    requires Peek(t, '[') && CheckValue(t, depth).Yes?
    ensures G.Ok(j) && t == G.TextOf(j) + CheckValue(t, depth).rest && depth + G.Nesting(j) <= MAX_DEPTH
    decreases |t|, 1
  {
    hide CheckItems, SkipSpace, G.ItemsText, G.ItemsOk, G.SpaceRun, G.ItemsNesting;
    var rest := CheckValue(t, depth).rest;
    assert t == "[" + t[1..];
    var s := G.SpaceOf(t[1..]);
    var u := SkipSpace(t[1..]);
    if Peek(u, ']') {
      j := G.Array(s, []);
      assert G.ItemsNesting([]) == 0 by { NoNesting(); }
      assert u == "]" + rest;
      assert t == "[" + (s + "]") + rest;
    } else {
      var items := ItemsSound(u, depth + 1);
      FurtherBefore(items, s);
      j := G.Array("", WithBefore(items, s));
      assert t == "[" + (s + G.ItemsText(items)) + rest;
    }
  }

  lemma NoNesting()
    ensures G.ItemsNesting([]) == 0 && G.MembersNesting([]) == 0
  {
  }

  /** Items with more space in front. */
  function WithBefore(items: seq<G.Item>, s: string): seq<G.Item>
    requires items != []
  {
    [items[0].(before := s + items[0].before)] + items[1..]
  }

  lemma FurtherBefore(items: seq<G.Item>, s: string)
    requires items != [] && G.ItemsOk(items) && G.SpaceRun(s)
    ensures G.ItemsOk(WithBefore(items, s)) && G.ItemsText(WithBefore(items, s)) == s + G.ItemsText(items)
    ensures G.ItemsNesting(WithBefore(items, s)) == G.ItemsNesting(items)
  {
    hide G.Ok, G.TextOf, G.Nesting;
    var more := WithBefore(items, s);
    assert more[1..] == items[1..] && |more| == |items|;
    var tail := G.TextOf(items[0].value) +
      (items[0].after + (if |items| == 1 then "]" else "," + G.ItemsText(items[1..])));
    assert s + (items[0].before + tail) == s + items[0].before + tail;
  }

  lemma {:induction false} ItemsSound(t: string, depth: nat) returns (items: seq<G.Item>)
    requires CheckItems(t, depth).Yes? && depth > 0
    ensures items != [] && G.ItemsOk(items) && t == G.ItemsText(items) + CheckItems(t, depth).rest
    ensures depth - 1 + G.ItemsNesting(items) <= MAX_DEPTH
    decreases |t|, 3
  {
    hide CheckValue, SkipSpace, G.Ok, G.TextOf, G.Nesting, G.SpaceRun;
    var before := G.SpaceOf(t);
    var u := SkipSpace(t);
    var j := ValueSound(u, depth);
    var r := CheckValue(u, depth).rest;
    var after := G.SpaceOf(r);
    var item := G.Item(before, j, after);
    NoNesting();
    match AfterElement(r, ']')
    case Comma(next) =>
      var more := ItemsSound(next, depth);
      items := [item] + more;
      assert items[1..] == more;
      DelimiterText(r, after, ']');
      JoinSound(before, G.TextOf(j), after, ",", G.ItemsText(more), CheckItems(t, depth).rest);
    case Closing(end) =>
      items := [item];
      assert items[1..] == [];
      DelimiterText(r, after, ']');
      JoinSound(before, G.TextOf(j), after, "]", "", end);
      NoMore("]", end);
  }

  lemma DelimiterText(r: string, after: string, close: char)
    requires r == after + SkipSpace(r)
    ensures var d := AfterElement(r, close);
            (d.Comma? ==> r == after + ("," + d.rest)) && (d.Closing? ==> r == after + ([close] + d.rest))
  {
    hide SkipSpace;
    var u := SkipSpace(r);
    if Peek(u, ',') {
      Peeked(u, ',');
    } else if Peek(u, close) {
      Peeked(u, close);
    }
  }

  lemma NoMore(close: string, end: string)
    ensures close + "" == close && "" + end == end
  {
  }

  lemma JoinSound(a: string, b: string, c: string, d: string, e: string, f: string)
    ensures a + (b + (c + (d + (e + f)))) == a + (b + (c + (d + e))) + f
  {
  }

  lemma {:induction false} ObjectSound(t: string, depth: nat) returns (j: G.Json)
    requires Peek(t, '{') && CheckValue(t, depth).Yes?
    ensures G.Ok(j) && t == G.TextOf(j) + CheckValue(t, depth).rest && depth + G.Nesting(j) <= MAX_DEPTH
    decreases |t|, 1
  {
    hide CheckMembers, SkipSpace, G.MembersText, G.MembersOk, G.SpaceRun, G.MembersNesting, G.Ok, G.TextOf, G.Nesting;
    var rest := CheckValue(t, depth).rest;
    var s := G.SpaceOf(t[1..]);
    var u := SkipSpace(t[1..]);
    if Peek(u, '}') {
      j := G.Object(s, []);
      EmptyObjectSound(t, s, rest);
    } else {
      var members := MembersSound(u, depth + 1);
      FurtherBeforeMember(members, s);
      j := G.Object("", WithBeforeMember(members, s));
      FullObjectSound(t, s, members, rest);
    }
  }

  lemma EmptyObjectSound(t: string, s: string, rest: string)
    requires t != "" && t[0] == '{' && G.SpaceRun(s) && t[1..] == s + ("}" + rest)
    ensures var j := G.Object(s, []); G.Ok(j) && t == G.TextOf(j) + rest && G.Nesting(j) == 0
  {
    hide G.SpaceRun;
    NoNesting();
    assert t == "{" + t[1..];
    assert t == "{" + (s + "}") + rest;
  }

  lemma FullObjectSound(t: string, s: string, members: seq<G.Member>, rest: string)
    requires members != [] && t != "" && t[0] == '{' && t[1..] == s + (G.MembersText(members) + rest)
    requires var more := WithBeforeMember(members, s);
             G.MembersOk(more) && G.MembersText(more) == s + G.MembersText(members)
    ensures var j := G.Object("", WithBeforeMember(members, s));
            G.Ok(j) && t == G.TextOf(j) + rest && G.Nesting(j) == G.MembersNesting(j.members)
  {
    hide G.MembersOk, G.MembersText, G.MembersNesting;
    assert t == "{" + t[1..];
    assert t == "{" + (s + G.MembersText(members)) + rest;
  }

  function WithBeforeMember(members: seq<G.Member>, s: string): seq<G.Member>
    requires members != []
  {
    [members[0].(before := s + members[0].before)] + members[1..]
  }

  lemma FurtherBeforeMember(members: seq<G.Member>, s: string)
    requires members != [] && G.MembersOk(members) && G.SpaceRun(s)
    ensures G.MembersOk(WithBeforeMember(members, s)) &&
            G.MembersText(WithBeforeMember(members, s)) == s + G.MembersText(members)
    ensures G.MembersNesting(WithBeforeMember(members, s)) == G.MembersNesting(members)
  {
    hide G.Ok, G.TextOf, G.Nesting, G.StringText, G.CharsOk;
    var more := WithBeforeMember(members, s);
    assert more[1..] == members[1..] && |more| == |members|;
    var m := members[0];
    var head := G.StringText(m.key) + (m.afterKey + (":" + m.beforeValue));
    var tail := G.TextOf(m.value) + (m.after + (if |members| == 1 then "}" else "," + G.MembersText(members[1..])));
    assert s + (m.before + head + tail) == s + m.before + head + tail;
  }

  /** A key with its colon and the space around them. */
  lemma KeySound(t: string) returns (before: string, key: seq<G.Char>, afterKey: string, beforeValue: string)
    requires CheckKey(t).Yes?
    ensures G.SpaceRun(before) && G.CharsOk(key) && G.SpaceRun(afterKey) && G.SpaceRun(beforeValue)
    ensures t == before + (G.StringText(key) + (afterKey + (":" + beforeValue))) + CheckKey(t).rest
  {
    hide StringTail, SkipSpace, G.SpaceRun, G.CharsOk, G.CharsText;
    var rest := CheckKey(t).rest;
    before := G.SpaceOf(t);
    var a := SkipSpace(t);
    key := StringSound(a[1..]);
    var r := StringTail(a[1..]).rest;
    afterKey := G.SpaceOf(r);
    var b := SkipSpace(r);
    beforeValue := G.SpaceOf(b[1..]);
    assert b == ":" + (beforeValue + rest);
    assert a == "\"" + (G.CharsText(key) + ("\"" + r));
    KeyText(before, G.CharsText(key), afterKey, beforeValue, rest);
  }

  lemma KeyText(before: string, key: string, afterKey: string, beforeValue: string, rest: string)
    ensures before + ("\"" + (key + ("\"" + (afterKey + (":" + (beforeValue + rest)))))) ==
            before + ("\"" + key + "\"" + (afterKey + (":" + beforeValue))) + rest
  {
  }

  lemma {:induction false} MembersSound(t: string, depth: nat) returns (members: seq<G.Member>)
    requires CheckMembers(t, depth).Yes? && depth > 0
    ensures members != [] && G.MembersOk(members) && t == G.MembersText(members) + CheckMembers(t, depth).rest
    ensures depth - 1 + G.MembersNesting(members) <= MAX_DEPTH
    decreases |t|, 3
  {
    hide CheckKey, CheckValue, SkipSpace, G.Ok, G.TextOf, G.Nesting, G.SpaceRun, G.CharsOk, G.StringText;
    var before, key, afterKey, beforeValue := KeySound(t);
    var u := CheckKey(t).rest;
    var j := ValueSound(u, depth);
    var r := CheckValue(u, depth).rest;
    var after := G.SpaceOf(r);
    var m := G.Member(before, key, afterKey, beforeValue, j, after);
    NoNesting();
    match AfterElement(r, '}')
    case Comma(next) =>
      var more := MembersSound(next, depth);
      members := [m] + more;
      assert members[1..] == more;
      DelimiterText(r, after, '}');
      JoinSound(G.MemberHead(m), G.TextOf(j), after, ",", G.MembersText(more), CheckMembers(t, depth).rest);
    case Closing(end) =>
      members := [m];
      assert members[1..] == [];
      DelimiterText(r, after, '}');
      JoinSound(G.MemberHead(m), G.TextOf(j), after, "}", "", end);
      NoMore("}", end);
  }

  // ---- values: what is grammatical is accepted ----

  /** What may follow a value. */
  predicate AfterValue(rest: string) {
    rest == "" || IsSpace(rest[0]) || rest[0] == ',' || rest[0] == ']' || rest[0] == '}'
  }

  /** A derivation is accepted in front of whatever may follow it, exactly when it is not nested too deep. */
  lemma {:induction false} ValueComplete(j: G.Json, rest: string, depth: nat)
    requires G.Ok(j) && AfterValue(rest)
    ensures CheckValue(G.TextOf(j) + rest, depth) == if depth + G.Nesting(j) <= MAX_DEPTH then Yes(rest) else No
    decreases j, 1
  {
    hide CheckValue, G.TextOf, G.Ok, AfterValue;
    if depth > MAX_DEPTH {
      TooDeep(G.TextOf(j) + rest, depth);
    } else if j.Array? {
      ArrayComplete(j, rest, depth);
    } else if j.Object? {
      ObjectComplete(j, rest, depth);
    } else {
      NoNestingIn(j);
      match j
      case Word(_) => WordComplete(j, rest, depth);
      case Number(_, _, _, _) => NumberValueComplete(j, rest, depth);
      case String(_) => StringValueComplete(j, rest, depth);
    }
  }

  lemma TooDeep(t: string, depth: nat)
    requires depth > MAX_DEPTH
    ensures CheckValue(t, depth) == No
  {
  }

  lemma NoNestingIn(j: G.Json)
    requires !j.Array? && !j.Object?
    ensures G.Nesting(j) == 0
  {
  }

  lemma WordComplete(j: G.Json, rest: string, depth: nat)
    requires j.Word? && G.Ok(j) && depth <= MAX_DEPTH
    ensures CheckValue(G.TextOf(j) + rest, depth) == Yes(rest)
  {
    hide StringTail, CheckNumber, CheckArray, CheckObject;
    var t := G.TextOf(j) + rest;
    assert t[..|j.word|] == j.word && t[|j.word|..] == rest;
  }

  lemma NumberValueComplete(j: G.Json, rest: string, depth: nat)
    requires j.Number? && G.Ok(j) && AfterValue(rest) && depth <= MAX_DEPTH
    ensures CheckValue(G.TextOf(j) + rest, depth) == Yes(rest)
  {
    hide StringTail, CheckNumber, CheckArray, CheckObject, G.NumberText, AfterValue, NumberStops;
    NumberEnds(rest);
    NumberComplete(j, rest);
    NumberFirst(j);
  }

  lemma StringValueComplete(j: G.Json, rest: string, depth: nat)
    requires j.String? && G.Ok(j) && depth <= MAX_DEPTH
    ensures CheckValue(G.TextOf(j) + rest, depth) == Yes(rest)
  {
    hide StringTail, CheckNumber, CheckArray, CheckObject, G.CharsText, G.CharsOk;
    StringComplete(j.chars, rest);
    assert (G.TextOf(j) + rest)[1..] == G.CharsText(j.chars) + ("\"" + rest);
  }

  lemma NumberEnds(rest: string)
    requires AfterValue(rest)
    ensures NumberStops(rest)
  {
  }

  lemma NumberFirst(j: G.Json)
    requires j.Number? && G.Ok(j)
    ensures G.NumberText(j) != "" && (G.NumberText(j)[0] == '-' || IsDigit(G.NumberText(j)[0]))
  {
  }

  lemma {:induction false} ArrayComplete(j: G.Json, rest: string, depth: nat)
    requires j.Array? && G.Ok(j) && AfterValue(rest) && depth <= MAX_DEPTH
    ensures CheckValue(G.TextOf(j) + rest, depth) == if depth + G.Nesting(j) <= MAX_DEPTH then Yes(rest) else No
    decreases j, 0
  {
    hide CheckItems, SkipSpace, G.ItemsText, G.SpaceRun, G.ItemsOk, G.ItemsNesting;
    var t := G.TextOf(j) + rest;
    NoNesting();
    if j.items == [] {
      assert t[1..] == j.space + ("]" + rest);
      G.SkipRun(j.space, "]" + rest);
      assert ("]" + rest)[1..] == rest;
    } else {
      var body := G.ItemsText(j.items) + rest;
      assert t[1..] == body;
      ItemsComplete(j.items, rest, depth + 1);
      ItemsFirst(j.items, rest, depth + 1);
    }
  }

  /** The space in front of the first item may as well be skipped before. */
  lemma ItemsFirst(items: seq<G.Item>, rest: string, depth: nat)
    requires items != [] && G.ItemsOk(items)
    ensures var u := SkipSpace(G.ItemsText(items) + rest);
            !Peek(u, ']') && CheckItems(u, depth) == CheckItems(G.ItemsText(items) + rest, depth)
  {
    hide G.Ok, G.TextOf, CheckValue, G.SpaceRun, SkipSpace;
    var tail := items[0].after + (if |items| == 1 then "]" else "," + G.ItemsText(items[1..])) + rest;
    var t := G.ItemsText(items) + rest;
    assert t == items[0].before + (G.TextOf(items[0].value) + tail);
    G.ValueStart(items[0].value);
    G.SkipRun(items[0].before, G.TextOf(items[0].value) + tail);
    var u := SkipSpace(t);
    assert SkipSpace(u) == u;
  }

  /** One turn of the array loop over the text of an item. */
  lemma ItemTurn(item: G.Item, next: string, depth: nat, fits: bool)
    requires G.SpaceRun(item.before) && G.Ok(item.value) && G.SpaceRun(item.after)
    requires next != "" && (next[0] == ',' || next[0] == ']')
    requires CheckValue(G.TextOf(item.value) + (item.after + next), depth) == if fits then Yes(item.after + next)
             else No
    ensures CheckItems(item.before + (G.TextOf(item.value) + (item.after + next)), depth) ==
            if !fits then No else if next[0] == ',' then CheckItems(next[1..], depth) else Yes(next[1..])
  {
    hide CheckValue, SkipSpace, G.Ok, G.TextOf, G.SpaceRun;
    G.ValueStart(item.value);
    G.SkipRun(item.before, G.TextOf(item.value) + (item.after + next));
    G.SkipRun(item.after, next);
  }

  lemma {:induction false} ItemsComplete(items: seq<G.Item>, rest: string, depth: nat)
    requires items != [] && G.ItemsOk(items) && depth > 0
    ensures CheckItems(G.ItemsText(items) + rest, depth) ==
            if depth - 1 + G.ItemsNesting(items) <= MAX_DEPTH then Yes(rest) else No
    decreases items, 0
  {
    hide CheckValue, CheckItems, G.Ok, G.TextOf, G.Nesting, G.SpaceRun;
    var item := items[0];
    NoNesting();
    var next := if |items| == 1 then "]" else "," + G.ItemsText(items[1..]);
    Spread(item.before, G.TextOf(item.value), item.after, next, rest);
    SpaceThen(item.after, next + rest);
    ValueComplete(item.value, item.after + (next + rest), depth);
    ItemTurn(item, next + rest, depth, depth + G.Nesting(item.value) <= MAX_DEPTH);
    if |items| == 1 {
      assert items[1..] == [];
      assert (next + rest)[1..] == rest;
    } else {
      assert (next + rest)[1..] == G.ItemsText(items[1..]) + rest;
      ItemsComplete(items[1..], rest, depth);
    }
  }

  lemma Spread(a: string, b: string, c: string, d: string, e: string)
    ensures a + (b + (c + d)) + e == a + (b + (c + (d + e)))
  {
  }

  lemma SpaceThen(s: string, next: string)
    requires G.SpaceRun(s) && next != "" && (next[0] == ',' || next[0] == ']' || next[0] == '}')
    ensures AfterValue(s + next)
  {
  }

  lemma {:induction false} ObjectComplete(j: G.Json, rest: string, depth: nat)
    requires j.Object? && G.Ok(j) && AfterValue(rest) && depth <= MAX_DEPTH
    ensures CheckValue(G.TextOf(j) + rest, depth) == if depth + G.Nesting(j) <= MAX_DEPTH then Yes(rest) else No
    decreases j, 0
  {
    hide CheckMembers, SkipSpace, G.MembersText, G.SpaceRun, G.MembersOk, G.MembersNesting;
    var t := G.TextOf(j) + rest;
    NoNesting();
    if j.members == [] {
      assert t[1..] == j.space + ("}" + rest);
      G.SkipRun(j.space, "}" + rest);
      assert ("}" + rest)[1..] == rest;
    } else {
      var body := G.MembersText(j.members) + rest;
      assert t[1..] == body;
      MembersComplete(j.members, rest, depth + 1);
      MembersFirst(j.members, rest, depth + 1);
    }
  }

  /** A member's head is read up to its value. */
  lemma KeyComplete(m: G.Member, more: string)
    requires G.SpaceRun(m.before) && G.CharsOk(m.key) && G.SpaceRun(m.afterKey) && G.SpaceRun(m.beforeValue)
    requires more != "" && !IsSpace(more[0])
    ensures CheckKey(G.MemberHead(m) + more) == Yes(more)
    ensures var u := SkipSpace(G.MemberHead(m) + more); Peek(u, '\"') && CheckKey(u) == Yes(more)
  {
    hide StringTail, SkipSpace, G.SpaceRun, G.CharsOk, G.CharsText;
    var value := m.beforeValue + more;
    var colon := m.afterKey + (":" + value);
    var text := "\"" + (G.CharsText(m.key) + ("\"" + colon));
    assert G.MemberHead(m) + more == m.before + text
      by { HeadText(m.before, G.CharsText(m.key), m.afterKey, m.beforeValue, more); }
    G.SkipRun(m.before, text);
    assert text[1..] == G.CharsText(m.key) + ("\"" + colon);
    StringComplete(m.key, colon);
    G.SkipRun(m.afterKey, ":" + value);
    assert (":" + value)[1..] == value;
    G.SkipRun(m.beforeValue, more);
    assert SkipSpace(text) == text;
  }

  lemma HeadText(before: string, key: string, afterKey: string, beforeValue: string, more: string)
    ensures before + ("\"" + key + "\"" + (afterKey + (":" + beforeValue))) + more ==
            before + ("\"" + (key + ("\"" + (afterKey + (":" + (beforeValue + more))))))
  {
  }

  lemma MembersFirst(members: seq<G.Member>, rest: string, depth: nat)
    requires members != [] && G.MembersOk(members)
    ensures var u := SkipSpace(G.MembersText(members) + rest);
            !Peek(u, '}') && CheckMembers(u, depth) == CheckMembers(G.MembersText(members) + rest, depth)
  {
    hide G.Ok, G.TextOf, CheckValue, G.SpaceRun, SkipSpace, CheckKey, G.MemberHead, G.CharsOk;
    var m := members[0];
    var tail := G.TextOf(m.value) + (m.after + (if |members| == 1 then "}" else "," + G.MembersText(members[1..]))) +
      rest;
    assert G.MembersText(members) + rest == G.MemberHead(m) + tail;
    G.ValueStart(m.value);
    assert tail != "" && tail[0] == G.TextOf(m.value)[0];
    KeyComplete(m, tail);
  }

  /** One turn of the object loop over the text of a member. */
  lemma MemberTurn(m: G.Member, next: string, depth: nat, fits: bool)
    requires G.SpaceRun(m.before) && G.CharsOk(m.key) && G.SpaceRun(m.afterKey) && G.SpaceRun(m.beforeValue)
    requires G.Ok(m.value) && G.SpaceRun(m.after)
    requires next != "" && (next[0] == ',' || next[0] == '}')
    requires CheckValue(G.TextOf(m.value) + (m.after + next), depth) == if fits then Yes(m.after + next) else No
    ensures CheckMembers(G.MemberHead(m) + (G.TextOf(m.value) + (m.after + next)), depth) ==
            if !fits then No else if next[0] == ',' then CheckMembers(next[1..], depth) else Yes(next[1..])
  {
    hide CheckKey, CheckValue, SkipSpace, G.Ok, G.TextOf, G.SpaceRun, G.CharsOk, G.MemberHead;
    G.ValueStart(m.value);
    KeyComplete(m, G.TextOf(m.value) + (m.after + next));
    G.SkipRun(m.after, next);
  }

  lemma {:induction false} MembersComplete(members: seq<G.Member>, rest: string, depth: nat)
    requires members != [] && G.MembersOk(members) && depth > 0
    ensures CheckMembers(G.MembersText(members) + rest, depth) ==
            if depth - 1 + G.MembersNesting(members) <= MAX_DEPTH then Yes(rest) else No
    decreases members, 0
  {
    hide CheckMembers, CheckValue, G.Ok, G.TextOf, G.Nesting, G.SpaceRun, G.CharsOk, G.MemberHead;
    var m := members[0];
    NoNesting();
    var next := if |members| == 1 then "}" else "," + G.MembersText(members[1..]);
    Spread(G.MemberHead(m), G.TextOf(m.value), m.after, next, rest);
    SpaceThen(m.after, next + rest);
    ValueComplete(m.value, m.after + (next + rest), depth);
    MemberTurn(m, next + rest, depth, depth + G.Nesting(m.value) <= MAX_DEPTH);
    if |members| == 1 {
      assert members[1..] == [];
      assert (next + rest)[1..] == rest;
    } else {
      assert (next + rest)[1..] == G.MembersText(members[1..]) + rest;
      MembersComplete(members[1..], rest, depth);
    }
  }

  // ---- the validator decides the grammar ----

  /** `json_validate` accepts a text exactly when it is a JSON text with at most 256 containers around any
      value. */
  lemma ValidIsGrammatical(t: string)
    ensures Valid(t) <==> G.IsJsonText(t, MAX_DEPTH)
  {
    hide CheckValue, SkipSpace, G.Ok, G.TextOf, G.Nesting, G.SpaceRun, G.IsJsonText;
    if Valid(t) {
      var before := G.SpaceOf(t);
      var u := SkipSpace(t);
      var j := ValueSound(u, 0);
      var r := CheckValue(u, 0).rest;
      var after := G.SpaceOf(r);
      assert r == after + "" && after + "" == after;
      assert t == before + (G.TextOf(j) + after) && before + (G.TextOf(j) + after) == before + G.TextOf(j) + after;
      TextIs(t, before, j, after);
    }
    if G.IsJsonText(t, MAX_DEPTH) {
      var before, j, after := PartsOf(t);
      assert t == before + (G.TextOf(j) + after);
      G.ValueStart(j);
      G.SkipRun(before, G.TextOf(j) + after);
      SpaceAfter(after);
      ValueComplete(j, after, 0);
      G.SkipRun(after, "");
      assert after + "" == after;
    }
  }

  lemma TextIs(t: string, before: string, j: G.Json, after: string)
    requires G.SpaceRun(before) && G.Ok(j) && G.SpaceRun(after) && G.Nesting(j) <= MAX_DEPTH &&
             t == before + G.TextOf(j) + after
    ensures G.IsJsonText(t, MAX_DEPTH)
  {
  }

  lemma PartsOf(t: string) returns (before: string, j: G.Json, after: string)
    requires G.IsJsonText(t, MAX_DEPTH)
    ensures G.SpaceRun(before) && G.Ok(j) && G.SpaceRun(after) && G.Nesting(j) <= MAX_DEPTH &&
            t == before + G.TextOf(j) + after
  {
    hide G.Ok, G.TextOf, G.Nesting, G.SpaceRun;
    before, j, after :|
      G.SpaceRun(before) && G.Ok(j) && G.SpaceRun(after) && G.Nesting(j) <= MAX_DEPTH &&
      t == before + G.TextOf(j) + after;
  }

  lemma SpaceAfter(s: string)
    requires G.SpaceRun(s)
    ensures AfterValue(s)
  {
  }

  // ---- written text ----

  /** The derivation of written text. */
  function DerivationOf(d: T.Doc): G.Json {
    match d
    case Null => G.Word("null")
    case Flag(b) => G.Word(if b then "true" else "false")
    case Number(n) => G.Number(if n < 0 then "-" else "", ToDecimal(if n < 0 then -n else n), "", "")
    case Text(s) => G.String(CharsOf(s))
    case Array(items) => G.Array("", ItemsOf(items))
    case Object(members) => G.Object("", MembersOf(members))
  }

  function ItemsOf(items: seq<T.Doc>): seq<G.Item> {
    if items == [] then [] else [G.Item("", DerivationOf(items[0]), "")] + ItemsOf(items[1..])
  }

  function MembersOf(members: seq<T.Member>): seq<G.Member> {
    if members == [] then []
    else [G.Member("", CharsOf(members[0].key), "", "", DerivationOf(members[0].value), "")] + MembersOf(members[1..])
  }

  /** What escaping writes, character by character. */
  function CharsOf(s: string): seq<G.Char>
    decreases |s|
  {
    if s == "" then [] else [CharOf(T.Chunk(s))] + CharsOf(s[T.Width(s)..])
  }

  function CharOf(chunk: string): G.Char {
    if chunk == "" || chunk[0] != '\\' then G.Unescaped(chunk)
    else if |chunk| == 2 then G.Escape(chunk[1])
    else G.Unicode(if |chunk| == 6 then chunk[2..] else "")
  }

  lemma ShortEscapeDerived(e: string)
    requires |e| == 2 && e[0] == '\\' && G.IsEscape(e[1])
    ensures G.CharOk(CharOf(e)) && G.CharText(CharOf(e)) == e
  {
    assert e == ['\\', e[1]];
  }

  lemma ControlEscapeDerived(c: char)
    requires c as int < 0x20
    ensures var e := "\\u00" + [T.HexDigit(c as int / 16), T.HexDigit(c as int % 16)];
            G.CharOk(CharOf(e)) && G.CharText(CharOf(e)) == e
  {
    var x, y := T.HexDigit(c as int / 16), T.HexDigit(c as int % 16);
    DigitIsHex(c as int / 16);
    DigitIsHex(c as int % 16);
    hide T.HexDigit;
    var e := "\\u00" + [x, y];
    assert e[2..] == ['0', '0', x, y];
    assert e == "\\u" + e[2..];
  }

  lemma DigitIsHex(d: nat)
    requires d < 16
    ensures G.IsHex(T.HexDigit(d))
  {
  }

  lemma EscapedDerived(c: char)
    requires T.Escaped(c) != ""
    ensures G.CharOk(CharOf(T.Escaped(c))) && G.CharText(CharOf(T.Escaped(c))) == T.Escaped(c)
  {
    hide CharOf, G.CharOk, G.CharText, T.HexDigit;
    var e := T.Escaped(c);
    if |e| == 2 {
      ShortEscapeDerived(e);
    } else {
      ControlEscapeDerived(c);
    }
  }

  lemma ChunkDerived(s: string)
    requires s != ""
    ensures G.CharOk(CharOf(T.Chunk(s))) && G.CharText(CharOf(T.Chunk(s))) == T.Chunk(s)
  {
    hide SequenceLength, T.Escaped;
    T.EscapedLong(s[0]);
    if T.Escaped(s[0]) != "" {
      EscapedDerived(s[0]);
    } else if SequenceLength(s) == 0 {
      assert "\\ufffd" == "\\u" + "\\ufffd"[2..];
    } else {
      assert s[..SequenceLength(s)][0] == s[0];
    }
  }

  lemma {:induction false} EscapeDerived(s: string)
    ensures G.CharsOk(CharsOf(s)) && G.CharsText(CharsOf(s)) == T.Escape(s)
    decreases |s|
  {
    hide T.Chunk, CharOf, G.CharOk, G.CharText;
    if s != "" {
      ChunkDerived(s);
      EscapeDerived(s[T.Width(s)..]);
      assert CharsOf(s)[1..] == CharsOf(s[T.Width(s)..]);
    }
  }

  /** Written text has its derivation, with the nesting of the document. */
  lemma {:induction false} RenderDerived(d: T.Doc)
    ensures G.Ok(DerivationOf(d)) && G.TextOf(DerivationOf(d)) == T.Render(d) &&
            G.Nesting(DerivationOf(d)) == T.Depth(d)
    decreases d
  {
    hide T.Escape, T.RenderItems, T.RenderMembers, T.ItemsDepth, T.MembersDepth, ItemsOf, MembersOf, CharsOf;
    hide G.ItemsText, G.MembersText, G.ItemsNesting, G.MembersNesting, G.ItemsOk, G.MembersOk, G.CharsText, ToDecimal;
    match d
    case Text(s) => EscapeDerived(s);
    case Number(n) => DecimalDerived(if n < 0 then -n else n);
    case Array(items) =>
      ItemsDerived(items);
      T.NothingToRender();
      NoNesting();
    case Object(members) =>
      MembersDerived(members);
      T.NothingToRender();
      NoNesting();
    case _ =>
  }

  lemma DecimalDerived(n: nat)
    ensures G.IsInt(ToDecimal(n)) && ToDecimal(n) + "" + "" == ToDecimal(n)
  {
    DecimalLeading(n);
  }

  lemma {:induction false} ItemsDerived(items: seq<T.Doc>)
    ensures (items == [] <==> ItemsOf(items) == []) && G.ItemsOk(ItemsOf(items))
    ensures items != [] ==> G.ItemsText(ItemsOf(items)) == T.RenderItems(items) + "]"
    ensures items != [] ==> "," + G.ItemsText(ItemsOf(items)) == T.RenderMore(items) + "]"
    ensures G.ItemsNesting(ItemsOf(items)) == T.ItemsDepth(items)
    decreases items
  {
    hide T.Render, DerivationOf, G.Ok, G.TextOf, G.Nesting, T.Depth, T.RenderMore, T.RenderItems;
    if items == [] {
      T.NothingToRender();
    } else {
      var more := ItemsOf(items[1..]);
      RenderDerived(items[0]);
      ItemsDerived(items[1..]);
      assert ItemsOf(items)[1..] == more;
      T.NothingToRender();
      var text := T.Render(items[0]);
      var tail := if items[1..] == [] then "]" else "," + G.ItemsText(more);
      assert tail == T.RenderMore(items[1..]) + "]";
      assert G.ItemsText(ItemsOf(items)) == "" + (text + ("" + tail));
      Unspaced(text, tail);
      RenderUnfolds(items);
      ClosingLast(text, T.RenderMore(items[1..]), "]");
    }
  }

  lemma RenderUnfolds(items: seq<T.Doc>)
    requires items != []
    ensures T.RenderItems(items) == T.Render(items[0]) + T.RenderMore(items[1..])
    ensures T.RenderMore(items) == "," + T.Render(items[0]) + T.RenderMore(items[1..])
  {
    hide T.Render;
  }

  lemma Unspaced(text: string, tail: string)
    ensures "" + (text + ("" + tail)) == text + tail
  {
  }

  lemma ClosingLast(a: string, b: string, close: string)
    ensures a + (b + close) == a + b + close && "," + (a + (b + close)) == "," + a + b + close
  {
  }

  lemma MembersUnfold(members: seq<T.Member>)
    requires members != []
    ensures T.RenderMembers(members) == T.RenderMember(members[0]) + T.RenderMoreMembers(members[1..])
    ensures T.RenderMoreMembers(members) == "," + T.RenderMember(members[0]) + T.RenderMoreMembers(members[1..])
  {
    hide T.RenderMember;
  }

  lemma MemberUnspaced(m: G.Member, text: string, tail: string)
    requires m.before == "" && m.afterKey == "" && m.beforeValue == ""
    ensures G.MemberHead(m) + (text + ("" + tail)) == G.StringText(m.key) + ":" + text + tail
  {
    hide G.StringText;
  }

  lemma {:induction false} MembersDerived(members: seq<T.Member>)
    ensures (members == [] <==> MembersOf(members) == []) && G.MembersOk(MembersOf(members))
    ensures members != [] ==> G.MembersText(MembersOf(members)) == T.RenderMembers(members) + "}"
    ensures members != [] ==> "," + G.MembersText(MembersOf(members)) == T.RenderMoreMembers(members) + "}"
    ensures G.MembersNesting(MembersOf(members)) == T.MembersDepth(members)
    decreases members
  {
    hide T.Render, DerivationOf, G.Ok, G.TextOf, G.Nesting, T.Depth, T.Escape, CharsOf, G.CharsText, G.CharsOk,
         T.RenderMembers, T.RenderMoreMembers, G.MemberHead;
    if members == [] {
      T.NothingToRender();
    } else {
      var m, more := members[0], MembersOf(members[1..]);
      RenderDerived(m.value);
      EscapeDerived(m.key);
      MembersDerived(members[1..]);
      assert MembersOf(members)[1..] == more;
      T.NothingToRender();
      var text := T.Render(m.value);
      var tail := if members[1..] == [] then "}" else "," + G.MembersText(more);
      assert tail == T.RenderMoreMembers(members[1..]) + "}";
      MemberUnspaced(MembersOf(members)[0], text, tail);
      MembersUnfold(members);
      ClosingLast(T.RenderMember(m), T.RenderMoreMembers(members[1..]), "}");
    }
  }

  /** Every well-nested sequence of writer calls leaves text the strict validator accepts, exactly when
      nesting does not go beyond its limit. */
  lemma WrittenDocumentIsValid(ops: seq<T.Op>)
    requires T.TakeAll(ops).Complete?
    ensures Valid(T.WriteAll(ops).out) <==> T.Depth(T.TakeAll(ops).doc) <= MAX_DEPTH
  {
    hide T.TakeAll, T.WriteAll, T.Render;
    T.WriterRenders(ops);
    RenderIsValid(T.TakeAll(ops).doc);
  }

  lemma RenderIsValid(d: T.Doc)
    ensures Valid(T.Render(d)) <==> T.Depth(d) <= MAX_DEPTH
  {
    hide CheckValue, T.Render, G.Ok, G.TextOf, G.Nesting, T.Depth, DerivationOf;
    RenderDerived(d);
    T.StartsAValue(d, "");
    ValueComplete(DerivationOf(d), "", 0);
    assert T.Render(d) + "" == T.Render(d);
  }

  /** A quoted string is a valid text, whatever bytes went in. */
  lemma QuotedStringIsValid(s: string)
    ensures Valid(T.Quote(s))
  {
    hide T.Quote;
    assert T.Render(T.Text(s)) == T.Quote(s);
    RenderIsValid(T.Text(s));
  }
}
