/** JSON text as json.cpp writes it: string escaping and the streaming `JsonWriter`. */
module JsonText {
  import opened Decimal
  import opened JsonScan
  import opened Utf8

  // ---- strings ----

  function HexDigit(d: nat): (c: char)
    requires d < 16
  {
    "0123456789abcdef"[d]
  }

  /** What the first character of a string is written as, unless a whole UTF-8 sequence is copied. */
  function Escaped(c: char): (e: string)
    ensures |e| != 1
  {
    if c == '\"' then "\\\"" else if c == '\\' then "\\\\" else if c == '\n' then "\\n" else if c == '\r' then "\\r"
    else if c == '\t' then "\\t" else if c as int == 8 then "\\b" else if c as int == 12 then "\\f"
    else if c as int < 0x20 then "\\u00" + [HexDigit(c as int / 16), HexDigit(c as int % 16)]
    else ""
  }

  /** How much of a non-empty string is written at once: a whole UTF-8 sequence, or one stray byte. */
  function Width(s: string): (n: nat)
    requires s != ""
    ensures 1 <= n <= |s|
  {
    if SequenceLength(s) == 0 then 1 else SequenceLength(s)
  }

  /** The text for the first `Width(s)` characters. */
  function Chunk(s: string): string
    requires s != ""
  {
    if Escaped(s[0]) != "" then Escaped(s[0])
    else if SequenceLength(s) == 0 then "\\ufffd"
    else s[..SequenceLength(s)]
  }

  function Escape(s: string): string
    decreases |s|
  {
    if s == "" then "" else Chunk(s) + Escape(s[Width(s)..])
  }

  function Quote(s: string): string {
    "\"" + Escape(s) + "\""
  }

  /** The UTF-8 encoding of U+FFFD. */
  const REPLACEMENT: string := [0xEF as char, 0xBF as char, 0xBD as char]

  /** What the first `Width(s)` characters stand for. */
  function SaneChunk(s: string): string
    requires s != ""
  {
    if SequenceLength(s) == 0 then REPLACEMENT else s[..SequenceLength(s)]
  }

  /** Each byte that does not start a well-formed UTF-8 sequence replaced by U+FFFD. */
  function Sanitised(s: string): string
    decreases |s|
  {
    if s == "" then "" else SaneChunk(s) + Sanitised(s[Width(s)..])
  }

  lemma {:induction false} SanitisedIsValid(s: string)
    ensures ValidUtf8(Sanitised(s))
    decreases |s|
  {
    if s != "" {
      SanitisedIsValid(s[Width(s)..]);
      OneSequence(SaneChunk(s)) by {
        if SequenceLength(s) == 0 { assert Utf8Char(REPLACEMENT); }
      }
      ValidConcat(SaneChunk(s), Sanitised(s[Width(s)..]));
    }
  }

  lemma OneSequence(u: string)
    requires Utf8Char(u)
    ensures ValidUtf8(u)
  {
    assert u + "" == u;
    SequenceLengthOfPrefix(u, "");
  }

  lemma SameFront(a: string, b: string, c: string)
    ensures a + b == a + c <==> b == c
  {
    if a + b == a + c {
      assert (a + b)[|a|..] == b && (a + c)[|a|..] == c;
    }
  }

  /** The first sequence of a string and the rest. */
  lemma SanitisedStep(s: string)
    requires s != ""
    ensures var n := Width(s);
            Sanitised(s) == SaneChunk(s) + Sanitised(s[n..]) && (SequenceLength(s) > 0 ==> SaneChunk(s) == s[..n]) &&
            (ValidUtf8(s) <==> SequenceLength(s) > 0 && ValidUtf8(s[n..]))
  {
    hide SequenceLength;
  }

  lemma NothingSanitised()
    ensures Sanitised("") == "" && ValidUtf8("")
  {
  }

  /** Escaping loses nothing exactly on valid UTF-8. */
  lemma {:induction false} SanitisedIsIdentityIff(s: string)
    ensures Sanitised(s) == s <==> ValidUtf8(s)
    decreases |s|
  {
    hide SequenceLength, Sanitised, ValidUtf8, SaneChunk;
    if s == "" {
      NothingSanitised();
    } else {
      var n := Width(s);
      SanitisedIsIdentityIff(s[n..]);
      SanitisedStep(s);
      assert s == s[..n] + s[n..];
      if SequenceLength(s) > 0 {
        SameFront(s[..n], Sanitised(s[n..]), s[n..]);
      } else if Sanitised(s) == s {
        SanitisedIsValid(s);
      }
    }
  }

  lemma EscapedLong(c: char)
    ensures (c as int < 0x20 || c == '\"' || c == '\\') <==> Escaped(c) != ""
  {
  }

  /** One turn of the escaping loop: what it appends and how far it moves. */
  method EscapeNext(s: string, i: nat) returns (text: string, n: nat)
    requires i < |s|
    ensures text == Chunk(s[i..]) && n == Width(s[i..])
  {
    hide SequenceLength;
    EscapeStep(s, i);
    var c := s[i];
    if c == '\"' { return "\\\"", 1; }
    if c == '\\' { return "\\\\", 1; }
    if c == '\n' { return "\\n", 1; }
    if c == '\r' { return "\\r", 1; }
    if c == '\t' { return "\\t", 1; }
    if c as int == 8 { return "\\b", 1; }
    if c as int == 12 { return "\\f", 1; }
    if c as int < 0x20 {
      return "\\u00" + [HexDigit(c as int / 16), HexDigit(c as int % 16)], 1;
    }
    var k := SeqLen(s, i);
    if k == 0 {
      return "\\ufffd", 1;
    }
    return s[i..i + k], k;
  }

  /** `json_escape_into`. */
  method EscapeInto(before: string, s: string) returns (out: string)
    ensures out == before + Quote(s)
  {
    hide Escape, Chunk, Width, SequenceLength;
    out := before + "\"";
    var i := 0;
    assert s[0..] == s;
    while i < |s|
      invariant i <= |s|
      invariant before + "\"" + Escape(s) == out + Escape(s[i..])
    {
      EscapeStep(s, i);
      var text, n := EscapeNext(s, i);
      assert out + (text + Escape(s[i + n..])) == out + text + Escape(s[i + n..]);
      out := out + text;
      i := i + n;
    }
    assert out == before + "\"" + Escape(s) by { EscapeNothing(s[|s|..]); }
    out := out + "\"";
    assert before + "\"" + Escape(s) + "\"" == before + ("\"" + Escape(s) + "\"");
  }

  lemma EscapeNothing(s: string)
    requires s == ""
    ensures Escape(s) == ""
  {
  }

  lemma EscapeStep(s: string, i: nat)
    requires i < |s|
    ensures s[i..][0] == s[i]
    ensures Escape(s[i..]) == Chunk(s[i..]) + Escape(s[i + Width(s[i..])..])
    ensures Escaped(s[i]) != "" ==> Width(s[i..]) == 1 && Chunk(s[i..]) == Escaped(s[i])
    ensures Escaped(s[i]) == "" && SequenceLength(s[i..]) > 0 ==> Chunk(s[i..]) == s[i..i + SequenceLength(s[i..])]
  {
    hide Escaped, SequenceLength, Escape, Chunk, Width;
    var u := s[i..];
    EscapeHead(u);
    var n, k := Width(u), SequenceLength(u);
    assert u[n..] == s[i + n..];
    assert u[..k] == s[i..i + k];
  }

  lemma EscapeHead(u: string)
    requires u != ""
    ensures Escape(u) == Chunk(u) + Escape(u[Width(u)..])
    ensures Escaped(u[0]) != "" ==> Width(u) == 1 && Chunk(u) == Escaped(u[0])
    ensures Escaped(u[0]) == "" && SequenceLength(u) > 0 ==> Chunk(u) == u[..SequenceLength(u)]
  {
    hide Escaped, SequenceLength;
    if Escaped(u[0]) != "" {
      OneCharacter(u);
    }
  }

  /** An escaped character is an ASCII one. */
  lemma OneCharacter(u: string)
    requires u != "" && Escaped(u[0]) != ""
    ensures SequenceLength(u) == 1
  {
    hide Escaped, SequenceLength;
    assert u[0] as int < 0x80 by { EscapedLong(u[0]); }
    assert Utf8Char(u[..1]);
    SequenceLengthUnique(u, 1);
  }

  // ---- documents ----

  datatype Member = Member(key: string, value: Doc)

  /** What a writer is asked to write; `raw` is not part of it. */
  datatype Doc =
    | Null | Flag(flag: bool) | Number(number: int) | Text(text: string)
    | Array(items: seq<Doc>) | Object(members: seq<Member>)

  function NumberText(n: int): string {
    if n < 0 then "-" + ToDecimal(-n) else ToDecimal(n)
  }

  /** The number that decimal text with an optional minus stands for. */
  function NumberOf(text: string): int
    requires text != "" && AllDigits(if text[0] == '-' then text[1..] else text)
  {
    if text[0] == '-' then 0 - FromDecimal(text[1..]) else FromDecimal(text)
  }

  /** A number is written as decimal text of its value, without a leading zero. */
  lemma NumberTextValue(n: int)
    ensures var text := NumberText(n);
            text != "" && AllDigits(if text[0] == '-' then text[1..] else text) && NumberOf(text) == n &&
            var digits := if n < 0 then text[1..] else text;
            digits != "" && (digits[0] == '0' ==> digits == "0" && n == 0)
  {
    hide ToDecimal, FromDecimal;
    var m := if n < 0 then -n else n;
    DecimalRoundTrip(m);
    NoLeadingZero(m);
    assert n < 0 ==> NumberText(n)[1..] == ToDecimal(m);
  }

  lemma {:induction false} NoLeadingZero(n: nat)
    ensures ToDecimal(n)[0] == '0' ==> n == 0 && ToDecimal(n) == "0"
  {
    if n >= 10 {
      NoLeadingZero(n / 10);
    }
  }

  function Render(d: Doc): string {
    match d
    case Null => "null"
    case Flag(b) => if b then "true" else "false"
    case Number(n) => NumberText(n)
    case Text(s) => Quote(s)
    case Array(items) => "[" + RenderItems(items) + "]"
    case Object(members) => "{" + RenderMembers(members) + "}"
  }

  function RenderItems(items: seq<Doc>): string {
    if items == [] then "" else Render(items[0]) + RenderMore(items[1..])
  }

  function RenderMore(items: seq<Doc>): string {
    if items == [] then "" else "," + Render(items[0]) + RenderMore(items[1..])
  }

  function RenderMember(m: Member): string {
    Quote(m.key) + ":" + Render(m.value)
  }

  function RenderMembers(members: seq<Member>): string {
    if members == [] then "" else RenderMember(members[0]) + RenderMoreMembers(members[1..])
  }

  function RenderMoreMembers(members: seq<Member>): string {
    if members == [] then "" else "," + RenderMember(members[0]) + RenderMoreMembers(members[1..])
  }

  lemma NothingToRender()
    ensures RenderItems([]) == "" && RenderMore([]) == "" && RenderMembers([]) == "" && RenderMoreMembers([]) == ""
  {
  }

  /** How many containers enclose the most deeply nested value. */
  function Depth(d: Doc): nat {
    match d
    case Array(items) => ItemsDepth(items)
    case Object(members) => MembersDepth(members)
    case _ => 0
  }

  function ItemsDepth(items: seq<Doc>): nat {
    if items == [] then 0 else Max(1 + Depth(items[0]), ItemsDepth(items[1..]))
  }

  function MembersDepth(members: seq<Member>): nat {
    if members == [] then 0 else Max(1 + Depth(members[0].value), MembersDepth(members[1..]))
  }

  // ---- where a reader stands in written text ----

  /** Written text starts with its value, not with space or a closing bracket. */
  lemma StartsAValue(d: Doc, rest: string)
    ensures Render(d) + rest != "" && SkipSpace(Render(d) + rest) == Render(d) + rest
    ensures !Peek(Render(d) + rest, ']') && !Peek(Render(d) + rest, '}')
  {
    hide ToDecimal, RenderItems, RenderMembers, Escape;
    if d.Number? && d.number >= 0 {
      assert IsDigit(ToDecimal(d.number)[0]);
    }
  }

  lemma ArrayText(items: seq<Doc>, rest: string)
    ensures Render(Array(items)) + rest == "[" + (RenderItems(items) + ("]" + rest))
  {
    hide RenderItems;
  }

  lemma ObjectText(members: seq<Member>, rest: string)
    ensures Render(Object(members)) + rest == "{" + (RenderMembers(members) + ("}" + rest))
  {
    hide RenderMembers;
  }

  lemma FirstItemText(items: seq<Doc>, rest: string)
    requires items != []
    ensures RenderItems(items) + rest == Render(items[0]) + (RenderMore(items[1..]) + rest)
  {
    hide Render, RenderMore;
    assert RenderItems(items) == Render(items[0]) + RenderMore(items[1..]);
  }

  lemma AfterItem(items: seq<Doc>, rest: string)
    ensures var after := RenderMore(items) + ("]" + rest); Ends(after) && SkipSpace(after) == after
  {
    hide Render;
  }

  lemma NextItem(items: seq<Doc>, rest: string)
    requires items != []
    ensures var after := RenderMore(items) + rest;
            after != "" && after[0] == ',' && after[1..] == RenderItems(items) + rest
  {
    hide Render;
    assert RenderMore(items) == "," + Render(items[0]) + RenderMore(items[1..]);
    assert RenderItems(items) == Render(items[0]) + RenderMore(items[1..]);
  }

  lemma FirstMemberText(members: seq<Member>, rest: string)
    requires members != []
    ensures RenderMembers(members) + rest ==
            Quote(members[0].key) +
            (":" + (Render(members[0].value) + (RenderMoreMembers(members[1..]) + rest)))
  {
    hide Render, RenderMoreMembers, Quote;
    assert RenderMembers(members) == RenderMember(members[0]) + RenderMoreMembers(members[1..]);
  }

  lemma AfterMember(members: seq<Member>, rest: string)
    ensures var after := RenderMoreMembers(members) + ("}" + rest); Ends(after) && SkipSpace(after) == after
  {
    hide RenderMember;
  }

  lemma NextMember(members: seq<Member>, rest: string)
    requires members != []
    ensures var after := RenderMoreMembers(members) + rest;
            after != "" && after[0] == ',' && after[1..] == RenderMembers(members) + rest
  {
    hide RenderMember;
    assert RenderMoreMembers(members) == "," + RenderMember(members[0]) + RenderMoreMembers(members[1..]);
    assert RenderMembers(members) == RenderMember(members[0]) + RenderMoreMembers(members[1..]);
  }

  // ---- the writer ----

  datatype Op =
    | BeginObject | EndObject | BeginArray | EndArray | Key(key: string)
    | WriteText(text: string) | WriteNumber(number: int) | WriteFlag(flag: bool) | WriteNull

  /** The fields of `JsonWriter`. */
  datatype Fields = Fields(out: string, first: seq<bool>, afterKey: bool)

  function BeforeValue(w: Fields): Fields {
    if w.afterKey then w.(afterKey := false)
    else if w.first == [] then w
    else Fields(if w.first[|w.first| - 1] then w.out else w.out + ",", w.first[|w.first| - 1 := false], false)
  }

  function Open(w: Fields, bracket: string): Fields {
    var v := BeforeValue(w);
    Fields(v.out + bracket, v.first + [true], v.afterKey)
  }

  function Close(w: Fields, bracket: string): Fields {
    Fields(w.out + bracket, if w.first == [] then [] else w.first[..|w.first| - 1], w.afterKey)
  }

  function Put(w: Fields, text: string): Fields {
    var v := BeforeValue(w);
    v.(out := v.out + text)
  }

  function Write(w: Fields, op: Op): Fields {
    match op
    case BeginObject => Open(w, "{")
    case EndObject => Close(w, "}")
    case BeginArray => Open(w, "[")
    case EndArray => Close(w, "]")
    case Key(k) => Put(w, Quote(k) + ":").(afterKey := true)
    case WriteText(s) => Put(w, Quote(s))
    case WriteNumber(n) => Put(w, NumberText(n))
    case WriteFlag(b) => Put(w, if b then "true" else "false")
    case WriteNull => Put(w, "null")
  }

  class JsonWriter {
    var out: string
    var first: seq<bool>
    var afterKey: bool

    function View(): Fields
      reads this
    {
      Fields(out, first, afterKey)
    }

    constructor ()
      ensures View() == Fields("", [], false)
    {
      out, first, afterKey := "", [], false;
    }

    method PrepareValue()
      modifies this
      ensures View() == BeforeValue(old(View()))
    {
      if afterKey {
        afterKey := false;
        return;
      }
      if |first| > 0 {
        if !first[|first| - 1] {
          out := out + ",";
        }
        first := first[|first| - 1 := false];
      }
    }

    method BeginObject()
      modifies this
      ensures View() == Write(old(View()), Op.BeginObject)
    {
      PrepareValue();
      out := out + "{";
      first := first + [true];
    }

    method EndObject()
      modifies this
      ensures View() == Write(old(View()), Op.EndObject)
    {
      out := out + "}";
      if |first| > 0 {
        first := first[..|first| - 1];
      }
    }

    method BeginArray()
      modifies this
      ensures View() == Write(old(View()), Op.BeginArray)
    {
      PrepareValue();
      out := out + "[";
      first := first + [true];
    }

    method EndArray()
      modifies this
      ensures View() == Write(old(View()), Op.EndArray)
    {
      out := out + "]";
      if |first| > 0 {
        first := first[..|first| - 1];
      }
    }

    method Key(k: string)
      modifies this
      ensures View() == Write(old(View()), Op.Key(k))
    {
      hide Quote;
      PrepareValue();
      ghost var was := out;
      out := EscapeInto(out, k);
      out := out + ":";
      assert was + Quote(k) + ":" == was + (Quote(k) + ":");
      afterKey := true;
    }

    method WriteText(s: string)
      modifies this
      ensures View() == Write(old(View()), Op.WriteText(s))
    {
      hide Quote;
      PrepareValue();
      out := EscapeInto(out, s);
    }

    method WriteNumber(n: int)
      modifies this
      ensures View() == Write(old(View()), Op.WriteNumber(n))
    {
      PrepareValue();
      out := out + NumberText(n);
    }

    method WriteFlag(b: bool)
      modifies this
      ensures View() == Write(old(View()), Op.WriteFlag(b))
    {
      PrepareValue();
      out := out + (if b then "true" else "false");
    }

    method WriteNull()
      modifies this
      ensures View() == Write(old(View()), Op.WriteNull)
    {
      PrepareValue();
      out := out + "null";
    }
  }

  // ---- well-nested call sequences ----

  /** An open container, and a member whose key was written. */
  datatype Frame = InArray(items: seq<Doc>) | InObject(members: seq<Member>)
      | AfterKey(members: seq<Member>, key: string)

  /** How far a sequence of calls has come: open containers, one complete document, or a misplaced call. */
  datatype Progress = Building(stack: seq<Frame>) | Complete(doc: Doc) | IllNested

  function Top(stack: seq<Frame>): Frame
    requires stack != []
  {
    stack[|stack| - 1]
  }

  function Under(stack: seq<Frame>): seq<Frame>
    requires stack != []
  {
    stack[..|stack| - 1]
  }

  /** A value may start here. */
  predicate TakesValue(stack: seq<Frame>) {
    stack == [] || !Top(stack).InObject?
  }

  function AddValue(stack: seq<Frame>, d: Doc): Progress {
    if stack == [] then Complete(d)
    else match Top(stack)
      case InArray(items) => Building(Under(stack) + [InArray(items + [d])])
      case AfterKey(members, key) => Building(Under(stack) + [InObject(members + [Member(key, d)])])
      case InObject(_) => IllNested
  }

  function Take(p: Progress, op: Op): Progress {
    if !p.Building? then IllNested
    else match op
      case BeginObject => if TakesValue(p.stack) then Building(p.stack + [InObject([])]) else IllNested
      case BeginArray => if TakesValue(p.stack) then Building(p.stack + [InArray([])]) else IllNested
      case EndObject =>
        if p.stack != [] && Top(p.stack).InObject? then AddValue(Under(p.stack), Object(Top(p.stack).members))
          else IllNested
      case EndArray =>
        if p.stack != [] && Top(p.stack).InArray? then AddValue(Under(p.stack), Array(Top(p.stack).items))
          else IllNested
      case Key(k) =>
        if p.stack != [] && Top(p.stack).InObject? then Building(Under(p.stack) + [AfterKey(Top(p.stack).members, k)])
        else IllNested
      case WriteText(s) => AddValue(p.stack, Text(s))
      case WriteNumber(n) => AddValue(p.stack, Number(n))
      case WriteFlag(b) => AddValue(p.stack, Flag(b))
      case WriteNull => AddValue(p.stack, Null)
  }

  function TakeAll(ops: seq<Op>): Progress {
    if ops == [] then Building([]) else Take(TakeAll(ops[..|ops| - 1]), ops[|ops| - 1])
  }

  function WriteAll(ops: seq<Op>): Fields {
    if ops == [] then Fields("", [], false) else Write(WriteAll(ops[..|ops| - 1]), ops[|ops| - 1])
  }

  // ---- what the writer's fields mean ----

  predicate Empty(f: Frame) {
    match f
    case InArray(items) => items == []
    case InObject(members) => members == []
    case AfterKey(_, _) => false
  }

  function Comma(nonEmpty: bool): string { if nonEmpty then "," else "" }

  function FrameText(f: Frame): string {
    match f
    case InArray(items) => "[" + RenderItems(items)
    case InObject(members) => "{" + RenderMembers(members)
    case AfterKey(members, key) => "{" + RenderMembers(members) + Comma(members != []) + (Quote(key) + ":")
  }

  /** The comma that a value inside `stack` is preceded by. */
  function Separator(stack: seq<Frame>): string {
    Comma(stack != [] && !Top(stack).AfterKey? && !Empty(Top(stack)))
  }

  function StackText(stack: seq<Frame>): string {
    if stack == [] then ""
    else StackText(Under(stack)) + Separator(Under(stack)) + FrameText(Top(stack))
  }

  /** Only the innermost container can still be waiting for its first element. */
  ghost predicate Shows(w: Fields, p: Progress) {
    match p
    case Building(stack) =>
      w.out == StackText(stack) && |w.first| == |stack| &&
      w.afterKey == (stack != [] && Top(stack).AfterKey?) &&
      forall i :: 0 <= i < |stack| ==> w.first[i] == (i == |stack| - 1 && Empty(stack[i]))
    case Complete(d) => w == Fields(Render(d), [], false)
    case IllNested => true
  }

  lemma Regroup(a: string, b: string, c: string, d: string)
    ensures a + (b + c + d) == a + b + c + d && a + "" == a && "" + a == a
  {
  }

  lemma RenderMoreStep(d: Doc, more: seq<Doc>)
    ensures RenderMore([d] + more) == "," + Render(d) + RenderMore(more) && RenderMore([]) == ""
  {
    hide Render;
    assert ([d] + more)[1..] == more;
  }

  lemma {:induction false} RenderMoreSnoc(items: seq<Doc>, d: Doc)
    ensures RenderMore(items + [d]) == RenderMore(items) + "," + Render(d)
    decreases |items|
  {
    hide Render, RenderMore;
    if items == [] {
      RenderMoreStep(d, []);
      assert items + [d] == [d] + [];
      Regroup("," + Render(d), "", "", "");
      Regroup(",", "", "", "");
    } else {
      var rest := items[1..];
      RenderMoreSnoc(rest, d);
      assert items == [items[0]] + rest && items + [d] == [items[0]] + (rest + [d]);
      RenderMoreStep(items[0], rest);
      RenderMoreStep(items[0], rest + [d]);
      Regroup("," + Render(items[0]), RenderMore(rest), ",", Render(d));
    }
  }

  lemma RenderItemsSnoc(items: seq<Doc>, d: Doc)
    ensures RenderItems(items + [d]) == RenderItems(items) + Comma(items != []) + Render(d)
  {
    hide Render, RenderMore;
    var longer := items + [d];
    assert RenderItems(longer) == Render(longer[0]) + RenderMore(longer[1..]);
    if items == [] {
      assert longer[1..] == [];
      NothingToRender();
    } else {
      assert longer[1..] == items[1..] + [d];
      RenderMoreSnoc(items[1..], d);
      assert RenderItems(items) == Render(items[0]) + RenderMore(items[1..]);
      Regroup(Render(items[0]), RenderMore(items[1..]), ",", Render(d));
    }
  }

  lemma RenderMoreMembersStep(m: Member, more: seq<Member>)
    ensures RenderMoreMembers([m] + more) == "," + RenderMember(m) + RenderMoreMembers(more) &&
            RenderMoreMembers([]) == ""
  {
    hide RenderMember;
    assert ([m] + more)[1..] == more;
  }

  lemma {:induction false} RenderMoreMembersSnoc(members: seq<Member>, m: Member)
    ensures RenderMoreMembers(members + [m]) == RenderMoreMembers(members) + "," + RenderMember(m)
    decreases |members|
  {
    hide RenderMember, RenderMoreMembers;
    if members == [] {
      RenderMoreMembersStep(m, []);
      assert members + [m] == [m] + [];
      Regroup("," + RenderMember(m), "", "", "");
      Regroup(",", "", "", "");
    } else {
      var rest := members[1..];
      RenderMoreMembersSnoc(rest, m);
      assert members == [members[0]] + rest && members + [m] == [members[0]] + (rest + [m]);
      RenderMoreMembersStep(members[0], rest);
      RenderMoreMembersStep(members[0], rest + [m]);
      Regroup("," + RenderMember(members[0]), RenderMoreMembers(rest), ",", RenderMember(m));
    }
  }

  lemma RenderMembersSnoc(members: seq<Member>, m: Member)
    ensures RenderMembers(members + [m]) == RenderMembers(members) + Comma(members != []) + RenderMember(m)
  {
    hide RenderMember, RenderMoreMembers;
    var longer := members + [m];
    assert RenderMembers(longer) == RenderMember(longer[0]) + RenderMoreMembers(longer[1..]);
    if members == [] {
      assert longer[1..] == [];
      NothingToRender();
    } else {
      assert longer[1..] == members[1..] + [m];
      RenderMoreMembersSnoc(members[1..], m);
      assert RenderMembers(members) == RenderMember(members[0]) + RenderMoreMembers(members[1..]);
      Regroup(RenderMember(members[0]), RenderMoreMembers(members[1..]), ",", RenderMember(m));
    }
  }

  lemma StackTextPush(stack: seq<Frame>, f: Frame)
    ensures StackText(stack + [f]) == StackText(stack) + Separator(stack) + FrameText(f)
  {
    assert Under(stack + [f]) == stack;
  }

  /** The fields between `before_value` and the value itself. */
  predicate Ready(v: Fields, stack: seq<Frame>) {
    v.out == StackText(stack) + Separator(stack) && |v.first| == |stack| && !v.afterKey &&
    forall i :: 0 <= i < |stack| ==> !v.first[i]
  }

  lemma BeforeValueReady(w: Fields, stack: seq<Frame>)
    requires Shows(w, Building(stack)) && TakesValue(stack)
    ensures Ready(BeforeValue(w), stack)
  {
    hide StackText;
  }

  /** A value written into a container, or as the document. */
  lemma AddValueShows(v: Fields, stack: seq<Frame>, d: Doc)
    requires Ready(v, stack) && TakesValue(stack)
    ensures Shows(v.(out := v.out + Render(d)), AddValue(stack, d))
  {
    hide StackText, Render, RenderItems, RenderMembers, RenderMember;
    if stack == [] {
      assert StackText([]) == "" by { StackTextEmpty(); }
      return;
    }
    var below := Under(stack);
    assert stack == below + [Top(stack)];
    StackTextPush(below, Top(stack));
    match Top(stack)
    case InArray(items) =>
      RenderItemsSnoc(items, d);
      StackTextPush(below, InArray(items + [d]));
      ArrayGrows(StackText(below) + Separator(below), RenderItems(items), Separator(stack), Render(d));
    case AfterKey(members, key) =>
      RenderMembersSnoc(members, Member(key, d));
      StackTextPush(below, InObject(members + [Member(key, d)]));
      MemberGrows(StackText(below) + Separator(below), RenderMembers(members), Comma(members != []), key, d);
  }

  lemma StackTextEmpty()
    ensures StackText([]) == ""
  {
  }

  lemma ArrayGrows(a: string, items: string, comma: string, d: string)
    ensures a + ("[" + items) + comma + d == a + ("[" + (items + comma + d))
  {
  }

  lemma MemberGrows(a: string, members: string, comma: string, key: string, d: Doc)
    ensures a + ("{" + members + comma + (Quote(key) + ":")) + "" + Render(d) ==
            a + ("{" + (members + comma + RenderMember(Member(key, d))))
  {
    hide Quote, Render;
    assert RenderMember(Member(key, d)) == Quote(key) + ":" + Render(d);
  }

  lemma OpenShows(w: Fields, stack: seq<Frame>, f: Frame)
    requires Shows(w, Building(stack)) && TakesValue(stack) && (f == InArray([]) || f == InObject([]))
    ensures Shows(Open(w, if f.InArray? then "[" else "{"), Building(stack + [f]))
  {
    hide StackText;
    BeforeValueReady(w, stack);
    StackTextPush(stack, f);
    assert RenderItems([]) == "" && RenderMembers([]) == "";
  }

  /** The document a container holds when it is closed. */
  function Closed(f: Frame): Doc
    requires !f.AfterKey?
  {
    if f.InArray? then Array(f.items) else Object(f.members)
  }

  function Bracket(f: Frame): string { if f.InArray? then "]" else "}" }

  lemma ClosedText(f: Frame)
    requires !f.AfterKey?
    ensures FrameText(f) + Bracket(f) == Render(Closed(f))
  {
    hide RenderItems, RenderMembers;
  }

  /** A closed container is the value of the place it was opened in. */
  lemma CloseShows(w: Fields, stack: seq<Frame>)
    requires stack != [] && Shows(w, Building(stack)) && !Top(stack).AfterKey? && TakesValue(Under(stack))
    ensures Shows(Close(w, Bracket(Top(stack))), AddValue(Under(stack), Closed(Top(stack))))
  {
    hide StackText, Shows, AddValue, FrameText, Render, Closed, Bracket, Separator, TakesValue;
    var below := Under(stack);
    assert stack == below + [Top(stack)];
    StackTextPush(below, Top(stack));
    ShowsStack(w, stack);
    var v := Fields(StackText(below) + Separator(below), w.first[..|w.first| - 1], false);
    assert Ready(v, below);
    AddValueShows(v, below, Closed(Top(stack)));
    ClosedText(Top(stack));
    assert v.out + FrameText(Top(stack)) + Bracket(Top(stack)) == v.out + (FrameText(Top(stack)) + Bracket(Top(stack)));
    assert Close(w, Bracket(Top(stack))) == v.(out := v.out + Render(Closed(Top(stack))));
  }

  lemma ShowsStack(w: Fields, stack: seq<Frame>)
    requires Shows(w, Building(stack))
    ensures w.out == StackText(stack) && |w.first| == |stack|
    ensures w.afterKey == (stack != [] && Top(stack).AfterKey?)
    ensures forall i :: 0 <= i < |stack| - 1 ==> !w.first[i]
  {
  }

  lemma KeyShows(w: Fields, stack: seq<Frame>, k: string)
    requires stack != [] && Shows(w, Building(stack)) && Top(stack).InObject?
    ensures Shows(Write(w, Key(k)), Building(Under(stack) + [AfterKey(Top(stack).members, k)]))
  {
    hide StackText, Quote, RenderMembers, Render;
    var below := Under(stack);
    assert stack == below + [Top(stack)];
    StackTextPush(below, Top(stack));
    StackTextPush(below, AfterKey(Top(stack).members, k));
    var v := BeforeValue(w);
    assert v.out == StackText(stack) + Comma(Top(stack).members != []);
    KeyGrows(StackText(below) + Separator(below), RenderMembers(Top(stack).members), Comma(Top(stack).members != []),
             Quote(k) + ":");
  }

  lemma KeyGrows(a: string, members: string, comma: string, key: string)
    ensures a + ("{" + members) + comma + key == a + ("{" + members + comma + key)
  {
  }

  /** Containers are only opened where a value may start. */
  ghost predicate Stacked(stack: seq<Frame>) {
    forall i :: 0 <= i < |stack| - 1 ==> !stack[i].InObject?
  }

  lemma WriteShows(w: Fields, p: Progress, op: Op)
    requires Shows(w, p) && (p.Building? ==> Stacked(p.stack))
    ensures Shows(Write(w, op), Take(p, op))
    ensures Take(p, op).Building? ==> Stacked(Take(p, op).stack)
  {
    hide Shows, StackText, Render, Quote, NumberText;
    if Take(p, op).IllNested? {
      assert Shows(Write(w, op), IllNested) by { IllNestedShows(Write(w, op)); }
      return;
    }
    var stack := p.stack;
    match op
    case BeginObject => OpenShows(w, stack, InObject([]));
    case BeginArray => OpenShows(w, stack, InArray([]));
    case EndObject => CloseShows(w, stack);
    case EndArray => CloseShows(w, stack);
    case Key(k) => KeyShows(w, stack, k);
    case WriteText(s) => PutShows(w, stack, Text(s));
    case WriteNumber(n) => PutShows(w, stack, Number(n));
    case WriteFlag(b) => PutShows(w, stack, Flag(b));
    case WriteNull => PutShows(w, stack, Null);
  }

  lemma IllNestedShows(w: Fields)
    ensures Shows(w, IllNested)
  {
  }

  lemma PutShows(w: Fields, stack: seq<Frame>, d: Doc)
    requires Shows(w, Building(stack)) && TakesValue(stack) && !d.Array? && !d.Object?
    ensures Render(d) == match d
                         case Null => "null"
                         case Flag(b) => if b then "true" else "false"
                         case Number(n) => NumberText(n)
                         case Text(s) => Quote(s)
                         case _ => ""
    ensures Shows(Put(w, Render(d)), AddValue(stack, d))
  {
    hide Shows, StackText, Quote, NumberText, Ready;
    BeforeValueReady(w, stack);
    AddValueShows(BeforeValue(w), stack, d);
  }

  lemma {:induction false} WriteAllShows(ops: seq<Op>)
    ensures Shows(WriteAll(ops), TakeAll(ops))
    ensures TakeAll(ops).Building? ==> Stacked(TakeAll(ops).stack)
    decreases |ops|
  {
    if ops == [] {
      assert StackText([]) == "";
    } else {
      hide Write, Take, Shows, Stacked;
      WriteAllShows(ops[..|ops| - 1]);
      WriteShows(WriteAll(ops[..|ops| - 1]), TakeAll(ops[..|ops| - 1]), ops[|ops| - 1]);
    }
  }

  /** Every well-nested sequence of calls leaves exactly the text of the document it describes. */
  lemma WriterRenders(ops: seq<Op>)
    requires TakeAll(ops).Complete?
    ensures WriteAll(ops).out == Render(TakeAll(ops).doc)
  {
    hide WriteAll, TakeAll;
    WriteAllShows(ops);
  }

  // ---- every document can be written ----

  /** The calls that write a document. */
  function Calls(d: Doc): seq<Op> {
    match d
    case Null => [WriteNull]
    case Flag(b) => [WriteFlag(b)]
    case Number(n) => [WriteNumber(n)]
    case Text(s) => [WriteText(s)]
    case Array(items) => [Op.BeginArray] + ItemCalls(items) + [Op.EndArray]
    case Object(members) => [Op.BeginObject] + MemberCalls(members) + [Op.EndObject]
  }

  function ItemCalls(items: seq<Doc>): seq<Op> {
    if items == [] then [] else Calls(items[0]) + ItemCalls(items[1..])
  }

  function MemberCalls(members: seq<Member>): seq<Op> {
    if members == [] then [] else [Op.Key(members[0].key)] + Calls(members[0].value) + MemberCalls(members[1..])
  }

  /** The progress that calls make from where earlier calls have come. */
  function TakeFrom(p: Progress, ops: seq<Op>): Progress
    decreases |ops|
  {
    if ops == [] then p else TakeFrom(Take(p, ops[0]), ops[1..])
  }

  lemma {:induction false} TakeFromConcat(p: Progress, a: seq<Op>, b: seq<Op>)
    ensures TakeFrom(p, a + b) == TakeFrom(TakeFrom(p, a), b)
    decreases |a|
  {
    hide Take;
    if a == [] {
      assert a + b == b;
    } else {
      TakeFromConcat(Take(p, a[0]), a[1..], b);
      assert (a + b)[1..] == a[1..] + b;
    }
  }

  lemma TakeOne(p: Progress, op: Op)
    ensures TakeFrom(p, [op]) == Take(p, op)
  {
    hide Take;
    assert [op][1..] == [];
    assert TakeFrom(Take(p, op), []) == Take(p, op);
  }

  lemma {:induction false} TakeAllFrom(ops: seq<Op>)
    ensures TakeAll(ops) == TakeFrom(Building([]), ops)
    decreases |ops|
  {
    hide Take;
    if ops != [] {
      var before := ops[..|ops| - 1];
      TakeAllFrom(before);
      assert ops == before + [ops[|ops| - 1]];
      TakeFromConcat(Building([]), before, [ops[|ops| - 1]]);
      TakeOne(TakeFrom(Building([]), before), ops[|ops| - 1]);
    }
  }

  /** The calls of a document add it wherever a value may start. */
  lemma {:induction false} CallsAddValue(stack: seq<Frame>, d: Doc)
    requires TakesValue(stack)
    ensures TakeFrom(Building(stack), Calls(d)) == AddValue(stack, d)
    decreases d, 0
  {
    hide TakeFrom, ItemCalls, MemberCalls, AddValue, TakesValue;
    match d
    case Array(items) =>
      ItemCallsAdd(stack, [], items);
      assert [] + items == items;
      ArrayCallsAdd(stack, items);
    case Object(members) =>
      MemberCallsAdd(stack, [], members);
      assert [] + members == members;
      ObjectCallsAdd(stack, members);
    case Null => TakeOne(Building(stack), WriteNull);
    case Flag(b) => TakeOne(Building(stack), WriteFlag(b));
    case Number(n) => TakeOne(Building(stack), WriteNumber(n));
    case Text(s) => TakeOne(Building(stack), WriteText(s));
  }

  lemma ArrayCallsAdd(stack: seq<Frame>, items: seq<Doc>)
    requires TakesValue(stack)
    requires TakeFrom(Building(stack + [InArray([])]), ItemCalls(items)) == Building(stack + [InArray(items)])
    ensures TakeFrom(Building(stack), [Op.BeginArray] + ItemCalls(items) + [Op.EndArray]) ==
            AddValue(stack, Array(items))
  {
    hide TakeFrom, ItemCalls, AddValue, TakesValue;
    TakeFromConcat(Building(stack), [Op.BeginArray] + ItemCalls(items), [Op.EndArray]);
    TakeFromConcat(Building(stack), [Op.BeginArray], ItemCalls(items));
    TakeOne(Building(stack), Op.BeginArray);
    TakeOne(Building(stack + [InArray(items)]), Op.EndArray);
    assert Under(stack + [InArray(items)]) == stack;
  }

  lemma ObjectCallsAdd(stack: seq<Frame>, members: seq<Member>)
    requires TakesValue(stack)
    requires TakeFrom(Building(stack + [InObject([])]), MemberCalls(members)) == Building(stack + [InObject(members)])
    ensures TakeFrom(Building(stack), [Op.BeginObject] + MemberCalls(members) + [Op.EndObject]) ==
            AddValue(stack, Object(members))
  {
    hide TakeFrom, MemberCalls, AddValue, TakesValue;
    TakeFromConcat(Building(stack), [Op.BeginObject] + MemberCalls(members), [Op.EndObject]);
    TakeFromConcat(Building(stack), [Op.BeginObject], MemberCalls(members));
    TakeOne(Building(stack), Op.BeginObject);
    TakeOne(Building(stack + [InObject(members)]), Op.EndObject);
    assert Under(stack + [InObject(members)]) == stack;
  }

  lemma {:induction false} ItemCallsAdd(stack: seq<Frame>, before: seq<Doc>, items: seq<Doc>)
    ensures TakeFrom(Building(stack + [InArray(before)]), ItemCalls(items)) ==
            Building(stack + [InArray(before + items)])
    decreases items, 1
  {
    hide Take, Calls;
    if items == [] {
      assert before + items == before;
      assert ItemCalls(items) == [];
    } else {
      var here := stack + [InArray(before)];
      assert Under(here) == stack;
      TakeFromConcat(Building(here), Calls(items[0]), ItemCalls(items[1..]));
      CallsAddValue(here, items[0]);
      ItemCallsAdd(stack, before + [items[0]], items[1..]);
      assert before + [items[0]] + items[1..] == before + items;
    }
  }

  lemma {:induction false} MemberCallsAdd(stack: seq<Frame>, before: seq<Member>, members: seq<Member>)
    ensures TakeFrom(Building(stack + [InObject(before)]), MemberCalls(members)) ==
            Building(stack + [InObject(before + members)])
    decreases members, 1
  {
    hide Calls, TakeFrom;
    if members == [] {
      assert before + members == before;
      assert MemberCalls(members) == [];
      TakeNothing(Building(stack + [InObject(before)]));
    } else {
      var m := members[0];
      var here, inside := stack + [InObject(before)], stack + [AfterKey(before, m.key)];
      assert Under(here) == stack && Under(inside) == stack;
      TakeFromConcat(Building(here), [Op.Key(m.key)] + Calls(m.value), MemberCalls(members[1..]));
      TakeFromConcat(Building(here), [Op.Key(m.key)], Calls(m.value));
      TakeOne(Building(here), Op.Key(m.key));
      CallsAddValue(inside, m.value);
      MemberCallsAdd(stack, before + [m], members[1..]);
      assert Member(m.key, m.value) == m;
      assert before + [m] + members[1..] == before + members;
    }
  }

  lemma TakeNothing(p: Progress)
    ensures TakeFrom(p, []) == p
  {
  }

  /** Every document is the result of a well-nested sequence of calls, so every document can be written. */
  lemma EveryDocumentIsWritten(d: Doc)
    ensures TakeAll(Calls(d)) == Complete(d) && WriteAll(Calls(d)).out == Render(d)
  {
    hide WriteAll, TakeFrom, Calls, Render;
    TakeAllFrom(Calls(d));
    CallsAddValue([], d);
    WriterRenders(Calls(d));
  }
}
