/** The grammar of JSON texts, sections 2 to 7 of RFC 8259, as derivations with their texts. */
module JsonGrammar {
  import opened Decimal
  import opened JsonScan
  import opened Utf8

  predicate SpaceRun(s: string) {
    forall i :: 0 <= i < |s| ==> IsSpace(s[i])
  }

  // ---- section 6: numbers ----

  predicate DigitRun(s: string) {
    s != "" && AllDigits(s)
  }

  predicate IsInt(s: string) {
    s == "0" || (DigitRun(s) && s[0] != '0')
  }

  predicate IsFrac(s: string) {
    s == "" || (s[0] == '.' && DigitRun(s[1..]))
  }

  predicate IsExp(s: string) {
    s == "" || ((s[0] == 'e' || s[0] == 'E') &&
                (DigitRun(s[1..]) || (|s| > 1 && (s[1] == '+' || s[1] == '-') && DigitRun(s[2..]))))
  }

  // ---- section 7: strings ----

  predicate IsHex(c: char) {
    '0' <= c <= '9' || 'a' <= c <= 'f' || 'A' <= c <= 'F'
  }

  predicate IsEscape(e: char) {
    e == '\"' || e == '\\' || e == '/' || e == 'b' || e == 'f' || e == 'n' || e == 'r' || e == 't'
  }

  datatype Char = Unescaped(u: string) | Escape(e: char) | Unicode(hex: string)

  predicate CharOk(c: Char) {
    match c
    case Unescaped(u) => Utf8Char(u) && u[0] as int >= 0x20 && u[0] != '\"' && u[0] != '\\'
    case Escape(e) => IsEscape(e)
    case Unicode(hex) => |hex| == 4 && IsHex(hex[0]) && IsHex(hex[1]) && IsHex(hex[2]) && IsHex(hex[3])
  }

  function CharText(c: Char): string {
    match c
    case Unescaped(u) => u
    case Escape(e) => ['\\', e]
    case Unicode(hex) => "\\u" + hex
  }

  function CharsText(chars: seq<Char>): string {
    if chars == [] then "" else CharText(chars[0]) + CharsText(chars[1..])
  }

  predicate CharsOk(chars: seq<Char>) {
    forall i :: 0 <= i < |chars| ==> CharOk(chars[i])
  }

  function StringText(chars: seq<Char>): string {
    "\"" + CharsText(chars) + "\""
  }

  // ---- sections 2 to 5: values, objects, arrays ----

  /** `space` stands between the brackets of an empty container. */
  datatype Json =
    | Word(word: string)
    | Number(minus: string, int_: string, frac: string, exp: string)
    | String(chars: seq<Char>)
    | Array(space: string, items: seq<Item>)
    | Object(space: string, members: seq<Member>)

  datatype Item = Item(before: string, value: Json, after: string)

  datatype Member = Member(before: string, key: seq<Char>, afterKey: string, beforeValue: string, value: Json,
                           after: string)

  predicate Ok(j: Json) {
    match j
    case Word(w) => w == "true" || w == "false" || w == "null"
    case Number(minus, int_, frac, exp) => (minus == "" || minus == "-") && IsInt(int_) && IsFrac(frac) && IsExp(exp)
    case String(chars) => CharsOk(chars)
    case Array(space, items) => if items == [] then SpaceRun(space) else ItemsOk(items)
    case Object(space, members) => if members == [] then SpaceRun(space) else MembersOk(members)
  }

  predicate ItemsOk(items: seq<Item>) {
    items != [] ==>
      SpaceRun(items[0].before) && Ok(items[0].value) && SpaceRun(items[0].after) && ItemsOk(items[1..])
  }

  predicate MembersOk(members: seq<Member>) {
    members != [] ==>
      (var m := members[0];
       SpaceRun(m.before) && CharsOk(m.key) && SpaceRun(m.afterKey) && SpaceRun(m.beforeValue) && Ok(m.value) &&
       SpaceRun(m.after)) && MembersOk(members[1..])
  }

  function NumberText(j: Json): string
    requires j.Number?
  {
    j.minus + j.int_ + j.frac + j.exp
  }

  function TextOf(j: Json): string {
    match j
    case Word(w) => w
    case Number(_, _, _, _) => NumberText(j)
    case String(chars) => StringText(chars)
    case Array(space, items) => "[" + (if items == [] then space + "]" else ItemsText(items))
    case Object(space, members) => "{" + (if members == [] then space + "}" else MembersText(members))
  }

  /** The items of an array up to its closing bracket. */
  function ItemsText(items: seq<Item>): string {
    if items == [] then ""
    else
      items[0].before +
      (TextOf(items[0].value) + (items[0].after + (if |items| == 1 then "]" else "," + ItemsText(items[1..]))))
  }

  function MemberHead(m: Member): string {
    m.before + (StringText(m.key) + (m.afterKey + (":" + m.beforeValue)))
  }

  /** The members of an object up to its closing bracket. */
  function MembersText(members: seq<Member>): string {
    if members == [] then ""
    else
      MemberHead(members[0]) +
      (TextOf(members[0].value) +
       (members[0].after + (if |members| == 1 then "}" else "," + MembersText(members[1..]))))
  }

  /** How many containers enclose the most deeply nested value. */
  function Nesting(j: Json): nat {
    match j
    case Array(_, items) => ItemsNesting(items)
    case Object(_, members) => MembersNesting(members)
    case _ => 0
  }

  function ItemsNesting(items: seq<Item>): nat {
    if items == [] then 0 else Max(1 + Nesting(items[0].value), ItemsNesting(items[1..]))
  }

  function MembersNesting(members: seq<Member>): nat {
    if members == [] then 0 else Max(1 + Nesting(members[0].value), MembersNesting(members[1..]))
  }

  /** A JSON text: one value with space around it, at most `limit` containers around any value. */
  ghost predicate IsJsonText(t: string, limit: nat) {
    exists before: string, j: Json, after: string ::
      SpaceRun(before) && Ok(j) && SpaceRun(after) && Nesting(j) <= limit && t == before + TextOf(j) + after
  }

  // ---- first characters ----

  /** A value starts with none of the characters that stand between values. */
  lemma ValueStart(j: Json)
    requires Ok(j)
    ensures TextOf(j) != "" && !IsSpace(TextOf(j)[0]) && TextOf(j)[0] != ']' && TextOf(j)[0] != '}'
  {
    hide ItemsText, MembersText, CharsText;
  }

  // ---- space ----

  /** Space in front is skipped, and nothing else is. */
  lemma {:induction false} SkipRun(s: string, rest: string)
    requires SpaceRun(s) && (rest != "" ==> !IsSpace(rest[0]))
    ensures SkipSpace(s + rest) == rest
    decreases |s|
  {
    if s == "" {
      assert s + rest == rest;
    } else {
      SkipRun(s[1..], rest);
      assert (s + rest)[1..] == s[1..] + rest;
    }
  }

  /** The space in front of a text. */
  lemma {:induction false} SpaceOf(t: string) returns (s: string)
    ensures SpaceRun(s) && t == s + SkipSpace(t)
    decreases |t|
  {
    if t != "" && IsSpace(t[0]) {
      var more := SpaceOf(t[1..]);
      s := [t[0]] + more;
      assert t == [t[0]] + t[1..];
    } else {
      s := "";
    }
  }
}
