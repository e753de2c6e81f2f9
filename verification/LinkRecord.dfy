/** The count record of an emulated hard link: a symlink whose contents are
    "<count>\n<name>\n..." (src/engines/rootless/link_store.cpp, read_record and write_record). */
module LinkRecord {
  import opened Decimal

  const RECORD_MAX: nat := 4095
  const COUNT_LIMIT: nat := 0x7fffffff
  const ULONG_MAX: nat := 0xffff_ffff_ffff_ffff

  datatype Record = Record(count: nat, names: seq<string>)

  /** The names left when one is given up. */
  function Without(names: seq<string>, gone: string): (r: seq<string>)
    ensures forall n :: n in r <==> n in names && n != gone
  {
    if names == [] then [] else (if names[0] == gone then [] else [names[0]]) + Without(names[1..], gone)
  }

  // ---- writing ----

  predicate Skipped(used: nat, name: string) {
    '\n' in name || used + 1 + |name| > RECORD_MAX
  }

  /** The names that find room, in order: an incomplete list is allowed. */
  function Kept(used: nat, names: seq<string>): (r: seq<string>)
    ensures forall n :: n in r ==> n in names && '\n' !in n
    decreases |names|
  {
    if names == [] then []
    else if Skipped(used, names[0]) then Kept(used, names[1..])
    else [names[0]] + Kept(used + 1 + |names[0]|, names[1..])
  }

  function Lined(names: seq<string>): string {
    if names == [] then "" else "\n" + names[0] + Lined(names[1..])
  }

  /** Contents written for a record. */
  function Text(rec: Record): string {
    var head := ToDecimal(rec.count);
    head + Lined(Kept(|head|, rec.names))
  }

  lemma LinedSnoc(names: seq<string>, n: string)
    ensures Lined(names + [n]) == Lined(names) + "\n" + n
  {
    if names == [] {
      assert names + [n] == [n];
      assert Lined([n]) == "\n" + n + Lined([]);
    } else {
      LinedSnoc(names[1..], n);
      assert (names + [n])[1..] == names[1..] + [n];
    }
  }

  lemma KeptStep(used: nat, names: seq<string>, i: nat)
    requires i < |names|
    ensures Skipped(used, names[i]) ==> Kept(used, names[i..]) == Kept(used, names[i + 1..])
    ensures !Skipped(used, names[i]) ==>
              Kept(used, names[i..]) == [names[i]] + Kept(used + 1 + |names[i]|, names[i + 1..])
  {
    assert names[i..][1..] == names[i + 1..];
  }

  /** A name is kept exactly if it has no line break and there is room behind the names kept before it; one that
      is left out does not keep later names out. */
  lemma KeptSnoc(used: nat, names: seq<string>, n: string)
    ensures Kept(used, names + [n]) ==
            Kept(used, names) +
            (if '\n' !in n && used + |Lined(Kept(used, names))| + 1 + |n| <= 4095 then [n] else [])
  {
    hide Kept, Lined;
    KeptMore(used, names, n);
  }

  lemma {:induction false} KeptMore(used: nat, names: seq<string>, n: string)
    ensures Kept(used, names + [n]) ==
            Kept(used, names) + (if Skipped(used + |Lined(Kept(used, names))|, n) then [] else [n])
    decreases |names|
  {
    hide Skipped, Lined;
    var all := names + [n];
    if names == [] {
      LinedEmpty();
      assert all[0] == n && all[1..] == [];
    } else {
      assert all[0] == names[0] && all[1..] == names[1..] + [n];
      if Skipped(used, names[0]) {
        KeptMore(used, names[1..], n);
      } else {
        var more := used + 1 + |names[0]|;
        var rest := Kept(more, names[1..]);
        KeptMore(more, names[1..], n);
        LinedCons(names[0], rest);
        var last := if Skipped(more + |Lined(rest)|, n) then [] else [n];
        assert [names[0]] + (rest + last) == [names[0]] + rest + last;
      }
    }
  }

  lemma LinedCons(n: string, rest: seq<string>)
    ensures |Lined([n] + rest)| == 1 + |n| + |Lined(rest)|
  {
    assert ([n] + rest)[1..] == rest;
  }

  lemma KeptEnd(used: nat, names: seq<string>)
    ensures Kept(used, names[|names|..]) == [] && names[0..] == names
  {
  }

  /** The append loop of `write_record`. */
  method BuildText(rec: Record) returns (body: string)
    ensures body == Text(rec)
  {
    hide Lined, Kept, ToDecimal;
    body := ToDecimal(rec.count);
    ghost var head := body;
    ghost var kept: seq<string> := [];
    ghost var later := Kept(|head|, rec.names);
    LinedEmpty();
    KeptEnd(|head|, rec.names);
    var i := 0;
    while i < |rec.names|
      invariant 0 <= i <= |rec.names|
      invariant body == head + Lined(kept)
      invariant later == Kept(|body|, rec.names[i..])
      invariant Kept(|head|, rec.names) == kept + later
    {
      var name := rec.names[i];
      KeptStep(|body|, rec.names, i);
      if !('\n' in name || |body| + 1 + |name| > RECORD_MAX) {
        LinedSnoc(kept, name);
        body := body + "\n" + name;
        kept, later := kept + [name], later[1..];
      }
      i := i + 1;
    }
    KeptEnd(|body|, rec.names);
    assert kept + [] == kept;
  }

  lemma LinedEmpty()
    ensures Lined([]) == ""
  {
  }

  // ---- reading ----

  /** The lines of a text; always at least one. */
  function Lines(s: string): (r: seq<string>)
    ensures r != []
  {
    if s == "" then [""]
    else
      var r := Lines(s[1..]);
      if s[0] == '\n' then [""] + r else [[s[0]] + r[0]] + r[1..]
  }

  predicate IsSpace(c: char) {
    c == ' ' || '\t' <= c <= '\r'
  }

  function SkipSpace(s: string): string {
    if s != "" && IsSpace(s[0]) then SkipSpace(s[1..]) else s
  }

  /** strtoul(s, &end, 10): the value, or nothing unless the digits reach the end of the text. */
  function StrToUl(s: string): (r: int)
    ensures -1 <= r <= ULONG_MAX
  {
    var t := SkipSpace(s);
    var neg := t != "" && t[0] == '-';
    var digits := if t != "" && (t[0] == '-' || t[0] == '+') then t[1..] else t;
    if digits == "" || !AllDigits(digits) then -1
    else
      var v := FromDecimal(digits);
      if v > ULONG_MAX then ULONG_MAX
      else if neg && v > 0 then ULONG_MAX + 1 - v
      else v
  }

  /** A count outside 1 .. 2^31-2 falls back to the default of one. */
  function CountOf(head: string): nat {
    var n := StrToUl(head);
    if 0 < n < COUNT_LIMIT then n else 1
  }

  /** What strtoul takes for a number: white space, a sign, digits. */
  predicate IsNumber(head: string, spaces: string, sign: string, digits: string) {
    head == spaces + sign + digits && (forall i :: 0 <= i < |spaces| ==> IsSpace(spaces[i])) &&
    sign in {"", "+", "-"} && digits != "" && AllDigits(digits)
  }

  /** The number on the first line, where it is a count that can be; a minus wraps at 2^64. */
  lemma CountIsRead(head: string, spaces: string, sign: string, digits: string)
    requires IsNumber(head, spaces, sign, digits)
    ensures var v := FromDecimal(digits);
            var n := if sign == "-" && 0 < v <= ULONG_MAX then 0x1_0000_0000_0000_0000 - v else v;
            CountOf(head) == if 1 <= n <= 2147483646 then n else 1
  {
    hide FromDecimal;
    assert head == spaces + (sign + digits);
    assert digits[0] != '-' && digits[0] != '+' && !IsSpace(digits[0]);
    SkipSpaceIs(spaces, sign + digits);
    assert sign != "" ==> (sign + digits)[1..] == digits;
    assert "" + digits == digits;
  }

  lemma {:induction false} SkipSpaceIs(spaces: string, rest: string)
    requires forall i :: 0 <= i < |spaces| ==> IsSpace(spaces[i])
    requires rest == "" || !IsSpace(rest[0])
    ensures SkipSpace(spaces + rest) == rest
  {
    if spaces == "" {
      assert spaces + rest == rest;
    } else {
      SkipSpaceIs(spaces[1..], rest);
      assert (spaces + rest)[1..] == spaces[1..] + rest;
    }
  }

  lemma {:induction false} SpaceSkipped(s: string) returns (spaces: string)
    ensures s == spaces + SkipSpace(s) && forall i :: 0 <= i < |spaces| ==> IsSpace(spaces[i])
  {
    if s != "" && IsSpace(s[0]) {
      var more := SpaceSkipped(s[1..]);
      spaces := [s[0]] + more;
      OneMoreInFront(s, more, SkipSpace(s[1..]));
    } else {
      spaces := "";
    }
  }

  lemma OneMoreInFront(s: string, more: string, rest: string)
    requires s != "" && s[1..] == more + rest
    ensures s == [s[0]] + more + rest
  {
  }

  /** A first line that is no number counts one name. */
  lemma NoNumberCountsOne(head: string)
    requires forall spaces, sign, digits :: !IsNumber(head, spaces, sign, digits)
    ensures CountOf(head) == 1
  {
    hide FromDecimal;
    var spaces := SpaceSkipped(head);
    var t := SkipSpace(head);
    if t != "" && (t[0] == '-' || t[0] == '+') {
      assert head == spaces + [t[0]] + t[1..];
      assert !IsNumber(head, spaces, [t[0]], t[1..]);
    } else {
      assert head == spaces + "" + t;
      assert !IsNumber(head, spaces, "", t);
    }
  }

  function NonEmpty(names: seq<string>): seq<string> {
    if names == [] then []
    else (if names[0] == "" then [] else [names[0]]) + NonEmpty(names[1..])
  }

  function Parse(raw: string): Record {
    var lines := Lines(raw);
    Record(CountOf(lines[0]), NonEmpty(lines[1..]))
  }

  lemma {:induction false} LinesSplit(a: string, rest: string)
    requires '\n' !in a
    ensures Lines(a) == [a]
    ensures Lines(a + "\n" + rest) == [a] + Lines(rest)
  {
    if a == "" {
      assert a + "\n" + rest == "\n" + rest;
    } else {
      LinesSplit(a[1..], rest);
      assert (a + "\n" + rest)[1..] == a[1..] + "\n" + rest;
      assert [a[0]] + a[1..] == a;
    }
  }

  /** First index of '\n' at or after `from`, or |s|. */
  method FindNewline(s: string, from: nat) returns (i: nat)
    requires from <= |s|
    ensures from <= i <= |s|
    ensures '\n' !in s[from..i]
    ensures i < |s| ==> s[i] == '\n'
  {
    i := from;
    while i < |s| && s[i] != '\n'
      invariant from <= i <= |s|
      invariant '\n' !in s[from..i]
    {
      assert s[from..i + 1] == s[from..i] + [s[i]];
      i := i + 1;
    }
  }

  lemma LinesFrom(s: string, from: nat, i: nat)
    requires from <= i <= |s|
    requires '\n' !in s[from..i]
    ensures i == |s| ==> Lines(s[from..]) == [s[from..i]]
    ensures i < |s| && s[i] == '\n' ==> Lines(s[from..]) == [s[from..i]] + Lines(s[i + 1..])
  {
    if i == |s| {
      LinesSplit(s[from..i], "");
      assert s[from..] == s[from..i];
    } else if s[i] == '\n' {
      LinesSplit(s[from..i], s[i + 1..]);
      assert s[from..] == s[from..i] + "\n" + s[i + 1..];
    }
  }

  /** The names recorded behind the line break at `at`. */
  function NamesFrom(raw: string, at: nat): seq<string>
    requires at <= |raw|
  {
    if at == |raw| then [] else NonEmpty(Lines(raw[at + 1..]))
  }

  lemma NamesStep(raw: string, at: nat, next: nat)
    requires at < next <= |raw|
    requires '\n' !in raw[at + 1..next]
    requires next < |raw| ==> raw[next] == '\n'
    ensures NamesFrom(raw, at) ==
            (if next == at + 1 then [] else [raw[at + 1..next]]) + NamesFrom(raw, next)
  {
    hide Lines, NonEmpty;
    LinesFrom(raw, at + 1, next);
    var name := raw[at + 1..next];
    NonEmptyCons(name, if next < |raw| then Lines(raw[next + 1..]) else []);
    assert [name] + [] == [name];
  }

  lemma NonEmptyCons(name: string, more: seq<string>)
    ensures NonEmpty([name] + more) == (if name == "" then [] else [name]) + NonEmpty(more)
    ensures NonEmpty([]) == []
  {
    assert ([name] + more)[1..] == more;
  }

  lemma NamesEnd(raw: string)
    ensures NamesFrom(raw, |raw|) == []
  {
  }

  lemma ParseAt(raw: string, nl: nat)
    requires nl <= |raw|
    requires '\n' !in raw[..nl]
    requires nl < |raw| ==> raw[nl] == '\n'
    ensures Parse(raw) == Record(CountOf(raw[..nl]), NamesFrom(raw, nl))
  {
    assert raw[0..] == raw && raw[0..nl] == raw[..nl];
    LinesFrom(raw, 0, nl);
  }

  /** The scanning loop of `read_record`, from the line break at `nl`. */
  method ScanNames(raw: string, nl: nat) returns (names: seq<string>)
    requires nl <= |raw|
    ensures names == NamesFrom(raw, nl)
  {
    hide NamesFrom;
    names := [];
    var at := nl;
    ghost var all := NamesFrom(raw, nl);
    ghost var later := all;
    while at < |raw|
      invariant 0 <= at <= |raw|
      invariant later == NamesFrom(raw, at)
      invariant names + later == all
    {
      var next := FindNewline(raw, at + 1);
      var name := raw[at + 1..next];
      ghost var before := names;
      if name != "" {
        names := names + [name];
      }
      NamesStep(raw, at, next);
      later := NamesFrom(raw, next);
      at := next;
    }
    assert later == [] by { NamesEnd(raw); }
  }

  method ParseText(raw: string) returns (rec: Record)
    ensures rec == Parse(raw)
  {
    var nl := FindNewline(raw, 0);
    assert raw[0..nl] == raw[..nl];
    ParseAt(raw, nl);
    var names := ScanNames(raw, nl);
    rec := Record(CountOf(raw[..nl]), names);
  }

  // ---- reading back what was written ----

  lemma {:induction false} LinesOfLined(head: string, names: seq<string>)
    requires '\n' !in head
    requires forall n :: n in names ==> '\n' !in n
    ensures Lines(head + Lined(names)) == [head] + names
    decreases |names|
  {
    if names == [] {
      LinesSplit(head, "");
      assert head + Lined(names) == head;
    } else {
      assert names[0] in names;
      LinesOfLined(names[0], names[1..]);
      LinesSplit(head, names[0] + Lined(names[1..]));
      assert head + Lined(names) == head + "\n" + (names[0] + Lined(names[1..]));
      assert [names[0]] + names[1..] == names;
    }
  }

  lemma {:induction false} NonEmptyAll(names: seq<string>)
    requires "" !in names
    ensures NonEmpty(names) == names
  {
    if names != [] {
      assert names[0] in names;
      NonEmptyAll(names[1..]);
    }
  }

  /** A record read back has its count, and the names that found room in order. */
  lemma RecordRoundTrip(rec: Record)
    requires 0 < rec.count < COUNT_LIMIT
    requires "" !in rec.names
    ensures Parse(Text(rec)) == Record(rec.count, Kept(|ToDecimal(rec.count)|, rec.names))
    ensures |Text(rec)| <= RECORD_MAX
  {
    hide ToDecimal, Kept, Lined, Lines, CountOf, NonEmpty;
    var head := ToDecimal(rec.count);
    var kept := Kept(|head|, rec.names);
    DecimalHead(rec.count);
    LinesOfLined(head, kept);
    assert ([head] + kept)[0] == head && ([head] + kept)[1..] == kept;
    NonEmptyAll(kept);
    KeptFits(|head|, rec.names);
  }

  /** The count is one line, short, and read back. */
  lemma DecimalHead(n: nat)
    requires 0 < n < COUNT_LIMIT
    ensures CountOf(ToDecimal(n)) == n && '\n' !in ToDecimal(n) && |ToDecimal(n)| <= RECORD_MAX
  {
    hide ToDecimal, FromDecimal;
    var head := ToDecimal(n);
    DecimalRoundTrip(n);
    assert IsDigit(head[0]) && SkipSpace(head) == head;
    Pow10Ten();
    DecimalLength(n, 10);
  }

  lemma Pow10Ten()
    ensures Pow10(10) == 10_000_000_000
  {
    assert Pow10(2) == 100;
    assert Pow10(4) == 10_000;
    assert Pow10(6) == 1_000_000;
    assert Pow10(8) == 100_000_000;
  }

  lemma {:induction false} KeptFits(used: nat, names: seq<string>)
    requires used <= RECORD_MAX
    ensures used + |Lined(Kept(used, names))| <= RECORD_MAX
    decreases |names|
  {
    if names == [] {
    } else if Skipped(used, names[0]) {
      KeptFits(used, names[1..]);
    } else {
      KeptFits(used + 1 + |names[0]|, names[1..]);
      var k := Kept(used + 1 + |names[0]|, names[1..]);
      assert ([names[0]] + k)[1..] == k;
    }
  }

  /** A record in which every name has room and no line break is read back unchanged. */
  lemma {:induction false} KeptAll(used: nat, names: seq<string>)
    requires forall n :: n in names ==> '\n' !in n
    requires used + |Lined(names)| <= RECORD_MAX
    ensures Kept(used, names) == names
    decreases |names|
  {
    if names != [] {
      hide Kept, Lined;
      LinedHead(names);
      KeptAll(used + 1 + |names[0]|, names[1..]);
      KeptHead(used, names);
    }
  }

  lemma LinedHead(names: seq<string>)
    requires names != []
    ensures |Lined(names)| == 1 + |names[0]| + |Lined(names[1..])|
    ensures names[0] in names && forall n :: n in names[1..] ==> n in names
  {
  }

  lemma KeptHead(used: nat, names: seq<string>)
    requires names != [] && !Skipped(used, names[0])
    ensures Kept(used, names) == [names[0]] + Kept(used + 1 + |names[0]|, names[1..])
  {
  }
}
