/** The request the supervisor hands the userland loader: `make_load_request`
    (src/engines/rootless/supervisor.cpp) and the checks and bounded string reads of the loader
    (src/engines/rootless/loader/loader.c). */
module LoadRequest {
  import opened CStrings
  import opened GuestPath
  import opened Words
  import opened Wrappers

  const MAGIC: nat := 0x4c504856
  const VERSION: nat := 1
  const MAX_SIZE: nat := 16384
  const HEADER: nat := 32
  const WORD: nat := 0x1_0000_0000

  /** What a request carries. */
  datatype Names = Names(program: string, interp: Option<string>, execfn: string, task: string) {
    predicate Clean() {
      NulFree(program) && (interp.Some? ==> NulFree(interp.value)) && NulFree(execfn) && NulFree(task)
    }
  }

  /** The last component of the path given to execve, as the kernel derives it. */
  function TaskName(execfn: string): string {
    var parts := Components(execfn);
    if parts == [] then execfn else parts[|parts| - 1]
  }

  /** The name behind the last slash, whatever stands in front, and slashes or dots behind it. */
  lemma TaskIsLastName(front: string, name: string, back: string)
    requires ValidComponent(name) && (front == "" || front[|front| - 1] == '/')
    requires IsRest(back) && Components(back) == []
    ensures TaskName(front + name + back) == name
  {
    hide Components;
    LastOf(front, name, back);
  }

  lemma Spread(before: string, name: string, back: string)
    ensures before + "/" + name + back == before + ("/" + (name + back))
  {
  }

  lemma LastOf(front: string, name: string, back: string)
    requires ValidComponent(name) && (front == "" || front[|front| - 1] == '/')
    requires IsRest(back) && Components(back) == []
    ensures exists before :: Components(front + name + back) == before + [name]
  {
    hide Components, ValidComponent;
    NameThen(name, back);
    if front == "" {
      assert front + name + back == name + back && [] + [name] == [name];
    } else {
      var before := front[..|front| - 1];
      assert front == before + "/";
      Spread(before, name, back);
      ComponentsConcat(before, "/" + (name + back));
      SlashThen(name + back);
      assert Components(front + name + back) == Components(before) + [name];
    }
  }

  lemma NameThen(name: string, back: string)
    requires ValidComponent(name) && IsRest(back) && Components(back) == []
    ensures Components(name + back) == [name]
  {
    hide Components, Keep;
    ComponentsRun(name, back);
    KeepOne(name);
    assert [name] + [] == [name];
  }

  // ---- writing ----

  function CString(s: string): string {
    s + [NUL]
  }

  function InterpText(n: Names): string {
    if n.interp.Some? then CString(n.interp.value) else ""
  }

  function Body(n: Names): string {
    CString(n.program) + InterpText(n) + CString(n.execfn) + CString(n.task)
  }

  function Size(n: Names): nat {
    HEADER + |Body(n)|
  }

  function U32(x: nat): string {
    Le(x, 4)
  }

  /** Conversion to `uint32_t`. */
  function Truncated(x: nat): nat {
    x % WORD
  }

  datatype Header = Header(total: nat, program: nat, interp: nat, execfn: nat, name: nat)

  function WordsText(words: seq<nat>): (s: string)
    ensures |s| == 4 * |words|
  {
    if words == [] then "" else U32(words[0]) + WordsText(words[1..])
  }

  function HeaderText(h: Header): (s: string)
    ensures |s| == HEADER
  {
    WordsText([MAGIC, VERSION, h.total, h.program, h.interp, h.execfn, h.name, 0])
  }

  /** Where the strings stand, from the start of the header; 0 for an absent one. */
  function Layout(n: Names): Header {
    var p, i := HEADER + |n.program| + 1, |InterpText(n)|;
    Header(Truncated(Size(n)), HEADER, if n.interp.Some? then Truncated(p) else 0, Truncated(p + i),
           Truncated(p + i + |n.execfn| + 1))
  }

  function Request(n: Names): string {
    if Truncated(Size(n)) > MAX_SIZE then "" else HeaderText(Layout(n)) + Body(n)
  }

  /** `add`. */
  method Add(body: string, s: string) returns (off: nat, longer: string)
    ensures off == Truncated(HEADER + |body|) && longer == body + CString(s)
  {
    off := Truncated(HEADER + |body|);
    longer := body + s;
    longer := longer + [NUL];
  }

  /** `make_load_request`. */
  method MakeLoadRequest(program: string, viaLoader: bool, loader: string, execfn: string) returns (out: string)
    ensures out == Request(Names(program, if viaLoader then Some(loader) else None, execfn, TaskName(execfn)))
  {
    hide Le, Components, HeaderText;
    ghost var n := Names(program, if viaLoader then Some(loader) else None, execfn, TaskName(execfn));
    var name := TaskName(execfn);
    var programOff, body := Add("", program);
    var interpOff := 0;
    if viaLoader {
      interpOff, body := Add(body, loader);
    }
    assert body == CString(program) + InterpText(n);
    var execfnOff, nameOff;
    execfnOff, body := Add(body, execfn);
    nameOff, body := Add(body, name);
    assert body == Body(n);
    var total := Truncated(HEADER + |body|);
    if total > MAX_SIZE {
      return "";
    }
    out := HeaderText(Header(total, programOff, interpOff, execfnOff, nameOff));
    out := out + body;
  }

  // ---- reading ----

  function FirstNul(s: string): (i: nat)
    ensures i <= |s| && (i < |s| ==> s[i] == NUL) && forall k :: 0 <= k < i ==> s[k] != NUL
  {
    if s == "" || s[0] == NUL then 0 else 1 + FirstNul(s[1..])
  }

  /** The string at an offset, if it lies wholly inside the request. */
  function StringAt(req: string, off: nat): Option<string> {
    if off == 0 || off < HEADER || off >= |req| || FirstNul(req[off..]) == |req[off..]| then None
    else Some(req[off..][..FirstNul(req[off..])])
  }

  /** `req_str`. */
  method ReqStr(req: string, off: nat) returns (s: Option<string>)
    ensures s == StringAt(req, off)
  {
    if off == 0 || off < HEADER || off >= |req| {
      return None;
    }
    for i := off to |req|
      invariant forall k :: off <= k < i ==> req[k] != NUL
    {
      if req[i] == NUL {
        assert req[off..][i - off] == NUL;
        assert FirstNul(req[off..]) == i - off by { FirstNulIs(req[off..], i - off); }
        assert req[off..i] == req[off..][..i - off];
        return Some(req[off..i]);
      }
    }
    return None;
  }

  lemma FirstNulIs(s: string, i: nat)
    requires i < |s| && s[i] == NUL && forall k :: 0 <= k < i ==> s[k] != NUL
    ensures FirstNul(s) == i
  {
  }

  function Field(req: string, k: nat): nat
    requires 4 * k + 4 <= |req|
  {
    FromLe(req[4 * k..4 * k + 4])
  }

  /** The checks at the start of `vhdp_loader_main`, and the strings it goes on with. */
  function Accept(req: string): Option<Names> {
    if |req| < HEADER || |req| > MAX_SIZE || Field(req, 0) != MAGIC || Field(req, 1) != VERSION ||
       Field(req, 2) != |req| || Field(req, 7) != 0 then None
    else
      var program := StringAt(req, Field(req, 3));
      var interp := if Field(req, 4) != 0 then StringAt(req, Field(req, 4)) else None;
      var execfn := StringAt(req, Field(req, 5));
      var name := StringAt(req, Field(req, 6));
      if program.None? || execfn.None? || name.None? || (Field(req, 4) != 0 && interp.None?) then None
      else Some(Names(program.value, interp, execfn.value, name.value))
  }

  // ---- round trip ----

  lemma {:induction false} FieldOf(words: seq<nat>, more: string, k: nat)
    requires k < |words| && words[k] < WORD
    ensures Field(WordsText(words) + more, k) == words[k]
    decreases k
  {
    hide Le, FromLe;
    var t := WordsText(words) + more;
    if k == 0 {
      WordSizes();
      LeRoundTrip(words[0], 4);
      assert t[0..4] == U32(words[0]);
    } else {
      FieldOf(words[1..], more, k - 1);
      assert t[4 * k..4 * k + 4] == (WordsText(words[1..]) + more)[4 * (k - 1)..4 * (k - 1) + 4];
    }
  }

  lemma HeaderFields(h: Header, body: string)
    requires h.total < WORD && h.program < WORD && h.interp < WORD && h.execfn < WORD && h.name < WORD
    ensures var req := HeaderText(h) + body;
            Field(req, 0) == MAGIC && Field(req, 1) == VERSION && Field(req, 2) == h.total &&
            Field(req, 3) == h.program && Field(req, 4) == h.interp && Field(req, 5) == h.execfn &&
            Field(req, 6) == h.name && Field(req, 7) == 0
  {
    hide Field, U32, WordsText;
    var words := [MAGIC, VERSION, h.total, h.program, h.interp, h.execfn, h.name, 0];
    forall k: nat | k < 8 ensures Field(HeaderText(h) + body, k) == words[k] {
      FieldOf(words, body, k);
    }
  }

  /** A string written between two others is read back by its offset. */
  lemma StringReadBack(before: string, s: string, after: string)
    requires |before| >= HEADER && NulFree(s)
    ensures StringAt(before + CString(s) + after, |before|) == Some(s)
  {
    var req := before + CString(s) + after;
    assert req[|before|..] == CString(s) + after;
    FirstNulIs(req[|before|..], |s|);
    assert req[|before|..][..|s|] == s;
  }

  lemma StringsReadBack(n: Names, head: string)
    requires n.Clean() && |head| == HEADER && Size(n) < WORD
    ensures var req := head + Body(n); var at := Layout(n);
            StringAt(req, at.program) == Some(n.program) &&
            (n.interp.Some? ==> StringAt(req, at.interp) == n.interp) &&
            StringAt(req, at.execfn) == Some(n.execfn) && StringAt(req, at.name) == Some(n.task)
  {
    hide StringAt, NulFree, CString;
    var p, i, e, t := CString(n.program), InterpText(n), CString(n.execfn), CString(n.task);
    CStringLength(n.program);
    CStringLength(n.execfn);
    Regrouped(head, p, i, e, t);
    StringReadBack(head, n.program, i + e + t);
    if n.interp.Some? {
      StringReadBack(head + p, n.interp.value, e + t);
    }
    StringReadBack(head + p + i, n.execfn, t);
    StringReadBack(head + p + i + e, n.task, "");
  }

  lemma CStringLength(s: string)
    ensures |CString(s)| == |s| + 1
  {
  }

  lemma Regrouped(head: string, p: string, i: string, e: string, t: string)
    ensures head + (p + i + e + t) == head + p + (i + e + t)
    ensures head + (p + i + e + t) == (head + p) + i + (e + t)
    ensures head + (p + i + e + t) == (head + p + i) + e + t
    ensures head + (p + i + e + t) == (head + p + i + e) + t + ""
  {
  }

  lemma BodyLength(n: Names)
    ensures |Body(n)| == |n.program| + 1 + |InterpText(n)| + |n.execfn| + 1 + |n.task| + 1
  {
  }

  /** Load request round trip: for NUL-free names the loader accepts what the supervisor builds, and
      recovers exactly the names, if and only if they fit; otherwise it starts nothing. */
  lemma RequestRoundTrip(n: Names)
    requires n.Clean()
    ensures Accept(Request(n)) == if Size(n) <= MAX_SIZE then Some(n) else None
  {
    hide StringAt, Field, NulFree, HeaderText, Body;
    if Size(n) <= MAX_SIZE {
      BodyLength(n);
      HeaderFields(Layout(n), Body(n));
      StringsReadBack(n, HeaderText(Layout(n)));
    }
  }

  /** A non-empty request is refused only past 2^32 bytes, where its 32-bit size wraps round. */
  lemma NonEmptyIsAcceptedIff(n: Names)
    requires n.Clean() && Request(n) != ""
    ensures Accept(Request(n)).Some? <==> Size(n) < WORD
    ensures Accept(Request(n)).Some? ==> Accept(Request(n)).value == n
  {
    hide Accept, Body;
    RequestRoundTrip(n);
  }

  /** A path the kernel takes is shorter than this. */
  const PATH_MAX: nat := 4096

  /** No such request can be asked for: while every path is one the kernel takes, the supervisor gives up
      exactly past the loader's limit, and every request it does build is accepted. */
  lemma PathsAreAccepted(n: Names)
    requires n.Clean() && n.task == TaskName(n.execfn)
    requires |n.program| < PATH_MAX && |n.execfn| < PATH_MAX && (n.interp.Some? ==> |n.interp.value| < PATH_MAX)
    ensures Request(n) == "" <==> Size(n) > MAX_SIZE
    ensures Request(n) != "" ==> Accept(Request(n)) == Some(n)
  {
    hide Accept, Body, Components, NulFree, HeaderText;
    BodyLength(n);
    TaskIsShorter(n.execfn);
    RequestRoundTrip(n);
  }

  lemma {:induction false} PiecesAreShorter(p: string, c: string)
    requires c in Split(p)
    ensures |c| <= |p|
  {
    if p != "" {
      var r := Split(p[1..]);
      if c in r {
        PiecesAreShorter(p[1..], c);
      } else if p[0] != '/' {
        assert r[0] in r;
        PiecesAreShorter(p[1..], r[0]);
      }
    }
  }

  lemma TaskIsShorter(execfn: string)
    ensures |TaskName(execfn)| <= |execfn|
  {
    hide Split, Keep;
    var parts := Components(execfn);
    if parts != [] {
      PiecesAreShorter(execfn, parts[|parts| - 1]);
    }
  }
}
