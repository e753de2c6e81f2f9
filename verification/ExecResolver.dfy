/** Planning an execve (src/engines/rootless/exec_resolver.cpp): `#!` expansion, loader indirection, and
    the search for "--argv0" in a dynamic loader. */
module ExecResolver {
  import opened CStrings
  import opened Errno
  import opened GuestPath
  import opened Wrappers

  const MAX_SHEBANG_DEPTH: nat := 4
  const SHEBANG_MAX: nat := 256

  // ---- #! lines ----

  predicate IsBlank(c: char) { c == ' ' || c == '\t' }

  /** How many characters a string starts with that satisfy `p`. */
  function Run(s: string, p: char -> bool): (n: nat)
    ensures n <= |s| && (forall i :: 0 <= i < n ==> p(s[i])) && (n < |s| ==> !p(s[n]))
  {
    if s == "" || !p(s[0]) then 0 else 1 + Run(s[1..], p)
  }

  lemma RunIs(s: string, p: char -> bool, n: nat)
    requires n <= |s| && (forall i :: 0 <= i < n ==> p(s[i])) && (n < |s| ==> !p(s[n]))
    ensures Run(s, p) == n
  {
  }

  function Trimmed(s: string): (t: string)
    ensures t <= s && (t != "" ==> !IsBlank(t[|t| - 1]) && t[|t| - 1] != '\r')
    ensures forall i :: |t| <= i < |s| ==> IsBlank(s[i]) || s[i] == '\r'
  {
    if s != "" && (IsBlank(s[|s| - 1]) || s[|s| - 1] == '\r') then Trimmed(s[..|s| - 1]) else s
  }

  lemma TrimmedIs(s: string, n: nat)
    requires n <= |s| && (n > 0 ==> !IsBlank(s[n - 1]) && s[n - 1] != '\r')
    requires forall i :: n <= i < |s| ==> IsBlank(s[i]) || s[i] == '\r'
    ensures Trimmed(s) == s[..n]
  {
    var t := Trimmed(s);
    assert |t| == n;
  }

  datatype Line = Line(interp: string, arg: Option<string>)

  predicate NotNewline(c: char) { c != '\n' }

  predicate NotNul(c: char) { c != NUL }

  predicate InWord(c: char) { !IsBlank(c) && c != NUL }

  function FirstLine(t: string): string {
    t[..Run(t, NotNewline)]
  }

  function AfterBlanks(s: string): string {
    s[Run(s, IsBlank)..]
  }

  function UntilNul(s: string): string {
    s[..Run(s, NotNul)]
  }

  function Argument(s: string): string {
    UntilNul(Trimmed(AfterBlanks(s)))
  }

  /** The interpreter named by the first line of a file, and its one optional argument. */
  function Shebang(buf: string): Option<Line> {
    if |buf| < 2 || buf[0] != '#' || buf[1] != '!' then None
    else
      var words := AfterBlanks(FirstLine(buf[2..]));
      var n := Run(words, InWord);
      if n == 0 then None
      else
        var arg := Argument(words[n..]);
        Some(Line(words[..n], if arg == "" then None else Some(arg)))
  }

  /** `parse_shebang`. */
  method ParseShebang(buf: string) returns (r: Option<Line>)
    ensures r == Shebang(buf)
  {
    hide Run, FirstLine, AfterBlanks, Argument;
    if |buf| < 2 || buf[0] != '#' || buf[1] != '!' {
      return None;
    }
    var line := ParseLine(buf);
    var i := SkipBlanks(line, 0);
    assert line[0..] == line;
    var start := i;
    ghost var words := line[i..];
    while i < |line| && !IsBlank(line[i]) && line[i] != NUL
      invariant start <= i <= |line| && forall k :: 0 <= k < i - start ==> InWord(words[k])
    {
      i := i + 1;
    }
    RunIs(words, InWord, i - start);
    if i == start {
      return None;
    }
    var interp := line[start..i];
    assert interp == words[..i - start] && line[i..] == words[i - start..];
    var arg := ParseArgument(line, i);
    return Some(Line(interp, if arg == "" then None else Some(arg)));
  }

  method ParseLine(buf: string) returns (line: string)
    requires |buf| >= 2
    ensures line == FirstLine(buf[2..])
  {
    hide Run;
    var end := 2;
    while end < |buf| && buf[end] != '\n'
      invariant 2 <= end <= |buf| && forall k :: 2 <= k < end ==> buf[k] != '\n'
    {
      end := end + 1;
    }
    RunIs(buf[2..], NotNewline, end - 2);
    return buf[2..end];
  }

  method SkipBlanks(line: string, from: nat) returns (i: nat)
    requires from <= |line|
    ensures from <= i <= |line| && line[i..] == AfterBlanks(line[from..])
  {
    hide Run;
    i := from;
    while i < |line| && IsBlank(line[i])
      invariant from <= i <= |line| && forall k :: from <= k < i ==> IsBlank(line[k])
    {
      i := i + 1;
    }
    RunIs(line[from..], IsBlank, i - from);
  }

  method ParseArgument(line: string, from: nat) returns (arg: string)
    requires from <= |line|
    ensures arg == Argument(line[from..])
  {
    hide Run, Trimmed, AfterBlanks;
    var i := SkipBlanks(line, from);
    var aend := |line|;
    while aend > i && (IsBlank(line[aend - 1]) || line[aend - 1] == '\r')
      invariant i <= aend <= |line| && forall k :: aend <= k < |line| ==> IsBlank(line[k]) || line[k] == '\r'
    {
      aend := aend - 1;
    }
    TrimmedIs(line[i..], aend - i);
    var a := line[i..aend];
    assert a == line[i..][..aend - i];
    var nul := 0;
    while nul < |a| && a[nul] != NUL
      invariant nul <= |a| && forall k :: 0 <= k < nul ==> a[k] != NUL
    {
      nul := nul + 1;
    }
    RunIs(a, NotNul, nul);
    return a[..nul];
  }

  predicate OneLine(s: string) {
    forall i :: 0 <= i < |s| ==> s[i] != '\n'
  }

  lemma ArgumentWords(s: string)
    requires OneLine(s)
    ensures NulFree(Argument(s)) && OneLine(Argument(s)) && (Argument(s) != "" ==> !IsBlank(Argument(s)[0]))
  {
    hide Run, Trimmed;
    var t := AfterBlanks(s);
    assert OneLine(t) && (t != "" ==> !IsBlank(t[0]));
    var u := Trimmed(t);
    assert u <= t;
    assert OneLine(u) && (u != "" ==> u[0] == t[0]);
  }

  lemma OneLineSuffix(s: string, n: nat)
    requires OneLine(s) && n <= |s|
    ensures OneLine(s[n..])
  {
  }

  /** An interpreter is one non-empty word on the first line; an argument is never empty; neither holds
      the NUL that would end them early. */
  lemma ShebangWords(buf: string)
    requires Shebang(buf).Some?
    ensures var l := Shebang(buf).value;
            l.interp != "" && NulFree(l.interp) && OneLine(l.interp) &&
            (forall i :: 0 <= i < |l.interp| ==> !IsBlank(l.interp[i])) &&
            (l.arg.Some? ==>
              l.arg.value != "" && NulFree(l.arg.value) && OneLine(l.arg.value) && !IsBlank(l.arg.value[0]))
  {
    hide Run, Argument;
    var line := FirstLine(buf[2..]);
    assert OneLine(line);
    var words := AfterBlanks(line);
    OneLineSuffix(line, Run(line, IsBlank));
    var n := Run(words, InWord);
    assert forall i :: 0 <= i < n ==> InWord(words[..n][i]);
    OneLineSuffix(words, n);
    ArgumentWords(words[n..]);
  }

  // ---- the plan ----

  /** What the host says of a program file: a refusal of any check, or its first bytes and, if it is not a
      script, what the ELF checks say. */
  datatype Elf = Rejected(errno: int) | Static | Dynamic(loader: string)
  datatype Probe = Refused(errno: int) | Opened(guest: string, host: string, head: string, elf: Elf)
  datatype LoaderProbe = LoaderRefused(errno: int) | Loader(guest: string, host: string, argv0: bool)

  /** The host while one execve is planned. */
  datatype Host = Host(program: string -> Probe, loader: string -> LoaderProbe)

  datatype Plan = Plan(hostExec: string, argv: seq<string>, guestProgram: string, guestLoader: string,
                       programArgv: seq<string>, viaLoader: bool, loaderArgv0: bool, depth: nat)

  datatype Result = Error(errno: int) | Ok(plan: Plan)

  /** A path to run and its arguments. */
  datatype Stage = Stage(current: string, argv: seq<string>)

  function Absolute(path: string, cwd: string): string {
    if IsAbsolute(path) then path else JoinPath(cwd, path)
  }

  /** The line a script starts with, if the program at a path is one. */
  function ScriptLine(host: Host, path: string): Option<Line> {
    match host.program(path)
    case Refused(_) => None
    case Opened(_, _, head, _) => Shebang(if |head| < SHEBANG_MAX then head else head[..SHEBANG_MAX])
  }

  /** One `#!` expansion: interpreter, its argument, the script, then the arguments that followed. */
  function Expand(s: Stage, line: Line, cwd: string): Stage {
    Stage(Absolute(line.interp, cwd),
          [line.interp] + (if line.arg.Some? then [line.arg.value] else []) + [s.current] +
          (if s.argv == [] then [] else s.argv[1..]))
  }

  /** The `d`-fold expansion of a stage, if there are that many nested scripts. */
  function Expanded(host: Host, cwd: string, s: Stage, d: nat): Option<Stage> {
    if d == 0 then Some(s)
    else match Expanded(host, cwd, s, d - 1)
      case None => None
      case Some(before) =>
        if ScriptLine(host, before.current).None? then None
        else Some(Expand(before, ScriptLine(host, before.current).value, cwd))
  }

  /** What is handed to the kernel for a program that needs its dynamic loader. */
  function LoaderArgv(argv0: string, passArgv0: bool, program: string, rest: seq<string>): seq<string> {
    [argv0] + (if passArgv0 then ["--argv0", argv0] else []) + [program] + rest
  }

  /** The end of planning, at a program that is not a script. */
  function Final(host: Host, s: Stage, depth: nat): Result {
    match host.program(s.current)
    case Refused(e) => Error(e)
    case Opened(_, _, _, Rejected(e)) => Error(e)
    case Opened(guest, exec, _, Static) => Ok(Plan(exec, s.argv, guest, "", s.argv, false, false, depth))
    case Opened(guest, _, _, Dynamic(path)) =>
      match host.loader(path)
      case LoaderRefused(e) => Error(e)
      case Loader(loader, exec, argv0) =>
        var first := if s.argv == [] then guest else s.argv[0];
        Ok(Plan(exec, LoaderArgv(first, argv0, guest, if s.argv == [] then [] else s.argv[1..]), guest, loader,
                s.argv, true, argv0, depth))
  }

  function Start(guestPath: string, argv: seq<string>, cwd: string): Stage {
    Stage(Absolute(guestPath, cwd), if argv == [] then [guestPath] else argv)
  }

  /** `plan`. */
  method MakePlan(host: Host, guestPath: string, argvIn: seq<string>, cwd: string) returns (r: Result)
    ensures guestPath == "" ==> r == Error(ENOENT)
    ensures guestPath != "" ==>
              if Expanded(host, cwd, Start(guestPath, argvIn, cwd), MAX_SHEBANG_DEPTH + 1).Some? then r == Error(ELOOP)
              else exists d: nat :: d <= MAX_SHEBANG_DEPTH && EndsAt(host, cwd, Start(guestPath, argvIn, cwd), d, r)
  {
    hide Shebang, Expanded, Final, ScriptLine, JoinPath;
    if guestPath == "" {
      return Error(ENOENT);
    }
    var current := Absolute(guestPath, cwd);
    var argv := argvIn;
    if argv == [] {
      argv := [guestPath];
    }
    ghost var start := Start(guestPath, argvIn, cwd);
    var depth := 0;
    var shebangDepth := 0;
    NothingExpanded(host, cwd, start);
    while true
      invariant depth <= MAX_SHEBANG_DEPTH + 1 && shebangDepth == depth && argv != []
      invariant Expanded(host, cwd, start, depth) == Some(Stage(current, argv))
      decreases MAX_SHEBANG_DEPTH + 1 - depth
    {
      if depth > MAX_SHEBANG_DEPTH {
        return Error(ELOOP);
      }
      var probe := host.program(current);
      ScriptLineIs(host, current);
      if probe.Opened? {
        var line := ParseShebang(if |probe.head| < SHEBANG_MAX then probe.head else probe.head[..SHEBANG_MAX]);
        if line.Some? {
          ExpandedStep(host, cwd, start, depth);
          argv := ExpandArgv(Stage(current, argv), line.value, cwd);
          current := Absolute(line.value.interp, cwd);
          shebangDepth := depth + 1;
          depth := depth + 1;
          continue;
        }
      }
      r := Finish(host, Stage(current, argv), shebangDepth);
      EndsHere(host, cwd, start, depth, r);
      return;
    }
  }

  /** The new argument vector of a `#!` expansion. */
  method ExpandArgv(s: Stage, line: Line, cwd: string) returns (next: seq<string>)
    requires s.argv != []
    ensures next == Expand(s, line, cwd).argv
  {
    hide JoinPath;
    next := [line.interp];
    if line.arg.Some? {
      next := next + [line.arg.value];
    }
    next := next + [s.current];
    next := AppendRest(next, s.argv);
  }

  method AppendRest(to: seq<string>, argv: seq<string>) returns (r: seq<string>)
    requires argv != []
    ensures r == to + argv[1..]
  {
    r := to;
    for i := 1 to |argv|
      invariant r == to + argv[1..i]
    {
      r := r + [argv[i]];
    }
    assert argv[1..|argv|] == argv[1..];
  }

  /** The rest of a turn that found no script. */
  method Finish(host: Host, s: Stage, depth: nat) returns (r: Result)
    requires s.argv != []
    ensures r == Final(host, s, depth)
  {
    var probe := host.program(s.current);
    if probe.Refused? {
      return Error(probe.errno);
    }
    if probe.elf.Rejected? {
      return Error(probe.elf.errno);
    }
    if probe.elf.Static? {
      return Ok(Plan(probe.host, s.argv, probe.guest, "", s.argv, false, false, depth));
    }
    var loader := host.loader(probe.elf.loader);
    if loader.LoaderRefused? {
      return Error(loader.errno);
    }
    var finalArgv := [s.argv[0]];
    if loader.argv0 {
      finalArgv := finalArgv + ["--argv0"];
      finalArgv := finalArgv + [s.argv[0]];
    }
    finalArgv := finalArgv + [probe.guest];
    finalArgv := AppendRest(finalArgv, s.argv);
    return Ok(Plan(loader.host, finalArgv, probe.guest, loader.guest, s.argv, true, loader.argv0, depth));
  }

  lemma NothingExpanded(host: Host, cwd: string, start: Stage)
    ensures Expanded(host, cwd, start, 0) == Some(start)
  {
  }

  lemma ScriptLineIs(host: Host, path: string)
    ensures host.program(path).Refused? ==> ScriptLine(host, path).None?
    ensures host.program(path).Opened? ==>
              var head := host.program(path).head;
              ScriptLine(host, path) == Shebang(if |head| < SHEBANG_MAX then head else head[..SHEBANG_MAX])
  {
  }

  lemma ExpandedStep(host: Host, cwd: string, start: Stage, d: nat)
    requires Expanded(host, cwd, start, d).Some?
    requires ScriptLine(host, Expanded(host, cwd, start, d).value.current).Some?
    ensures var s := Expanded(host, cwd, start, d).value;
            Expanded(host, cwd, start, d + 1) == Some(Expand(s, ScriptLine(host, s.current).value, cwd))
  {
  }

  /** After exactly `d` nested scripts comes a program that is not one, and planning ends with it. */
  predicate EndsAt(host: Host, cwd: string, start: Stage, d: nat, r: Result) {
    match Expanded(host, cwd, start, d)
    case None => false
    case Some(s) => ScriptLine(host, s.current).None? && r == Final(host, s, d)
  }

  lemma EndsHere(host: Host, cwd: string, start: Stage, d: nat, r: Result)
    requires d <= MAX_SHEBANG_DEPTH && EndsAt(host, cwd, start, d, r)
    ensures Expanded(host, cwd, start, MAX_SHEBANG_DEPTH + 1).None?
    ensures exists k: nat :: k <= MAX_SHEBANG_DEPTH && EndsAt(host, cwd, start, k, r)
  {
    NoFurther(host, cwd, start, d, MAX_SHEBANG_DEPTH + 1);
  }

  lemma {:induction false} NoFurther(host: Host, cwd: string, start: Stage, d: nat, k: nat)
    requires d < k && Expanded(host, cwd, start, d).Some?
    requires ScriptLine(host, Expanded(host, cwd, start, d).value.current).None?
    ensures Expanded(host, cwd, start, k).None?
  {
    hide ScriptLine;
    if k > d + 1 {
      NoFurther(host, cwd, start, d, k - 1);
    }
  }

  /** The caller's arguments after the first are kept, in order, at the end of every expansion, behind at
      least one word for each script and the scripts' own. */
  lemma {:induction false} ArgumentsKept(host: Host, cwd: string, start: Stage, d: nat)
    requires start.argv != []
    ensures Expanded(host, cwd, start, d).Some? ==>
              var argv := Expanded(host, cwd, start, d).value.argv;
              var kept := |start.argv| - 1;
              |argv| >= 1 + d + kept && argv[|argv| - kept..] == start.argv[1..]
  {
    hide ScriptLine;
    if d > 0 && Expanded(host, cwd, start, d).Some? {
      ArgumentsKept(host, cwd, start, d - 1);
      var before := Expanded(host, cwd, start, d - 1).value;
      var after := Expanded(host, cwd, start, d).value;
      var kept := |start.argv| - 1;
      assert after.argv[|after.argv| - kept..] == before.argv[|before.argv| - kept..];
    }
  }

  /** A sequence ends with another. */
  predicate EndsWith(s: seq<string>, tail: seq<string>) {
    |tail| <= |s| && s[|s| - |tail|..] == tail
  }

  /** For every successful plan there are at most four interpreters, the program's own arguments are that
      many expansions of the caller's, and they end with the caller's arguments after the first; what the
      loader is given ends with the same. */
  lemma PlanIsExpansion(host: Host, cwd: string, guestPath: string, argvIn: seq<string>, d: nat, r: Result)
    requires d <= MAX_SHEBANG_DEPTH && r.Ok? && EndsAt(host, cwd, Start(guestPath, argvIn, cwd), d, r)
    ensures r.plan.depth == d
    ensures Expanded(host, cwd, Start(guestPath, argvIn, cwd), d).Some? &&
            Expanded(host, cwd, Start(guestPath, argvIn, cwd), d).value.argv == r.plan.programArgv
    ensures |r.plan.programArgv| >= d + |Start(guestPath, argvIn, cwd).argv|
    ensures EndsWith(r.plan.programArgv, Start(guestPath, argvIn, cwd).argv[1..])
    ensures r.plan.viaLoader ==> EndsWith(r.plan.argv, r.plan.programArgv[1..])
    ensures !r.plan.viaLoader ==> r.plan.argv == r.plan.programArgv
  {
    hide ScriptLine, Expanded, LoaderArgv;
    var start := Start(guestPath, argvIn, cwd);
    ArgumentsKept(host, cwd, start, d);
    var s := Expanded(host, cwd, start, d).value;
    assert s.argv != [];
    LoaderEnds(s.argv);
  }

  lemma LoaderEnds(argv: seq<string>)
    requires argv != []
    ensures forall first, argv0, guest :: EndsWith(LoaderArgv(first, argv0, guest, argv[1..]), argv[1..])
  {
  }

  lemma JoinNulFree(base: string, path: string)
    requires NulFree(base) && NulFree(path)
    ensures NulFree(JoinPath(base, path))
  {
  }

  /** Expansion brings no NUL into a word that ends at one. */
  lemma {:induction false} ExpandedNulFree(host: Host, cwd: string, start: Stage, d: nat)
    requires NulFree(cwd) && NulFree(start.current) && forall w :: w in start.argv ==> NulFree(w)
    ensures Expanded(host, cwd, start, d).Some? ==>
              var s := Expanded(host, cwd, start, d).value; NulFree(s.current) && forall w :: w in s.argv ==> NulFree(w)
  {
    hide Shebang, NulFree, JoinPath;
    if d > 0 && Expanded(host, cwd, start, d).Some? {
      ExpandedNulFree(host, cwd, start, d - 1);
      var before := Expanded(host, cwd, start, d - 1).value;
      var head := host.program(before.current).head;
      ShebangWords(if |head| < SHEBANG_MAX then head else head[..SHEBANG_MAX]);
      var line := ScriptLine(host, before.current).value;
      JoinNulFree(cwd, line.interp);
    }
  }

  // ---- the search in a loader ----

  const NEEDLE: string := "--argv0"
  const BUFFER: nat := 65536
  const SCAN_MAX: nat := 16 * 1024 * 1024

  predicate MatchAt(text: string, p: int) {
    0 <= p <= |text| - |NEEDLE| && text[p..p + |NEEDLE|] == NEEDLE
  }

  ghost predicate Occurs(text: string) {
    exists p :: MatchAt(text, p)
  }

  /** `string_view::find`. */
  method Find(text: string) returns (found: bool)
    ensures found <==> Occurs(text)
  {
    found := false;
    var p := 0;
    while p + |NEEDLE| <= |text|
      invariant p <= |text| && forall q :: q < p ==> !MatchAt(text, q)
    {
      if text[p..p + |NEEDLE|] == NEEDLE {
        assert MatchAt(text, p);
        return true;
      }
      p := p + 1;
    }
  }

  /** What `read` returns is any positive number of the bytes left that fits; `splits` chooses it, and 0
      stands for an error. A read interrupted by a signal is retried and changes nothing. */
  function ReadSize(splits: nat -> nat, turn: nat, room: nat, left: nat): (n: nat)
    ensures n <= room && n <= left
  {
    var most := if room < left then room else left;
    if splits(turn) < most then splits(turn) else most
  }

  /** The scan of `loader_supports_argv0`: whatever way the file arrives in pieces, the answer is whether
      the word occurs in the bytes that were read, and all of them are read unless it was found, the limit
      was reached or a read failed. */
  method ScanForArgv0(file: string, splits: nat -> nat) returns (found: bool, total: nat)
    ensures total <= |file| && (found <==> Occurs(file[..total]))
    ensures found || total == |file| || total >= SCAN_MAX || exists turn :: splits(turn) == 0
  {
    hide Occurs;
    var buf := new char[BUFFER];
    var carry := 0;
    total := 0;
    found := false;
    var turn := 0;
    assert !Occurs(file[..0]) by { TooShort(file[..0]); }
    while !found && total < SCAN_MAX
      invariant carry <= |NEEDLE| - 1 && carry <= total <= |file| && (carry == total || carry == |NEEDLE| - 1)
      invariant buf[..carry] == file[total - carry..total]
      invariant !found && !Occurs(file[..total])
      decreases |file| - total
    {
      var n := ReadSize(splits, turn, BUFFER - carry, |file| - total);
      if n == 0 {
        return;
      }
      Fill(buf, carry, file, total, n);
      var avail := carry + n;
      total := total + n;
      turn := turn + 1;
      var view := buf[..avail];
      found := Find(view);
      Overlap(file, total - n, carry, n);
      if found {
        return;
      }
      carry := if avail >= |NEEDLE| - 1 then |NEEDLE| - 1 else avail;
      MoveDown(buf, avail, carry);
      assert view[avail - carry..] == file[total - carry..total];
    }
  }

  /** A `read` of `n` bytes behind the first `carry`. */
  method Fill(buf: array<char>, carry: nat, file: string, at: nat, n: nat)
    requires carry <= at && at + n <= |file| && carry + n <= buf.Length && buf[..carry] == file[at - carry..at]
    modifies buf
    ensures buf[..carry + n] == file[at - carry..at + n]
  {
    forall i | 0 <= i < n {
      buf[carry + i] := file[at + i];
    }
    forall i | 0 <= i < carry + n ensures buf[i] == file[at - carry..at + n][i] {
      if i < carry {
        assert buf[i] == old(buf[..carry])[i] == file[at - carry..at][i];
      } else {
        assert buf[carry + (i - carry)] == file[at + (i - carry)];
      }
    }
  }

  /** `memmove` of the last `carry` of `avail` bytes to the front. */
  method MoveDown(buf: array<char>, avail: nat, carry: nat)
    requires carry <= avail <= buf.Length
    modifies buf
    ensures buf[..carry] == old(buf[..avail])[avail - carry..]
  {
    forall i | 0 <= i < carry {
      buf[i] := buf[avail - carry + i];
    }
  }

  lemma TooShort(text: string)
    requires |text| < |NEEDLE|
    ensures !Occurs(text)
  {
  }

  lemma NotBefore(text: string, n: nat, p: int)
    requires n <= |text| && MatchAt(text, p) && !MatchAt(text[..n], p)
    ensures p + |NEEDLE| > n
  {
    if p + |NEEDLE| <= n {
      SliceOfPrefix(text, n, p);
    }
  }

  lemma SliceOfPrefix(text: string, n: nat, p: nat)
    requires p + |NEEDLE| <= n <= |text|
    ensures text[..n][p..p + |NEEDLE|] == text[p..p + |NEEDLE|]
  {
  }

  /** A word not in the first `total` bytes is in the next piece, with the bytes carried over, or nowhere. */
  lemma Overlap(file: string, total: nat, carry: nat, n: nat)
    requires carry <= total && total + n <= |file| && (carry == total || carry == |NEEDLE| - 1)
    requires !Occurs(file[..total])
    ensures Occurs(file[total - carry..total + n]) <==> Occurs(file[..total + n])
  {
    var view, all := file[total - carry..total + n], file[..total + n];
    if p :| MatchAt(view, p) {
      assert all[total - carry + p..total - carry + p + |NEEDLE|] == view[p..p + |NEEDLE|];
      assert MatchAt(all, total - carry + p);
    }
    if p :| MatchAt(all, p) {
      assert !MatchAt(file[..total], p);
      assert file[..total] == all[..total];
      NotBefore(all, total, p);
      var q := p - (total - carry);
      assert view[q..q + |NEEDLE|] == all[p..p + |NEEDLE|];
      assert MatchAt(view, q);
    }
  }
}
