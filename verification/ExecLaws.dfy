/** What an execve plan starts, said of texts and argument vectors (src/engines/rootless/exec_resolver.cpp): what a
    dynamic loader makes of the vector it is handed, and that a script is its interpreter with the script as an
    argument. */
module ExecLaws {
  import opened CStrings
  import opened ExecResolver
  import opened GuestPath
  import opened Wrappers

  // ---- the loader's command line ----

  /** A program started by a dynamic loader: its argument 0, its path and the rest of its arguments. */
  datatype Command = Command(argv0: string, program: string, rest: seq<string>)

  /** `ld.so [--argv0 NAME] PROGRAM [ARGUMENT]...` as the loader reads it: its own argument 0 is ignored, and
      without the option a program is called by its path. */
  function LoaderReads(words: seq<string>): Option<Command> {
    if |words| >= 4 && words[1] == "--argv0" then Some(Command(words[2], words[3], words[4..]))
    else if |words| >= 2 && words[1] != "--argv0" then Some(Command(words[1], words[1], words[2..]))
    else None
  }

  /** Programs are named by resolved paths, which are absolute. */
  ghost predicate Resolved(host: Host) {
    forall p :: host.program(p).Opened? ==> IsAbsolute(host.program(p).guest)
  }

  /** What a plan starts is the program at the end of the scripts. Without a loader the kernel is given it with
      its arguments; with one the kernel is given the loader that the program names, and the loader reads off its
      vector the program, its arguments after the first, and argument 0 where it can be told. */
  lemma PlanStarts(host: Host, cwd: string, guestPath: string, argv: seq<string>, d: nat, r: Result)
    requires EndsAt(host, cwd, Start(guestPath, argv, cwd), d, r) && r.Ok? && Resolved(host)
    ensures var plan, last := r.plan, host.program(Expanded(host, cwd, Start(guestPath, argv, cwd), d).value.current);
            last.Opened? && plan.guestProgram == last.guest && plan.programArgv != [] &&
            (plan.viaLoader <==> last.elf.Dynamic?) &&
            if !plan.viaLoader then last.elf.Static? && plan.hostExec == last.host && plan.argv == plan.programArgv
            else
              var loader := host.loader(last.elf.loader);
              loader.Loader? && plan.hostExec == loader.host && plan.guestLoader == loader.guest &&
              plan.loaderArgv0 == loader.argv0 && plan.argv != [] && plan.argv[0] == plan.programArgv[0] &&
              LoaderReads(plan.argv) == Some(Command(if loader.argv0 then plan.programArgv[0] else plan.guestProgram,
                                                     plan.guestProgram, plan.programArgv[1..]))
  {
    hide ScriptLine, Expanded;
    var start := Start(guestPath, argv, cwd);
    ArgumentsKept(host, cwd, start, d);
    var s := Expanded(host, cwd, start, d).value;
    LoaderVector(s.argv[0], true, r.plan.guestProgram, s.argv[1..]);
    LoaderVector(s.argv[0], false, r.plan.guestProgram, s.argv[1..]);
  }

  /** A plan fails with the error of the first check that is refused: of the program or of its loader. */
  lemma PlanFails(host: Host, cwd: string, guestPath: string, argv: seq<string>, d: nat, r: Result)
    requires EndsAt(host, cwd, Start(guestPath, argv, cwd), d, r)
    ensures var last := host.program(Expanded(host, cwd, Start(guestPath, argv, cwd), d).value.current);
            if last.Refused? then r == Error(last.errno)
            else if last.elf.Rejected? then r == Error(last.elf.errno)
            else if last.elf.Dynamic? && host.loader(last.elf.loader).LoaderRefused? then
              r == Error(host.loader(last.elf.loader).errno)
            else r.Ok?
  {
    hide ScriptLine, Expanded, LoaderArgv;
  }

  lemma LoaderVector(argv0: string, pass: bool, program: string, rest: seq<string>)
    requires IsAbsolute(program)
    ensures LoaderReads(LoaderArgv(argv0, pass, program, rest)) ==
            Some(Command(if pass then argv0 else program, program, rest))
  {
    var words := LoaderArgv(argv0, pass, program, rest);
    if pass {
      assert words == [argv0, "--argv0", argv0, program] + rest;
      assert words[4..] == rest;
    } else {
      assert words == [argv0, program] + rest;
      assert words[2..] == rest;
    }
  }

  // ---- scripts ----

  predicate Blanks(s: string) {
    forall i :: 0 <= i < |s| ==> s[i] == ' ' || s[i] == '\t'
  }

  /** One word, as an interpreter has to be. */
  predicate IsWord(s: string) {
    s != "" && forall i :: 0 <= i < |s| ==> s[i] !in {' ', '\t', '\n', NUL}
  }

  /** No argument, or one that neither starts with a blank nor ends with a blank or a carriage return. */
  predicate IsArgument(s: string) {
    s != "" ==> (forall i :: 0 <= i < |s| ==> s[i] !in {'\n', NUL}) && s[0] !in {' ', '\t'} &&
                s[|s| - 1] !in {' ', '\t', '\r'}
  }

  /** The blanks and carriage returns a line may end in. */
  predicate Trailing(s: string) {
    forall i :: 0 <= i < |s| ==> s[i] in {' ', '\t', '\r'}
  }

  /** The first line of a script, piece by piece. */
  datatype Head = Head(indent: string, interp: string, gap: string, arg: string, trailing: string)

  predicate GoodHead(h: Head) {
    Blanks(h.indent) && IsWord(h.interp) && Blanks(h.gap) && IsArgument(h.arg) && Trailing(h.trailing) &&
    (h.gap == "" ==> h.arg == "" && h.trailing == "")
  }

  function HeadText(h: Head): string {
    "#!" + h.indent + h.interp + h.gap + h.arg + h.trailing
  }

  /** Nothing more, or another line. */
  predicate NextLine(s: string) {
    s == "" || s[0] == '\n'
  }

  function ArgOf(h: Head): Option<string> {
    if h.arg == "" then None else Some(h.arg)
  }

  /** A line that names an interpreter, with at most one argument, is read as exactly these. */
  lemma HeadIsRead(h: Head, more: string)
    requires GoodHead(h) && NextLine(more)
    ensures Shebang(HeadText(h) + more) == Some(Line(h.interp, ArgOf(h)))
  {
    hide Run, Argument, AfterBlanks;
    var buf := HeadText(h) + more;
    var tail := h.gap + h.arg + h.trailing;
    var line := h.indent + (h.interp + tail);
    assert buf[2..] == line + more;
    assert buf[0] == '#' && buf[1] == '!';
    RunIs(buf[2..], NotNewline, |line|);
    assert FirstLine(buf[2..]) == line;
    BlanksSkipped(h.indent, h.interp + tail);
    RunIs(h.interp + tail, InWord, |h.interp|);
    assert (h.interp + tail)[..|h.interp|] == h.interp && (h.interp + tail)[|h.interp|..] == tail;
    TailIsRead(h);
  }

  lemma TailIsRead(h: Head)
    requires GoodHead(h)
    ensures Argument(h.gap + h.arg + h.trailing) == h.arg
  {
    hide AfterBlanks, Trimmed, UntilNul;
    if h.arg == "" {
      BlankTail(h.gap + h.trailing);
      assert h.gap + h.arg + h.trailing == h.gap + h.trailing;
    } else {
      assert h.gap + h.arg + h.trailing == h.gap + (h.arg + h.trailing);
      BlanksSkipped(h.gap, h.arg + h.trailing);
      ArgumentKept(h.arg, h.trailing);
    }
  }

  lemma BlanksSkipped(gap: string, rest: string)
    requires Blanks(gap) && (rest != "" ==> !IsBlank(rest[0]))
    ensures AfterBlanks(gap + rest) == rest
  {
    hide Run;
    RunIs(gap + rest, IsBlank, |gap|);
  }

  lemma ArgumentKept(arg: string, trailing: string)
    requires IsArgument(arg) && Trailing(trailing)
    ensures UntilNul(Trimmed(arg + trailing)) == arg
  {
    hide Run, Trimmed;
    TrimmedIs(arg + trailing, |arg|);
    RunIs(arg, NotNul, |arg|);
  }

  lemma BlankTail(s: string)
    requires Trailing(s)
    ensures Argument(s) == ""
  {
    hide Run, Trimmed;
    var t := AfterBlanks(s);
    assert forall i :: 0 <= i < |t| ==> t[i] == s[|s| - |t| + i];
    TrimmedIs(t, 0);
    RunIs("", NotNul, 0);
  }

  /** A first line that does not start with "#!", or with nothing but blanks behind it, makes no script. */
  lemma NoHeadIsRead(buf: string, indent: string, more: string)
    requires !("#!" <= buf) || (buf == "#!" + indent + more && Blanks(indent) && NextLine(more))
    ensures Shebang(buf) == None
  {
    hide Run, Trimmed;
    if "#!" <= buf {
      assert buf[2..] == indent + more;
      RunIs(buf[2..], NotNewline, |indent|);
      assert FirstLine(buf[2..]) == indent;
      RunIs(indent, IsBlank, |indent|);
      assert AfterBlanks(indent) == "";
      RunIs("", InWord, 0);
    }
  }

  /** The plan of one script more. */
  function Deeper(r: Result): Result {
    match r
    case Error(e) => Error(e)
    case Ok(plan) => Ok(plan.(depth := plan.depth + 1))
  }

  /** What the interpreter of a script is run with: its name as the script gives it, the argument the script
      gives, the script, and the caller's arguments after the first. */
  function InterpreterArgv(h: Head, script: string, argv: seq<string>): seq<string> {
    [h.interp] + (if h.arg == "" then [] else [h.arg]) + [script] + (if argv == [] then [] else argv[1..])
  }

  /** The program at a path is a script with this first line. */
  predicate IsScript(host: Host, path: string, h: Head) {
    GoodHead(h) && host.program(path).Opened? &&
    var head := host.program(path).head;
    |HeadText(h)| < SHEBANG_MAX && HeadText(h) <= head && NextLine(head[|HeadText(h)|..])
  }

  /** A script is run by running its interpreter with the script as an argument: the two plans are the same but
      for one level of nesting, whether or not the interpreter is a script again. */
  lemma ScriptIsItsInterpreter(host: Host, cwd: string, path: string, argv: seq<string>, h: Head, d: nat, r: Result)
    requires IsScript(host, Absolute(path, cwd), h)
    ensures var call := Start(h.interp, InterpreterArgv(h, Absolute(path, cwd), argv), cwd);
            EndsAt(host, cwd, Start(path, argv, cwd), d + 1, Deeper(r)) <==> EndsAt(host, cwd, call, d, r)
    ensures !EndsAt(host, cwd, Start(path, argv, cwd), 0, r)
  {
    hide Shebang, HeadText, Expanded, Final, JoinPath;
    var start := Start(path, argv, cwd);
    var call := Start(h.interp, InterpreterArgv(h, Absolute(path, cwd), argv), cwd);
    HeadCut(host, Absolute(path, cwd), h);
    NothingExpanded(host, cwd, start);
    FirstExpansion(host, cwd, start, h, argv);
    LaterExpansions(host, cwd, start, call, d);
    if Expanded(host, cwd, call, d).Some? {
      DeeperEnd(host, Expanded(host, cwd, call, d).value, d, r);
    }
  }

  lemma HeadCut(host: Host, path: string, h: Head)
    requires IsScript(host, path, h)
    ensures ScriptLine(host, path) == Some(Line(h.interp, ArgOf(h)))
  {
    hide HeadText, Shebang;
    var head := host.program(path).head;
    var n := |HeadText(h)|;
    var cut := if |head| < SHEBANG_MAX then head else head[..SHEBANG_MAX];
    assert cut == HeadText(h) + cut[n..];
    assert cut[n..] == "" || cut[n..][0] == head[n..][0];
    HeadIsRead(h, cut[n..]);
  }

  lemma FirstExpansion(host: Host, cwd: string, start: Stage, h: Head, argv: seq<string>)
    requires ScriptLine(host, start.current) == Some(Line(h.interp, ArgOf(h)))
    requires start.argv != [] && start.argv[1..] == if argv == [] then [] else argv[1..]
    ensures Expanded(host, cwd, start, 1) == Some(Start(h.interp, InterpreterArgv(h, start.current, argv), cwd))
  {
    hide ScriptLine, JoinPath;
    assert Expanded(host, cwd, start, 0) == Some(start);
  }

  /** Expansion goes on from where the first step led. */
  lemma {:induction false} LaterExpansions(host: Host, cwd: string, start: Stage, next: Stage, d: nat)
    requires Expanded(host, cwd, start, 1) == Some(next)
    ensures Expanded(host, cwd, start, d + 1) == Expanded(host, cwd, next, d)
  {
    hide ScriptLine, Expand;
    if d > 0 {
      LaterExpansions(host, cwd, start, next, d - 1);
    }
  }

  lemma DeeperEnd(host: Host, s: Stage, d: nat, r: Result)
    ensures Deeper(r) == Final(host, s, d + 1) <==> r == Final(host, s, d)
  {
    hide LoaderArgv;
  }
}
