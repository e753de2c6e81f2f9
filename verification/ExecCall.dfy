/** An execve from its plan to the tracee's stack (src/engines/rootless/syscall_handlers.cpp, handle_exec), with
    the kernel or the userland loader to start the program. */
module ExecCall {
  import opened CStrings
  import opened ExecResolver
  import opened GuestPath
  import opened Wrappers
  import ExecStack
  import LoadRequest

  /** Paths on the host and in the guest end at their first NUL. */
  ghost predicate HostClean(host: Host) {
    (forall p :: host.program(p).Opened? ==> NulFree(host.program(p).guest) && NulFree(host.program(p).host)) &&
    (forall p :: host.loader(p).Loader? ==> NulFree(host.loader(p).guest) && NulFree(host.loader(p).host))
  }

  predicate AllNulFree(words: seq<string>) {
    forall w :: w in words ==> NulFree(w)
  }

  /** Everything of a plan that is handed on can be written as C strings. */
  predicate PlanIsClean(plan: Plan) {
    plan.argv != [] && AllNulFree(plan.argv) && NulFree(plan.hostExec) &&
    plan.programArgv != [] && AllNulFree(plan.programArgv) && NulFree(plan.guestProgram) && NulFree(plan.guestLoader)
  }

  lemma FinalClean(host: Host, s: Stage, d: nat)
    requires HostClean(host) && s.argv != [] && AllNulFree(s.argv) && Final(host, s, d).Ok?
    ensures PlanIsClean(Final(host, s, d).plan)
  {
    hide NulFree;
    OptionClean();
  }

  lemma OptionClean()
    ensures NulFree("--argv0") && NulFree("")
  {
  }

  /** What a plan hands to the kernel or to the loader can be written as C strings. */
  lemma PlanClean(host: Host, guestPath: string, argv: seq<string>, cwd: string, d: nat, r: Result)
    requires HostClean(host) && NulFree(guestPath) && NulFree(cwd) && AllNulFree(argv)
    requires EndsAt(host, cwd, Start(guestPath, argv, cwd), d, r) && r.Ok?
    ensures PlanIsClean(r.plan)
  {
    hide NulFree, Expanded, Final, HostClean, ScriptLine;
    var start := Start(guestPath, argv, cwd);
    JoinNulFree(cwd, guestPath);
    ExpandedNulFree(host, cwd, start, d);
    ArgumentsKept(host, cwd, start, d);
    FinalClean(host, Expanded(host, cwd, start, d).value, d);
  }

  lemma {:induction false} PiecesNulFree(p: string, c: string)
    requires NulFree(p) && c in Split(p)
    ensures NulFree(c)
    decreases |p|
  {
    if p != "" {
      var r := Split(p[1..]);
      assert NulFree(p[1..]);
      if c in r {
        PiecesNulFree(p[1..], c);
      } else if p[0] != '/' {
        assert r[0] in r;
        PiecesNulFree(p[1..], r[0]);
      }
    }
  }

  lemma TaskNulFree(execfn: string)
    requires NulFree(execfn)
    ensures NulFree(LoadRequest.TaskName(execfn))
  {
    hide NulFree, Split, Keep;
    var parts := Components(execfn);
    if parts != [] {
      PiecesNulFree(execfn, parts[|parts| - 1]);
    }
  }

  /** What the loader is told to start. */
  function Told(plan: Plan, guestPath: string): LoadRequest.Names {
    LoadRequest.Names(plan.guestProgram, if plan.viaLoader then Some(plan.guestLoader) else None, guestPath,
                      LoadRequest.TaskName(guestPath))
  }

  /** Plan, build the loader's request and marshal. When all succeed, what the kernel reads through the new
      pointers is exactly the program and the arguments it is to be given, and the loader recovers exactly
      the planned names; when planning fails or there is no room for the names, nothing is written. */
  method Translate(host: Host, guestPath: string, argv: seq<string>, cwd: string, userland: Option<string>,
                   sw: ExecStack.StackWriter)
    returns (r: Result, ok: bool, request: string, execAddr: nat, argvAddr: nat)
    requires sw.Valid() && HostClean(host) && NulFree(guestPath) && NulFree(cwd) && AllNulFree(argv)
    requires userland.Some? ==> NulFree(userland.value)
    modifies sw
    ensures sw.Valid() && (r.Error? ==> !ok && sw.memory == old(sw.memory))
    ensures guestPath != "" && r.Ok? ==>
              exists d: nat :: d <= MAX_SHEBANG_DEPTH && EndsAt(host, cwd, Start(guestPath, argv, cwd), d, r)
    ensures r.Ok? && userland.Some? ==>
              request == LoadRequest.Request(Told(r.plan, guestPath)) &&
              LoadRequest.Accept(request) ==
                (if LoadRequest.Size(Told(r.plan, guestPath)) <= LoadRequest.MAX_SIZE
                 then Some(Told(r.plan, guestPath)) else None)
    ensures r.Ok? && userland.Some? && request == "" ==> !ok && sw.memory == old(sw.memory)
    ensures r.Ok? && LoadRequest.Accept(request).Some? && userland.Some? ==>
              var names := LoadRequest.Accept(request).value;
              names.program == r.plan.guestProgram && names.execfn == guestPath &&
              names.interp == if r.plan.viaLoader then Some(r.plan.guestLoader) else None
    ensures ok && userland.None? ==>
              ExecStack.KernelReads(sw.memory, execAddr, argvAddr, r.plan.hostExec, r.plan.argv)
    ensures ok && userland.Some? ==>
              ExecStack.KernelReads(sw.memory, execAddr, argvAddr, userland.value, r.plan.programArgv)
  {
    hide NulFree, HostClean, Expanded, EndsAt, LoadRequest.Accept, LoadRequest.Request, LoadRequest.TaskName;
    ok, request, execAddr, argvAddr := false, "", 0, 0;
    r := MakePlan(host, guestPath, argv, cwd);
    if r.Error? {
      return;
    }
    var d: nat :| d <= MAX_SHEBANG_DEPTH && EndsAt(host, cwd, Start(guestPath, argv, cwd), d, r);
    PlanClean(host, guestPath, argv, cwd, d, r);
    var path, words := r.plan.hostExec, r.plan.argv;
    if userland.Some? {
      TaskNulFree(guestPath);
      LoadRequest.RequestRoundTrip(Told(r.plan, guestPath));
      request := LoadRequest.MakeLoadRequest(r.plan.guestProgram, r.plan.viaLoader, r.plan.guestLoader, guestPath);
      if request == "" {
        return;
      }
      path := userland.value;
      words := r.plan.programArgv;
    }
    ok, execAddr, argvAddr := sw.Marshal(words, path);
  }
}
