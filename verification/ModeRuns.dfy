/** A guest's whole run under the two tracing modes: every call finds the world and the link state that the
    calls before it left, each of its stops has to be told for what it is, and the guest chooses its next call
    by what it has seen. Module TraceModes has the single call, module SyscallStops the single stop. */
module ModeRuns {
  import opened Errno
  import opened SeccompFilter
  import opened SyscallStops
  import opened TraceModes

  /** A machine, a session, the parts that are parameters, and the link state as part of the world: a handler
      that meets a link object learns of it. */
  datatype Setup<!W> = Setup(m: Machine, c: Config, p: Parts<W>, links: W -> Links)

  // ---- one call, by its stops ----

  /** Which of a call's two stops the kernel describes. */
  datatype Described = Described(entry: bool, exit: bool)

  /** A stop under PTRACE_SYSCALL: what is taken for an entry is handled as one, whatever it is. */
  function AtStop<W>(u: Setup<W>, isExit: bool, pending: Pending, r: Regs, w: W): (s: (Pending, Regs, W))
    requires |r.args| == 6
    ensures |s.1.args| == 6
  {
    if isExit then
      var (q, v) := Exit(u.m, u.p, pending, r, w);
      (NOTHING_PENDING, q, v)
    else if ValidRegs(r) then
      var re := React(u.m, u.c, u.links(w), u.p, r, w);
      var (next, q) := Enter(false, re, r);
      (next, q, re.world)
    else (NOTHING_PENDING, r, w)
  }

  /** A call under PTRACE_SYSCALL, its two stops judged by the toggle and by what the kernel says of them; with
      the toggle that is left. */
  function ByPtrace<W>(u: Setup<W>, d: Described, inSyscall: bool, r: Regs, w: W): (Outcome<W>, bool)
    requires ValidRegs(r)
  {
    var first := IsExit(false, inSyscall, Told(false, d.entry));
    var (pending, q, v) := AtStop(u, first, NOTHING_PENDING, r, w);
    var (q1, v1) := KernelStep(u.p, q, v);
    var second := IsExit(false, !first, Told(true, d.exit));
    var (_, q2, v2) := AtStop(u, second, pending, q1, v1);
    (Shown(u.m, q2, v2), !second)
  }

  /** Outside a call and nothing asked for. */
  const OUTSIDE: Watched := Watched(false, false, false)

  /** A call under the filter, with the task as the supervisor watches it: there is an exit stop only where
      the task was resumed for one. */
  function ByFilter<W>(u: Setup<W>, prog: seq<Insn>, input: Input, s: Watched, r: Regs, w: W): (Outcome<W>, Watched)
    requires ValidRegs(r) && ValidInput(input)
  {
    var verdict := SeccompFilter.Run(prog, Data(input), 0, 0);
    if verdict == RET_ALLOW then
      var (q, v) := KernelStep(u.p, r, w);
      (Shown(u.m, q, v), Handled(Handled(s, SilentEntry), SilentExit))
    else if verdict == RET_EACCES then
      (Shown(u.m, r.(ret := -EACCES), w), Handled(Handled(s, SilentEntry), SilentExit))
    else
      var re := React(u.m, u.c, u.links(w), u.p, r, w);
      var (pending, q) := Enter(true, re, r);
      var stopped := Handled(s, SeccompStop(pending.active));
      var (q1, v1) := KernelStep(u.p, q, re.world);
      if stopped.tracing then
        var (q2, v2) := Exit(u.m, u.p, pending, q1, v1);
        (Shown(u.m, q2, v2), Handled(stopped, Stop(true)))
      else (Shown(u.m, q1, v1), Handled(stopped, SilentExit))
  }

  /** From a task outside a call with the toggle right, both stops are told for what they are, and the toggle
      is right again. */
  lemma StopsAreTold<W>(u: Setup<W>, d: Described, r: Regs, w: W)
    requires ValidRegs(r)
    ensures ByPtrace(u, d, false, r, w) == (UnderPtrace(u.m, u.c, u.links(w), u.p, r, w), false)
  {
    hide React, Enter, KernelStep, Exit;
    var re := React(u.m, u.c, u.links(w), u.p, r, w);
    var (pending, q) := Enter(false, re, r);
    KernelKeepsArgs(u.p, q, re.world);
  }

  /** Under the filter, the exit stop is there exactly where it was asked for, and nothing is left over. */
  lemma WatchIsKept<W>(u: Setup<W>, prog: seq<Insn>, input: Input, r: Regs, w: W)
    requires ValidRegs(r) && ValidInput(input)
    ensures ByFilter(u, prog, input, OUTSIDE, r, w) ==
            (UnderSeccomp(u.m, u.c, u.links(w), u.p, prog, input, r, w), OUTSIDE)
  {
    hide React, Enter, KernelStep, Exit, SeccompFilter.Run, Data;
  }

  // ---- one call in both modes, exactly ----

  /** The filter lets an fstat run although a link object was learned that it does not account for. */
  predicate Late(m: Machine, c: Config, l: Links, input: Input, r: Regs)
    requires ValidInput(input)
  {
    !LinksAsBuilt(c, l) && r.nr == m.nrs.fstat && Decide(PolicyFor(m, c), input) == RET_ALLOW
  }

  /** Presenting the result of the call would change something. */
  predicate Presented<W(==)>(p: Parts<W>, r: Regs, w: W) {
    var (ret, v) := p.kernel(r.nr, r.args, w);
    p.fix(SomeFixup(0), ret, v) != (ret, v)
  }

  lemma CallAgreesIff<W>(u: Setup<W>, prog: seq<Insn>, input: Input, r: Regs, w: W)
    requires TableOk(u.m) && HasFstat(u.m) && SameCall(u.m, input, r) && Compiled(prog, PolicyFor(u.m, u.c))
    ensures var l := u.links(w);
            UnderSeccomp(u.m, u.c, l, u.p, prog, input, r, w) == UnderPtrace(u.m, u.c, l, u.p, r, w) <==>
            !(Late(u.m, u.c, l, input, r) && Presented(u.p, r, w))
  {
    hide Decide, React, Enter, Exit, SeccompFilter.Run, Data, PolicyFor, TableOk, HasFstat;
    var l := u.links(w);
    var verdict := Decide(PolicyFor(u.m, u.c), input);
    assert SeccompFilter.Run(prog, Data(input), 0, 0) == verdict;
    if Late(u.m, u.c, l, input, r) {
      LateFstatEnds(u, prog, input, r, w);
    } else if verdict == RET_ALLOW {
      AllowedIsUntouched(u.m, u.c, l, u.p, input, r, w);
      UntouchedEnds(u.m, u.p, r, w);
    } else if verdict == RET_EACCES {
      RefusedAlike(u.m, u.c, l, u.p, input, r, w);
      RefusedEnds(u.m, u.p, r, w);
    } else {
      StoppedAgrees(u.m, u.p, React(u.m, u.c, l, u.p, r, w), r);
    }
  }

  lemma LateFstatEnds<W>(u: Setup<W>, prog: seq<Insn>, input: Input, r: Regs, w: W)
    requires TableOk(u.m) && HasFstat(u.m) && SameCall(u.m, input, r) && Late(u.m, u.c, u.links(w), input, r)
    requires SeccompFilter.Run(prog, Data(input), 0, 0) == RET_ALLOW
    ensures var l := u.links(w);
            UnderSeccomp(u.m, u.c, l, u.p, prog, input, r, w) == UnderPtrace(u.m, u.c, l, u.p, r, w) <==>
            !Presented(u.p, r, w)
  {
    hide Decide, React, Enter, SeccompFilter.Run, Data, PolicyFor, TableOk, LinksAsBuilt;
    FilteredIsNative(u.m, u.c, input, r);
    FstatIsPresented(u.m, u.c, u.links(w), u.p, r, w);
    var (ret, v) := u.p.kernel(r.nr, r.args, w);
    assert Restored(r.args, map[], 0) == r.args && Restored(r.args, map[], 1) == r.args;
  }

  // ---- whole runs ----

  /** What a guest does next, by what all its calls so far returned and left. */
  type Guest<!W> = seq<Outcome<W>> -> (Input, Regs)

  ghost predicate GuestOk<W(!new)>(m: Machine, guest: Guest<W>) {
    forall h :: SameCall(m, guest(h).0, guest(h).1)
  }

  function WorldAfter<W>(h: seq<Outcome<W>>, start: W): W {
    if h == [] then start else h[|h| - 1].world
  }

  /** The first `n` calls under PTRACE_SYSCALL, with the toggle after them. */
  ghost function PtraceRun<W(!new)>(u: Setup<W>, guest: Guest<W>, told: nat -> Described, start: W, n: nat)
    : (run: (seq<Outcome<W>>, bool))
    requires GuestOk(u.m, guest)
    ensures |run.0| == n
  {
    if n == 0 then ([], false)
    else
      var (h, inSyscall) := PtraceRun(u, guest, told, start, n - 1);
      var (o, next) := ByPtrace(u, told(n - 1), inSyscall, guest(h).1, WorldAfter(h, start));
      (h + [o], next)
  }

  /** The first `n` calls under the filter, with the task as it is watched after them. */
  ghost function FilterRun<W(!new)>(u: Setup<W>, guest: Guest<W>, prog: seq<Insn>, start: W, n: nat)
    : (run: (seq<Outcome<W>>, Watched))
    requires GuestOk(u.m, guest)
    ensures |run.0| == n
  {
    if n == 0 then ([], OUTSIDE)
    else
      var (h, s) := FilterRun(u, guest, prog, start, n - 1);
      var (o, next) := ByFilter(u, prog, guest(h).0, s, guest(h).1, WorldAfter(h, start));
      (h + [o], next)
  }

  /** Call `k` of the run is an fstat the filter lets run after an object was learned that it does not account
      for. */
  ghost predicate LateAt<W(!new)>(u: Setup<W>, guest: Guest<W>, told: nat -> Described, start: W, k: nat)
    requires GuestOk(u.m, guest)
  {
    var h := PtraceRun(u, guest, told, start, k).0;
    Late(u.m, u.c, u.links(WorldAfter(h, start)), guest(h).0, guest(h).1)
  }

  /** And presenting its result would change something. */
  ghost predicate DiffersAt<W(!new)>(u: Setup<W>, guest: Guest<W>, told: nat -> Described, start: W, k: nat)
    requires GuestOk(u.m, guest)
  {
    var h := PtraceRun(u, guest, told, start, k).0;
    LateAt(u, guest, told, start, k) && Presented(u.p, guest(h).1, WorldAfter(h, start))
  }

  lemma {:induction false} PtraceIsOutside<W(!new)>(u: Setup<W>, guest: Guest<W>, told: nat -> Described, start: W,
                                                    n: nat)
    requires GuestOk(u.m, guest)
    ensures !PtraceRun(u, guest, told, start, n).1
  {
    hide ByPtrace;
    if n > 0 {
      PtraceIsOutside(u, guest, told, start, n - 1);
      var h := PtraceRun(u, guest, told, start, n - 1).0;
      StopsAreTold(u, told(n - 1), guest(h).1, WorldAfter(h, start));
    }
  }

  lemma {:induction false} FilterIsOutside<W(!new)>(u: Setup<W>, guest: Guest<W>, prog: seq<Insn>, start: W, n: nat)
    requires GuestOk(u.m, guest)
    ensures FilterRun(u, guest, prog, start, n).1 == OUTSIDE
  {
    hide ByFilter;
    if n > 0 {
      FilterIsOutside(u, guest, prog, start, n - 1);
      var h := FilterRun(u, guest, prog, start, n - 1).0;
      WatchIsKept(u, prog, guest(h).0, guest(h).1, WorldAfter(h, start));
    }
  }

  /** One call more: equal runs stay equal exactly if the call does not differ. */
  lemma CallMore<W(!new)>(u: Setup<W>, guest: Guest<W>, told: nat -> Described, prog: seq<Insn>, start: W, n: nat)
    requires TableOk(u.m) && HasFstat(u.m) && GuestOk(u.m, guest) && Compiled(prog, PolicyFor(u.m, u.c))
    requires PtraceRun(u, guest, told, start, n).0 == FilterRun(u, guest, prog, start, n).0
    ensures PtraceRun(u, guest, told, start, n + 1).0 == FilterRun(u, guest, prog, start, n + 1).0 <==>
            !DiffersAt(u, guest, told, start, n)
  {
    hide ByPtrace, ByFilter, UnderPtrace, UnderSeccomp, TableOk, HasFstat, Compiled, PolicyFor, Late, Presented;
    var h := PtraceRun(u, guest, told, start, n).0;
    var w := WorldAfter(h, start);
    PtraceIsOutside(u, guest, told, start, n);
    FilterIsOutside(u, guest, prog, start, n);
    StopsAreTold(u, told(n), guest(h).1, w);
    WatchIsKept(u, prog, guest(h).0, guest(h).1, w);
    CallAgreesIff(u, prog, guest(h).0, guest(h).1, w);
    var a := UnderPtrace(u.m, u.c, u.links(w), u.p, guest(h).1, w);
    var b := UnderSeccomp(u.m, u.c, u.links(w), u.p, prog, guest(h).0, guest(h).1, w);
    assert (h + [a])[n] == a && (h + [b])[n] == b;
  }

  /** Mode equivalence over whole runs: for every kernel and handlers, every guest, and whatever is learned of
      link objects on the way, the first `n` calls end the same way in both modes if and only if none of them
      is an fstat that the filter lets run after an object was learned that it does not account for, with a
      result that presenting changes. */
  lemma {:induction false} RunsAgreeIff<W(!new)>(u: Setup<W>, guest: Guest<W>, told: nat -> Described, prog: seq<Insn>,
                                                 start: W, n: nat)
    requires TableOk(u.m) && HasFstat(u.m) && GuestOk(u.m, guest) && Compiled(prog, PolicyFor(u.m, u.c))
    ensures PtraceRun(u, guest, told, start, n).0 == FilterRun(u, guest, prog, start, n).0 <==>
            forall k :: 0 <= k < n ==> !DiffersAt(u, guest, told, start, k)
  {
    hide TableOk, HasFstat, GuestOk, Compiled, PolicyFor, DiffersAt, PtraceRun, FilterRun;
    if n == 0 {
      assert PtraceRun(u, guest, told, start, 0).0 == [] == FilterRun(u, guest, prog, start, 0).0;
    } else {
      RunsAgreeIff(u, guest, told, prog, start, n - 1);
      RunsGrow(u, guest, told, prog, start, n);
      if PtraceRun(u, guest, told, start, n - 1).0 == FilterRun(u, guest, prog, start, n - 1).0 {
        CallMore(u, guest, told, prog, start, n - 1);
      }
    }
  }

  lemma RunsGrow<W(!new)>(u: Setup<W>, guest: Guest<W>, told: nat -> Described, prog: seq<Insn>, start: W, n: nat)
    requires GuestOk(u.m, guest) && n > 0
    ensures PtraceRun(u, guest, told, start, n).0[..n - 1] == PtraceRun(u, guest, told, start, n - 1).0
    ensures FilterRun(u, guest, prog, start, n).0[..n - 1] == FilterRun(u, guest, prog, start, n - 1).0
  {
    hide GuestOk, ByPtrace, ByFilter;
  }

  /** So they end the same way as long as the filter lets no fstat run after such an object. */
  lemma NoLateFstat<W(!new)>(u: Setup<W>, guest: Guest<W>, told: nat -> Described, prog: seq<Insn>, start: W, n: nat)
    requires TableOk(u.m) && HasFstat(u.m) && GuestOk(u.m, guest) && Compiled(prog, PolicyFor(u.m, u.c))
    requires forall k :: 0 <= k < n ==> !LateAt(u, guest, told, start, k)
    ensures PtraceRun(u, guest, told, start, n).0 == FilterRun(u, guest, prog, start, n).0
  {
    hide TableOk, HasFstat, GuestOk, Compiled, PolicyFor, LateAt, PtraceRun, FilterRun;
    RunsAgreeIff(u, guest, told, prog, start, n);
  }

  /** A filter that stops fstat, or a session whose objects were all there when it was built. */
  predicate Accounted(c: Config) {
    c.hadObjects || c.linksEnabled || c.identity || c.trace
  }

  ghost predicate AllRunsAgree(m: Machine, c: Config, prog: seq<Insn>) {
    forall p: Parts<int>, links: int -> Links, guest: Guest<int>, told: nat -> Described, start: int, n: nat ::
      GuestOk(m, guest) ==>
        PtraceRun(Setup(m, c, p, links), guest, told, start, n).0 ==
        FilterRun(Setup(m, c, p, links), guest, prog, start, n).0
  }

  /** Every run of every guest is the same in both modes exactly for such a configuration. */
  lemma AllRunsAgreeIff(m: Machine, c: Config, prog: seq<Insn>)
    requires TableOk(m) && HasFstat(m) && Compiled(prog, PolicyFor(m, c))
    ensures AllRunsAgree(m, c, prog) <==> Accounted(c)
  {
    hide TableOk, HasFstat, GuestOk, Compiled, PolicyFor, PtraceRun, FilterRun, Decide;
    if Accounted(c) {
      forall p: Parts<int>, links: int -> Links, guest: Guest<int>, told: nat -> Described, start: int, n: nat
        | GuestOk(m, guest)
        ensures PtraceRun(Setup(m, c, p, links), guest, told, start, n).0 ==
                FilterRun(Setup(m, c, p, links), guest, prog, start, n).0
      {
        NoLateFstat(Setup(m, c, p, links), guest, told, prog, start, n);
      }
    } else {
      LateRun(m, c, prog);
    }
  }

  /** A single late fstat whose presented result differs. */
  lemma LateRun(m: Machine, c: Config, prog: seq<Insn>)
    requires TableOk(m) && HasFstat(m) && Compiled(prog, PolicyFor(m, c)) && !Accounted(c)
    ensures !AllRunsAgree(m, c, prog)
  {
    hide TableOk, HasFstat, Compiled, PolicyFor, Decide, ByPtrace, ByFilter;
    var p := Parts((_, _, w: int) => Reaction([], Go, w), (_, w: int) => w, (_, ret, w: int) => (ret, w + 1),
                   (_, _, w: int) => (0, w));
    var links: int -> Links := _ => Links(true, true);
    var told: nat -> Described := _ => Described(false, false);
    var args := [0, 0, 0, 0, 0, 0];
    var input, r := Input(m.nrs.fstat, m.arch, args), Regs(m.nrs.fstat, args, 0, true);
    var guest: Guest<int> := _ => (input, r);
    var u := Setup(m, c, p, links);
    FstatNumber(m);
    FstatRuns(m, c, links(0), input);
    assert SameCall(m, input, r);
    assert GuestOk(m, guest);
    assert Late(m, c, links(0), input, r) && Presented(p, r, 0);
    assert DiffersAt(u, guest, told, 0, 0);
    RunsAgreeIff(u, guest, told, prog, 0, 1);
  }
}
