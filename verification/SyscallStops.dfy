/** Which syscall stops are entries and which are exits: `on_syscall_stop`, `get_or_add`, `resume` and the
    exec event (src/engines/rootless/supervisor.cpp), against the stops a kernel reports for one task. */
module SyscallStops {

  /** What PTRACE_GET_SYSCALL_INFO says of a stop; `NoInfo` where it is missing or not asked for. */
  datatype Info = NoInfo | EntryInfo | ExitInfo

  /** The decision of `on_syscall_stop`. */
  predicate IsExit(seccomp: bool, inSyscall: bool, info: Info) {
    info.ExitInfo? || (info.NoInfo? && (seccomp || inSyscall))
  }

  /** The truth about a stop, where the kernel tells it. */
  function Told(exit: bool, described: bool): Info {
    if !described then NoInfo else if exit then ExitInfo else EntryInfo
  }

  class Task {
    var inSyscall: bool

    /** `get_or_add`. */
    constructor (seccomp: bool)
      ensures inSyscall == !seccomp
    {
      inSyscall := !seccomp;
    }

    /** `on_syscall_stop`; `wanted` is `pending.active`, and `info` what the kernel would say if it
        were asked. */
    method OnSyscallStop(seccomp: bool, canAsk: bool, wanted: bool, info: Info) returns (isExit: bool)
      modifies this`inSyscall
      ensures isExit == IsExit(seccomp, old(inSyscall), if canAsk && !(seccomp && wanted) then info else NoInfo)
      ensures inSyscall == if seccomp then old(inSyscall) else !isExit
    {
      isExit := false;
      var op := NoInfo;
      if canAsk && !(seccomp && wanted) {
        op := info;
      }
      if op == EntryInfo {
        isExit := false;
      } else if op == ExitInfo {
        isExit := true;
      } else if seccomp {
        isExit := true;
      } else {
        isExit := inSyscall;
      }
      if !seccomp {
        inSyscall := !isExit;
      }
    }

    /** The exec event: the task is inside execve. */
    method OnExec(seccomp: bool)
      modifies this`inSyscall
      ensures inSyscall == (!seccomp || old(inSyscall))
    {
      if !seccomp {
        inSyscall := true;
      }
    }
  }

  // ---- every call stops (PTRACE_SYSCALL) ----

  /** What is reported of a task: a syscall stop, with its kind and whether the kernel describes it, an exec
      event, or any other stop. */
  datatype Event = SyscallStop(exit: bool, described: bool) | ExecStop | OtherStop

  /** Whether the task is inside a syscall after a report; after an exec it is, whichever thread called it. */
  function Inside(inside: bool, e: Event): bool {
    match e
    case SyscallStop(exit, _) => !exit
    case ExecStop => true
    case OtherStop => inside
  }

  /** A kernel reports an exit inside a call and an entry outside. */
  ghost predicate Reported(inside: bool, run: seq<Event>)
    decreases |run|
  {
    run == [] || ((run[0].SyscallStop? ==> run[0].exit == inside) && Reported(Inside(inside, run[0]), run[1..]))
  }

  /** `in_syscall` after a report. */
  function Flag(inSyscall: bool, e: Event): bool {
    match e
    case SyscallStop(exit, described) => !IsExit(false, inSyscall, Told(exit, described))
    case ExecStop => true
    case OtherStop => inSyscall
  }

  function FlagAfter(inSyscall: bool, run: seq<Event>): bool
    decreases |run|
  {
    if run == [] then inSyscall else FlagAfter(Flag(inSyscall, run[0]), run[1..])
  }

  /** The decision at stop `i` of a run. */
  function Verdict(inSyscall: bool, run: seq<Event>, i: nat): bool
    requires i < |run| && run[i].SyscallStop?
  {
    IsExit(false, FlagAfter(inSyscall, run[..i]), Told(run[i].exit, run[i].described))
  }

  /** By stop `i` the kernel has described a stop, that one included, or the task has gone through an exec. */
  ghost predicate Anchored(run: seq<Event>, i: nat) {
    exists j :: 0 <= j <= i && j < |run| && (run[j].ExecStop? || (run[j].SyscallStop? && run[j].described))
  }

  /** Every stop is classified right, from a task's registration on, if and only if the task was inside a
      call when it was registered, as a child returning from fork is, or the run has been anchored by
      then. */
  lemma {:induction false} VerdictRightIff(inside: bool, inSyscall: bool, run: seq<Event>, i: nat)
    requires Reported(inside, run) && i < |run| && run[i].SyscallStop?
    ensures (Verdict(inSyscall, run, i) == run[i].exit) <==> (inSyscall == inside || Anchored(run, i))
    decreases i
  {
    if i == 0 {
      assert run[..0] == [];
      assert Anchored(run, 0) <==> run[0].described;
    } else {
      assert run[..i][0] == run[0] && run[..i][1..] == run[1..][..i - 1];
      VerdictRightIff(Inside(inside, run[0]), Flag(inSyscall, run[0]), run[1..], i - 1);
      AnchoredTail(run, i);
    }
  }

  lemma AnchoredTail(run: seq<Event>, i: nat)
    requires 0 < i < |run|
    ensures Anchored(run, i) <==>
            run[0].ExecStop? || (run[0].SyscallStop? && run[0].described) || Anchored(run[1..], i - 1)
  {
    if Anchored(run, i) {
      var j :| 0 <= j <= i && j < |run| && (run[j].ExecStop? || (run[j].SyscallStop? && run[j].described));
      if j > 0 {
        assert run[1..][j - 1] == run[j];
      }
    }
    if Anchored(run[1..], i - 1) {
      var j :| 0 <= j <= i - 1 && j < |run[1..]| &&
               (run[1..][j].ExecStop? || (run[1..][j].SyscallStop? && run[1..][j].described));
      assert run[j + 1] == run[1..][j];
    }
  }

  /** A child registered on its way out of fork, and the main process from its exec on: entries are handled
      as entries and exits as exits, whether or not the kernel describes its stops. */
  lemma ClassifiedRight(inside: bool, run: seq<Event>, i: nat)
    requires Reported(inside, run) && i < |run| && run[i].SyscallStop?
    requires inside || exists j :: 0 <= j < i && run[j].ExecStop?
    ensures Verdict(true, run, i) == run[i].exit
  {
    VerdictRightIff(inside, true, run, i);
  }

  /** Where a kernel neither describes stops nor reports a new task's return from fork, its first entry is
      taken for an exit. */
  lemma UndescribedEntryMisjudged()
    ensures var run := [SyscallStop(false, false)];
            Reported(false, run) && Verdict(true, run, 0) && !run[0].exit
  {
    var run := [SyscallStop(false, false)];
    assert run[..0] == [] && run[1..] == [];
  }

  // ---- only chosen calls stop (seccomp) ----

  /** `SeccompStop` is the entry of a call the filter stops, with whether its handler asks for the exit;
      the silent events are calls the filter lets run and returns nobody asked for. */
  datatype Filtered =
    | SeccompStop(arms: bool) | SilentEntry | SilentExit | Stop(exit: bool) | ExecEvent | OtherEvent

  /** A task under the filter: whether it is inside a call, whether it was last resumed with PTRACE_SYSCALL,
      and `pending.active`. */
  datatype Watched = Watched(inside: bool, tracing: bool, active: bool)

  /** What a kernel can report next: a syscall stop needs a task resumed for it, and an entry stop comes
      before the filter is asked. */
  predicate Possible(s: Watched, e: Filtered) {
    match e
    case SeccompStop(_) => !s.inside && !s.tracing
    case SilentEntry => !s.inside && !s.tracing
    case SilentExit => s.inside && !s.tracing
    case Stop(exit) => s.tracing && exit == s.inside
    case ExecEvent => true
    case OtherEvent => true
  }

  /** The report, what the supervisor makes of it, and `resume`. A syscall stop is taken for an exit, which
      settles the pending call. */
  function Handled(s: Watched, e: Filtered): Watched {
    match e
    case SeccompStop(arms) => Watched(true, arms, arms)
    case SilentEntry => s.(inside := true)
    case SilentExit => s.(inside := false)
    case Stop(exit) => Watched(!exit, false, false)
    case ExecEvent => Watched(true, s.active, s.active)
    case OtherEvent => s.(tracing := s.active)
  }

  ghost predicate FilteredRun(s: Watched, run: seq<Filtered>)
    decreases |run|
  {
    run == [] || (Possible(s, run[0]) && FilteredRun(Handled(s, run[0]), run[1..]))
  }

  /** A wanted exit is the exit of the call the task is in. */
  predicate Wanted(s: Watched) {
    s.tracing == s.active && (s.active ==> s.inside)
  }

  function HandledAll(s: Watched, run: seq<Filtered>): Watched
    decreases |run|
  {
    if run == [] then s else HandledAll(Handled(s, run[0]), run[1..])
  }

  /** In every run under the filter, from a new task on, a syscall stop is an exit, and one that was asked
      for. So `IsExit` is right there without asking the kernel. */
  lemma {:induction false} FilteredStopsAreExits(s: Watched, run: seq<Filtered>, i: nat)
    requires Wanted(s) && FilteredRun(s, run) && i < |run| && run[i].Stop?
    ensures HandledAll(s, run[..i]).active && run[i].exit
    ensures forall inSyscall :: IsExit(true, inSyscall, NoInfo) == run[i].exit
    decreases i
  {
    if i > 0 {
      assert run[..i][0] == run[0] && run[..i][1..] == run[1..][..i - 1];
      FilteredStopsAreExits(Handled(s, run[0]), run[1..], i - 1);
    }
  }

  /** An exit somebody asked for is always reported before the next call: no run leaves the call without it. */
  lemma {:induction false} WantedExitComes(s: Watched, run: seq<Filtered>, i: nat)
    requires Wanted(s) && FilteredRun(s, run) && i < |run| && run[i] == SeccompStop(true)
    ensures forall k :: i < k < |run| && (forall j :: i < j < k ==> !run[j].Stop?) ==>
              run[k].Stop? || run[k].ExecEvent? || run[k].OtherEvent?
    decreases i
  {
    if i == 0 {
      OnlyStopsFollow(Handled(s, run[0]), run[1..]);
      forall k | 0 < k < |run| && (forall j :: 0 < j < k ==> !run[j].Stop?)
        ensures run[k].Stop? || run[k].ExecEvent? || run[k].OtherEvent?
      {
        assert forall j :: 0 <= j < k - 1 ==> run[1..][j] == run[j + 1];
        assert run[1..][k - 1] == run[k];
      }
    } else {
      WantedExitComes(Handled(s, run[0]), run[1..], i - 1);
      forall k | i < k < |run| && (forall j :: i < j < k ==> !run[j].Stop?)
        ensures run[k].Stop? || run[k].ExecEvent? || run[k].OtherEvent?
      {
        assert forall j :: i - 1 < j < k - 1 ==> run[1..][j] == run[j + 1];
        assert run[1..][k - 1] == run[k];
      }
    }
  }

  lemma {:induction false} OnlyStopsFollow(s: Watched, run: seq<Filtered>)
    requires s == Watched(true, true, true) && FilteredRun(s, run)
    ensures forall k :: 0 <= k < |run| && (forall j :: 0 <= j < k ==> !run[j].Stop?) ==>
              run[k].Stop? || run[k].ExecEvent? || run[k].OtherEvent?
    decreases |run|
  {
    if run != [] && !run[0].Stop? {
      OnlyStopsFollow(Handled(s, run[0]), run[1..]);
      forall k | 0 < k < |run| && (forall j :: 0 <= j < k ==> !run[j].Stop?)
        ensures run[k].Stop? || run[k].ExecEvent? || run[k].OtherEvent?
      {
        assert forall j :: 0 <= j < k - 1 ==> run[1..][j] == run[j + 1];
        assert run[1..][k - 1] == run[k];
      }
    }
  }
}
