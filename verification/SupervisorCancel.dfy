/** `Supervisor::cancel` and the main-exit kill against the registration of guest tasks
    (src/engines/rootless/supervisor.cpp): the supervisor thread and any number of cancelling threads,
    interleaved at every atomic access, lock operation and kill. `known_` is only touched under
    `known_mu_`; `tracees_` and `main_exited_` belong to the supervisor thread. */
module SupervisorCancel {
  type Tid = int

  /** What the supervisor thread is doing; `Checking`, `Striking` and `Sweep` hold the lock. */
  datatype SupervisorPc =
    | Spawning(tid: Tid)            // the first process exists, nothing is recorded
    | Announced(tid: Tid)           // it is in known_, PTRACE_SEIZE has not answered
    | Idle                          // between two events
    | Adding(tid: Tid)              // get_or_add: in tracees_, waiting for the lock
    | Checking(tid: Tid)            // get_or_add: in known_, about to look at the reason
    | Striking(tid: Tid)            // get_or_add: about to kill
    | Removing(tid: Tid, exit: bool) // remove_tracee: out of tracees_, waiting for the lock
    | MainGone                      // handle_exit of the first process
    | SweepLock                     // kill_all: waiting for the lock
    | Sweep(todo: set<Tid>)         // kill_all: still to be sent SIGKILL

  datatype CancelPc = Exchange | Lock | Killing(todo: set<Tid>) | Returned

  datatype Canceller = Canceller(reason: nat, pc: CancelPc)

  datatype Holder = Free | Supervisor | Cancelling(thread: int)

  /** `killed` is bookkeeping: the tasks sent SIGKILL since they were last registered. */
  datatype State = State(
    pc: SupervisorPc,
    cancellers: map<int, Canceller>,
    lock: Holder,
    mainTid: Tid,
    tracees: set<Tid>,
    known: set<Tid>,
    killed: set<Tid>,
    reason: nat,
    mainExited: bool)

  /** Every caller cancels for a reason other than `ExitReason::none`, whose number is 0. */
  predicate Init(s: State) {
    s == State(Spawning(s.mainTid), s.cancellers, Free, s.mainTid, {}, {}, {}, 0, false) &&
    forall c :: c in s.cancellers ==> s.cancellers[c].pc.Exchange? && s.cancellers[c].reason > 0
  }

  datatype Event = Stopped(tid: Tid) | Ended(tid: Tid) | ThreadReplaced(tid: Tid) | WaitFailed

  /** What a step does not decide itself: the event an idle supervisor is told, whether PTRACE_SEIZE
      succeeds, and which task the walk over an unordered set reaches next. */
  datatype Choice = Choice(event: Event, seized: bool, victim: Tid)

  /** One step of the supervisor thread. A thread waiting for the lock does not move. */
  function SupervisorStep(s: State, choice: Choice): State {
    match s.pc
    case Spawning(t) => if s.lock.Free? then s.(known := s.known + {t}, pc := Announced(t)) else s
    case Announced(t) =>
      if choice.seized then Register(s, t)
      else if s.lock.Free? then s.(known := s.known - {t}, pc := Idle)
      else s
    case Idle =>
      (match choice.event
       case Stopped(t) => Register(s, t)
       case Ended(t) => s.(tracees := s.tracees - {t}, pc := Removing(t, true))
       case ThreadReplaced(t) => s.(tracees := s.tracees - {t}, pc := Removing(t, false))
       case WaitFailed => s.(pc := SweepLock))
    case Adding(t) => if s.lock.Free? then s.(lock := Supervisor, known := s.known + {t}, pc := Checking(t)) else s
    case Checking(t) =>
      if s.reason != 0 || s.mainExited then s.(pc := Striking(t)) else s.(lock := Free, pc := Idle)
    case Striking(t) => s.(killed := s.killed + {t}, lock := Free, pc := Idle)
    case Removing(t, exit) =>
      if s.lock.Free? then s.(known := s.known - {t}, pc := if exit && t == s.mainTid then MainGone else Idle) else s
    case MainGone => s.(mainExited := true, pc := SweepLock)
    case SweepLock => if s.lock.Free? then s.(lock := Supervisor, pc := Sweep(s.known)) else s
    case Sweep(todo) =>
      if todo == {} then s.(lock := Free, pc := Idle)
      else if choice.victim in todo then s.(killed := s.killed + {choice.victim}, pc := Sweep(todo - {choice.victim}))
      else s
  }

  /** `get_or_add`, its first step: a task already registered is left alone. */
  function Register(s: State, t: Tid): State {
    if t in s.tracees then s.(pc := Idle)
    else s.(tracees := s.tracees + {t}, killed := s.killed - {t}, pc := Adding(t))
  }

  /** One step of cancelling thread `c`. */
  function CancelStep(s: State, c: int, victim: Tid): State
    requires c in s.cancellers
  {
    var me := s.cancellers[c];
    match me.pc
    case Exchange =>
      s.(reason := if s.reason == 0 then me.reason else s.reason, cancellers := s.cancellers[c := me.(pc := Lock)])
    case Lock =>
      if s.lock.Free? then s.(lock := Cancelling(c), cancellers := s.cancellers[c := me.(pc := Killing(s.known))])
        else s
    case Killing(todo) =>
      if todo == {} then s.(lock := Free, cancellers := s.cancellers[c := me.(pc := Returned)])
      else if victim in todo then
        s.(killed := s.killed + {victim}, cancellers := s.cancellers[c := me.(pc := Killing(todo - {victim}))])
      else s
    case Returned => s
  }

  ghost predicate Next(s: State, u: State) {
    (exists choice :: u == SupervisorStep(s, choice)) ||
    (exists c, victim :: c in s.cancellers && u == CancelStep(s, c, victim))
  }

  ghost predicate IsRun(run: seq<State>) {
    run != [] && Init(run[0]) && forall i :: 0 <= i < |run| - 1 ==> Next(run[i], run[i + 1])
  }

  // ---- the invariant ----

  /** The tracee whose registration is under way. */
  function Pending(pc: SupervisorPc): set<Tid> {
    if pc.Spawning? || pc.Announced? || pc.Adding? || pc.Checking? || pc.Striking? then {pc.tid} else {}
  }

  /** Every recorded task was sent SIGKILL, or is in `todo`, or is only being registered. */
  predicate Struck(s: State, todo: set<Tid>) {
    s.known <= s.killed + todo + Pending(s.pc)
  }

  /** The lock is held by whoever the program counters say, and registered tasks are recorded. */
  predicate Shape(s: State) {
    (s.lock.Supervisor? <==> s.pc.Checking? || s.pc.Striking? || s.pc.Sweep?) &&
    (s.lock.Cancelling? ==> s.lock.thread in s.cancellers && s.cancellers[s.lock.thread].pc.Killing?) &&
    (s.pc.Spawning? || s.pc.Announced? ==> s.tracees == {}) &&
    (s.pc.Checking? || s.pc.Striking? ==> s.pc.tid in s.known) &&
    (s.pc.Removing? ==> s.pc.tid !in s.tracees) &&
    s.tracees <= s.known + Pending(s.pc) &&
    (s.pc.Striking? ==> s.reason != 0 || s.mainExited)
  }

  /** How far a cancelling thread has come. */
  predicate CancelOk(s: State, c: int)
    requires c in s.cancellers
  {
    var me := s.cancellers[c];
    me.reason > 0 && (!me.pc.Exchange? ==> s.reason != 0) &&
    (me.pc.Killing? ==> s.lock == Cancelling(c) && Struck(s, me.pc.todo)) && (me.pc.Returned? ==> Struck(s, {}))
  }

  /** How far the kill that follows the exit of the first process has come. */
  predicate SweepOk(s: State) {
    s.mainExited && !s.pc.SweepLock? ==> Struck(s, if s.pc.Sweep? then s.pc.todo else {})
  }

  predicate Inv(s: State) {
    Shape(s) && SweepOk(s) && forall c :: c in s.cancellers ==> CancelOk(s, c)
  }

  /** A supervisor step keeps what a cancelling thread relies on. */
  lemma SupervisorKeepsCancel(s: State, choice: Choice, c: int)
    requires Shape(s) && c in s.cancellers && CancelOk(s, c)
    ensures CancelOk(SupervisorStep(s, choice), c)
  {
  }

  lemma SupervisorKeepsShape(s: State, choice: Choice)
    requires Shape(s)
    ensures Shape(SupervisorStep(s, choice)) && SupervisorStep(s, choice).cancellers == s.cancellers
  {
  }

  lemma SupervisorKeepsSweep(s: State, choice: Choice)
    requires Shape(s) && SweepOk(s)
    ensures SweepOk(SupervisorStep(s, choice))
  {
  }

  lemma SupervisorKeeps(s: State, choice: Choice)
    requires Inv(s)
    ensures Inv(SupervisorStep(s, choice))
  {
    hide SupervisorStep, CancelOk, Shape, SweepOk;
    var u := SupervisorStep(s, choice);
    SupervisorKeepsShape(s, choice);
    SupervisorKeepsSweep(s, choice);
    forall c | c in u.cancellers ensures CancelOk(u, c) {
      assert CancelOk(s, c);
      SupervisorKeepsCancel(s, choice, c);
    }
  }

  lemma CancelKeeps(s: State, c: int, victim: Tid)
    requires Inv(s) && c in s.cancellers
    ensures Inv(CancelStep(s, c, victim))
  {
    var u := CancelStep(s, c, victim);
    assert CancelOk(s, c);
    forall d | d in u.cancellers ensures CancelOk(u, d) {
      assert CancelOk(s, d);
    }
  }

  lemma {:induction false} RunInv(run: seq<State>, i: nat)
    requires IsRun(run) && i < |run|
    ensures Inv(run[i])
    decreases i
  {
    hide SupervisorStep, CancelStep, Inv;
    if i == 0 {
      assert Inv(run[0]) by { InitInv(run[0]); }
    } else {
      RunInv(run, i - 1);
      var s, u := run[i - 1], run[i];
      assert Next(s, u);
      if choice :| u == SupervisorStep(s, choice) {
        SupervisorKeeps(s, choice);
      } else {
        var c, victim :| c in s.cancellers && u == CancelStep(s, c, victim);
        CancelKeeps(s, c, victim);
      }
    }
  }

  lemma InitInv(s: State)
    requires Init(s)
    ensures Inv(s)
  {
  }

  /** In every interleaving, once some cancel has returned, or the first process has exited and the kill
      that follows has run, every registered task was sent SIGKILL after it was registered; only a task
      whose registration is still under way can be missing, and its registration will kill it. */
  lemma NoTaskSurvives(run: seq<State>, i: nat)
    requires IsRun(run) && i < |run|
    requires (exists c :: c in run[i].cancellers && run[i].cancellers[c].pc.Returned?) ||
             (run[i].mainExited && !run[i].pc.SweepLock? && !run[i].pc.Sweep?)
    ensures run[i].tracees <= run[i].killed + Pending(run[i].pc)
    ensures run[i].pc.Checking? ==> forall choice :: SupervisorStep(run[i], choice).pc.Striking?
  {
    RunInv(run, i);
    var s := run[i];
    if c :| c in s.cancellers && s.cancellers[c].pc.Returned? {
      assert CancelOk(s, c);
    }
  }

  // ---- nobody else is killed ----

  /** What is still to be killed is recorded. */
  predicate TodoKnown(s: State) {
    (s.pc.Sweep? ==> s.pc.todo <= s.known) &&
    forall c :: c in s.cancellers && s.cancellers[c].pc.Killing? ==> s.cancellers[c].pc.todo <= s.known
  }

  lemma SupervisorKeepsTodo(s: State, choice: Choice)
    requires Inv(s) && TodoKnown(s)
    ensures TodoKnown(SupervisorStep(s, choice))
    ensures SupervisorStep(s, choice).killed - s.killed <= s.known
  {
    var u := SupervisorStep(s, choice);
    assert u.cancellers == s.cancellers by { SupervisorKeepsShape(s, choice); }
    forall c | c in u.cancellers && u.cancellers[c].pc.Killing? ensures u.cancellers[c].pc.todo <= u.known {
      assert CancelOk(s, c);
    }
  }

  lemma CancelKeepsTodo(s: State, c: int, victim: Tid)
    requires Inv(s) && TodoKnown(s) && c in s.cancellers
    ensures TodoKnown(CancelStep(s, c, victim))
    ensures CancelStep(s, c, victim).killed - s.killed <= s.known
  {
    assert CancelOk(s, c);
  }

  lemma {:induction false} RunTodo(run: seq<State>, i: nat)
    requires IsRun(run) && i < |run|
    ensures TodoKnown(run[i])
    decreases i
  {
    hide SupervisorStep, CancelStep, Inv, TodoKnown;
    if i == 0 {
      TodoAtStart(run[0]);
    } else {
      RunTodo(run, i - 1);
      RunInv(run, i - 1);
      var s, u := run[i - 1], run[i];
      assert Next(s, u);
      if choice :| u == SupervisorStep(s, choice) {
        SupervisorKeepsTodo(s, choice);
      } else {
        var c, victim :| c in s.cancellers && u == CancelStep(s, c, victim);
        CancelKeepsTodo(s, c, victim);
      }
    }
  }

  lemma TodoAtStart(s: State)
    requires Init(s)
    ensures TodoKnown(s)
  {
  }

  /** SIGKILL is only ever sent to a task that is recorded at that moment, so never to one that was removed. */
  lemma OnlyRecordedAreKilled(run: seq<State>, i: nat)
    requires IsRun(run) && i + 1 < |run|
    ensures run[i + 1].killed - run[i].killed <= run[i].known
  {
    hide SupervisorStep, CancelStep, Inv, TodoKnown;
    RunInv(run, i);
    RunTodo(run, i);
    var s, u := run[i], run[i + 1];
    assert Next(s, u);
    if choice :| u == SupervisorStep(s, choice) {
      SupervisorKeepsTodo(s, choice);
    } else {
      var c, victim :| c in s.cancellers && u == CancelStep(s, c, victim);
      CancelKeepsTodo(s, c, victim);
    }
  }

  /** Without a cancel, while the first process lives and waiting does not fail, nobody is killed. */
  lemma {:induction false} NobodyIsKilledUnasked(run: seq<State>, i: nat)
    requires IsRun(run) && i < |run| && run[0].cancellers == map[]
    requires forall k :: 0 <= k <= i ==> !run[k].mainExited && !run[k].pc.SweepLock?
    ensures run[i].killed == {} && run[i].reason == 0 && !run[i].pc.Striking? && !run[i].pc.Sweep?
    ensures run[i].cancellers == map[]
    decreases i
  {
    if i > 0 {
      NobodyIsKilledUnasked(run, i - 1);
      assert Next(run[i - 1], run[i]);
    }
  }

  /** The reason of the first cancel stays: later ones do not change how the session is said to have ended. */
  lemma {:induction false} FirstReasonStays(run: seq<State>, i: nat, j: nat)
    requires IsRun(run) && i <= j < |run| && run[i].reason != 0
    ensures run[j].reason == run[i].reason
    decreases j
  {
    if i < j {
      FirstReasonStays(run, i, j - 1);
      assert Next(run[j - 1], run[j]);
    }
  }

  /** It is the reason of one of them. */
  lemma {:induction false} ReasonIsGiven(run: seq<State>, i: nat)
    requires IsRun(run) && i < |run|
    ensures run[i].reason != 0 ==> exists c :: c in run[i].cancellers && run[i].cancellers[c].reason == run[i].reason
    ensures run[i].cancellers.Keys == run[0].cancellers.Keys
    ensures forall c :: c in run[i].cancellers ==> run[i].cancellers[c].reason == run[0].cancellers[c].reason
    decreases i
  {
    if i > 0 {
      ReasonIsGiven(run, i - 1);
      var s, u := run[i - 1], run[i];
      assert Next(s, u);
      if choice :| u == SupervisorStep(s, choice) {
        SupervisorReason(s, choice);
      } else {
        var c, victim :| c in s.cancellers && u == CancelStep(s, c, victim);
        CancelReason(s, c, victim);
      }
    }
  }

  lemma SupervisorReason(s: State, choice: Choice)
    ensures SupervisorStep(s, choice).reason == s.reason && SupervisorStep(s, choice).cancellers == s.cancellers
  {
  }

  lemma CancelReason(s: State, c: int, victim: Tid)
    requires c in s.cancellers
    ensures var u := CancelStep(s, c, victim);
            (u.reason == s.reason || (s.reason == 0 && u.reason == s.cancellers[c].reason)) &&
            u.cancellers.Keys == s.cancellers.Keys &&
            forall d :: d in u.cancellers ==> u.cancellers[d].reason == s.cancellers[d].reason
  {
  }
}
