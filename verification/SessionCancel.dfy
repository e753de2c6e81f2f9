/** `Session::start` against `Session::cancel` (src/core/session.cpp): a flag, a state machine and the
    published engine instance, changed by any number of threads in steps of one load, store or locked
    block each. */
module SessionCancel {
  import opened Lifecycle

  /** Program counter of `start`; `start_mu_` is held from `Enter` on. */
  datatype StartPc =
    | Waiting | Enter | SelectEngine | CreateInstance | Publish | FirstCheck | FirstCancel | StartInstance
    | ToRunning | RefusedCancel | SecondCheck | SecondCancel | SpawnThreads | SpawnCancel | SpawnFailed
    | FailStart | FailCancelled | FailFailed | Started

  /** Program counter of `cancel`. */
  datatype CancelPc = SetFlag | ReadState | TryCancel | SetResult | UseInstance | Returned

  datatype Thread = Starter(start: StartPc) | Canceller(cancel: CancelPc)

  /** What the threads share; `owner` is bookkeeping: the thread whose start was let in. */
  datatype Shared = Shared(
    session: SessionState,
    flag: bool,              // cancel_requested_
    created: bool,           // create_instance succeeded
    published: bool,         // inst_ is set
    instanceCancelled: bool, // cancel was called on the instance
    startLock: bool,         // start_mu_
    owner: int)

  datatype State = State(shared: Shared, threads: map<int, Thread>)

  const NOBODY := -1

  predicate Init(s: State) {
    s.shared == Shared(Created, false, false, false, false, false, NOBODY) && NOBODY !in s.threads &&
    forall t :: t in s.threads ==> s.threads[t] == Starter(Waiting) || s.threads[t] == Canceller(SetFlag)
  }

  /** `transition`: a refused transition changes nothing. */
  function After(from: SessionState, to: SessionState): SessionState {
    if CanTransition(from, to) then to else from
  }

  /** One step of a thread in `start`. Engine selection, instance creation, instance start and thread
      creation may each fail: `ok` says which way it went. A thread waiting for the lock does not move. */
  function StartMove(g: Shared, t: int, pc: StartPc, ok: bool): (Shared, StartPc) {
    match pc
    case Waiting => if g.startLock then (g, pc) else (g.(startLock := true), Enter)
    case Enter =>
      if CanTransition(g.session, Starting) then (g.(session := Starting, owner := t), SelectEngine)
      else (g.(startLock := false), Started)
    case SelectEngine => (g, if ok then CreateInstance else FailStart)
    case CreateInstance => if ok then (g.(created := true), Publish) else (g, FailStart)
    case Publish => (g.(published := true), FirstCheck)
    case FirstCheck => (g, if g.flag then FirstCancel else StartInstance)
    case FirstCancel => (g.(instanceCancelled := true), StartInstance)
    case StartInstance => (g, if ok then ToRunning else FailStart)
    case ToRunning =>
      (g.(session := After(g.session, Running)),
       if CanTransition(g.session, Running) then SecondCheck else RefusedCancel)
    case RefusedCancel => (g.(instanceCancelled := true), SecondCheck)
    case SecondCheck => (g, if g.flag then SecondCancel else SpawnThreads)
    case SecondCancel => (g.(instanceCancelled := true), SpawnThreads)
    case SpawnThreads => if ok then (g.(startLock := false), Started) else (g, SpawnCancel)
    case SpawnCancel => (g.(instanceCancelled := true), SpawnFailed)
    // ok: the waiter exists and only the watchdog is missing, so the end is left to the waiter
    case SpawnFailed => (g.(session := if ok then g.session else After(g.session, Failed), startLock := false), Started)
    case FailStart => (g, if g.flag then FailCancelled else FailFailed)
    case FailCancelled => (g.(session := After(g.session, Cancelled), startLock := false), Started)
    case FailFailed => (g.(session := After(g.session, Failed), startLock := false), Started)
    case Started => (g, pc)
  }

  /** One step of a thread in `cancel`. */
  function CancelMove(g: Shared, pc: CancelPc): (Shared, CancelPc) {
    match pc
    case SetFlag => (g.(flag := true), ReadState)
    case ReadState => (g, if g.session.Created? then TryCancel else UseInstance)
    case TryCancel =>
      (g.(session := After(g.session, Cancelled)),
       if CanTransition(g.session, Cancelled) then SetResult else UseInstance)
    case SetResult => (g, Returned)
    case UseInstance => (g.(instanceCancelled := g.instanceCancelled || g.published), Returned)
    case Returned => (g, pc)
  }

  /** Thread `t` moves. */
  function Step(s: State, t: int, ok: bool): State
    requires t in s.threads
  {
    match s.threads[t]
    case Starter(pc) =>
      var (g, next) := StartMove(s.shared, t, pc, ok);
      State(g, s.threads[t := Starter(next)])
    case Canceller(pc) =>
      var (g, next) := CancelMove(s.shared, pc);
      State(g, s.threads[t := Canceller(next)])
  }

  /** The waiter thread ends a running session. */
  predicate WaiterStep(s: State, u: State) {
    s.shared.session.Running? && IsTerminal(u.shared.session) &&
    u == s.(shared := s.shared.(session := u.shared.session))
  }

  ghost predicate Next(s: State, u: State) {
    WaiterStep(s, u) || exists t, ok :: t in s.threads && u == Step(s, t, ok)
  }

  ghost predicate IsRun(run: seq<State>) {
    run != [] && Init(run[0]) && forall i :: 0 <= i < |run| - 1 ==> Next(run[i], run[i + 1])
  }

  // ---- the invariant ----

  /** `start` has been let in and not returned. */
  predicate Inside(pc: StartPc) {
    !(pc.Waiting? || pc.Enter? || pc.Started?)
  }

  predicate HoldsLock(t: Thread) {
    t.Starter? && (Inside(t.start) || t.start.Enter?)
  }

  /** The flag will still be looked at before the instance starts. */
  predicate BeforeCheck(pc: StartPc) {
    pc.SelectEngine? || pc.CreateInstance? || pc.Publish? || pc.FirstCheck? || pc.FirstCancel?
  }

  /** Reached with an instance or without one. */
  predicate Ending(pc: StartPc) {
    pc.FailStart? || pc.FailCancelled? || pc.FailFailed? || pc.Started?
  }

  /** Where the owner stands, `Waiting` while there is none. */
  function OwnerPc(s: State): StartPc {
    if s.shared.owner in s.threads && s.threads[s.shared.owner].Starter? then s.threads[s.shared.owner].start
      else Waiting
  }

  /** The instance belongs to the thread that was let in, and its place fixes what exists. */
  predicate OwnerOk(g: Shared, pc: StartPc) {
    (g.session.Created? ==> g.owner == NOBODY) &&
    (g.owner == NOBODY ==> !g.created && !g.published && (g.session.Created? || g.session.Cancelled?)) &&
    (g.owner != NOBODY ==>
      (Inside(pc) || pc.Started?) &&
      (pc.SelectEngine? || pc.CreateInstance? ==> !g.created && !g.published) &&
      (pc.Publish? ==> g.created && !g.published) &&
      (Ending(pc) ==> g.created == g.published) &&
      (!(pc.SelectEngine? || pc.CreateInstance? || pc.Publish? || Ending(pc)) ==>
         g.created && g.published))
  }

  /** The one instance, if there is or will be one, is or will be cancelled. */
  predicate Answered(g: Shared, pc: StartPc) {
    g.instanceCancelled ||
    (g.owner == NOBODY && g.session.Cancelled?) ||
    (g.owner != NOBODY && g.flag &&
     (if g.created then BeforeCheck(pc) else pc.SelectEngine? || pc.CreateInstance? || Ending(pc)))
  }

  /** A cancel past its first step set the flag, and returns only when the instance is answered for. */
  predicate CancelOk(g: Shared, owner: StartPc, pc: CancelPc) {
    (!pc.SetFlag? ==> g.flag) &&
    (pc.UseInstance? ==> !g.session.Created?) &&
    (pc.TryCancel? ==> g.session.Created? || Answered(g, owner)) &&
    (pc.SetResult? || pc.Returned? ==> Answered(g, owner))
  }

  predicate ThreadOk(s: State, t: int)
    requires t in s.threads
  {
    match s.threads[t]
    case Starter(pc) => (Inside(pc) ==> s.shared.owner == t) && (HoldsLock(s.threads[t]) ==> s.shared.startLock)
    case Canceller(pc) => CancelOk(s.shared, OwnerPc(s), pc)
  }

  predicate OneInside(s: State) {
    forall a, b :: a in s.threads && b in s.threads && a != b ==> !(HoldsLock(s.threads[a]) && HoldsLock(s.threads[b]))
  }

  ghost predicate Inv(s: State) {
    NOBODY !in s.threads && OneInside(s) && OwnerOk(s.shared, OwnerPc(s)) &&
    (s.shared.owner != NOBODY ==> s.shared.owner in s.threads && s.threads[s.shared.owner].Starter?) &&
    forall t :: t in s.threads ==> ThreadOk(s, t)
  }

  // ---- single moves ----

  /** A move of the thread that was let in. */
  lemma OwnerMove(g: Shared, t: int, pc: StartPc, ok: bool)
    requires t != NOBODY && g.owner == t && Inside(pc) && OwnerOk(g, pc) && g.startLock
    ensures var (h, next) := StartMove(g, t, pc, ok);
            OwnerOk(h, next) && h.owner == t && h.flag == g.flag && (Answered(g, pc) ==> Answered(h, next)) &&
            !g.session.Created? && !h.session.Created? && (Inside(next) ==> h.startLock) && !next.Waiting? &&
            !next.Enter?
  {
  }

  /** A move of a thread that waits for the lock, holds it at the door, or has left. */
  lemma DoorMove(g: Shared, t: int, pc: StartPc, ok: bool, owner: StartPc)
    requires t != NOBODY && !Inside(pc) && OwnerOk(g, owner)
    ensures var (h, next) := StartMove(g, t, pc, ok);
            var nextOwner := if h.owner == g.owner then owner else next;
            OwnerOk(h, nextOwner) && h.flag == g.flag && (Answered(g, owner) ==> Answered(h, nextOwner)) &&
            (g.session.Created? && !h.session.Created? && h.flag ==> Answered(h, nextOwner)) &&
            (!g.session.Created? ==> !h.session.Created?) &&
            (h.owner != g.owner ==> g.owner == NOBODY && h.owner == t) &&
            (Inside(next) ==> h.owner == t && h.owner != g.owner) &&
            (pc.Waiting? || pc.Started? ==> h.session == g.session) &&
            (next.Enter? || Inside(next) ==> h.startLock || pc.Enter?) &&
            (pc.Enter? && g.startLock && Inside(next) ==> h.startLock) &&
            (!pc.Enter? && g.startLock ==> h.startLock) && (pc.Waiting? && next.Enter? ==> !g.startLock)
  {
  }

  /** A move of a canceller. */
  lemma CancelMoveOk(g: Shared, pc: CancelPc, owner: StartPc)
    requires OwnerOk(g, owner) && CancelOk(g, owner, pc)
    ensures var (h, next) := CancelMove(g, pc);
            OwnerOk(h, owner) && CancelOk(h, owner, next) && h.owner == g.owner && h.startLock == g.startLock &&
            (g.flag ==> h.flag) && (Answered(g, owner) ==> Answered(h, owner)) &&
            (g.session.Created? && !h.session.Created? ==> Answered(h, owner)) &&
            (!g.session.Created? ==> !h.session.Created?)
  {
  }

  /** What others rely on survives any such move. */
  lemma CancelOkStable(g: Shared, owner: StartPc, h: Shared, nextOwner: StartPc, pc: CancelPc)
    requires CancelOk(g, owner, pc) && (g.flag ==> h.flag) && (Answered(g, owner) ==> Answered(h, nextOwner))
    requires g.session.Created? && !h.session.Created? && h.flag ==> Answered(h, nextOwner)
    requires !g.session.Created? ==> !h.session.Created?
    ensures CancelOk(h, nextOwner, pc)
  {
    hide Answered;
  }

  // ---- steps ----

  lemma LockApart(s: State, a: int, b: int)
    requires OneInside(s) && a in s.threads && b in s.threads && a != b
    ensures !(HoldsLock(s.threads[a]) && HoldsLock(s.threads[b]))
  {
  }

  lemma OneInsideKept(s: State, t: int, u: State)
    requires OneInside(s) && t in s.threads && t in u.threads && u.threads == s.threads[t := u.threads[t]]
    requires HoldsLock(u.threads[t]) ==>
               HoldsLock(s.threads[t]) || forall x :: x in s.threads ==> !HoldsLock(s.threads[x])
    ensures OneInside(u)
  {
    hide HoldsLock;
    forall a, b | a in u.threads && b in u.threads && a != b
      ensures !(HoldsLock(u.threads[a]) && HoldsLock(u.threads[b])) {
      assert a != t ==> u.threads[a] == s.threads[a];
      assert b != t ==> u.threads[b] == s.threads[b];
      LockApart(s, a, b);
    }
  }

  lemma OwnerStepInv(s: State, t: int, ok: bool)
    requires Inv(s) && t in s.threads && s.threads[t].Starter? && Inside(s.threads[t].start)
    ensures Inv(Step(s, t, ok))
  {
    hide StartMove, OwnerOk, Answered, OneInside, CancelOk;
    var u := Step(s, t, ok);
    assert ThreadOk(s, t);
    OwnerMove(s.shared, t, s.threads[t].start, ok);
    OneInsideKept(s, t, u);
    assert OwnerPc(s) == s.threads[t].start && OwnerPc(u) == u.threads[t].start;
    forall x | x in u.threads ensures ThreadOk(u, x) {
      if x != t {
        assert ThreadOk(s, x) && u.threads[x] == s.threads[x];
        LockApart(s, x, t);
        if s.threads[x].Canceller? {
          CancelOkStable(s.shared, OwnerPc(s), u.shared, OwnerPc(u), s.threads[x].cancel);
        }
      }
    }
  }

  lemma WaitingStepInv(s: State, t: int, ok: bool)
    requires Inv(s) && t in s.threads && s.threads[t] == Starter(Waiting)
    ensures Inv(Step(s, t, ok))
  {
    hide OwnerOk, Answered, OneInside, CancelOk;
    var u := Step(s, t, ok);
    if !s.shared.startLock {
      forall x | x in s.threads ensures !HoldsLock(s.threads[x]) {
        assert ThreadOk(s, x);
      }
    }
    OneInsideKept(s, t, u);
    DoorMove(s.shared, t, Waiting, ok, OwnerPc(s));
    assert ThreadOk(s, t) && OwnerPc(u) == OwnerPc(s);
    forall x | x in u.threads ensures ThreadOk(u, x) {
      assert ThreadOk(s, x);
      if x != t {
        assert u.threads[x] == s.threads[x];
        if s.threads[x].Canceller? {
          CancelOkStable(s.shared, OwnerPc(s), u.shared, OwnerPc(u), s.threads[x].cancel);
        }
      }
    }
  }

  lemma EnterStepInv(s: State, t: int, ok: bool)
    requires Inv(s) && t in s.threads && s.threads[t] == Starter(Enter)
    ensures Inv(Step(s, t, ok))
  {
    hide OwnerOk, Answered, OneInside, CancelOk;
    var u := Step(s, t, ok);
    OneInsideKept(s, t, u);
    DoorMove(s.shared, t, Enter, ok, OwnerPc(s));
    assert ThreadOk(s, t);
    forall x | x in u.threads ensures ThreadOk(u, x) {
      assert ThreadOk(s, x);
      if x != t {
        assert u.threads[x] == s.threads[x];
        LockApart(s, x, t);
        if s.threads[x].Canceller? {
          CancelOkStable(s.shared, OwnerPc(s), u.shared, OwnerPc(u), s.threads[x].cancel);
        }
      }
    }
  }

  lemma CancelStepInv(s: State, t: int, ok: bool)
    requires Inv(s) && t in s.threads && s.threads[t].Canceller?
    ensures Inv(Step(s, t, ok))
  {
    hide CancelMove, OwnerOk, Answered, OneInside, CancelOk;
    var u := Step(s, t, ok);
    assert ThreadOk(s, t);
    CancelMoveOk(s.shared, s.threads[t].cancel, OwnerPc(s));
    OneInsideKept(s, t, u);
    assert OwnerPc(u) == OwnerPc(s);
    forall x | x in u.threads ensures ThreadOk(u, x) {
      assert ThreadOk(s, x);
      if x != t {
        assert u.threads[x] == s.threads[x];
        if s.threads[x].Canceller? {
          CancelOkStable(s.shared, OwnerPc(s), u.shared, OwnerPc(u), s.threads[x].cancel);
        }
      }
    }
  }

  lemma WaiterInv(s: State, u: State)
    requires Inv(s) && WaiterStep(s, u)
    ensures Inv(u)
  {
    assert u.threads == s.threads;
    forall x | x in u.threads ensures ThreadOk(u, x) {
      assert ThreadOk(s, x);
    }
  }

  lemma NextInv(s: State, u: State)
    requires Inv(s) && Next(s, u)
    ensures Inv(u)
  {
    hide Inv, WaiterStep;
    if WaiterStep(s, u) {
      WaiterInv(s, u);
    } else {
      var t, ok :| t in s.threads && u == Step(s, t, ok);
      if s.threads[t].Canceller? {
        CancelStepInv(s, t, ok);
      } else if Inside(s.threads[t].start) {
        OwnerStepInv(s, t, ok);
      } else if s.threads[t].start.Enter? {
        EnterStepInv(s, t, ok);
      } else if s.threads[t].start.Waiting? {
        WaitingStepInv(s, t, ok);
      } else {
        assert s.threads[t].start.Started?;
        assert u == s by { assert s.threads[t := s.threads[t]] == s.threads; }
      }
    }
  }

  lemma InitInv(s: State)
    requires Init(s)
    ensures Inv(s)
  {
  }

  lemma {:induction false} RunInv(run: seq<State>, i: nat)
    requires IsRun(run) && i < |run|
    ensures Inv(run[i])
    decreases i
  {
    hide Next, Inv;
    if i == 0 {
      InitInv(run[0]);
    } else {
      RunInv(run, i - 1);
      assert Next(run[i - 1], run[i]);
      NextInv(run[i - 1], run[i]);
    }
  }

  /** No lost cancellation: in every interleaving, once a cancel and every start have returned, either
      no instance was created or its cancel was called. */
  lemma NoLostCancellation(run: seq<State>, i: nat, c: int)
    requires IsRun(run) && i < |run|
    requires c in run[i].threads && run[i].threads[c] == Canceller(Returned)
    requires forall t :: t in run[i].threads && run[i].threads[t].Starter? ==> !Inside(run[i].threads[t].start)
    ensures !run[i].shared.created || run[i].shared.instanceCancelled
  {
    RunInv(run, i);
    assert ThreadOk(run[i], c);
  }

  lemma OwnerMoves(g: Shared, t: int, pc: StartPc, cancel: CancelPc, ok: bool)
    requires !g.session.Created?
    ensures StartMove(g, t, pc, ok).0.owner == g.owner && CancelMove(g, cancel).0.owner == g.owner
  {
  }

  /** Once a thread has been let in it stays the one that was. */
  lemma OwnerStep(s: State, u: State)
    requires Inv(s) && Next(s, u) && s.shared.owner != NOBODY
    ensures u.shared.owner == s.shared.owner
  {
    hide StartMove, CancelMove, OneInside, ThreadOk, OwnerPc;
    if !WaiterStep(s, u) {
      var t, ok :| t in s.threads && u == Step(s, t, ok);
      match s.threads[t]
      case Starter(pc) => OwnerMoves(s.shared, t, pc, SetFlag, ok);
      case Canceller(pc) => OwnerMoves(s.shared, t, Waiting, pc, ok);
    }
  }

  lemma {:induction false} OwnerKept(run: seq<State>, i: nat, j: nat)
    requires IsRun(run) && i <= j < |run| && run[i].shared.owner != NOBODY
    ensures run[j].shared.owner == run[i].shared.owner
    decreases j
  {
    hide Next, Inv, Init;
    if i < j {
      OwnerKept(run, i, j - 1);
      RunInv(run, j - 1);
      assert Next(run[j - 1], run[j]);
      OwnerStep(run[j - 1], run[j]);
    }
  }

  lemma InsideOwns(s: State, t: int)
    requires Inv(s) && t in s.threads && s.threads[t].Starter? && Inside(s.threads[t].start)
    ensures s.shared.owner == t && t != NOBODY
  {
    assert ThreadOk(s, t);
  }

  /** At most one thread is ever let in: two threads inside `start`, at the same or at different times of
      one run, are the same thread. So at most one instance is ever created. */
  lemma OneInstance(run: seq<State>, i: nat, j: nat, a: int, b: int)
    requires IsRun(run) && i <= j < |run| && a in run[i].threads && b in run[j].threads
    requires run[i].threads[a].Starter? && Inside(run[i].threads[a].start)
    requires run[j].threads[b].Starter? && Inside(run[j].threads[b].start)
    ensures a == b
  {
    hide Inv, Inside, IsRun;
    RunInv(run, i);
    RunInv(run, j);
    InsideOwns(run[i], a);
    InsideOwns(run[j], b);
    OwnerKept(run, i, j);
  }

  // ---- nothing is cancelled unasked, and no start is left half done ----

  /** Between being let in and knowing whether the instance runs. */
  predicate Underway(pc: StartPc) {
    BeforeCheck(pc) || pc.StartInstance? || pc.ToRunning? || pc.FailStart? || pc.FailCancelled? || pc.FailFailed?
  }

  /** The session is starting only while a thread is at it. */
  ghost predicate StartingIsUnderway(s: State) {
    s.shared.session.Starting? ==> s.shared.owner != NOBODY && Underway(OwnerPc(s))
  }

  lemma StartMoveUnderway(g: Shared, t: int, pc: StartPc, ok: bool)
    requires t != NOBODY && (g.session.Starting? && Inside(pc) ==> Underway(pc))
    ensures var (h, next) := StartMove(g, t, pc, ok);
            (h.session.Starting? && Inside(pc) ==> Underway(next)) &&
            (h.session.Starting? ==> (h.owner == t && Underway(next)) || (h.owner == g.owner && g.session.Starting?))
  {
    if !pc.Enter? {
      hide After;
      NeverBack(g.session);
      if !Inside(pc) {
        hide Underway;
      }
    }
  }

  /** No transition leads to starting but the first. */
  lemma NeverBack(from: SessionState)
    ensures !After(from, Running).Starting? && !After(from, Failed).Starting? && !After(from, Cancelled).Starting?
  {
  }

  lemma CancelMoveUnderway(g: Shared, pc: CancelPc)
    ensures CancelMove(g, pc).0.session.Starting? ==> g.session.Starting?
    ensures CancelMove(g, pc).0.owner == g.owner
  {
  }

  lemma OwnerPlace(s: State)
    requires Inv(s)
    ensures s.shared.owner != NOBODY ==> Inside(OwnerPc(s)) || OwnerPc(s).Started?
    ensures forall pc :: Underway(pc) ==> Inside(pc)
  {
  }

  lemma UnderwayStep(s: State, u: State)
    requires Inv(s) && StartingIsUnderway(s) && Next(s, u)
    ensures StartingIsUnderway(u)
  {
    hide StartMove, CancelMove, OneInside, OwnerOk, CancelOk, Answered, Underway;
    if !WaiterStep(s, u) {
      var t, ok :| t in s.threads && u == Step(s, t, ok);
      assert ThreadOk(s, t);
      match s.threads[t] {
        case Starter(pc) =>
          StartMoveUnderway(s.shared, t, pc, ok);
          OwnerPlace(s);
        case Canceller(pc) =>
          CancelMoveUnderway(s.shared, pc);
      }
    }
  }

  lemma {:induction false} RunUnderway(run: seq<State>, i: nat)
    requires IsRun(run) && i < |run|
    ensures StartingIsUnderway(run[i])
    decreases i
  {
    hide Next, Inv;
    if i > 0 {
      RunUnderway(run, i - 1);
      RunInv(run, i - 1);
      assert Next(run[i - 1], run[i]);
      UnderwayStep(run[i - 1], run[i]);
    }
  }

  /** Once every start has returned, with or without cancels, the session is not starting any more. */
  lemma NoStartIsLeft(run: seq<State>, i: nat)
    requires IsRun(run) && i < |run|
    requires forall t :: t in run[i].threads && run[i].threads[t].Starter? ==> !Inside(run[i].threads[t].start)
    ensures !run[i].shared.session.Starting?
  {
    hide Inv, IsRun;
    RunUnderway(run, i);
    var s := run[i];
    if s.shared.owner in s.threads && s.threads[s.shared.owner].Starter? {
      assert !Inside(s.threads[s.shared.owner].start);
    }
  }

  /** Nobody has asked for a cancel, and nothing has been cancelled. */
  ghost predicate Quiet(s: State) {
    !s.shared.flag && !s.shared.instanceCancelled &&
    forall t :: t in s.threads ==>
      s.threads[t].Starter? && var pc := s.threads[t].start;
      !pc.FirstCancel? && !pc.RefusedCancel? && !pc.SecondCancel? && !pc.SpawnCancel? &&
      (Inside(pc) && (BeforeCheck(pc) || pc.StartInstance? || pc.ToRunning?) ==> s.shared.session.Starting?)
  }

  lemma QuietMove(g: Shared, t: int, pc: StartPc, ok: bool)
    requires !g.flag && !g.instanceCancelled && !pc.FirstCancel? && !pc.RefusedCancel? && !pc.SecondCancel?
    requires !pc.SpawnCancel? && !StartMove(g, t, pc, ok).1.SpawnCancel?
    requires Inside(pc) && (BeforeCheck(pc) || pc.StartInstance? || pc.ToRunning?) ==> g.session.Starting?
    ensures var (h, next) := StartMove(g, t, pc, ok);
            !h.flag && !h.instanceCancelled && !next.FirstCancel? && !next.RefusedCancel? && !next.SecondCancel? &&
            (Inside(next) && (BeforeCheck(next) || next.StartInstance? || next.ToRunning?) ==> h.session.Starting?) &&
            (!Inside(pc) && !pc.Enter? ==> h.session == g.session)
  {
  }

  lemma QuietStep(s: State, u: State)
    requires Inv(s) && Quiet(s) && Next(s, u)
    requires forall t :: t in u.threads ==> u.threads[t] != Starter(SpawnCancel)
    ensures Quiet(u)
  {
    hide StartMove, CancelMove, OwnerOk, CancelOk, Answered, OneInside, BeforeCheck, Inside, CanTransition;
    if WaiterStep(s, u) {
      assert u.threads == s.threads;
    } else {
      var t, ok :| t in s.threads && u == Step(s, t, ok);
      var pc := s.threads[t].start;
      assert u.threads[t] != Starter(SpawnCancel);
      QuietMove(s.shared, t, pc, ok);
      forall x | x in u.threads && x != t ensures u.threads[x] == s.threads[x]
        ensures Inside(u.threads[x].start) ==> u.shared.session == s.shared.session
      {
        assert ThreadOk(s, x) && ThreadOk(s, t);
        LockApart(s, x, t);
      }
    }
  }

  /** In a run without a cancel the flag stays down, and the instance is cancelled only after the threads that
      watch it could not be made. */
  lemma {:induction false} NotCancelledUnasked(run: seq<State>, i: nat)
    requires IsRun(run) && i < |run| && forall t :: t in run[0].threads ==> run[0].threads[t].Starter?
    requires forall k, t :: 0 <= k <= i && t in run[k].threads ==> run[k].threads[t] != Starter(SpawnCancel)
    ensures Quiet(run[i]) && !run[i].shared.flag && !run[i].shared.instanceCancelled
    decreases i
  {
    hide Next, Inv, Quiet;
    if i == 0 {
      QuietStart(run[0]);
    } else {
      NotCancelledUnasked(run, i - 1);
      RunInv(run, i - 1);
      assert Next(run[i - 1], run[i]);
      QuietStep(run[i - 1], run[i]);
    }
    QuietMeans(run[i]);
  }

  lemma QuietStart(s: State)
    requires Init(s) && forall t :: t in s.threads ==> s.threads[t].Starter?
    ensures Quiet(s)
  {
  }

  lemma QuietMeans(s: State)
    requires Quiet(s)
    ensures !s.shared.flag && !s.shared.instanceCancelled
  {
  }
}
