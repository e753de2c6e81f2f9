/** One guest syscall under the two tracing modes (src/engines/rootless/supervisor.cpp): with the seccomp
    filter deciding which calls stop, and with PTRACE_SYSCALL stopping every call. The kernel, the handlers
    that are not spelled out and the fix-ups at the exit stop are parameters; `W` is everything else they
    change (guest memory, host files, supervisor tables). Diagnostics are not part of it. */
module TraceModes {
  import opened Bits
  import opened Errno
  import opened PageMath
  import opened SeccompFilter

  const AF_NETLINK: nat := 16
  const NETLINK_AUDIT: nat := 9
  const MAX_NR: nat := 1024

  // ---- the syscall table and the configuration ----

  datatype Class = PassThrough | Translated | Emulated | Denied | Unsupported

  /** `Other` is any handler whose reaction is a parameter. */
  datatype Handler = NoHandler | Socket | Clone | Sendto | Identity
      | DenyEperm | DenyEnosys | DenyEopnotsupp | DenyEacces | OtherHandler

  datatype Syscall = Syscall(nr: int, cls: Class, handler: Handler)

  /** The numbers the filter and the dispatcher name. */
  datatype Numbers = Numbers(fstat: int, getdents64: int, getgroups: int, seccomp: int, prctl: int,
                             socket: int, clone: int, sendto: int)

  datatype Network = HostNetwork | NoNetwork | OtherNetwork

  /** A machine: its audit architecture, whether it has the x32 numbers, and whether the first argument
      and the return value share a register. */
  datatype Machine = Machine(arch: Word, x32: bool, sharedFirst: bool, table: seq<Syscall>, nrs: Numbers)

  /** What a session is started with; `hadObjects` is the link state when the filter was built. */
  datatype Config = Config(trace: bool, identity: bool, network: Network, linksEnabled: bool, hadObjects: bool,
                           auditRefused: bool)

  function Lookup(table: seq<Syscall>, nr: int): (r: seq<Syscall>)
    ensures |r| <= 1 && (r != [] ==> r[0] in table && r[0].nr == nr) &&
            (r == [] ==> forall s :: s in table ==> s.nr != nr)
  {
    if table == [] then [] else if table[0].nr == nr then [table[0]] else Lookup(table[1..], nr)
  }

  /** What the generated table keeps: one entry a number, the pass-through class has no handler, and the
      three argument tests of the filter are about the calls with those handlers. */
  predicate TableOk(m: Machine) {
    (forall i, j :: 0 <= i < j < |m.table| ==> m.table[i].nr != m.table[j].nr) &&
    (forall s :: s in m.table ==>
       0 <= s.nr < MAX_NR && (s.cls.PassThrough? ==> s.handler.NoHandler?) &&
       (s.nr == m.nrs.socket <==> s.handler.Socket?) && (s.nr == m.nrs.clone <==> s.handler.Clone?) &&
       (s.nr == m.nrs.sendto <==> s.handler.Sendto?)) &&
    (exists s :: s in m.table && s.nr == m.nrs.socket) && (exists s :: s in m.table && s.nr == m.nrs.clone) &&
    (exists s :: s in m.table && s.nr == m.nrs.sendto)
  }

  // ---- the filter policy ----

  /** The calls that run without a stop. */
  predicate Allowed(c: Config, n: Numbers, s: Syscall) {
    (s.cls.PassThrough? && !(c.identity && (s.nr == n.fstat || s.nr == n.getgroups)) &&
     !((c.linksEnabled || c.hadObjects) && s.nr == n.fstat) && !(c.linksEnabled && s.nr == n.getdents64) &&
     s.nr != n.seccomp && s.nr != n.prctl) ||
    (!c.identity && s.handler.Identity?) ||
    (s.handler.Socket? && c.network.HostNetwork? && !c.auditRefused)
  }

  function AllowList(c: Config, n: Numbers, table: seq<Syscall>): seq<int> {
    if table == [] then []
    else (if Allowed(c, n, table[0]) then [table[0].nr] else []) + AllowList(c, n, table[1..])
  }

  lemma {:induction false} AllowListMembers(c: Config, n: Numbers, table: seq<Syscall>, nr: int)
    ensures nr in AllowList(c, n, table) <==> exists s :: s in table && s.nr == nr && Allowed(c, n, s)
  {
    hide Allowed;
    if table != [] {
      AllowListMembers(c, n, table[1..], nr);
      if s :| s in table && s.nr == nr && Allowed(c, n, s) {
        assert s == table[0] || s in table[1..];
      }
    }
  }

  const NEVER: int := -1

  function PolicyFor(m: Machine, c: Config): Policy {
    if c.trace then Policy(m.arch, m.x32, [], false, NEVER, NEVER, NEVER)
    else Policy(m.arch, m.x32, AllowList(c, m.nrs, m.table), c.network.NoNetwork?, m.nrs.socket, m.nrs.clone,
                m.nrs.sendto)
  }

  lemma AllowListSnoc(c: Config, n: Numbers, table: seq<Syscall>, s: Syscall)
    ensures AllowList(c, n, table + [s]) == AllowList(c, n, table) + (if Allowed(c, n, s) then [s.nr] else [])
  {
    hide Allowed;
    var longer := table + [s];
    if table == [] {
      assert longer == [s] && longer[1..] == [];
    } else {
      AllowListSnoc(c, n, table[1..], s);
      assert longer[1..] == table[1..] + [s];
      var first := if Allowed(c, n, table[0]) then [table[0].nr] else [];
      var last := if Allowed(c, n, s) then [s.nr] else [];
      assert AllowList(c, n, longer) == first + AllowList(c, n, longer[1..]);
      assert first + (AllowList(c, n, table[1..]) + last) == first + AllowList(c, n, table[1..]) + last;
    }
  }

  /** The policy construction of `spawn`. */
  method BuildPolicy(m: Machine, c: Config) returns (p: Policy)
    ensures p == PolicyFor(m, c)
  {
    hide AllowList;
    p := Policy(m.arch, m.x32, [], false, NEVER, NEVER, NEVER);
    if c.trace {
      return;
    }
    var n := m.nrs;
    var allowed: seq<int> := [];
    assert AllowList(c, n, m.table[..0]) == [] by { NothingAllowed(c, n, m.table[..0]); }
    for i := 0 to |m.table|
      invariant allowed == AllowList(c, n, m.table[..i])
    {
      var s := m.table[i];
      var allow := s.cls.PassThrough?;
      if c.identity && (s.nr == n.fstat || s.nr == n.getgroups) {
        allow := false;
      }
      if (c.linksEnabled || c.hadObjects) && s.nr == n.fstat {
        allow := false;
      }
      if c.linksEnabled && s.nr == n.getdents64 {
        allow := false;
      }
      if s.nr == n.seccomp {
        allow := false;
      }
      if s.nr == n.prctl {
        allow := false;
      }
      if !c.identity && s.handler.Identity? {
        allow := true;
      }
      if s.handler.Socket? && c.network.HostNetwork? && !c.auditRefused {
        allow := true;
      }
      assert m.table[..i + 1] == m.table[..i] + [s];
      AllowListSnoc(c, n, m.table[..i], s);
      if allow {
        allowed := allowed + [s.nr];
      }
    }
    assert m.table[..|m.table|] == m.table;
    p := Policy(m.arch, m.x32, allowed, c.network.NoNetwork?, n.socket, n.clone, n.sendto);
  }

  /** The policy and its program, as a session starts with them. */
  method BuildFilter(m: Machine, c: Config) returns (prog: seq<Insn>)
    requires TableOk(m)
    ensures Compiled(prog, PolicyFor(m, c)) && Safe(prog)
  {
    hide Compiled, Safe, PolicyFor;
    var p := BuildPolicy(m, c);
    PolicyIsValid(m, c);
    prog := Build(p);
  }

  lemma PolicyIsValid(m: Machine, c: Config)
    requires TableOk(m)
    ensures ValidPolicy(PolicyFor(m, c))
  {
    hide Allowed;
    forall n | n in AllowList(c, m.nrs, m.table) ensures n < MAX_NR {
      AllowListMembers(c, m.nrs, m.table, n);
    }
  }

  lemma NothingAllowed(c: Config, n: Numbers, table: seq<Syscall>)
    requires table == []
    ensures AllowList(c, n, table) == []
  {
  }

  // ---- registers and pending syscalls ----

  datatype Regs = Regs(nr: int, args: seq<nat>, ret: int, native: bool)

  predicate ValidRegs(r: Regs) {
    |r.args| == 6 && forall i :: 0 <= i < 6 ==> r.args[i] < TWO64
  }

  datatype Fixup = NoFixup | EmulatedReturn | SomeFixup(id: nat)

  /** PendingSyscall: `saved` holds the arguments to put back. */
  datatype Pending = Pending(active: bool, saved: map<nat, nat>, fixup: Fixup, emulated: int)

  const NOTHING_PENDING: Pending := Pending(false, map[], NoFixup, 0)

  /** What a handler does to registers and pending state; only the clone handler writes an argument
      without recording it. */
  datatype Effect = Rewrite(index: nat, value: nat) | WriteFirst(value: nat) | Arm(fixup: Fixup)

  datatype Action = Go | Skip(ret: int)

  datatype Reaction<W> = Reaction(effects: seq<Effect>, action: Action, world: W)

  function ApplyEffect(s: (Pending, Regs), e: Effect): (Pending, Regs)
    requires |s.1.args| == 6
  {
    match e
    case Rewrite(i, v) =>
      if i >= 6 then s
      else
        (s.0.(active := true, saved := if i in s.0.saved then s.0.saved else s.0.saved[i := s.1.args[i]]),
         s.1.(args := s.1.args[i := v]))
    case WriteFirst(v) => (s.0, s.1.(args := s.1.args[0 := v]))
    case Arm(f) => (s.0.(active := true, fixup := f), s.1)
  }

  function ApplyEffects(s: (Pending, Regs), effects: seq<Effect>): (r: (Pending, Regs))
    requires |s.1.args| == 6
    ensures |r.1.args| == 6
    decreases |effects|
  {
    if effects == [] then s else ApplyEffects(ApplyEffect(s, effects[0]), effects[1..])
  }

  /** Puts saved arguments back, from argument `from` on. */
  function Restored(args: seq<nat>, saved: map<nat, nat>, from: nat): (r: seq<nat>)
    requires |args| == 6
    ensures |r| == 6 && forall i :: 0 <= i < 6 ==> r[i] == if i in saved && i >= from then saved[i] else args[i]
  {
    seq(6, i requires 0 <= i < 6 => if i in saved && i >= from then saved[i] else args[i])
  }

  // ---- the dispatcher ----

  /** The parts of a session that are not spelled out. */
  datatype Parts<!W> = Parts(
    other: (Syscall, Regs, W) -> Reaction<W>,  // handlers that are parameters
    note: (Regs, W) -> W,                      // a guest installing a seccomp filter is noted
    fix: (Fixup, int, W) -> (int, W),          // fixup_exit: the return value and the world it leaves
    kernel: (int, seq<nat>, W) -> (int, W))    // any kernel: it leaves the argument registers alone

  /** The link state a call finds: emulated links were seen, and stores are visible. */
  datatype Links = Links(objects: bool, visible: bool)

  function Dispatch<W>(m: Machine, c: Config, l: Links, p: Parts<W>, s: Syscall, r: Regs, w: W): Reaction<W>
    requires ValidRegs(r)
  {
    match s.handler
    case NoHandler =>
      var effects :=
        (if s.nr == m.nrs.fstat && (c.identity || l.objects) then [Arm(SomeFixup(0))] else []) +
        (if c.linksEnabled && s.nr == m.nrs.getdents64 && l.visible then [Arm(SomeFixup(1))] else []);
      var noted := if s.nr == m.nrs.prctl || s.nr == m.nrs.seccomp then p.note(r, w) else w;
      if c.identity && s.nr == m.nrs.getgroups then
        var o := p.other(s, r, noted);
        Reaction(effects + o.effects, o.action, o.world)
      else Reaction(effects, Go, noted)
    case Socket =>
      if c.network.NoNetwork? && Low(r.args[0]) != AF_UNIX then Reaction([], Skip(-EACCES), w)
      else if c.auditRefused && Low(r.args[0]) == AF_NETLINK && Low(r.args[2]) == NETLINK_AUDIT then
        Reaction([], Skip(-EPROTONOSUPPORT), w)
      else Reaction([], Go, w)
    case Clone =>
      Reaction(if And(r.args[0], CLONE_UNTRACED) != 0 then [WriteFirst(AndNot(r.args[0], CLONE_UNTRACED))] else [],
               Go, w)
    case Sendto => if r.args[4] != 0 then p.other(s, r, w) else Reaction([], Go, w)
    case Identity => if c.identity then p.other(s, r, w) else Reaction([], Go, w)
    case DenyEperm => Reaction([], Skip(-EPERM), w)
    case DenyEnosys => Reaction([], Skip(-ENOSYS), w)
    case DenyEopnotsupp => Reaction([], Skip(-EOPNOTSUPP), w)
    case DenyEacces => Reaction([], Skip(-EACCES), w)
    case OtherHandler => p.other(s, r, w)
  }

  /** Other handlers rewrite arguments only through `rewrite_arg`. */
  ghost predicate Tame<W(!new)>(p: Parts<W>) {
    forall s, r, w, e :: e in p.other(s, r, w).effects ==> !e.WriteFirst?
  }

  /** The reaction to a call at its entry stop: foreign and unknown calls are refused. */
  function React<W>(m: Machine, c: Config, l: Links, p: Parts<W>, r: Regs, w: W): Reaction<W>
    requires ValidRegs(r)
  {
    if !r.native || Lookup(m.table, r.nr) == [] then Reaction([], Skip(-ENOSYS), w)
    else Dispatch(m, c, l, p, Lookup(m.table, r.nr)[0], r, w)
  }

  // ---- stops ----

  /** The entry stop: pending state and registers the call goes on with. */
  function Enter<W>(seccomp: bool, re: Reaction<W>, r: Regs): (Pending, Regs)
    requires |r.args| == 6
  {
    var (p, q) := ApplyEffects((NOTHING_PENDING, r), re.effects);
    match re.action
    case Go => (p, q)
    case Skip(ret) =>
      (if seccomp then NOTHING_PENDING else Pending(true, map[], EmulatedReturn, ret),
       Regs(-1, Restored(q.args, p.saved, 0), ret, q.native))
  }

  /** The kernel's part between the stops; number -1 runs nothing and leaves the return value. */
  function KernelStep<W>(p: Parts<W>, r: Regs, w: W): (Regs, W) {
    if r.nr == -1 then (r, w)
    else
      var (ret, v) := p.kernel(r.nr, r.args, w);
      (r.(ret := ret), v)
  }

  /** The exit stop of a call that returned. */
  function Exit<W>(m: Machine, p: Parts<W>, pending: Pending, r: Regs, w: W): (Regs, W)
    requires |r.args| == 6
  {
    if !pending.active then (r, w)
    else
      var (ret, v) :=
        match pending.fixup
        case NoFixup => (r.ret, w)
        case EmulatedReturn => (pending.emulated, w)
        case SomeFixup(_) => p.fix(pending.fixup, r.ret, w);
      (r.(ret := ret, args := Restored(r.args, pending.saved, if m.sharedFirst then 1 else 0)), v)
  }

  // ---- the tracee ----

  class Tracee {
    var pending: Pending
    var regs: Regs
    var bootstrap: bool     // the first execve has not happened yet
    var execSeen: bool      // the image was replaced since the last entry stop
    var loadRequest: string // handed over if the next exec succeeds
    var scratch: string     // a file that stands in for the one opened, "" for none

    constructor (r: Regs, bootstrap: bool, loadRequest: string)
      requires |r.args| == 6
      ensures regs == r && pending == NOTHING_PENDING && !execSeen
      ensures this.bootstrap == bootstrap && this.loadRequest == loadRequest && scratch == ""
    {
      regs := r;
      pending := NOTHING_PENDING;
      execSeen := false;
      this.bootstrap, this.loadRequest, scratch := bootstrap, loadRequest, "";
    }

    /** `rewrite_arg`: only the first rewrite of an argument records it. */
    method RewriteArg(index: nat, value: nat)
      requires index < 6 && |regs.args| == 6
      modifies this`pending, this`regs
      ensures (pending, regs) == ApplyEffect((old(pending), old(regs)), Rewrite(index, value))
    {
      if index !in pending.saved {
        pending := pending.(saved := pending.saved[index := regs.args[index]]);
      }
      regs := regs.(args := regs.args[index := value]);
      pending := pending.(active := true);
    }

    /** Carries out what a handler decided. */
    method Carry(effects: seq<Effect>)
      requires |regs.args| == 6
      modifies this`pending, this`regs
      ensures (pending, regs) == ApplyEffects((old(pending), old(regs)), effects)
    {
      for i := 0 to |effects|
        invariant |regs.args| == 6
        invariant ApplyEffects((pending, regs), effects[i..]) == ApplyEffects((old(pending), old(regs)), effects)
      {
        assert effects[i..][1..] == effects[i + 1..];
        match effects[i] {
          case Rewrite(index, value) =>
            if index < 6 {
              RewriteArg(index, value);
            }
          case WriteFirst(value) => regs := regs.(args := regs.args[0 := value]);
          case Arm(fixup) => pending := pending.(active := true, fixup := fixup);
        }
      }
    }

    /** Puts recorded arguments back, from argument `from` on. */
    method PutBack(from: nat)
      requires |regs.args| == 6
      modifies this`regs
      ensures regs == old(regs).(args := Restored(old(regs).args, pending.saved, from))
    {
      for i := 0 to 6
        invariant |regs.args| == 6 && regs == old(regs).(args := regs.args)
        invariant forall j :: 0 <= j < 6 ==>
                    regs.args[j] == if j in pending.saved && from <= j < i then pending.saved[j] else old(regs).args[j]
      {
        if i >= from && i in pending.saved {
          regs := regs.(args := regs.args[i := pending.saved[i]]);
        }
      }
      assert regs.args == Restored(old(regs).args, pending.saved, from);
    }

    /** `on_syscall_enter`, from the reaction of the handler on; `standIn` is a file it made to be opened
        instead. Before the first exec nothing is handled; after it, a call that is reached means the last
        execve did not replace the image. */
    method OnEnter<W>(seccomp: bool, re: Reaction<W>, standIn: string)
      requires |regs.args| == 6
      modifies this
      ensures (pending, regs) == if old(bootstrap) then (NOTHING_PENDING, old(regs)) else Enter(seccomp, re, old(regs))
      ensures !execSeen && bootstrap == old(bootstrap) && loadRequest == if bootstrap then old(loadRequest) else ""
      ensures scratch == if bootstrap || (re.action.Skip? && seccomp) then "" else standIn
    {
      pending, scratch := NOTHING_PENDING, "";
      execSeen := false;
      if bootstrap {
        return;
      }
      loadRequest := "";
      scratch := standIn;
      Carry(re.effects);
      if re.action.Skip? {
        PutBack(0);
        regs := regs.(nr := -1);
        regs := regs.(ret := re.action.ret);
        if !seccomp {
          pending := Pending(true, map[], EmulatedReturn, re.action.ret);
        } else {
          pending, scratch := NOTHING_PENDING, "";
        }
      }
    }

    /** `on_syscall_exit`. A stand-in is removed, "" where there is none. The registers of a new image are left
        alone: nothing is fixed up or put back after an exec. */
    method OnExit<W>(m: Machine, p: Parts<W>, w: W) returns (v: W, removed: string)
      requires |regs.args| == 6
      modifies this`pending, this`regs, this`execSeen, this`scratch
      ensures removed == (if old(pending).active then old(scratch) else "")
      ensures scratch == (if old(pending).active then "" else old(scratch))
      ensures (regs, v) == if old(pending).active && old(execSeen) then (old(regs), w)
              else Exit(m, p, old(pending), old(regs), w)
      ensures pending == if old(pending).active then NOTHING_PENDING else old(pending)
      ensures execSeen == (old(execSeen) && !old(pending).active)
    {
      v, removed := w, "";
      if !pending.active {
        return;
      }
      removed := scratch;
      if !execSeen {
        match pending.fixup {
          case NoFixup =>
          case EmulatedReturn => regs := regs.(ret := pending.emulated);
          case SomeFixup(_) =>
            var fixed := p.fix(pending.fixup, regs.ret, w);
            regs := regs.(ret := fixed.0);
            v := fixed.1;
        }
        PutBack(if m.sharedFirst then 1 else 0);
      }
      pending, scratch := NOTHING_PENDING, "";
      execSeen := false;
    }

    /** The exec event: the request goes to the new image, once. */
    method OnExec() returns (request: string)
      modifies this`loadRequest, this`execSeen, this`bootstrap
      ensures request == old(loadRequest) && loadRequest == "" && execSeen && !bootstrap
    {
      request := loadRequest;
      loadRequest := "";
      execSeen := true;
      bootstrap := false;
    }
  }

  // ---- one call in each mode ----

  /** What the guest sees when a call returns, and the world it left. */
  datatype Outcome<W> = Outcome(ret: int, args: seq<nat>, world: W)

  function Shown<W>(m: Machine, r: Regs, w: W): Outcome<W>
    requires |r.args| == 6
  {
    Outcome(r.ret, if m.sharedFirst then r.args[0 := r.ret % TWO64] else r.args, w)
  }

  /** PTRACE_SYSCALL: every call stops at entry and at exit. */
  function UnderPtrace<W>(m: Machine, c: Config, l: Links, p: Parts<W>, r: Regs, w: W): Outcome<W>
    requires ValidRegs(r)
  {
    var re := React(m, c, l, p, r, w);
    var (pending, q) := Enter(false, re, r);
    var (q1, w1) := KernelStep(p, q, re.world);
    var (q2, w2) := Exit(m, p, pending, q1, w1);
    Shown(m, q2, w2)
  }

  /** Seccomp acceleration: the filter lets a call run, refuses it, or stops it at entry; there is an exit
      stop only if the entry asked for one. */
  function UnderSeccomp<W>(m: Machine, c: Config, l: Links, p: Parts<W>, prog: seq<Insn>, input: Input, r: Regs,
                           w: W): Outcome<W>
    requires ValidRegs(r) && ValidInput(input)
  {
    var verdict := SeccompFilter.Run(prog, Data(input), 0, 0);
    if verdict == RET_ALLOW then
      var (q, v) := KernelStep(p, r, w);
      Shown(m, q, v)
    else if verdict == RET_EACCES then Shown(m, r.(ret := -EACCES), w)
    else
      var re := React(m, c, l, p, r, w);
      var (pending, q) := Enter(true, re, r);
      var (q1, w1) := KernelStep(p, q, re.world);
      if pending.active then
        var (q2, w2) := Exit(m, p, pending, q1, w1);
        Shown(m, q2, w2)
      else Shown(m, q1, w1)
  }

  /** The filter and the tracer look at the same call: the same 32-bit number and arguments, and a call is
      native when its architecture is the machine's and it is not an x32 call. */
  predicate SameCall(m: Machine, input: Input, r: Regs) {
    ValidRegs(r) && ValidInput(input) && input.args == r.args && input.nr == r.nr &&
    r.native == (input.arch == m.arch && !(m.x32 && Number(input) / X32_BIT % 2 == 1))
  }

  /** No link object was learned after a filter was built that does not stop fstat for another reason. */
  predicate LinksAsBuilt(c: Config, l: Links) {
    l.objects ==> c.hadObjects || c.linksEnabled || c.identity || c.trace
  }

  // ---- the two modes agree ----

  /** A stopped call ends the same way in both modes: with an exit stop and without. */
  lemma StoppedAgrees<W>(m: Machine, p: Parts<W>, re: Reaction<W>, r: Regs)
    requires |r.args| == 6
    ensures var (a, qa) := Enter(true, re, r);
            var (b, qb) := Enter(false, re, r);
            qa == qb && var (q1, w1) := KernelStep(p, qa, re.world);
            |q1.args| == 6 && Exit(m, p, b, q1, w1) == if a.active then Exit(m, p, a, q1, w1) else (q1, w1)
  {
    if re.action.Skip? {
      var (b, q) := Enter(false, re, r);
      assert Restored(q.args, map[], if m.sharedFirst then 1 else 0) == q.args;
    }
  }

  /** Why a filter lets a call run. */
  lemma LetRun(m: Machine, c: Config, input: Input, r: Regs, s: Syscall)
    requires TableOk(m) && SameCall(m, input, r) && Decide(PolicyFor(m, c), input) == RET_ALLOW
    requires s in m.table && s.nr == r.nr
    ensures (s.handler.Socket? && c.network.NoNetwork? && Low(r.args[0]) == AF_UNIX) ||
            (s.handler.Clone? && !TestBits(Low(r.args[0]), CLONE_UNTRACED)) || (s.handler.Sendto? && r.args[4] == 0) ||
            (Allowed(c, m.nrs, s) && !(c.network.NoNetwork? && s.handler.Socket?))
  {
    hide TestBits, Allowed, AllowList;
    FilteredIsNative(m, c, input, r);
    AllowListMembers(c, m.nrs, m.table, r.nr);
    if t :| t in m.table && t.nr == r.nr && Allowed(c, m.nrs, t) {
      SameEntry(m, s, t);
    }
  }

  /** The filter sees the flag in the low half of the register as the tracer does in the whole. */
  lemma UntracedBit(flags: nat)
    ensures And(flags, CLONE_UNTRACED) != 0 <==> TestBits(Low(flags), CLONE_UNTRACED)
    ensures And(flags, CLONE_UNTRACED) != 0 <==> Bit(flags, 23)
    ensures forall k :: Bit(CLONE_UNTRACED, k) <==> k == 23
  {
    hide And, Bit, Pow2;
    UntracedIsPower();
    TestOne(flags, 23);
    TestOne(Low(flags), 23);
    LowBit(flags, 32, 23);
    forall k ensures Bit(CLONE_UNTRACED, k) <==> k == 23 {
      PowerBit(23, k);
    }
  }

  lemma UntracedIsPower()
    ensures Pow2(23) == CLONE_UNTRACED && Pow2(32) == 0x1_0000_0000
  {
    assert Pow2(4) == 16;
    assert Pow2(8) == 256;
    assert Pow2(12) == 4096;
    assert Pow2(16) == 0x1_0000;
    assert Pow2(20) == 0x10_0000;
    assert Pow2(24) == 0x100_0000;
    assert Pow2(28) == 0x1000_0000;
  }

  /** A call the filter lets run is one the dispatcher would not touch. */
  lemma AllowedIsUntouched<W>(m: Machine, c: Config, l: Links, p: Parts<W>, input: Input, r: Regs, w: W)
    requires TableOk(m) && SameCall(m, input, r)
    requires LinksAsBuilt(c, l) || r.nr != m.nrs.fstat || !r.native
    requires Decide(PolicyFor(m, c), input) == RET_ALLOW
    ensures React(m, c, l, p, r, w) == Reaction([], Go, w)
  {
    hide TestBits, Decide, PolicyFor, Allowed, And, AndNot, Low;
    FilteredIsNative(m, c, input, r);
    UntracedBit(r.args[0]);
    var s := Lookup(m.table, r.nr)[0];
    LetRun(m, c, input, r, s);
    if Allowed(c, m.nrs, s) {
      AllowedGoes(m, c, l, p, s, r, w);
    }
  }

  lemma AllowedGoes<W>(m: Machine, c: Config, l: Links, p: Parts<W>, s: Syscall, r: Regs, w: W)
    requires TableOk(m) && s in m.table && Allowed(c, m.nrs, s) && ValidRegs(r)
    requires (LinksAsBuilt(c, l) || s.nr != m.nrs.fstat) && !c.trace
    requires s.handler.Socket? && c.network.NoNetwork? ==> Low(r.args[0]) == AF_UNIX
    ensures Dispatch(m, c, l, p, s, r, w) == Reaction([], Go, w)
  {
  }

  lemma SameEntry(m: Machine, s: Syscall, t: Syscall)
    requires TableOk(m) && s in m.table && t in m.table && s.nr == t.nr
    ensures s == t
  {
  }

  /** What the filter lets run or refuses itself is a native call in the table. */
  lemma FilteredIsNative(m: Machine, c: Config, input: Input, r: Regs)
    requires TableOk(m) && SameCall(m, input, r) && Decide(PolicyFor(m, c), input) != RET_TRACE
    ensures r.native && r.nr >= 0 && Number(input) == r.nr && exists s :: s in m.table && s.nr == r.nr
    ensures !c.trace
  {
    hide TestBits;
    AllowListMembers(c, m.nrs, m.table, Number(input));
  }

  /** A socket the filter refuses is refused with the same error at the entry stop. */
  lemma RefusedAlike<W>(m: Machine, c: Config, l: Links, p: Parts<W>, input: Input, r: Regs, w: W)
    requires TableOk(m) && SameCall(m, input, r)
    requires Decide(PolicyFor(m, c), input) == RET_EACCES
    ensures React(m, c, l, p, r, w) == Reaction([], Skip(-EACCES), w)
  {
    FilteredIsNative(m, c, input, r);
  }

  /** Mode equivalence: for every configuration, machine, kernel and handlers, and for fstat while no link
      object was learned after the filter was built, a returning call ends with the same return value, argument
      registers and world in both modes. */
  lemma ModesAgree<W>(m: Machine, c: Config, l: Links, p: Parts<W>, prog: seq<Insn>, input: Input, r: Regs, w: W)
    requires TableOk(m) && SameCall(m, input, r) && Compiled(prog, PolicyFor(m, c))
    requires LinksAsBuilt(c, l) || r.nr != m.nrs.fstat || !r.native
    ensures UnderSeccomp(m, c, l, p, prog, input, r, w) == UnderPtrace(m, c, l, p, r, w)
  {
    hide Decide, React, Enter, Exit, SeccompFilter.Run, Data, PolicyFor, TableOk;
    var verdict := Decide(PolicyFor(m, c), input);
    assert SeccompFilter.Run(prog, Data(input), 0, 0) == verdict;
    var re := React(m, c, l, p, r, w);
    if verdict == RET_ALLOW {
      AllowedIsUntouched(m, c, l, p, input, r, w);
      UntouchedEnds(m, p, r, w);
    } else if verdict == RET_EACCES {
      RefusedAlike(m, c, l, p, input, r, w);
      RefusedEnds(m, p, r, w);
    } else {
      StoppedAgrees(m, p, re, r);
    }
  }

  lemma UntouchedEnds<W>(m: Machine, p: Parts<W>, r: Regs, w: W)
    requires |r.args| == 6
    ensures Enter(false, Reaction([], Go, w), r) == (NOTHING_PENDING, r)
    ensures forall q: Regs, v: W :: |q.args| == 6 ==> Exit(m, p, NOTHING_PENDING, q, v) == (q, v)
  {
  }

  lemma RefusedEnds<W>(m: Machine, p: Parts<W>, r: Regs, w: W)
    requires |r.args| == 6
    ensures var (pending, q) := Enter(false, Reaction([], Skip(-EACCES), w), r);
            q == Regs(-1, r.args, -EACCES, r.native) && Exit(m, p, pending, q, w) == (q, w)
  {
    assert Restored(r.args, map[], 0) == r.args;
    assert Restored(r.args, map[], 1) == r.args;
  }

  // ---- the hypothesis is exact ----

  /** Both modes agree on every call, whatever the kernel, the handlers and the guest do. */
  ghost predicate AlwaysAgree(m: Machine, c: Config, l: Links, prog: seq<Insn>) {
    forall p: Parts<int>, input: Input, r: Regs, w: int :: SameCall(m, input, r) ==>
      UnderSeccomp(m, c, l, p, prog, input, r, w) == UnderPtrace(m, c, l, p, r, w)
  }

  /** fstat is a pass-through call with a number of its own. */
  predicate HasFstat(m: Machine) {
    Syscall(m.nrs.fstat, PassThrough, NoHandler) in m.table && m.nrs.fstat != m.nrs.seccomp &&
    m.nrs.fstat != m.nrs.prctl && m.nrs.fstat != m.nrs.getdents64 && m.nrs.fstat != m.nrs.getgroups
  }

  /** An fstat that the filter lets run although its link count is to be presented. */
  lemma LateObjectDiffers(m: Machine, c: Config, l: Links, prog: seq<Insn>)
    requires TableOk(m) && HasFstat(m) && !LinksAsBuilt(c, l) && Compiled(prog, PolicyFor(m, c))
    ensures !AlwaysAgree(m, c, l, prog)
  {
    hide Decide, React, Enter, TableOk, Lookup, SeccompFilter.Run, Data, PolicyFor;
    var s := Syscall(m.nrs.fstat, PassThrough, NoHandler);
    var p := Parts((_, _, w: int) => Reaction([], Go, w), (_, w: int) => w, (_, ret, w: int) => (ret, w + 1),
                   (_, _, w: int) => (0, w));
    var args := [0, 0, 0, 0, 0, 0];
    var input := Input(s.nr, m.arch, args);
    var r := Regs(s.nr, args, 0, true);
    FstatNumber(m);
    FstatRuns(m, c, l, input);
    assert SameCall(m, input, r);
    assert UnderSeccomp(m, c, l, p, prog, input, r, 0).world == 0;
    FstatIsPresented(m, c, l, p, r, 0);
    assert UnderPtrace(m, c, l, p, r, 0).world == 1;
  }

  lemma FstatNumber(m: Machine)
    requires TableOk(m) && HasFstat(m)
    ensures 0 <= m.nrs.fstat < MAX_NR
  {
  }

  lemma FstatRuns(m: Machine, c: Config, l: Links, input: Input)
    requires TableOk(m) && HasFstat(m) && !LinksAsBuilt(c, l) && ValidInput(input)
    requires input.nr == m.nrs.fstat && input.arch == m.arch
    ensures Decide(PolicyFor(m, c), input) == RET_ALLOW && Number(input) == m.nrs.fstat < MAX_NR
  {
    hide AllowList, TestBits;
    var s := Syscall(m.nrs.fstat, PassThrough, NoHandler);
    assert s in m.table && Allowed(c, m.nrs, s);
    AllowListMembers(c, m.nrs, m.table, s.nr);
    assert Number(input) == s.nr;
  }

  lemma FstatIsPresented<W>(m: Machine, c: Config, l: Links, p: Parts<W>, r: Regs, w: W)
    requires TableOk(m) && HasFstat(m) && !LinksAsBuilt(c, l) && ValidRegs(r) && r.nr == m.nrs.fstat && r.native
    ensures var re := React(m, c, l, p, r, w);
            re.world == w && Enter(false, re, r) == (Pending(true, map[], SomeFixup(0), 0), r)
  {
    var s := Syscall(m.nrs.fstat, PassThrough, NoHandler);
    SameEntry(m, s, Lookup(m.table, s.nr)[0]);
    var re := Reaction([Arm(SomeFixup(0))], Go, w);
    assert React(m, c, l, p, r, w) == re;
    assert re.effects[1..] == [];
  }

  /** The modes agree on every call exactly while no link object was learned that the filter does not
      know of. */
  lemma ModesAgreeIff(m: Machine, c: Config, l: Links, prog: seq<Insn>)
    requires TableOk(m) && HasFstat(m) && Compiled(prog, PolicyFor(m, c))
    ensures LinksAsBuilt(c, l) <==> AlwaysAgree(m, c, l, prog)
  {
    hide UnderSeccomp, UnderPtrace, TableOk, LinksAsBuilt, Compiled, PolicyFor;
    if LinksAsBuilt(c, l) {
      forall p: Parts<int>, input: Input, r: Regs, w: int | SameCall(m, input, r)
        ensures UnderSeccomp(m, c, l, p, prog, input, r, w) == UnderPtrace(m, c, l, p, r, w)
      {
        ModesAgree(m, c, l, p, prog, input, r, w);
      }
    } else {
      LateObjectDiffers(m, c, l, prog);
    }
  }

  // ---- argument registers ----

  /** What has been recorded is the entry value, and what has not been recorded still has it. */
  predicate Recoverable(s: (Pending, Regs), entry: seq<nat>)
    requires |s.1.args| == |entry| == 6
  {
    (s.0.saved != map[] ==> s.0.active) && (forall i :: i in s.0.saved ==> i < 6) &&
    forall i :: 0 <= i < 6 ==> if i in s.0.saved then s.0.saved[i] == entry[i] else s.1.args[i] == entry[i]
  }

  lemma {:induction false} EffectsRecoverable(s: (Pending, Regs), effects: seq<Effect>, entry: seq<nat>)
    requires |s.1.args| == |entry| == 6 && Recoverable(s, entry) && forall e :: e in effects ==> !e.WriteFirst?
    ensures Recoverable(ApplyEffects(s, effects), entry)
    decreases |effects|
  {
    if effects != [] {
      assert !effects[0].WriteFirst?;
      EffectsRecoverable(ApplyEffect(s, effects[0]), effects[1..], entry);
    }
  }

  /** The call is a clone of the guest's own. */
  predicate IsClone(m: Machine, r: Regs) {
    r.native && r.nr == m.nrs.clone
  }

  lemma NoWriteFirst<W(!new)>(m: Machine, c: Config, l: Links, p: Parts<W>, r: Regs, w: W)
    requires TableOk(m) && ValidRegs(r) && Tame(p) && !IsClone(m, r)
    ensures forall e :: e in React(m, c, l, p, r, w).effects ==> !e.WriteFirst?
  {
    hide TestBits;
  }

  /** Outside clone, a returning call leaves every argument register with its entry value, except one that
      carries the return value. */
  lemma ArgumentsRestored<W(!new)>(m: Machine, c: Config, l: Links, p: Parts<W>, prog: seq<Insn>, input: Input,
                                   r: Regs, w: W)
    requires TableOk(m) && SameCall(m, input, r) && LinksAsBuilt(c, l) && Compiled(prog, PolicyFor(m, c))
    requires Tame(p) && !IsClone(m, r)
    ensures var o := UnderPtrace(m, c, l, p, r, w);
            o == UnderSeccomp(m, c, l, p, prog, input, r, w) &&
            o.args == if m.sharedFirst then r.args[0 := o.ret % TWO64] else r.args
  {
    hide React, TableOk, Tame, Compiled, PolicyFor, LinksAsBuilt;
    ModesAgree(m, c, l, p, prog, input, r, w);
    NoWriteFirst(m, c, l, p, r, w);
    var re := React(m, c, l, p, r, w);
    EffectsRecoverable((NOTHING_PENDING, r), re.effects, r.args);
    EndsRestored(m, p, re, r);
  }

  lemma EndsRestored<W>(m: Machine, p: Parts<W>, re: Reaction<W>, r: Regs)
    requires |r.args| == 6 && Recoverable(ApplyEffects((NOTHING_PENDING, r), re.effects), r.args)
    ensures var (pending, q) := Enter(false, re, r);
            var (q1, w1) := KernelStep(p, q, re.world);
            |q1.args| == 6 && var (q2, w2) := Exit(m, p, pending, q1, w1);
            |q2.args| == 6 && (forall i :: 1 <= i < 6 ==> q2.args[i] == r.args[i]) &&
            (!m.sharedFirst ==> q2.args == r.args)
  {
    hide ApplyEffects, Enter, KernelStep, Exit, Recoverable;
    EnterRecoverable(re, r);
    var (pending, q) := Enter(false, re, r);
    KernelKeepsArgs(p, q, re.world);
    var (q1, w1) := KernelStep(p, q, re.world);
    SameRecoverable(pending, q, q1, r.args);
    ExitRestores(m, p, pending, q1, w1, r.args);
  }

  lemma KernelKeepsArgs<W>(p: Parts<W>, r: Regs, w: W)
    ensures KernelStep(p, r, w).0.args == r.args
  {
  }

  lemma SameRecoverable(pending: Pending, q: Regs, q1: Regs, entry: seq<nat>)
    requires |q.args| == |entry| == 6 && q1.args == q.args && Recoverable((pending, q), entry)
    ensures Recoverable((pending, q1), entry)
  {
  }

  lemma EnterRecoverable<W>(re: Reaction<W>, r: Regs)
    requires |r.args| == 6 && Recoverable(ApplyEffects((NOTHING_PENDING, r), re.effects), r.args)
    ensures |Enter(false, re, r).1.args| == 6 && Recoverable(Enter(false, re, r), r.args)
  {
    hide ApplyEffects;
  }

  lemma ExitRestores<W>(m: Machine, p: Parts<W>, pending: Pending, q: Regs, w: W, entry: seq<nat>)
    requires |q.args| == |entry| == 6 && Recoverable((pending, q), entry)
    ensures var (q2, w2) := Exit(m, p, pending, q, w);
            |q2.args| == 6 && (forall i :: 1 <= i < 6 ==> q2.args[i] == entry[i]) &&
            (!m.sharedFirst ==> q2.args == entry)
  {
  }
}
