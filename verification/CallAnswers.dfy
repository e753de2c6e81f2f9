/** What the guest gets for a call, said without the dispatcher (src/engines/rootless/syscall_handlers.cpp): which
    calls are answered without the kernel and how, and what the kernel is given otherwise. Each holds with the
    filter and with PTRACE_SYSCALL, for every kernel. */
module CallAnswers {
  import opened Bits
  import opened Errno
  import opened PageMath
  import opened SeccompFilter
  import opened TraceModes

  /** One call of a session: the machine, what the session was started with, the link state, the filter, and
      the call as the filter and as the tracer see it. */
  datatype Situation<!W> = Situation(m: Machine, c: Config, l: Links, p: Parts<W>, prog: seq<Insn>, input: Input,
                                     r: Regs, w: W)

  ghost predicate Possible<W>(s: Situation<W>) {
    TableOk(s.m) && HasFstat(s.m) && SameCall(s.m, s.input, s.r) && Compiled(s.prog, PolicyFor(s.m, s.c))
  }

  /** Both modes end the call like this. */
  predicate Ends<W(==)>(s: Situation<W>, o: Outcome<W>)
    requires ValidRegs(s.r) && ValidInput(s.input)
  {
    UnderPtrace(s.m, s.c, s.l, s.p, s.r, s.w) == o &&
    UnderSeccomp(s.m, s.c, s.l, s.p, s.prog, s.input, s.r, s.w) == o
  }

  /** A native call that the table has. */
  predicate Known<W>(s: Situation<W>, call: Syscall) {
    s.r.native && call in s.m.table && call.nr == s.r.nr
  }

  // ---- outcomes ----

  /** The arguments as they were, the return value, and this world. */
  function Answer<W>(m: Machine, r: Regs, ret: int, w: W): Outcome<W>
    requires |r.args| == 6
  {
    Outcome(ret, if m.sharedFirst then r.args[0 := ret % TWO64] else r.args, w)
  }

  /** The call as the kernel alone would have it. */
  function Untraced<W>(s: Situation<W>): Outcome<W>
    requires |s.r.args| == 6
  {
    var (ret, v) := s.p.kernel(s.r.nr, s.r.args, s.w);
    Answer(s.m, s.r, ret, v)
  }

  /** The kernel's answer after a fix-up. */
  function Fixed<W>(s: Situation<W>, fixup: Fixup): Outcome<W>
    requires |s.r.args| == 6
  {
    var (ret, v) := s.p.kernel(s.r.nr, s.r.args, s.w);
    var (shown, u) := s.p.fix(fixup, ret, v);
    Answer(s.m, s.r, shown, u)
  }

  // ---- calls the kernel never sees ----

  /** A denied call gets its error; nothing runs, and arguments and world are untouched. */
  lemma DeniedCall<W>(s: Situation<W>, call: Syscall)
    requires Possible(s) && Known(s, call)
    ensures call.handler.DenyEperm? ==> Ends(s, Answer(s.m, s.r, -EPERM, s.w))
    ensures call.handler.DenyEnosys? ==> Ends(s, Answer(s.m, s.r, -ENOSYS, s.w))
    ensures call.handler.DenyEopnotsupp? ==> Ends(s, Answer(s.m, s.r, -EOPNOTSUPP, s.w))
    ensures call.handler.DenyEacces? ==> Ends(s, Answer(s.m, s.r, -EACCES, s.w))
  {
    hide TableOk, HasFstat, Compiled, PolicyFor, UnderSeccomp, UnderPtrace, And, AndNot, Ends, Answer, Lookup;
    TheEntry(s, call);
    NumberIsReal(s, call);
    var re := React(s.m, s.c, s.l, s.p, s.r, s.w);
    var h := call.handler;
    if h.DenyEperm? || h.DenyEnosys? || h.DenyEopnotsupp? || h.DenyEacces? {
      SkippedEnds(s, re.action.ret);
    }
  }

  /** A call by another architecture's numbers, or by a number the table does not have, gets ENOSYS. */
  lemma ForeignCall<W>(s: Situation<W>)
    requires Possible(s) && (!s.r.native || forall call :: call in s.m.table ==> call.nr != s.r.nr)
    ensures Ends(s, Answer(s.m, s.r, -ENOSYS, s.w))
  {
    hide TableOk, Compiled, PolicyFor, UnderSeccomp, UnderPtrace, Dispatch, Ends, Answer;
    assert Lookup(s.m.table, s.r.nr) == [] || !s.r.native;
    FstatIsKnown(s);
    SkippedEnds(s, -ENOSYS);
  }

  /** Without a network only AF_UNIX sockets are made; where the host refuses audit sockets the guest hears that
      there is no audit; every other socket is the kernel's. */
  lemma SocketCall<W>(s: Situation<W>, call: Syscall)
    requires Possible(s) && Known(s, call) && s.r.nr == s.m.nrs.socket
    ensures var domain, protocol := s.r.args[0] % 0x1_0000_0000, s.r.args[2] % 0x1_0000_0000;
            Ends(s, if s.c.network.NoNetwork? && domain != 1 then Answer(s.m, s.r, -EACCES, s.w)
                    else if s.c.auditRefused && domain == 16 && protocol == 9
                    then Answer(s.m, s.r, -EPROTONOSUPPORT, s.w)
                    else Untraced(s))
  {
    hide Compiled, PolicyFor, UnderSeccomp, UnderPtrace, Lookup, And, AndNot, Ends, Answer, Untraced;
    TheEntry(s, call);
    assert call.handler.Socket?;
    NumberIsReal(s, call);
    hide TableOk;
    var re := React(s.m, s.c, s.l, s.p, s.r, s.w);
    if re.action.Skip? {
      SkippedEnds(s, re.action.ret);
    } else {
      RunEnds(s);
    }
  }

  // ---- calls the kernel sees ----

  /** The kernel never sees a clone with CLONE_UNTRACED, and sees every other flag bit and argument as it was. */
  lemma CloneCall<W>(s: Situation<W>, call: Syscall) returns (flags: nat)
    requires Possible(s) && Known(s, call) && s.r.nr == s.m.nrs.clone
    ensures flags < TWO64 && forall k :: Bit(flags, k) <==> Bit(s.r.args[0], k) && k != 23
    ensures !Bit(s.r.args[0], 23) ==> flags == s.r.args[0]
    ensures Ends(s, Untraced(s.(r := s.r.(args := s.r.args[0 := flags]))))
  {
    hide Compiled, PolicyFor, UnderSeccomp, UnderPtrace, Lookup, And, AndNot, Ends, Bit, Untraced, Answer;
    TheEntry(s, call);
    assert call.handler.Clone?;
    NumberIsReal(s, call);
    hide TableOk;
    var all := s.r.args[0];
    UntracedBit(all);
    AndNotShrinks(all, CLONE_UNTRACED);
    forall k ensures Bit(AndNot(all, CLONE_UNTRACED), k) <==> Bit(all, k) && k != 23 {
      MaskedBit(all, CLONE_UNTRACED, k);
    }
    flags := if And(all, CLONE_UNTRACED) != 0 then AndNot(all, CLONE_UNTRACED) else all;
    if flags != all || And(all, CLONE_UNTRACED) != 0 {
      FirstEnds(s, flags);
    } else {
      assert s.r.args[0 := all] == s.r.args;
      RunEnds(s);
    }
  }

  /** A call without a handler, other than the few that are looked at in passing, an identity call of a session
      without an identity and a sendto without an address are the kernel's own. */
  lemma OwnCall<W>(s: Situation<W>, call: Syscall)
    requires Possible(s) && Known(s, call)
    requires (call.handler.NoHandler? && (call.nr == s.m.nrs.getgroups ==> !s.c.identity) &&
              call.nr !in {s.m.nrs.fstat, s.m.nrs.getdents64, s.m.nrs.prctl, s.m.nrs.seccomp}) ||
             (call.handler.Identity? && !s.c.identity) || (call.handler.Sendto? && s.r.args[4] == 0)
    ensures Ends(s, Untraced(s))
  {
    hide Compiled, PolicyFor, UnderSeccomp, UnderPtrace, Lookup, And, AndNot, Ends, Answer, Untraced;
    TheEntry(s, call);
    NumberIsReal(s, call);
    hide TableOk;
    RunEnds(s);
  }

  /** fstat shows the guest's owners and link count in place of the host's, in a session with an identity or one
      that knows of emulated hard links; getdents64 leaves the link stores out. Both only change what the kernel
      has answered. */
  lemma PresentedCall<W>(s: Situation<W>, call: Syscall)
    requires Possible(s) && Known(s, call) && call.handler.NoHandler? && LinksAsBuilt(s.c, s.l)
    requires call.nr !in {s.m.nrs.getgroups, s.m.nrs.prctl, s.m.nrs.seccomp}
    ensures call.nr == s.m.nrs.fstat ==>
              Ends(s, if s.c.identity || s.l.objects then Fixed(s, SomeFixup(0)) else Untraced(s))
    ensures call.nr == s.m.nrs.getdents64 ==>
              Ends(s, if s.c.linksEnabled && s.l.visible then Fixed(s, SomeFixup(1)) else Untraced(s))
  {
    hide Compiled, PolicyFor, UnderSeccomp, UnderPtrace, Lookup, And, AndNot, Ends, Answer, Untraced, Fixed,
         LinksAsBuilt;
    TheEntry(s, call);
    NumberIsReal(s, call);
    hide TableOk;
    if call.nr == s.m.nrs.fstat {
      if s.c.identity || s.l.objects {
        assert [Arm(SomeFixup(0))] + [] == [Arm(SomeFixup(0))];
        ArmedEnds(s, 0);
      } else {
        RunEnds(s);
      }
    } else if call.nr == s.m.nrs.getdents64 {
      if s.c.linksEnabled && s.l.visible {
        assert [] + [Arm(SomeFixup(1))] == [Arm(SomeFixup(1))];
        ArmedEnds(s, 1);
      } else {
        RunEnds(s);
      }
    }
  }

  /** Calls whose handler looks at them: the translated ones, a sendto with an address, and in a session with an
      identity the calls that ask for it or change it. */
  predicate IsHandled<W>(s: Situation<W>, call: Syscall)
    requires |s.r.args| == 6
  {
    call.handler.OtherHandler? || (call.handler.Sendto? && s.r.args[4] != 0) ||
    (call.handler.Identity? && s.c.identity)
  }

  /** What such a handler answers itself the guest gets, whatever the kernel would have said; what it passes on
      unchanged is the kernel's. */
  lemma HandledCall<W>(s: Situation<W>, call: Syscall)
    requires Possible(s) && Known(s, call) && IsHandled(s, call)
    ensures forall ret, v :: s.p.other(call, s.r, s.w) == Reaction([], Skip(ret), v) ==>
              Ends(s, Answer(s.m, s.r, ret, v))
    ensures forall v :: s.p.other(call, s.r, s.w) == Reaction([], Go, v) ==> Ends(s, Untraced(s.(w := v)))
  {
    hide Compiled, PolicyFor, UnderSeccomp, UnderPtrace, Lookup, And, AndNot, Ends, Answer, Untraced;
    TheEntry(s, call);
    NumberIsReal(s, call);
    hide TableOk;
    var re := React(s.m, s.c, s.l, s.p, s.r, s.w);
    assert re == s.p.other(call, s.r, s.w);
    if re.effects == [] {
      if re.action.Skip? {
        SkippedIn(s, re.action.ret, re.world);
      } else {
        RunEndsIn(s, re.world);
      }
    }
  }

  lemma SkippedIn<W>(s: Situation<W>, ret: int, v: W)
    requires Possible(s) && (LinksAsBuilt(s.c, s.l) || s.r.nr != s.m.nrs.fstat || !s.r.native)
    requires React(s.m, s.c, s.l, s.p, s.r, s.w) == Reaction([], Skip(ret), v)
    ensures Ends(s, Answer(s.m, s.r, ret, v))
  {
    hide React, UnderSeccomp, TableOk, Compiled, PolicyFor, LinksAsBuilt;
    Both(s);
    assert Restored(s.r.args, map[], 0) == s.r.args == Restored(s.r.args, map[], 1);
  }

  /** prctl and seccomp run as they are, after a guest that installs a filter of its own has been noted. */
  lemma NotedCall<W>(s: Situation<W>, call: Syscall)
    requires Possible(s) && Known(s, call) && call.handler.NoHandler? && call.nr in {s.m.nrs.prctl, s.m.nrs.seccomp}
    requires call.nr !in {s.m.nrs.getdents64, s.m.nrs.getgroups}
    ensures Ends(s, Untraced(s.(w := s.p.note(s.r, s.w))))
  {
    hide Compiled, PolicyFor, UnderSeccomp, UnderPtrace, Lookup, And, AndNot, Ends, Answer;
    TheEntry(s, call);
    NumberIsReal(s, call);
    hide TableOk;
    RunEndsIn(s, s.p.note(s.r, s.w));
  }

  // ---- which calls cost no stop ----

  /** Without tracing, the filter lets a pass-through call run, unless the session has to look at it: fstat and
      getgroups for the identity it shows, fstat and getdents64 for emulated links, prctl and seccomp for filters
      of the guest's own. The identity calls of a session without an identity run as well. */
  lemma RunsWithoutStop<W>(s: Situation<W>, call: Syscall)
    requires Possible(s) && Known(s, call) && !s.c.trace
    requires (call.cls.PassThrough? && call.nr != s.m.nrs.prctl && call.nr != s.m.nrs.seccomp &&
              (call.nr == s.m.nrs.fstat ==> !s.c.identity && !s.c.linksEnabled && !s.c.hadObjects) &&
              (call.nr == s.m.nrs.getgroups ==> !s.c.identity) &&
              (call.nr == s.m.nrs.getdents64 ==> !s.c.linksEnabled)) ||
             (call.handler.Identity? && !s.c.identity)
    ensures SeccompFilter.Run(s.prog, Data(s.input), 0, 0) == RET_ALLOW
  {
    hide AllowList, And, SeccompFilter.Run, Data, Allowed, TestBits;
    NumberIsReal(s, call);
    AllowListMembers(s.c, s.m.nrs, s.m.table, call.nr);
    assert Allowed(s.c, s.m.nrs, call) by { MayRun(s, call); }
    assert Number(s.input) == call.nr;
    assert Decide(PolicyFor(s.m, s.c), s.input) == RET_ALLOW;
  }

  lemma MayRun<W>(s: Situation<W>, call: Syscall)
    requires (call.cls.PassThrough? && call.nr != s.m.nrs.prctl && call.nr != s.m.nrs.seccomp &&
              (call.nr == s.m.nrs.fstat ==> !s.c.identity && !s.c.linksEnabled && !s.c.hadObjects) &&
              (call.nr == s.m.nrs.getgroups ==> !s.c.identity) &&
              (call.nr == s.m.nrs.getdents64 ==> !s.c.linksEnabled)) ||
             (call.handler.Identity? && !s.c.identity)
    ensures Allowed(s.c, s.m.nrs, call)
  {
  }

  /** A session that is traced stops every call. */
  lemma TracingStopsAll<W>(s: Situation<W>)
    requires Possible(s) && s.c.trace
    ensures SeccompFilter.Run(s.prog, Data(s.input), 0, 0) == RET_TRACE
  {
    hide And, SeccompFilter.Run, Data;
    assert Decide(PolicyFor(s.m, s.c), s.input) == RET_TRACE;
  }

  // ---- how a reaction ends ----

  lemma TheEntry<W>(s: Situation<W>, call: Syscall)
    requires TableOk(s.m) && Known(s, call)
    ensures Lookup(s.m.table, s.r.nr) == [call]
  {
    SameEntry(s.m, call, Lookup(s.m.table, s.r.nr)[0]);
  }

  lemma NumberIsReal<W>(s: Situation<W>, call: Syscall)
    requires TableOk(s.m) && HasFstat(s.m) && Known(s, call)
    ensures s.r.nr >= 0 && (s.r.nr == s.m.nrs.fstat ==> call.handler.NoHandler?)
  {
    if s.r.nr == s.m.nrs.fstat {
      SameEntry(s.m, call, Syscall(s.m.nrs.fstat, PassThrough, NoHandler));
    }
  }

  lemma FstatIsKnown<W>(s: Situation<W>)
    requires HasFstat(s.m)
    ensures (forall call :: call in s.m.table ==> call.nr != s.r.nr) ==> s.r.nr != s.m.nrs.fstat
  {
  }

  lemma Both<W>(s: Situation<W>)
    requires Possible(s) && (LinksAsBuilt(s.c, s.l) || s.r.nr != s.m.nrs.fstat || !s.r.native)
    ensures UnderSeccomp(s.m, s.c, s.l, s.p, s.prog, s.input, s.r, s.w) ==
            UnderPtrace(s.m, s.c, s.l, s.p, s.r, s.w)
  {
    hide UnderSeccomp, UnderPtrace;
    ModesAgree(s.m, s.c, s.l, s.p, s.prog, s.input, s.r, s.w);
  }

  lemma SkippedEnds<W>(s: Situation<W>, ret: int)
    requires Possible(s) && (LinksAsBuilt(s.c, s.l) || s.r.nr != s.m.nrs.fstat || !s.r.native)
    requires React(s.m, s.c, s.l, s.p, s.r, s.w) == Reaction([], Skip(ret), s.w)
    ensures Ends(s, Answer(s.m, s.r, ret, s.w))
  {
    hide React, Possible, Answer, Ends;
    SkippedIn(s, ret, s.w);
  }

  lemma RunEndsIn<W>(s: Situation<W>, w: W)
    requires Possible(s) && (LinksAsBuilt(s.c, s.l) || s.r.nr != s.m.nrs.fstat || !s.r.native) && s.r.nr >= 0
    requires React(s.m, s.c, s.l, s.p, s.r, s.w) == Reaction([], Go, w)
    ensures Ends(s, Untraced(s.(w := w)))
  {
    hide React, UnderSeccomp, TableOk, Compiled, PolicyFor, LinksAsBuilt;
    Both(s);
  }

  lemma RunEnds<W>(s: Situation<W>)
    requires Possible(s) && (LinksAsBuilt(s.c, s.l) || s.r.nr != s.m.nrs.fstat || !s.r.native) && s.r.nr >= 0
    requires React(s.m, s.c, s.l, s.p, s.r, s.w) == Reaction([], Go, s.w)
    ensures Ends(s, Untraced(s))
  {
    hide React, Possible, Untraced, Ends;
    RunEndsIn(s, s.w);
  }

  lemma OneEffect(s: (Pending, Regs), e: Effect)
    requires |s.1.args| == 6
    ensures ApplyEffects(s, [e]) == ApplyEffect(s, e)
  {
    assert [e][1..] == [];
  }

  /** The first argument written without being recorded stays what it was written to. */
  lemma FirstEnds<W>(s: Situation<W>, value: nat)
    requires Possible(s) && (LinksAsBuilt(s.c, s.l) || s.r.nr != s.m.nrs.fstat || !s.r.native) && s.r.nr >= 0
    requires React(s.m, s.c, s.l, s.p, s.r, s.w) == Reaction([WriteFirst(value)], Go, s.w)
    ensures Ends(s, Untraced(s.(r := s.r.(args := s.r.args[0 := value]))))
  {
    hide React, UnderSeccomp, TableOk, Compiled, PolicyFor, LinksAsBuilt, ApplyEffects;
    Both(s);
    OneEffect((NOTHING_PENDING, s.r), WriteFirst(value));
  }

  lemma ArmedEnds<W>(s: Situation<W>, id: nat)
    requires Possible(s) && LinksAsBuilt(s.c, s.l) && s.r.nr >= 0
    requires React(s.m, s.c, s.l, s.p, s.r, s.w) == Reaction([Arm(SomeFixup(id))], Go, s.w)
    ensures Ends(s, Fixed(s, SomeFixup(id)))
  {
    hide React, UnderSeccomp, TableOk, Compiled, PolicyFor, LinksAsBuilt, ApplyEffects;
    Both(s);
    OneEffect((NOTHING_PENDING, s.r), Arm(SomeFixup(id)));
    assert Restored(s.r.args, map[], 0) == s.r.args == Restored(s.r.args, map[], 1);
  }
}
