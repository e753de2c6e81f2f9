/** The emulated identity of one guest process: `handle_identity` (src/engines/rootless/syscall_handlers.cpp)
    over the `Creds` record, whose privileged caller is one with effective uid 0. */
module Credentials {
  import opened Errno

  const WORD := 0x1_0000_0000
  const KEEP := 0xffff_ffff // (uid_t)-1: leave unchanged
  const MAX_GROUPS := 65536

  /** The real, effective, saved and file-system id of a process; there is one for uids and one for gids. */
  datatype Ids = Ids(actual: nat, effective: nat, saved: nat, fs: nat) {
    function All(): set<nat> { {actual, effective, saved, fs} }

    /** `in3`. */
    predicate Holds(v: nat) { v == actual || v == effective || v == saved }
  }

  datatype Value = Value(uid: Ids, gid: Ids, groups: seq<nat>)

  /** Registers are 64 bits wide; the id calls read the low 32 of them. */
  datatype Call =
    | GetUid | GetEuid | GetGid | GetEgid
    | GetResUid(r: nat, e: nat, s: nat) | GetResGid(r: nat, e: nat, s: nat)
    | GetGroups(size: nat, list: nat) | SetGroups(size: nat, list: nat)
    | SetId(user: bool, a: nat)
    | SetReId(user: bool, a: nat, b: nat)
    | SetResId(user: bool, a: nat, b: nat, c: nat)
    | SetFsId(user: bool, a: nat)

  /** The guest's memory: at which addresses a 32-bit word can be read and written, and the words in it. A
      stretch of words is copied whole if each of them can be. */
  datatype Memory = Memory(readable: nat -> bool, writable: nat -> bool, word: nat -> nat) {
    predicate CanRead(at: nat, n: nat) { forall i :: 0 <= i < n ==> readable(at + 4 * i) }
    predicate CanWrite(at: nat, n: nat) { forall i :: 0 <= i < n ==> writable(at + 4 * i) }
  }

  /** What a call answers, and the words it wrote before it stopped. */
  datatype Answer = Answer(ret: int, writes: seq<(nat, nat)>)

  function Id(register: nat): (v: nat)
    ensures v < WORD
  {
    register % WORD
  }

  /** `int32_t` of a register. */
  function Signed(register: nat): int {
    if Id(register) < WORD / 2 then Id(register) else Id(register) - WORD
  }

  function ReadList(m: Memory, at: nat, n: nat): seq<nat> {
    seq(n, i requires 0 <= i => m.word(at + 4 * i))
  }

  function ListWrites(at: nat, groups: seq<nat>): seq<(nat, nat)> {
    seq(|groups|, i requires 0 <= i < |groups| => (at + 4 * i, groups[i]))
  }

  // ---- the rules, on one set of ids ----

  /** The change a call makes, or `None` where it is refused with EPERM. `priv` is the caller's privilege
      and `KEEP` in an argument leaves that id alone. */
  datatype Change = Refused | To(ids: Ids)

  function SetIdRule(x: Ids, priv: bool, v: nat): Change {
    if priv then To(Ids(v, v, v, v))
    else if v == x.actual || v == x.saved then To(x.(effective := v, fs := v))
    else Refused
  }

  function Kept(v: nat, was: nat): nat { if v == KEEP then was else v }

  function SetReIdRule(x: Ids, priv: bool, r: nat, e: nat): Change {
    if priv || ((r == KEEP || r == x.actual || r == x.effective) && (e == KEEP || x.Holds(e))) then
      var effective := Kept(e, x.effective);
      To(Ids(Kept(r, x.actual), effective,
             if r != KEEP || (e != KEEP && e != x.actual) then effective else x.saved, effective))
    else Refused
  }

  function SetResIdRule(x: Ids, priv: bool, r: nat, e: nat, s: nat): Change {
    if priv || ((r == KEEP || x.Holds(r)) && (e == KEEP || x.Holds(e)) && (s == KEEP || x.Holds(s))) then
      To(Ids(Kept(r, x.actual), Kept(e, x.effective), Kept(s, x.saved), Kept(e, x.effective)))
    else Refused
  }

  /** `setfsuid` and `setfsgid` never fail: a refused value changes nothing. */
  function SetFsIdRule(x: Ids, priv: bool, v: nat): Ids {
    if v != KEEP && (priv || x.Holds(v) || v == x.fs) then x.(fs := v) else x
  }

  function Pick(v: Value, user: bool): Ids { if user then v.uid else v.gid }

  function With(v: Value, user: bool, ids: Ids): Value { if user then v.(uid := ids) else v.(gid := ids) }

  /** What a call leaves of the identity. */
  function Apply(v: Value, call: Call, m: Memory): Value {
    var priv := v.uid.effective == 0;
    match call
    case SetId(user, a) => Settle(v, user, SetIdRule(Pick(v, user), priv, Id(a)))
    case SetReId(user, a, b) => Settle(v, user, SetReIdRule(Pick(v, user), priv, Id(a), Id(b)))
    case SetResId(user, a, b, c) => Settle(v, user, SetResIdRule(Pick(v, user), priv, Id(a), Id(b), Id(c)))
    case SetFsId(user, a) => With(v, user, SetFsIdRule(Pick(v, user), priv, Id(a)))
    case SetGroups(size, list) =>
      if priv && GroupsFit(Signed(size)) && (Signed(size) == 0 || m.CanRead(list, Signed(size)))
      then v.(groups := ReadList(m, list, Signed(size))) else v
    case _ => v
  }

  predicate GroupsFit(n: int) { 0 <= n <= MAX_GROUPS }

  function Settle(v: Value, user: bool, change: Change): Value {
    if change.Refused? then v else With(v, user, change.ids)
  }

  function Grant(change: Change): Answer {
    Answer(if change.Refused? then -EPERM else 0, [])
  }

  /** What a call answers. */
  function Reply(v: Value, call: Call, m: Memory): Answer {
    var priv := v.uid.effective == 0;
    match call
    case GetUid => Answer(v.uid.actual, [])
    case GetEuid => Answer(v.uid.effective, [])
    case GetGid => Answer(v.gid.actual, [])
    case GetEgid => Answer(v.gid.effective, [])
    case GetResUid(r, e, s) => Three(m, [(r, v.uid.actual), (e, v.uid.effective), (s, v.uid.saved)])
    case GetResGid(r, e, s) => Three(m, [(r, v.gid.actual), (e, v.gid.effective), (s, v.gid.saved)])
    case GetGroups(size, list) =>
      if Signed(size) < 0 then Answer(-EINVAL, [])
      else if Signed(size) == 0 then Answer(|v.groups|, [])
      else if Signed(size) < |v.groups| then Answer(-EINVAL, [])
      else if v.groups != [] && !m.CanWrite(list, |v.groups|) then Answer(-EFAULT, [])
      else Answer(|v.groups|, ListWrites(list, v.groups))
    case SetGroups(size, list) =>
      if !priv then Answer(-EPERM, [])
      else if !GroupsFit(Signed(size)) then Answer(-EINVAL, [])
      else if Signed(size) > 0 && !m.CanRead(list, Signed(size)) then Answer(-EFAULT, [])
      else Answer(0, [])
    case SetId(user, a) => Grant(SetIdRule(Pick(v, user), priv, Id(a)))
    case SetReId(user, a, b) => Grant(SetReIdRule(Pick(v, user), priv, Id(a), Id(b)))
    case SetResId(user, a, b, c) => Grant(SetResIdRule(Pick(v, user), priv, Id(a), Id(b), Id(c)))
    case SetFsId(user, a) => Answer(Pick(v, user).fs, [])
  }

  /** `write_three`: the words that can be written go out in order, up to the first that cannot. */
  function Three(m: Memory, words: seq<(nat, nat)>): Answer {
    var done := Writable(m, words);
    Answer(if done == words then 0 else -EFAULT, done)
  }

  function Writable(m: Memory, words: seq<(nat, nat)>): (done: seq<(nat, nat)>)
    ensures done <= words && forall w :: w in done ==> m.writable(w.0)
    ensures |done| < |words| ==> !m.writable(words[|done|].0)
  {
    if words == [] || !m.writable(words[0].0) then []
    else
      var rest := Writable(m, words[1..]);
      assert words == [words[0]] + words[1..];
      [words[0]] + rest
  }

  lemma WritableUpTo(m: Memory, words: seq<(nat, nat)>, n: nat)
    requires n <= |words| && forall i :: 0 <= i < n ==> m.writable(words[i].0)
    requires n < |words| ==> !m.writable(words[n].0)
    ensures Writable(m, words) == words[..n]
  {
    hide Writable;
    var done := Writable(m, words);
    forall i | 0 <= i < |done| ensures m.writable(words[i].0) {
      assert done[i] == words[i] && done[i] in done;
    }
  }

  // ---- the record ----

  /** `Creds`, changed in place. */
  class Creds {
    var ruid: nat
    var euid: nat
    var suid: nat
    var fsuid: nat
    var rgid: nat
    var egid: nat
    var sgid: nat
    var fsgid: nat
    var groups: seq<nat>

    function View(): Value
      reads this
    {
      Value(Ids(ruid, euid, suid, fsuid), Ids(rgid, egid, sgid, fsgid), groups)
    }

    /** `creds_of` for a process met for the first time. */
    constructor (uid: nat, gid: nat)
      ensures View() == Initial(uid, gid)
    {
      ruid, euid, suid, fsuid := uid, uid, uid, uid;
      rgid, egid, sgid, fsgid := gid, gid, gid, gid;
      groups := [gid];
    }

    method WriteThree(m: Memory, at: seq<nat>, v: seq<nat>) returns (answer: Answer)
      requires |at| == |v| == 3
      ensures answer == Three(m, [(at[0], v[0]), (at[1], v[1]), (at[2], v[2])])
    {
      hide Writable;
      ghost var words := [(at[0], v[0]), (at[1], v[1]), (at[2], v[2])];
      var writes := [];
      for i := 0 to 3
        invariant writes == words[..i] && forall k :: 0 <= k < i ==> m.writable(words[k].0)
      {
        assert words[i] == (at[i], v[i]);
        if !m.writable(at[i]) {
          WritableUpTo(m, words, i);
          return Answer(-EFAULT, writes);
        }
        assert words[..i + 1] == words[..i] + [words[i]];
        writes := writes + [(at[i], v[i])];
      }
      WritableUpTo(m, words, 3);
      return Answer(0, writes);
    }

    method SetGroups(m: Memory, size: nat, list: nat) returns (answer: Answer)
      modifies this`groups
      ensures View() == Apply(old(View()), Call.SetGroups(size, list), m)
      ensures answer == Reply(old(View()), Call.SetGroups(size, list), m)
    {
      if euid != 0 {
        return Answer(-EPERM, []);
      }
      var n := Signed(size);
      if n < 0 || n > MAX_GROUPS {
        return Answer(-EINVAL, []);
      }
      if n > 0 && !m.CanRead(list, n) {
        return Answer(-EFAULT, []);
      }
      groups := ReadList(m, list, n);
      return Answer(0, []);
    }

    method SetId(user: bool, a: nat) returns (answer: Answer)
      modifies this
      ensures forall m :: View() == Apply(old(View()), Call.SetId(user, a), m)
      ensures forall m :: answer == Reply(old(View()), Call.SetId(user, a), m)
    {
      var v := Id(a);
      var priv := euid == 0;
      if user {
        if priv {
          ruid, euid, suid, fsuid := v, v, v, v;
        } else if v == ruid || v == suid {
          euid, fsuid := v, v;
        } else {
          return Answer(-EPERM, []);
        }
      } else {
        if priv {
          rgid, egid, sgid, fsgid := v, v, v, v;
        } else if v == rgid || v == sgid {
          egid, fsgid := v, v;
        } else {
          return Answer(-EPERM, []);
        }
      }
      return Answer(0, []);
    }

    /** Stores four ids of one kind; stands for the references the handler takes to them. */
    method Put(user: bool, rr: nat, ee: nat, ss: nat, fs: nat)
      modifies this
      ensures View() == With(old(View()), user, Ids(rr, ee, ss, fs))
    {
      if user {
        ruid, euid, suid, fsuid := rr, ee, ss, fs;
      } else {
        rgid, egid, sgid, fsgid := rr, ee, ss, fs;
      }
    }

    method SetReId(user: bool, a: nat, b: nat) returns (answer: Answer)
      modifies this
      ensures forall m :: View() == Apply(old(View()), Call.SetReId(user, a, b), m)
      ensures forall m :: answer == Reply(old(View()), Call.SetReId(user, a, b), m)
    {
      var priv := euid == 0;
      var rr, ee, ss := if user then ruid else rgid, if user then euid else egid, if user then suid else sgid;
      var r, e := Id(a), Id(b);
      if !priv && ((r != KEEP && r != rr && r != ee) || (e != KEEP && !(e == rr || e == ee || e == ss))) {
        return Answer(-EPERM, []);
      }
      var oldR := rr;
      if r != KEEP {
        rr := r;
      }
      if e != KEEP {
        ee := e;
      }
      if r != KEEP || (e != KEEP && e != oldR) {
        ss := ee;
      }
      Put(user, rr, ee, ss, ee);
      return Answer(0, []);
    }

    method SetResId(user: bool, a: nat, b: nat, c: nat) returns (answer: Answer)
      modifies this
      ensures forall m :: View() == Apply(old(View()), Call.SetResId(user, a, b, c), m)
      ensures forall m :: answer == Reply(old(View()), Call.SetResId(user, a, b, c), m)
    {
      hide SetIdRule, SetReIdRule, SetFsIdRule, Id, Three, ReadList;
      var priv := euid == 0;
      var rr, ee, ss := if user then ruid else rgid, if user then euid else egid, if user then suid else sgid;
      var v := [Id(a), Id(b), Id(c)];
      if !priv {
        for i := 0 to 3
          invariant forall k :: 0 <= k < i && v[k] != KEEP ==> v[k] == rr || v[k] == ee || v[k] == ss
        {
          if v[i] != KEEP && !(v[i] == rr || v[i] == ee || v[i] == ss) {
            return Answer(-EPERM, []);
          }
        }
      }
      if v[0] != KEEP {
        rr := v[0];
      }
      if v[1] != KEEP {
        ee := v[1];
      }
      if v[2] != KEEP {
        ss := v[2];
      }
      Put(user, rr, ee, ss, ee);
      return Answer(0, []);
    }

    method SetFsId(user: bool, a: nat) returns (answer: Answer)
      modifies this
      ensures forall m :: View() == Apply(old(View()), Call.SetFsId(user, a), m)
      ensures forall m :: answer == Reply(old(View()), Call.SetFsId(user, a), m)
    {
      var priv := euid == 0;
      var f := Id(a);
      var was := if user then fsuid else fsgid;
      var ok := if user then f == ruid || f == euid || f == suid || f == fsuid
                else f == rgid || f == egid || f == sgid || f == fsgid;
      if f != KEEP && (priv || ok) {
        if user {
          fsuid := f;
        } else {
          fsgid := f;
        }
      }
      return Answer(was, []);
    }

    /** `handle_identity`. */
    method Handle(call: Call, m: Memory) returns (answer: Answer)
      modifies this
      ensures View() == Apply(old(View()), call, m)
      ensures answer == Reply(old(View()), call, m)
    {
      match call {
        case GetUid => return Answer(ruid, []);
        case GetEuid => return Answer(euid, []);
        case GetGid => return Answer(rgid, []);
        case GetEgid => return Answer(egid, []);
        case GetResUid(r, e, s) => answer := WriteThree(m, [r, e, s], [ruid, euid, suid]);
        case GetResGid(r, e, s) => answer := WriteThree(m, [r, e, s], [rgid, egid, sgid]);
        case GetGroups(size, list) =>
          var n := Signed(size);
          if n < 0 {
            return Answer(-EINVAL, []);
          }
          if n == 0 {
            return Answer(|groups|, []);
          }
          if n < |groups| {
            return Answer(-EINVAL, []);
          }
          if |groups| > 0 && !m.CanWrite(list, |groups|) {
            return Answer(-EFAULT, []);
          }
          return Answer(|groups|, ListWrites(list, groups));
        case SetGroups(size, list) => answer := this.SetGroups(m, size, list);
        case SetId(user, a) => answer := this.SetId(user, a);
        case SetReId(user, a, b) => answer := this.SetReId(user, a, b);
        case SetResId(user, a, b, c) => answer := this.SetResId(user, a, b, c);
        case SetFsId(user, a) => answer := this.SetFsId(user, a);
      }
    }
  }

  // ---- whole runs ----

  function Initial(uid: nat, gid: nat): Value {
    Value(Ids(uid, uid, uid, uid), Ids(gid, gid, gid, gid), [gid])
  }

  /** The identity after a run of calls. */
  function After(v: Value, run: seq<(Call, Memory)>): Value {
    if run == [] then v else Apply(After(v, run[..|run| - 1]), run[|run| - 1].0, run[|run| - 1].1)
  }

  /** Where the effective uid is not 0, the file-system uid is one of the three. */
  predicate ActsAsHeld(v: Value) {
    v.uid.effective != 0 ==> v.uid.Holds(v.uid.fs)
  }

  lemma RulesActAsHeld(x: Ids, priv: bool, a: nat, b: nat, c: nat)
    requires priv <==> x.effective == 0
    requires x.effective != 0 ==> x.Holds(x.fs)
    ensures var t := SetIdRule(x, priv, a); t.To? && t.ids.effective != 0 ==> t.ids.Holds(t.ids.fs)
    ensures var t := SetReIdRule(x, priv, a, b); t.To? && t.ids.effective != 0 ==> t.ids.Holds(t.ids.fs)
    ensures var t := SetResIdRule(x, priv, a, b, c); t.To? && t.ids.effective != 0 ==> t.ids.Holds(t.ids.fs)
    ensures var t := SetFsIdRule(x, priv, a); t.effective != 0 ==> t.Holds(t.fs)
  {
  }

  lemma FileSystemStep(v: Value, call: Call, m: Memory)
    requires ActsAsHeld(v)
    ensures ActsAsHeld(Apply(v, call, m))
  {
    hide SetIdRule, SetReIdRule, SetResIdRule, SetFsIdRule, Ids.Holds, Id;
    match call
    case SetId(user, a) => RulesActAsHeld(v.uid, v.uid.effective == 0, Id(a), 0, 0);
    case SetReId(user, a, b) => RulesActAsHeld(v.uid, v.uid.effective == 0, Id(a), Id(b), 0);
    case SetResId(user, a, b, c) => RulesActAsHeld(v.uid, v.uid.effective == 0, Id(a), Id(b), Id(c));
    case SetFsId(user, a) => RulesActAsHeld(v.uid, v.uid.effective == 0, Id(a), 0, 0);
    case _ =>
  }

  /** A process whose effective uid is not 0 acts on files as one of its three uids. */
  lemma {:induction false} FileSystemUid(uid: nat, gid: nat, run: seq<(Call, Memory)>)
    ensures var v := After(Initial(uid, gid), run); v.uid.effective != 0 ==> v.uid.Holds(v.uid.fs)
    decreases |run|
  {
    hide Apply;
    if run != [] {
      FileSystemUid(uid, gid, run[..|run| - 1]);
      FileSystemStep(After(Initial(uid, gid), run[..|run| - 1]), run[|run| - 1].0, run[|run| - 1].1);
    }
  }

  lemma RulesRearrange(x: Ids, a: nat, b: nat, c: nat)
    ensures SetIdRule(x, false, a).To? ==> SetIdRule(x, false, a).ids.All() <= x.All()
    ensures SetReIdRule(x, false, a, b).To? ==> SetReIdRule(x, false, a, b).ids.All() <= x.All()
    ensures SetResIdRule(x, false, a, b, c).To? ==> SetResIdRule(x, false, a, b, c).ids.All() <= x.All()
    ensures SetFsIdRule(x, false, a).All() <= x.All()
  {
  }

  /** Without privilege a call only rearranges ids already held, and leaves the groups alone. */
  lemma UnprivilegedStep(v: Value, call: Call, m: Memory)
    requires v.uid.effective != 0
    ensures Apply(v, call, m).uid.All() <= v.uid.All() && Apply(v, call, m).gid.All() <= v.gid.All()
    ensures Apply(v, call, m).groups == v.groups
  {
    hide SetIdRule, SetReIdRule, SetResIdRule, SetFsIdRule, Ids.All;
    match call
    case SetId(user, a) => RulesRearrange(Pick(v, user), Id(a), 0, 0);
    case SetReId(user, a, b) => RulesRearrange(Pick(v, user), Id(a), Id(b), 0);
    case SetResId(user, a, b, c) => RulesRearrange(Pick(v, user), Id(a), Id(b), Id(c));
    case SetFsId(user, a) => RulesRearrange(Pick(v, user), Id(a), 0, 0);
    case _ =>
  }

  /** No uid is 0. */
  predicate Dropped(v: Value) {
    v.uid.actual != 0 && v.uid.effective != 0 && v.uid.saved != 0
  }

  lemma {:induction false} DroppedForGood(v: Value, run: seq<(Call, Memory)>)
    requires Dropped(v) && v.uid.fs != 0
    ensures var u := After(v, run);
            Dropped(u) && u.uid.All() <= v.uid.All() && u.gid.All() <= v.gid.All() && u.groups == v.groups
    decreases |run|
  {
    if run != [] {
      var before := run[..|run| - 1];
      DroppedForGood(v, before);
      UnprivilegedStep(After(v, before), run[|run| - 1].0, run[|run| - 1].1);
    }
  }

  lemma {:induction false} AfterConcat(v: Value, first: seq<(Call, Memory)>, second: seq<(Call, Memory)>)
    ensures After(v, first + second) == After(After(v, first), second)
    decreases |second|
  {
    if second == [] {
      assert first + second == first;
    } else {
      var before := second[..|second| - 1];
      AfterConcat(v, first, before);
      assert (first + second)[..|first + second| - 1] == first + before;
    }
  }

  /** Permanent privilege drop: from the first credentials of a process, once the real, effective and
      saved uid are all non-zero, no later call makes any uid 0, changes the groups, or brings in an id
      that was not held at that point. */
  lemma PermanentDrop(uid: nat, gid: nat, first: seq<(Call, Memory)>, later: seq<(Call, Memory)>)
    requires Dropped(After(Initial(uid, gid), first))
    ensures var v := After(Initial(uid, gid), first);
            var u := After(Initial(uid, gid), first + later);
            0 !in u.uid.All() && u.groups == v.groups && u.gid.All() <= v.gid.All() && u.uid.All() <= v.uid.All()
  {
    FileSystemUid(uid, gid, first);
    AfterConcat(Initial(uid, gid), first, later);
    DroppedForGood(After(Initial(uid, gid), first), later);
  }

  /** No run of calls reaches effective uid 0. */
  ghost predicate NeverRoot(v: Value) {
    forall later :: After(v, later).uid.effective != 0
  }

  /** And only then: while one of the three is 0, one `setresuid` regains effective uid 0, so a drop is
      permanent exactly when none is. */
  lemma DropIsPermanentIff(uid: nat, gid: nat, first: seq<(Call, Memory)>)
    ensures var v := After(Initial(uid, gid), first);
            Dropped(v) <==> NeverRoot(v)
  {
    var v := After(Initial(uid, gid), first);
    if Dropped(v) {
      forall later ensures After(v, later).uid.effective != 0 {
        AfterConcat(Initial(uid, gid), first, later);
        PermanentDrop(uid, gid, first, later);
      }
    } else {
      var nowhere := Memory(_ => false, _ => false, _ => 0);
      var back := [(SetResId(true, KEEP, 0, KEEP), nowhere)];
      assert back[..|back| - 1] == [];
      assert Id(KEEP) == KEEP && Id(0) == 0;
      assert After(v, back) == Apply(After(v, []), back[0].0, back[0].1);
      assert After(v, back).uid.effective == 0;
    }
  }

  /** A root that switches with `setuid` cannot switch back. */
  lemma SetuidDropsForGood(v: Value, a: nat, m: Memory)
    requires v.uid.effective == 0 && Id(a) != 0
    ensures NeverRoot(Apply(v, SetId(true, a), m))
  {
    var u := Apply(v, SetId(true, a), m);
    forall later ensures After(u, later).uid.effective != 0 {
      DroppedForGood(u, later);
    }
  }
}
