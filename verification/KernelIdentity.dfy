/** The identity calls of a kernel, written from their manual pages, and exactly when the emulation of
    `Credentials` gives the same answers: setuid(2), setreuid(2), setresuid(2), setfsuid(2), getresuid(2),
    getgroups(2). A caller is privileged while its effective uid is 0. */
module KernelIdentity {
  import opened Errno
  import opened Credentials

  /** A call fails with an errno and changes nothing, or succeeds with a value, the words it stores in the
      caller's memory and the identity it leaves. */
  datatype Outcome = Fails(errno: int) | Done(value: int, stored: seq<(nat, nat)>, next: Value)

  // ---- the rules of one kind of id ----

  function Own(v: Value, user: bool): Ids {
    match user
    case true => v.uid
    case false => v.gid
  }

  function Leave(v: Value, user: bool, ids: Ids): Value {
    Value(if user then ids else v.uid, if user then v.gid else ids, v.groups)
  }

  /** Ids are the low 32 bits of a register, and counts are these as a signed number. */
  function Word32(register: nat): nat {
    register % 0x1_0000_0000
  }

  function Int32(register: nat): int {
    var word := Word32(register);
    if word >= 0x8000_0000 then word - 0x1_0000_0000 else word
  }

  /** The ids an unprivileged process may ask for are among the ones it has. */
  predicate MayTake(privileged: bool, wanted: nat, held: set<nat>) {
    wanted == KEEP || privileged || wanted in held
  }

  function Or(wanted: nat, current: nat): nat { if wanted == KEEP then current else wanted }

  /** setuid(2), setgid(2). */
  function KernelSetId(v: Value, user: bool, id: nat): Outcome {
    var x := Own(v, user);
    if id == KEEP then Fails(EINVAL)
    else if Privileged(v) then Become(v, user, Ids(id, id, id, id))
    else if id in {x.actual, x.saved} then Become(v, user, Ids(x.actual, id, x.saved, id))
    else Fails(EPERM)
  }

  /** setreuid(2), setregid(2). The saved id follows the effective id if the real id is set, or the effective
      id is set to something other than the previous real id. */
  function KernelSetReId(v: Value, user: bool, real_: nat, effective: nat): Outcome {
    var x := Own(v, user);
    if !MayTake(Privileged(v), real_, {x.actual, x.effective}) then Fails(EPERM)
    else if !MayTake(Privileged(v), effective, {x.actual, x.effective, x.saved}) then Fails(EPERM)
    else
      var e := Or(effective, x.effective);
      var follows := real_ != KEEP || (effective != KEEP && effective != x.actual);
      Become(v, user, Ids(Or(real_, x.actual), e, if follows then e else x.saved, e))
  }

  /** setresuid(2), setresgid(2). The file-system id always becomes the new effective id. */
  function KernelSetResId(v: Value, user: bool, wanted: seq<nat>): Outcome
    requires |wanted| == 3
  {
    var x := Own(v, user);
    if exists i :: 0 <= i < 3 && !MayTake(Privileged(v), wanted[i], {x.actual, x.effective, x.saved})
    then Fails(EPERM)
    else
      var e := Or(wanted[1], x.effective);
      Become(v, user, Ids(Or(wanted[0], x.actual), e, Or(wanted[2], x.saved), e))
  }

  /** setfsuid(2), setfsgid(2): the previous value is returned whether the call succeeds or not. */
  function KernelSetFsId(v: Value, user: bool, id: nat): Outcome {
    var x := Own(v, user);
    var taken := id != KEEP && MayTake(Privileged(v), id, x.All());
    Done(x.fs, [], Leave(v, user, if taken then x.(fs := id) else x))
  }

  predicate Privileged(v: Value) { v.uid.effective == 0 }

  function Become(v: Value, user: bool, ids: Ids): Outcome { Done(0, [], Leave(v, user, ids)) }

  // ---- supplementary groups ----

  /** The list is taken over word by word: a word that cannot be read is EFAULT, one that is no group id is
      EINVAL, whichever comes first. */
  datatype Taken = Faulted(errno: int) | List(groups: seq<nat>)

  function TakeList(m: Memory, at: nat, n: nat): Taken
    decreases n
  {
    if n == 0 then List([])
    else if !m.readable(at) then Faulted(EFAULT)
    else if m.word(at) == KEEP then Faulted(EINVAL)
    else match TakeList(m, at + 4, n - 1)
      case Faulted(errno) => Faulted(errno)
      case List(rest) => List([m.word(at)] + rest)
  }

  function Insert(x: nat, s: seq<nat>): seq<nat> {
    if s == [] || x <= s[0] then [x] + s else [s[0]] + Insert(x, s[1..])
  }

  /** The kernel keeps the groups in ascending order. */
  function Ascending(s: seq<nat>): seq<nat> {
    if s == [] then [] else Insert(s[0], Ascending(s[1..]))
  }

  predicate IsAscending(s: seq<nat>) {
    forall i, j :: 0 <= i < j < |s| ==> s[i] <= s[j]
  }

  /** setgroups(2). */
  function KernelSetGroups(v: Value, n: int, list: nat, m: Memory): Outcome {
    if !Privileged(v) then Fails(EPERM)
    else if n < 0 || n > MAX_GROUPS then Fails(EINVAL)
    else match TakeList(m, list, n)
      case Faulted(errno) => Fails(errno)
      case List(groups) => Done(0, [], v.(groups := Ascending(groups)))
  }

  /** The words of a list, one behind the other. */
  function Stores(at: nat, words: seq<nat>): seq<(nat, nat)>
    decreases |words|
  {
    if words == [] then [] else [(at, words[0])] + Stores(at + 4, words[1..])
  }

  /** getgroups(2). */
  function KernelGetGroups(v: Value, n: int, list: nat, m: Memory): Outcome {
    var count := |v.groups|;
    if n == 0 then Done(count, [], v)
    else if n < count then Fails(EINVAL)
    else if exists i :: 0 <= i < count && !m.writable(list + 4 * i) then Fails(EFAULT)
    else Done(count, Stores(list, v.groups), v)
  }

  /** getresuid(2), getresgid(2). */
  function KernelGetThree(v: Value, user: bool, r: nat, e: nat, s: nat, m: Memory): Outcome {
    var x := Own(v, user);
    if m.writable(r) && m.writable(e) && m.writable(s)
    then Done(0, [(r, x.actual), (e, x.effective), (s, x.saved)], v)
    else Fails(EFAULT)
  }

  function Kernel(v: Value, call: Call, m: Memory): Outcome {
    match call
    case GetUid => Done(v.uid.actual, [], v)
    case GetEuid => Done(v.uid.effective, [], v)
    case GetGid => Done(v.gid.actual, [], v)
    case GetEgid => Done(v.gid.effective, [], v)
    case GetResUid(r, e, s) => KernelGetThree(v, true, r, e, s, m)
    case GetResGid(r, e, s) => KernelGetThree(v, false, r, e, s, m)
    case GetGroups(size, list) => KernelGetGroups(v, Int32(size), list, m)
    case SetGroups(size, list) => KernelSetGroups(v, Int32(size), list, m)
    case SetId(user, a) => KernelSetId(v, user, Word32(a))
    case SetReId(user, a, b) => KernelSetReId(v, user, Word32(a), Word32(b))
    case SetResId(user, a, b, c) => KernelSetResId(v, user, [Word32(a), Word32(b), Word32(c)])
    case SetFsId(user, a) => KernelSetFsId(v, user, Word32(a))
  }

  // ---- the comparison ----

  /** The handler's answer and the identity it leaves are the kernel's. What a call stores is compared where
      it succeeds. */
  predicate Follows(v: Value, call: Call, m: Memory) {
    var reply := Reply(v, call, m);
    var next := Apply(v, call, m);
    match Kernel(v, call, m)
    case Fails(errno) => reply.ret == -errno && next == v
    case Done(value, stored, after) => reply == Answer(value, stored) && next == after
  }

  /** Some word of the list is 0xffffffff, and every word up to it can be read. */
  predicate NamesNoGroup(m: Memory, at: nat, n: nat) {
    exists i :: 0 <= i < n && m.word(at + 4 * i) == KEEP && m.CanRead(at, i + 1)
  }

  /** The calls at which the handler leaves the kernel's rules: setuid(-1) and setgid(-1) by anyone, and a
      setgroups that passes the checks of privilege and size with a list that holds 0xffffffff or is out of
      order. */
  predicate Departs(v: Value, call: Call, m: Memory) {
    match call
    case SetId(_, a) => Id(a) == KEEP
    case SetGroups(size, list) =>
      && Privileged(v)
      && GroupsFit(Signed(size))
      && (|| NamesNoGroup(m, list, Signed(size))
          || (m.CanRead(list, Signed(size)) && !IsAscending(ReadList(m, list, Signed(size)))))
    case _ => false
  }

  lemma {:induction false} InsertKeeps(x: nat, s: seq<nat>)
    ensures |Insert(x, s)| == |s| + 1 && multiset(Insert(x, s)) == multiset(s) + multiset{x}
  {
    hide IsAscending;
    if s != [] && x > s[0] {
      InsertKeeps(x, s[1..]);
      assert s == [s[0]] + s[1..];
    }
  }

  lemma {:induction false} InsertLow(x: nat, s: seq<nat>)
    requires IsAscending(s)
    ensures IsAscending(Insert(x, s)) && Insert(x, s) != []
    ensures Insert(x, s)[0] == if s == [] || x <= s[0] then x else s[0]
  {
    if s != [] && x > s[0] {
      InsertLow(x, s[1..]);
      var rest := Insert(x, s[1..]);
      assert |rest| > 0 && s[0] <= rest[0];
      forall i, j | 0 <= i < j < |rest| + 1 ensures ([s[0]] + rest)[i] <= ([s[0]] + rest)[j] {
        if i == 0 {
          assert rest[0] <= rest[j - 1];
        }
      }
    }
  }

  /** `Ascending` sorts. */
  lemma {:induction false} AscendingSorts(s: seq<nat>)
    ensures IsAscending(Ascending(s)) && multiset(Ascending(s)) == multiset(s)
  {
    hide IsAscending, Insert;
    if s == [] {
      EmptyAscends();
    } else {
      AscendingSorts(s[1..]);
      InsertLow(s[0], Ascending(s[1..]));
      InsertKeeps(s[0], Ascending(s[1..]));
      assert s == [s[0]] + s[1..];
    }
  }

  lemma EmptyAscends()
    ensures IsAscending([])
  {
  }

  /** Sorting changes nothing exactly where the list is sorted. */
  lemma {:induction false} AscendingKeeps(s: seq<nat>)
    requires IsAscending(s)
    ensures Ascending(s) == s
  {
    if s != [] {
      AscendingKeeps(s[1..]);
      assert s == [s[0]] + s[1..];
      if |s| > 1 {
        assert s[0] <= s[1];
      }
    }
  }

  lemma {:induction false} TakeListIs(m: Memory, at: nat, n: nat)
    ensures NamesNoGroup(m, at, n) ==> TakeList(m, at, n) == Faulted(EINVAL)
    ensures !NamesNoGroup(m, at, n) ==>
              TakeList(m, at, n) == if m.CanRead(at, n) then List(ReadList(m, at, n)) else Faulted(EFAULT)
    decreases n
  {
    if n > 0 {
      TakeListIs(m, at + 4, n - 1);
      TakeListShift(m, at, n);
    }
  }

  lemma TakeListShift(m: Memory, at: nat, n: nat)
    requires n > 0
    ensures m.CanRead(at, n) <==> m.readable(at) && m.CanRead(at + 4, n - 1)
    ensures ReadList(m, at, n) == [m.word(at)] + ReadList(m, at + 4, n - 1)
    ensures NamesNoGroup(m, at, n) <==> m.readable(at) && (m.word(at) == KEEP || NamesNoGroup(m, at + 4, n - 1))
  {
    hide NamesNoGroup, Memory.CanRead;
    ShiftRead(m, at, n);
    assert forall i :: 0 <= i < n - 1 ==> at + 4 + 4 * i == at + 4 * (i + 1);
    if NamesNoGroup(m, at, n) {
      NamedHere(m, at, n);
    }
    if m.readable(at) && (m.word(at) == KEEP || NamesNoGroup(m, at + 4, n - 1)) {
      NamedThere(m, at, n);
    }
  }

  lemma NamedHere(m: Memory, at: nat, n: nat)
    requires n > 0 && NamesNoGroup(m, at, n)
    ensures m.readable(at) && (m.word(at) == KEEP || NamesNoGroup(m, at + 4, n - 1))
  {
    hide Memory.CanRead;
    var i :| 0 <= i < n && m.word(at + 4 * i) == KEEP && m.CanRead(at, i + 1);
    ShiftRead(m, at, i + 1);
    if i > 0 {
      assert at + 4 + 4 * (i - 1) == at + 4 * i;
      assert m.word(at + 4 + 4 * (i - 1)) == KEEP && m.CanRead(at + 4, i - 1 + 1);
    }
  }

  lemma NamedThere(m: Memory, at: nat, n: nat)
    requires n > 0 && m.readable(at) && (m.word(at) == KEEP || NamesNoGroup(m, at + 4, n - 1))
    ensures NamesNoGroup(m, at, n)
  {
    hide Memory.CanRead;
    if m.word(at) == KEEP {
      ShiftRead(m, at, 1);
      NothingToRead(m, at + 4);
      assert m.word(at + 4 * 0) == KEEP && m.CanRead(at, 0 + 1);
    } else {
      var i :| 0 <= i < n - 1 && m.word(at + 4 + 4 * i) == KEEP && m.CanRead(at + 4, i + 1);
      ShiftRead(m, at, i + 2);
      assert at + 4 + 4 * i == at + 4 * (i + 1);
      assert m.word(at + 4 * (i + 1)) == KEEP && m.CanRead(at, i + 1 + 1);
    }
  }

  lemma ShiftRead(m: Memory, at: nat, n: nat)
    requires n > 0
    ensures m.CanRead(at, n) <==> m.readable(at) && m.CanRead(at + 4, n - 1)
  {
    if m.CanRead(at, n) {
      assert m.readable(at + 4 * 0);
      forall i | 0 <= i < n - 1 ensures m.readable(at + 4 + 4 * i) {
        assert m.readable(at + 4 * (i + 1));
      }
    }
    if m.readable(at) && m.CanRead(at + 4, n - 1) {
      forall i | 0 <= i < n ensures m.readable(at + 4 * i) {
        if i > 0 {
          assert m.readable(at + 4 + 4 * (i - 1));
        }
      }
    }
  }

  lemma SetGroupsFollows(v: Value, size: nat, list: nat, m: Memory)
    ensures Follows(v, SetGroups(size, list), m) <==> !Departs(v, SetGroups(size, list), m)
  {
    hide NamesNoGroup, IsAscending, TakeList, Ascending, Memory.CanRead;
    var n := Signed(size);
    if Privileged(v) && GroupsFit(n) {
      TakeListIs(m, list, n);
      NothingToRead(m, list);
      AscendingSorts(ReadList(m, list, n));
      if IsAscending(ReadList(m, list, n)) {
        AscendingKeeps(ReadList(m, list, n));
      }
    }
  }

  lemma {:induction false} StoresIs(at: nat, words: seq<nat>)
    ensures Stores(at, words) == ListWrites(at, words)
    decreases |words|
  {
    if words != [] {
      StoresIs(at + 4, words[1..]);
      var rest := [(at, words[0])] + ListWrites(at + 4, words[1..]);
      forall i | 0 <= i < |words| ensures ListWrites(at, words)[i] == rest[i] {
        assert at + 4 + 4 * (i - 1) == at + 4 * i;
      }
    }
  }

  lemma NothingToRead(m: Memory, at: nat)
    ensures m.CanRead(at, 0)
  {
  }

  /** The handler reads registers as the kernel does. */
  lemma SameWord(register: nat)
    ensures Id(register) == Word32(register) && Signed(register) == Int32(register)
  {
  }

  lemma SetReFollows(v: Value, call: Call, m: Memory)
    requires call.SetReId?
    ensures Follows(v, call, m)
  {
    SameWord(call.a);
    SameWord(call.b);
    hide Id, Word32;
  }

  lemma SetResFollows(v: Value, call: Call, m: Memory)
    requires call.SetResId?
    ensures Follows(v, call, m)
  {
    SameWord(call.a);
    SameWord(call.b);
    SameWord(call.c);
    hide Id, Word32;
    var wanted := [Id(call.a), Id(call.b), Id(call.c)];
    assert wanted[0] == Id(call.a) && wanted[1] == Id(call.b) && wanted[2] == Id(call.c);
  }

  lemma SetFsFollows(v: Value, call: Call, m: Memory)
    requires call.SetFsId?
    ensures Follows(v, call, m)
  {
    SameWord(call.a);
    hide Id, Word32;
  }

  lemma SetIdFollows(v: Value, user: bool, a: nat, m: Memory)
    ensures Follows(v, SetId(user, a), m) <==> Id(a) != KEEP
  {
  }

  lemma ThreeFollows(v: Value, r: nat, e: nat, s: nat, m: Memory)
    ensures Follows(v, GetResUid(r, e, s), m) && Follows(v, GetResGid(r, e, s), m)
  {
    hide Writable, Three;
    ThreeWords(m, r, v.uid.actual, e, v.uid.effective, s, v.uid.saved);
    ThreeWords(m, r, v.gid.actual, e, v.gid.effective, s, v.gid.saved);
  }

  /** Three words are all stored exactly where all three can be. */
  lemma ThreeWords(m: Memory, r: nat, a: nat, e: nat, b: nat, s: nat, c: nat)
    ensures var words := [(r, a), (e, b), (s, c)];
            Three(m, words) == if m.writable(r) && m.writable(e) && m.writable(s) then Answer(0, words)
                               else Answer(-EFAULT, Three(m, words).writes)
  {
    hide Writable;
    var words := [(r, a), (e, b), (s, c)];
    var done := Writable(m, words);
    assert words[0].0 == r && words[1].0 == e && words[2].0 == s;
    if done == words {
      assert words[0] in done && words[1] in done && words[2] in done;
    }
  }

  /** For every identity, call and memory the handler answers as the kernel does and leaves the identity the
      kernel leaves, except exactly at the calls of `Departs`. */
  lemma FollowsKernelIff(v: Value, call: Call, m: Memory)
    ensures Follows(v, call, m) <==> !Departs(v, call, m)
  {
    hide NamesNoGroup, IsAscending, TakeList, Writable, Memory.CanRead, Three;
    match call
    case SetId(user, a) => SetIdFollows(v, user, a, m);
    case SetGroups(size, list) => SetGroupsFollows(v, size, list, m);
    case SetReId(_, _, _) => SetReFollows(v, call, m);
    case SetResId(_, _, _, _) => SetResFollows(v, call, m);
    case SetFsId(_, _) => SetFsFollows(v, call, m);
    case GetResUid(r, e, s) => ThreeFollows(v, r, e, s, m);
    case GetResGid(r, e, s) => ThreeFollows(v, r, e, s, m);
    case GetGroups(size, list) => StoresIs(list, v.groups);
      assert m.CanWrite(list, |v.groups|) <==>
             !exists i :: 0 <= i < |v.groups| && !m.writable(list + 4 * i);
    case _ =>
  }

  // ---- whole runs ----

  function KernelStep(v: Value, call: Call, m: Memory): Value {
    var outcome := Kernel(v, call, m);
    if outcome.Done? then outcome.next else v
  }

  function KernelAfter(v: Value, run: seq<(Call, Memory)>): Value {
    if run == [] then v
    else KernelStep(KernelAfter(v, run[..|run| - 1]), run[|run| - 1].0, run[|run| - 1].1)
  }

  /** A run that never departs from the kernel's rules leaves the kernel's identity, so that every call of it
      is answered as the kernel would. */
  lemma {:induction false} RunFollowsKernel(v: Value, run: seq<(Call, Memory)>)
    requires forall k :: 0 <= k < |run| ==> !Departs(KernelAfter(v, run[..k]), run[k].0, run[k].1)
    ensures After(v, run) == KernelAfter(v, run)
    ensures forall k :: 0 <= k < |run| ==> Follows(After(v, run[..k]), run[k].0, run[k].1)
    decreases |run|
  {
    hide Kernel, Apply, Reply, Departs, Follows;
    if run != [] {
      var n := |run| - 1;
      forall k | 0 <= k < n ensures run[..n][..k] == run[..k] && run[..n][k] == run[k] {}
      RunFollowsKernel(v, run[..n]);
      FollowsKernelIff(After(v, run[..n]), run[n].0, run[n].1);
      FollowsNext(After(v, run[..n]), run[n].0, run[n].1);
      forall k | 0 <= k < n ensures Follows(After(v, run[..k]), run[k].0, run[k].1) {
        assert run[..n][..k] == run[..k] && run[..n][k] == run[k];
      }
    }
  }

  lemma FollowsNext(v: Value, call: Call, m: Memory)
    requires Follows(v, call, m)
    ensures Apply(v, call, m) == KernelStep(v, call, m)
  {
    hide Kernel, Apply, Reply;
  }

  // ---- the inputs at which they differ ----

  /** A root's setuid(-1) and setgid(-1) are accepted; the kernel answers EINVAL. */
  lemma RootMinusOne(v: Value, user: bool, m: Memory)
    requires Privileged(v)
    ensures Reply(v, SetId(user, KEEP), m).ret == 0
    ensures Pick(Apply(v, SetId(user, KEEP), m), user) == Ids(KEEP, KEEP, KEEP, KEEP)
    ensures Kernel(v, SetId(user, KEEP), m) == Fails(EINVAL)
  {
    assert Id(KEEP) == KEEP;
  }

  /** An unprivileged setuid(-1) is refused with EPERM; the kernel looks at the value first. */
  lemma UnprivilegedMinusOne(v: Value, m: Memory)
    requires !Privileged(v) && v.uid.actual != KEEP && v.uid.saved != KEEP
    ensures Reply(v, SetId(true, KEEP), m).ret == -EPERM
    ensures Kernel(v, SetId(true, KEEP), m) == Fails(EINVAL)
  {
    assert Id(KEEP) == KEEP;
  }

  /** setgroups takes a list holding 0xffffffff, and keeps [9, 3] in that order; the kernel answers EINVAL
      to the one and keeps [3, 9] of the other. */
  lemma GroupsDiffer(v: Value)
    requires Privileged(v)
    ensures var none := Memory(_ => true, _ => true, _ => KEEP);
            Reply(v, SetGroups(1, 0), none).ret == 0 && Kernel(v, SetGroups(1, 0), none) == Fails(EINVAL)
    ensures var two := Memory(_ => true, _ => true, at => if at == 0 then 9 else 3);
            Apply(v, SetGroups(2, 0), two).groups == [9, 3] &&
            Kernel(v, SetGroups(2, 0), two) == Done(0, [], v.(groups := [3, 9]))
  {
    var two := Memory(_ => true, _ => true, at => if at == 0 then 9 else 3);
    assert TakeList(two, 4 + 4, 0) == List([]);
    assert TakeList(two, 4, 1) == List([3]);
    assert TakeList(two, 0, 2) == List([9, 3]);
    assert Ascending([3]) == Insert(3, []) == [3];
    assert [9, 3][1..] == [3] && Ascending([9, 3]) == Insert(9, [3]) == [3, 9];
    var none := Memory(_ => true, _ => true, _ => KEEP);
    assert Signed(1) == 1 && Signed(2) == 2;
    assert TakeList(none, 0, 1) == Faulted(EINVAL);
    assert ReadList(two, 0, 2) == [9, 3];
  }
}
