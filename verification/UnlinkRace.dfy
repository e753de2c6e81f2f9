/** Two sessions unlink two names of one object at once (src/engines/rootless/link_store.cpp, unlink_name and
    release twice). Both run the steps that module LinkRace gives one of them. */
module UnlinkRace {
  import opened Decimal
  import opened LinkRace
  import opened LinkRecord
  import opened Wrappers

  /** Where one session stands: its program counter and the record it holds. */
  datatype Local = Local(pc: UnlinkPc, rec: Record)

  /** The object and its names, who holds the store lock, and both sessions; `true` is the first. */
  datatype Pair = Pair(at: map<string, Slot>, stored: bool, record: Option<Record>, lock: Option<bool>, first: Local,
                       second: Local) {
    function Of(who: bool): Local { if who then first else second }
  }

  /** The names that go. */
  datatype Gone = Gone(first: string, second: string) {
    function Of(who: bool): string { if who then first else second }
  }

  /** How one session sees the state. */
  function Seen(s: Pair, who: bool): State {
    State(s.at, s.stored, s.record,
          if s.lock.None? then None else if s.lock.value == who then Some(Unlinker) else Some(Linker),
          Look, Record(0, []), s.Of(who).pc, s.Of(who).rec)
  }

  function Move(g: Gone, s: Pair, who: bool): Pair {
    var u := StepUnlink(Calls("", g.Of(who)), Seen(s, who));
    var lock := if u.lock.None? then None else Some(if u.lock.value.Unlinker? then who else !who);
    var mine := Local(u.unlinkPc, u.unlinkRec);
    Pair(u.at, u.stored, u.record, lock, if who then mine else s.first, if who then s.second else mine)
  }

  function Moves(g: Gone, s: Pair, schedule: seq<bool>): Pair
    decreases |schedule|
  {
    if schedule == [] then s else Moves(g, Move(g, s, schedule[0]), schedule[1..])
  }

  function Begin(names: set<string>, record: Record): Pair {
    var l := Local(DropName, Record(0, []));
    Pair(map n | n in names :: Marker, true, Some(record), None, l, l)
  }

  ghost predicate Proper(g: Gone, names: set<string>, record: Record) {
    g.first in names && g.second in names && g.first != g.second && record.count == |names| < COUNT_LIMIT
  }

  predicate BothDone(s: Pair) {
    s.first.pc.Finished? && s.second.pc.Finished?
  }

  /** Both names are gone and every other name still leads to the file, which is gone with its last name; the
      count is the number of names. */
  ghost predicate BothGone(g: Gone, names: set<string>, s: Pair) {
    s.at.Keys == names - {g.first, g.second} &&
    (s.stored ==> AllMarkers(s.at) && s.record.Some? && s.record.value.count == |s.at.Keys| > 0) &&
    (!s.stored ==> s.record.None? && (s.at.Keys == {} || exists n :: s.at == map[n := TheFile]))
  }

  /** The starts that can go wrong: the two names are the last ones, and the record lists one of them. */
  predicate LastTwo(g: Gone, names: set<string>, record: Record) {
    |names| == 2 && (g.first in record.names || g.second in record.names)
  }

  // ---- what every step keeps ----

  predicate Dropped(l: Local) { !l.pc.DropName? }

  predicate Past(l: Local) { l.pc.GiveLock? || l.pc.Finished? }

  function Left(names: set<string>, s: Pair): int {
    |names| - (if Past(s.first) then 1 else 0) - (if Past(s.second) then 1 else 0)
  }

  predicate Holds(l: Local) {
    !(l.pc.DropName? || l.pc.TakeLock? || l.pc.Finished?)
  }

  predicate LockFits(s: Pair, who: bool) {
    s.lock == Some(who) <==> Holds(s.Of(who))
  }

  function Remaining(g: Gone, names: set<string>, first: bool, second: bool): set<string> {
    names - (if first then {g.first} else {}) - (if second then {g.second} else {})
  }

  predicate Silent(g: Gone, recorded: seq<string>) {
    g.first !in recorded && g.second !in recorded
  }

  /** With two names, no record that is read or written lists them. */
  ghost predicate NoMention(g: Gone, names: set<string>, s: Pair) {
    |names| == 2 ==>
      (s.record.Some? ==> Silent(g, s.record.value.names)) && Silent(g, s.first.rec.names) &&
      Silent(g, s.second.rec.names)
  }

  /** The record in a session's hands is one below the count, and the name it restores is none of the two. */
  predicate LocalFits(g: Gone, names: set<string>, s: Pair, who: bool) {
    var l := s.Of(who);
    (l.pc.Check? || l.pc.Restore? || l.pc.WriteNames? || l.pc.DropObject? ==>
     s.stored && l.rec.count == Left(names, s) - 1) &&
    (l.pc.Check? || l.pc.Restore? ==> l.rec.count == 1) &&
    (l.pc.WriteNames? ==> l.rec.count > 0) &&
    (l.pc.DropObject? ==> l.rec.count == 0) &&
    (l.pc.Restore? ==> l.pc.i < |l.rec.names| && l.rec.names[l.pc.i] in names - {g.first, g.second}) &&
    (l.pc.DropRecord? || l.pc.DropLastRecord? ==> !s.stored)
  }

  ghost predicate Alone(rest: set<string>, at: map<string, Slot>) {
    rest == {} || exists n :: rest == {n} && n in at && at[n] == TheFile
  }

  /** Once the object is gone both sessions are past the point where they change a name, and only one of them
      may still have to remove the record. */
  ghost predicate GoneFits(g: Gone, names: set<string>, s: Pair) {
    !s.stored ==>
      (forall who :: s.Of(who).pc in {DropRecord, DropLastRecord, GiveLock, Finished}) &&
      (Past(s.first) && Past(s.second) ==> s.record.None?) &&
      Alone(names - {g.first, g.second}, s.at)
  }

  ghost predicate Keeps(g: Gone, names: set<string>, s: Pair) {
    s.at.Keys == Remaining(g, names, Dropped(s.first), Dropped(s.second)) &&
    (s.stored ==> AllMarkers(s.at) && s.record.Some? && s.record.value.count == Left(names, s) > 0) &&
    LockFits(s, true) && LockFits(s, false) && NoMention(g, names, s) &&
    LocalFits(g, names, s, true) && LocalFits(g, names, s, false) && GoneFits(g, names, s)
  }

  lemma BeginKeeps(g: Gone, names: set<string>, record: Record)
    requires Proper(g, names, record) && !LastTwo(g, names, record)
    ensures Keeps(g, names, Begin(names, record))
  {
    var s := Begin(names, record);
    assert s.at.Keys == names;
    TwoNames(g, names);
  }

  lemma TwoNames(g: Gone, names: set<string>)
    requires g.first in names && g.second in names && g.first != g.second
    ensures |names| >= 2 && |names - {g.first, g.second}| == |names| - 2
    ensures |names| == 2 ==> names == {g.first, g.second} && names - {g.first, g.second} == {}
    ensures |names| == 3 ==> exists n :: names - {g.first, g.second} == {n}
  {
    var rest := names - {g.first, g.second};
    assert names == rest + {g.first, g.second};
    assert |{g.first, g.second}| == 2;
    if |names| == 3 {
      var n :| n in rest;
      assert |rest - {n}| == 0;
      assert rest == {n};
    }
  }

  lemma DropKeeps(g: Gone, names: set<string>, s: Pair, who: bool)
    requires g.first != g.second && Keeps(g, names, s) && s.Of(who).pc.DropName?
    ensures Keeps(g, names, Move(g, s, who))
  {
    hide Silent;
    var u := Move(g, s, who);
    assert s.stored by { assert who ==> s.Of(true).pc.DropName?; assert !who ==> s.Of(false).pc.DropName?; }
    assert u.at.Keys == s.at.Keys - {g.Of(who)};
  }

  lemma QuietKeeps(g: Gone, names: set<string>, s: Pair, who: bool)
    requires Keeps(g, names, s) && s.Of(who).pc in {TakeLock, GiveLock, Finished}
    ensures Keeps(g, names, Move(g, s, who))
  {
    hide Silent, Alone, AllMarkers, Remaining;
    assert s.stored || s.Of(!who).pc in {DropRecord, DropLastRecord, GiveLock, Finished};
    assert s.stored || s.Of(who).pc in {DropRecord, DropLastRecord, GiveLock, Finished};
  }

  lemma RecordGoes(g: Gone, names: set<string>, s: Pair, who: bool)
    requires Keeps(g, names, s) && s.Of(who).pc in {DropRecord, DropLastRecord}
    ensures Keeps(g, names, Move(g, s, who))
  {
    hide Silent, Alone, AllMarkers, Remaining;
  }

  lemma WithoutSilent(g: Gone, recorded: seq<string>, gone: string)
    requires Silent(g, recorded)
    ensures Silent(g, Without(recorded, gone))
  {
  }

  lemma ReadKeeps(g: Gone, names: set<string>, s: Pair, who: bool)
    requires Keeps(g, names, s) && s.Of(who).pc.ReadNames?
    ensures Keeps(g, names, Move(g, s, who))
  {
    hide Silent, Alone, AllMarkers, Remaining, Without;
    assert s.stored;
    if |names| == 2 {
      WithoutSilent(g, s.record.value.names, g.Of(who));
    }
  }

  /** A name found to be a marker while one name is to be left is the name that stays. */
  lemma CheckKeeps(g: Gone, names: set<string>, s: Pair, who: bool)
    requires g.first in names && g.second in names && g.first != g.second
    requires Keeps(g, names, s) && s.Of(who).pc.Check?
    ensures Keeps(g, names, Move(g, s, who))
  {
    hide Alone, AllMarkers;
    TwoNames(g, names);
    var l := s.Of(who);
    var i := l.pc.i;
    if i < |l.rec.names| && l.rec.names[i] in s.at {
      var n := l.rec.names[i];
      assert n in Remaining(g, names, Dropped(s.first), Dropped(s.second));
      if |names| > 2 {
        assert Past(s.Of(!who));
        assert Dropped(s.first) && Dropped(s.second);
        assert n in names - {g.first, g.second};
      }
    }
  }

  /** While one name is to be left, the other session has given its name up. */
  lemma RestoreKeeps(g: Gone, names: set<string>, s: Pair, who: bool)
    requires g.first in names && g.second in names && g.first != g.second
    requires Keeps(g, names, s) && s.Of(who).pc.Restore?
    ensures Keeps(g, names, Move(g, s, who))
  {
    hide Silent, AllMarkers;
    TwoNames(g, names);
    var l := s.Of(who);
    var n := l.rec.names[l.pc.i];
    var u := Move(g, s, who);
    assert |names| > 2;
    assert Past(s.Of(!who));
    assert |names| == 3;
    var x :| names - {g.first, g.second} == {x};
    assert n == x;
    assert n in s.at.Keys;
    assert u.at.Keys == s.at.Keys;
    assert u.at[n] == TheFile && n in u.at;
    assert Alone(names - {g.first, g.second}, u.at);
    forall w ensures u.Of(w).pc in {DropRecord, DropLastRecord, GiveLock, Finished} {
      assert w == who || w == !who;
    }
  }

  lemma ObjectGoes(g: Gone, names: set<string>, s: Pair, who: bool)
    requires g.first in names && g.second in names && g.first != g.second
    requires Keeps(g, names, s) && s.Of(who).pc.DropObject?
    ensures Keeps(g, names, Move(g, s, who))
  {
    hide Silent, AllMarkers;
    TwoNames(g, names);
    var u := Move(g, s, who);
    assert Past(s.Of(!who));
    forall w ensures u.Of(w).pc in {DropRecord, DropLastRecord, GiveLock, Finished} {
      assert w == who || w == !who;
    }
  }

  lemma StoredSilent(g: Gone, rec: Record)
    requires Silent(g, rec.names)
    ensures Silent(g, Stored(rec).names)
  {
  }

  lemma WriteKeeps(g: Gone, names: set<string>, s: Pair, who: bool)
    requires Keeps(g, names, s) && s.Of(who).pc.WriteNames?
    ensures Keeps(g, names, Move(g, s, who))
  {
    hide Silent, Alone, AllMarkers, Remaining, Kept, ToDecimal;
    if |names| == 2 {
      StoredSilent(g, s.Of(who).rec);
    }
  }

  lemma MoveKeeps(g: Gone, names: set<string>, s: Pair, who: bool)
    requires g.first in names && g.second in names && g.first != g.second && Keeps(g, names, s)
    ensures Keeps(g, names, Move(g, s, who))
  {
    hide Keeps, Move;
    match s.Of(who).pc
    case DropName => DropKeeps(g, names, s, who);
    case ReadNames => ReadKeeps(g, names, s, who);
    case Check(_) => CheckKeeps(g, names, s, who);
    case Restore(_) => RestoreKeeps(g, names, s, who);
    case DropObject => ObjectGoes(g, names, s, who);
    case WriteNames => WriteKeeps(g, names, s, who);
    case DropRecord => RecordGoes(g, names, s, who);
    case DropLastRecord => RecordGoes(g, names, s, who);
    case _ => QuietKeeps(g, names, s, who);
  }

  lemma {:induction false} MovesKeep(g: Gone, names: set<string>, s: Pair, schedule: seq<bool>)
    requires g.first in names && g.second in names && g.first != g.second && Keeps(g, names, s)
    ensures Keeps(g, names, Moves(g, s, schedule))
    decreases |schedule|
  {
    hide Keeps, Move;
    if schedule != [] {
      MoveKeeps(g, names, s, schedule[0]);
      MovesKeep(g, names, Move(g, s, schedule[0]), schedule[1..]);
    }
  }

  lemma DoneIsSettled(g: Gone, names: set<string>, s: Pair)
    requires g.first in names && g.second in names && g.first != g.second && Keeps(g, names, s) && BothDone(s)
    ensures BothGone(g, names, s)
  {
    hide Silent, AllMarkers;
    TwoNames(g, names);
    assert s.at.Keys == names - {g.first, g.second};
    if !s.stored && s.at.Keys != {} {
      var n :| names - {g.first, g.second} == {n} && n in s.at && s.at[n] == TheFile;
      assert s.at == map[n := TheFile];
    }
  }

  // ---- the schedule that brings a name back ----

  lemma {:induction false} MovesConcat(g: Gone, s: Pair, a: seq<bool>, b: seq<bool>)
    ensures Moves(g, s, a + b) == Moves(g, Moves(g, s, a), b)
    decreases |a|
  {
    hide Move;
    if a == [] {
      assert a + b == b;
    } else {
      MovesConcat(g, Move(g, s, a[0]), a[1..], b);
      assert (a + b)[0] == a[0] && (a + b)[1..] == a[1..] + b;
    }
  }

  lemma MovesCons(g: Gone, s: Pair, who: bool, rest: seq<bool>)
    ensures Moves(g, s, [who] + rest) == Moves(g, Move(g, s, who), rest)
  {
    hide Move;
    assert ([who] + rest)[1..] == rest;
  }

  lemma MovesThree(g: Gone, s: Pair, a: bool, b: bool, c: bool)
    ensures Moves(g, s, [a, b, c]) == Move(g, Move(g, Move(g, s, a), b), c)
  {
    hide Move;
    MovesCons(g, s, a, [b, c]);
    MovesCons(g, Move(g, s, a), b, [c]);
    MovesCons(g, Move(g, Move(g, s, a), b), c, []);
  }

  lemma MovesFour(g: Gone, s: Pair, a: bool, b: bool, c: bool, d: bool)
    ensures Moves(g, s, [a, b, c, d]) == Move(g, Move(g, Move(g, Move(g, s, a), b), c), d)
  {
    hide Move;
    MovesCons(g, s, a, [b, c, d]);
    MovesThree(g, Move(g, s, a), b, c, d);
  }

  /** The pair with one session's place changed. */
  function Put(s: Pair, who: bool, l: Local): Pair {
    if who then s.(first := l) else s.(second := l)
  }

  function Times(n: nat, who: bool): (r: seq<bool>)
    ensures |r| == n
  {
    if n == 0 then [] else [who] + Times(n - 1, who)
  }

  lemma {:induction false} ScansPast(g: Gone, s: Pair, who: bool, i: nat, k: nat)
    requires s.Of(who).pc == Check(i) && i <= k < |s.Of(who).rec.names|
    requires forall j :: i <= j < k ==> s.Of(who).rec.names[j] !in s.at
    ensures Moves(g, s, Times(k - i, who)) == Put(s, who, Local(Check(k), s.Of(who).rec))
    decreases k - i
  {
    if i < k {
      var u := Put(s, who, Local(Check(i + 1), s.Of(who).rec));
      assert Move(g, s, who) == u;
      ScansPast(g, u, who, i + 1, k);
    }
  }

  /** Session `who` gives up its name and finds the last one recorded. */
  lemma FindsLast(g: Gone, names: set<string>, record: Record, who: bool)
    requires Proper(g, names, record) && |names| == 2
    ensures var s := Moves(g, Begin(names, record), [who, who, who]);
            s == Put(Begin(names, record).(at := map[g.Of(!who) := Marker], lock := Some(who)), who,
                     Local(Check(0), Record(1, Without(record.names, g.Of(who)))))
  {
    hide Without;
    var s0 := Begin(names, record);
    TwoNames(g, names);
    assert s0.at - {g.Of(who)} == map[g.Of(!who) := Marker];
    MovesThree(g, s0, who, who, who);
  }

  lemma GoesBack(g: Gone, s: Pair, who: bool, k: nat)
    requires s.Of(who).pc == Check(k) && k < |s.Of(who).rec.names| && s.Of(who).rec.names[k] == g.Of(!who)
    requires s.Of(!who).pc.DropName? && s.at == map[g.Of(!who) := Marker] && s.lock == Some(who)
    ensures Moves(g, s, [who, !who, who, who]) ==
            Put(Put(s.(at := map[g.Of(!who) := TheFile], stored := false, record := None), !who,
                    Local(TakeLock, s.Of(!who).rec)),
                who, Local(GiveLock, s.Of(who).rec))
  {
    hide Without, Stored;
    var other := g.Of(!who);
    var s1 := Move(g, s, who);
    var s2 := Move(g, s1, !who);
    var s3 := Move(g, s2, who);
    assert s1 == Put(s, who, Local(Restore(k), s.Of(who).rec));
    assert s2 == Put(s1.(at := s.at - {other}), !who, Local(TakeLock, s.Of(!who).rec));
    assert (s.at - {other})[other := TheFile] == map[other := TheFile];
    assert s3 == Put(s2.(at := map[other := TheFile], stored := false), who, Local(DropRecord, s.Of(who).rec));
    MovesFour(g, s, who, !who, who, who);
  }

  lemma BothLeave(g: Gone, s: Pair, who: bool)
    requires s.Of(who).pc.GiveLock? && s.Of(!who).pc.TakeLock? && s.record.None? && s.lock == Some(who)
    ensures var u := Moves(g, s, [who, !who, !who, !who]); BothDone(u) && u.at == s.at
  {
    var s1 := Move(g, s, who);
    var s2 := Move(g, s1, !who);
    var s3 := Move(g, s2, !who);
    assert s1 == Put(s.(lock := None), who, Local(Finished, s.Of(who).rec));
    assert s2.at == s.at && s2.record.None? && s2.Of(!who).pc.ReadNames? && s2.Of(who).pc.Finished?;
    assert s3.at == s.at && s3.Of(!who).pc.GiveLock? && s3.Of(who).pc.Finished?;
    MovesFour(g, s, who, !who, !who, !who);
  }

  lemma {:induction false} OnlyOne(recorded: seq<string>, n: string)
    requires n in recorded
    ensures FirstOf(recorded, n) < |recorded|
    ensures forall j :: 0 <= j < FirstOf(recorded, n) ==> recorded[j] !in map[n := Marker]
  {
  }

  /** Both unlinks succeed and one of the two names is there again, with the file. */
  lemma UnlinkedNameComesBack(g: Gone, names: set<string>, record: Record) returns (schedule: seq<bool>, back: string)
    requires Proper(g, names, record) && LastTwo(g, names, record)
    ensures BothDone(Moves(g, Begin(names, record), schedule))
    ensures back in {g.first, g.second} && Moves(g, Begin(names, record), schedule).at == map[back := TheFile]
    ensures !BothGone(g, names, Moves(g, Begin(names, record), schedule))
  {
    hide Move, Moves, Without, FirstOf;
    var who := g.second in record.names;
    back := g.Of(!who);
    var recorded := Without(record.names, g.Of(who));
    assert back in recorded;
    var k := FirstOf(recorded, back);
    var s := Begin(names, record);
    FindsLast(g, names, record, who);
    OnlyOne(recorded, back);
    var s1 := Moves(g, s, [who, who, who]);
    ScansPast(g, s1, who, 0, k);
    var s2 := Moves(g, s1, Times(k, who));
    GoesBack(g, s2, who, k);
    var s3 := Moves(g, s2, [who, !who, who, who]);
    BothLeave(g, s3, who);
    MovesConcat(g, s, [who, who, who], Times(k, who));
    MovesConcat(g, s, [who, who, who] + Times(k, who), [who, !who, who, who]);
    schedule := [who, who, who] + Times(k, who) + [who, !who, who, who] + [who, !who, !who, !who];
    MovesConcat(g, s, [who, who, who] + Times(k, who) + [who, !who, who, who], [who, !who, !who, !who]);
    assert back in Moves(g, s, schedule).at.Keys;
  }

  /** The smallest such start: a file with the names "/x" and "/y" and a record that lists them. */
  lemma SmallestComeback() returns (schedule: seq<bool>, back: string)
    ensures var g, names, record := Gone("/x", "/y"), {"/x", "/y"}, Record(2, ["/x", "/y"]);
            Proper(g, names, record) && LastTwo(g, names, record) &&
            var end := Moves(g, Begin(names, record), schedule);
            BothDone(end) && back in names && end.at == map[back := TheFile]
  {
    hide Moves, BothDone, Begin, BothGone;
    var g, names, record := Gone("/x", "/y"), {"/x", "/y"}, Record(2, ["/x", "/y"]);
    assert |names| == 2;
    assert record.names[0] == g.first;
    schedule, back := UnlinkedNameComesBack(g, names, record);
  }

  /** Two unlinks may run at once exactly where the two names are not the last ones, or the record lists
      neither. */
  lemma UnlinksAreSafeIff(g: Gone, names: set<string>, record: Record)
    requires Proper(g, names, record)
    ensures (forall schedule ::
               BothDone(Moves(g, Begin(names, record), schedule)) ==>
                   BothGone(g, names, Moves(g, Begin(names, record), schedule)))
            <==> !LastTwo(g, names, record)
  {
    hide Moves, BothGone, BothDone, Begin, Keeps;
    if LastTwo(g, names, record) {
      var schedule, _ := UnlinkedNameComesBack(g, names, record);
    } else {
      BeginKeeps(g, names, record);
      forall schedule | BothDone(Moves(g, Begin(names, record), schedule))
        ensures BothGone(g, names, Moves(g, Begin(names, record), schedule))
      {
        MovesKeep(g, names, Begin(names, record), schedule);
        DoneIsSettled(g, names, Moves(g, Begin(names, record), schedule));
      }
    }
  }
}
