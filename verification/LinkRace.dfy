/** One session links a new name to an object while another unlinks a name of it
    (src/engines/rootless/link_store.cpp, link_existing against unlink_name and release).

    Host calls are the steps; the store lock is taken and given up in steps of its own. A schedule
    says which session moves next; a session waiting for the lock does not move. */
module LinkRace {
  import opened Decimal
  import opened LinkRecord
  import opened Wrappers

  datatype Slot = Marker | TheFile

  datatype Proc = Linker | Unlinker

  /** Program counter of `link_existing`; `Undo` removes the new name again. */
  datatype LinkPc = Look | MakeName | Lock | LookAgain | Undo | ReadCount | WriteCount | Unlock(errno: int)
      | Done(errno: int)

  /** Program counter of `unlink_name`; `Check(i)` and `Restore(i)` visit the recorded names. */
  datatype UnlinkPc =
    | DropName | TakeLock | ReadNames | Check(i: nat) | Restore(i: nat) | DropRecord
    | DropObject | DropLastRecord | WriteNames | GiveLock | Finished

  datatype State = State(
    at: map<string, Slot>,     // the names of the object, and the file where it was restored
    stored: bool,              // the object is in the store
    record: Option<Record>,
    lock: Option<Proc>,
    linkPc: LinkPc,
    linkRec: Record,
    unlinkPc: UnlinkPc,
    unlinkRec: Record)

  /** The two calls: `link` to `added`, `unlink` of `gone`. */
  datatype Calls = Calls(added: string, gone: string)

  /** A record as the next reader finds it. */
  function Stored(rec: Record): Record {
    Record(rec.count, Kept(|ToDecimal(rec.count)|, rec.names))
  }

  function StepLink(c: Calls, s: State): State {
    match s.linkPc
    case Look => s.(linkPc := if s.stored then MakeName else Done(2))
    case MakeName =>
      if c.added in s.at then s.(linkPc := Done(17))
      else s.(at := s.at[c.added := Marker], linkPc := Lock)
    case Lock => if s.lock.Some? then s else s.(lock := Some(Linker), linkPc := LookAgain)
    case LookAgain => s.(linkPc := if s.stored then ReadCount else Undo)
    case Undo => s.(at := s.at - {c.added}, linkPc := Unlock(2))
    case ReadCount =>
      var rec := if s.record.Some? then s.record.value else Record(1, []);
      s.(linkRec := Record(rec.count + 1, if c.added in rec.names then rec.names else rec.names + [c.added]),
         linkPc := WriteCount)
    case WriteCount => s.(record := Some(Stored(s.linkRec)), linkPc := Unlock(0))
    case Unlock(e) => s.(lock := None, linkPc := Done(e))
    case Done(_) => s
  }

  function StepUnlink(c: Calls, s: State): State {
    match s.unlinkPc
    case DropName => s.(at := s.at - {c.gone}, unlinkPc := TakeLock)
    case TakeLock => if s.lock.Some? then s else s.(lock := Some(Unlinker), unlinkPc := ReadNames)
    case ReadNames =>
      if s.record.None? then s.(unlinkPc := GiveLock)
      else
        var rec := Record(if s.record.value.count > 0 then s.record.value.count - 1 else 0,
                          Without(s.record.value.names, c.gone));
        s.(unlinkRec := rec,
           unlinkPc := if rec.count == 0 then DropObject else if rec.count == 1 then Check(0) else WriteNames)
    case Check(i) =>
      if i >= |s.unlinkRec.names| then s.(unlinkPc := WriteNames)
      else if s.unlinkRec.names[i] in s.at && s.at[s.unlinkRec.names[i]].Marker? then s.(unlinkPc := Restore(i))
      else s.(unlinkPc := Check(i + 1))
    case Restore(i) =>
      if i < |s.unlinkRec.names| then
        s.(at := s.at[s.unlinkRec.names[i] := TheFile], stored := false, unlinkPc := DropRecord)
      else s
    case DropRecord => s.(record := None, unlinkPc := GiveLock)
    case DropObject => s.(stored := false, unlinkPc := DropLastRecord)
    case DropLastRecord => s.(record := None, unlinkPc := GiveLock)
    case WriteNames => s.(record := Some(Stored(s.unlinkRec)), unlinkPc := GiveLock)
    case GiveLock => s.(lock := None, unlinkPc := Finished)
    case Finished => s
  }

  function Step(c: Calls, s: State, who: Proc): State {
    if who.Linker? then StepLink(c, s) else StepUnlink(c, s)
  }

  function Exec(c: Calls, s: State, schedule: seq<Proc>): State
    decreases |schedule|
  {
    if schedule == [] then s else Exec(c, Step(c, s, schedule[0]), schedule[1..])
  }

  /** An object with the given names and record, before both calls. */
  function Start(names: set<string>, record: Record): State {
    State(map n | n in names :: Marker, true, Some(record), None, Look, Record(0, []), DropName, Record(0, []))
  }

  ghost predicate Sane(c: Calls, names: set<string>, record: Record) {
    c.gone in names && c.added !in names && record.count == |names| < COUNT_LIMIT - 1
  }

  /** Both calls returned. */
  predicate Over(s: State) {
    s.linkPc.Done? && s.unlinkPc.Finished?
  }

  /** The outcome a caller may rely on: the link made, or ENOENT and the new name absent; every other
      name still leads to the file; and the count is the number of names. */
  ghost predicate Good(c: Calls, names: set<string>, s: State) {
    (s.linkPc == Done(0) || s.linkPc == Done(2)) &&
    s.at.Keys == names - {c.gone} + (if s.linkPc == Done(0) then {c.added} else {}) &&
    (s.stored ==>
      (forall n :: n in s.at ==> s.at[n].Marker?) && s.record.Some? && s.record.value.count == |s.at.Keys| > 0) &&
    (!s.stored ==> s.record.None? && (s.at.Keys == {} || exists n :: s.at == map[n := TheFile]))
  }

  /** Some name in `live` is recorded before any mention of `added`. */
  predicate LiveFirst(names: seq<string>, live: set<string>, added: string) {
    names != [] && names[0] != added && (names[0] in live || LiveFirst(names[1..], live, added))
  }

  /** The one bad start: two names left, and the record already mentions the new name (it was written
      before a directory was renamed) ahead of the name that stays. */
  ghost predicate Hazard(c: Calls, names: set<string>, record: Record) {
    |names| == 2 && c.added in record.names && !LiveFirst(Without(record.names, c.gone), names - {c.gone}, c.added)
  }

  // ---- safety of every schedule ----

  /** `unlink_name` has settled the count: its record is written or the object is gone. */
  predicate Settled(s: State) {
    s.unlinkPc.GiveLock? || s.unlinkPc.Finished?
  }

  /** `link_existing` has counted its name. */
  predicate LinkCounted(s: State) {
    s.linkPc == Unlock(0) || s.linkPc == Done(0)
  }

  predicate NameMade(s: State) {
    s.linkPc in {Lock, LookAgain, Undo, ReadCount, WriteCount, Unlock(0), Done(0)}
  }

  /** The count the record should show. */
  function Expected(names: set<string>, s: State): int {
    |names| - (if Settled(s) then 1 else 0) + (if LinkCounted(s) then 1 else 0)
  }

  ghost predicate LockOk(s: State) {
    (s.lock == Some(Linker) <==> s.linkPc in {LookAgain, Undo, ReadCount, WriteCount} || s.linkPc.Unlock?) &&
    (s.lock == Some(Unlinker) <==>
      !(s.unlinkPc.DropName? || s.unlinkPc.TakeLock? || s.unlinkPc.Finished?))
  }

  predicate KeysAre(c: Calls, names: set<string>, at: map<string, Slot>, dropped: bool, made: bool) {
    at.Keys == (if dropped then names - {c.gone} else names) + (if made then {c.added} else {})
  }

  ghost predicate NamesOk(c: Calls, names: set<string>, s: State) {
    KeysAre(c, names, s.at, !s.unlinkPc.DropName?, NameMade(s))
  }

  predicate AllMarkers(at: map<string, Slot>) {
    forall n :: n in at ==> at[n].Marker?
  }

  /** While the object is in the store every name is a marker and the record is there and right. */
  ghost predicate StoredOk(names: set<string>, s: State) {
    s.stored ==> AllMarkers(s.at) && s.record.Some? && s.record.value.count == Expected(names, s) > 0
  }

  /** The file is at its only settled name, or no settled name is left. */
  ghost predicate AtRest(c: Calls, names: set<string>, at: map<string, Slot>, counted: bool) {
    var rest := names - {c.gone} + (if counted then {c.added} else {});
    rest == {} || exists n :: n in at && rest == {n} && at[n] == TheFile
  }

  ghost predicate RestoredOk(c: Calls, names: set<string>, s: State) {
    !s.stored ==>
      s.unlinkPc in {DropRecord, DropLastRecord, GiveLock, Finished} &&
      (s.unlinkPc in {GiveLock, Finished} ==> s.record.None?) &&
      AtRest(c, names, s.at, LinkCounted(s))
  }

  ghost predicate LinkOk(s: State) {
    (s.linkPc in {ReadCount, WriteCount} ==> s.stored) &&
    (s.linkPc.Undo? ==> !s.stored) &&
    (s.linkPc.WriteCount? ==> s.record.Some? && s.linkRec.count == s.record.value.count + 1) &&
    (s.linkPc.Unlock? ==> s.linkPc.errno in {0, 2}) &&
    (s.linkPc.Done? ==> s.linkPc.errno in {0, 2})
  }

  ghost predicate UnlinkOk(c: Calls, names: set<string>, s: State) {
    (s.unlinkPc.Check? || s.unlinkPc.Restore? || s.unlinkPc.WriteNames? || s.unlinkPc.DropObject? ==>
      s.stored && s.unlinkRec.count == Expected(names, s) - 1) &&
    (s.unlinkPc.Check? || s.unlinkPc.Restore? ==>
     s.unlinkRec.count == 1 && (LinkCounted(s) || ScanSafe(c, names, s.unlinkRec.names, s.unlinkPc.i))) &&
    (s.unlinkPc.WriteNames? ==> s.unlinkRec.count > 0) &&
    (s.unlinkPc.DropObject? ==> s.unlinkRec.count == 0) &&
    (s.unlinkPc.Restore? ==> s.unlinkPc.i < |s.unlinkRec.names| && s.unlinkRec.names[s.unlinkPc.i] in s.at) &&
    (s.unlinkPc.DropRecord? || s.unlinkPc.DropLastRecord? ==> !s.stored)
  }

  /** From index `i` on, the scan over recorded names cannot pick the uncounted new name. */
  ghost predicate ScanSafe(c: Calls, names: set<string>, recorded: seq<string>, i: nat) {
    i >= |recorded| || c.added !in recorded[i..] || LiveFirst(recorded[i..], names - {c.gone}, c.added)
  }

  ghost predicate Inv(c: Calls, names: set<string>, record: Record, s: State) {
    LockOk(s) && NamesOk(c, names, s) && StoredOk(names, s) && RestoredOk(c, names, s) && LinkOk(s) &&
    UnlinkOk(c, names, s) &&
    (!Settled(s) && !LinkCounted(s) && s.stored ==> s.record == Some(record))
  }

  lemma StartInv(c: Calls, names: set<string>, record: Record)
    requires Sane(c, names, record)
    ensures Inv(c, names, record, Start(names, record))
  {
    hide Without, LiveFirst, AtRest, ScanSafe;
    assert Start(names, record).at.Keys == names;
  }

  lemma LinkMakeStep(c: Calls, names: set<string>, record: Record, s: State)
    requires Sane(c, names, record) && Inv(c, names, record, s)
    requires s.linkPc.MakeName?
    ensures Inv(c, names, record, StepLink(c, s))
  {
    hide Stored, ScanSafe, KeysAre, AllMarkers, AtRest;
    if c.added !in s.at {
      MakeKeys(c, names, s.at, !s.unlinkPc.DropName?, LinkCounted(s));
    } else {
      AddedIsMade(c, names, s.at, !s.unlinkPc.DropName?);
    }
  }

  lemma MakeKeys(c: Calls, names: set<string>, at: map<string, Slot>, dropped: bool, counted: bool)
    requires KeysAre(c, names, at, dropped, false) && c.added !in at && c.added !in names && !counted
    ensures KeysAre(c, names, at[c.added := Marker], dropped, true)
    ensures AllMarkers(at) ==> AllMarkers(at[c.added := Marker])
    ensures AtRest(c, names, at, counted) ==> AtRest(c, names, at[c.added := Marker], counted)
  {
    var u := at[c.added := Marker];
    assert u.Keys == at.Keys + {c.added};
    var rest := names - {c.gone};
    if AtRest(c, names, at, counted) && rest != {} {
      var n :| n in at && rest == {n} && at[n] == TheFile;
      assert n in rest && n != c.added;
      assert u[n] == TheFile && rest + {} == rest;
    }
  }

  lemma AddedIsMade(c: Calls, names: set<string>, at: map<string, Slot>, dropped: bool)
    requires c.added !in names && KeysAre(c, names, at, dropped, false)
    ensures c.added !in at
  {
    assert c.added !in at.Keys;
  }

  lemma LinkQuietSteps(c: Calls, names: set<string>, record: Record, s: State)
    requires Inv(c, names, record, s)
    requires !s.linkPc.MakeName? && !s.linkPc.Undo? && !s.linkPc.WriteCount?
    ensures Inv(c, names, record, StepLink(c, s))
  {
    hide KeysAre, AllMarkers, AtRest, ScanSafe, Stored;
  }

  lemma LinkUndoStep(c: Calls, names: set<string>, record: Record, s: State)
    requires Sane(c, names, record) && Inv(c, names, record, s)
    requires s.linkPc.Undo?
    ensures Inv(c, names, record, StepLink(c, s))
  {
    hide Stored, ScanSafe;
    var u := StepLink(c, s);
    assert u.at.Keys == s.at.Keys - {c.added};
  }

  lemma LinkWriteStep(c: Calls, names: set<string>, record: Record, s: State)
    requires Sane(c, names, record) && Inv(c, names, record, s)
    requires s.linkPc.WriteCount?
    ensures Inv(c, names, record, StepLink(c, s))
  {
    hide KeysAre, AllMarkers, AtRest, ScanSafe, Kept, ToDecimal;
  }

  lemma DropKeys(c: Calls, names: set<string>, at: map<string, Slot>, made: bool)
    requires c.gone in names && c.gone != c.added
    requires KeysAre(c, names, at, false, made) && AllMarkers(at)
    ensures KeysAre(c, names, at - {c.gone}, true, made) && AllMarkers(at - {c.gone})
  {
    var u := at - {c.gone};
    assert u.Keys == at.Keys - {c.gone};
    assert u.Keys == names - {c.gone} + (if made then {c.added} else {});
  }

  lemma UnlinkDropStep(c: Calls, names: set<string>, record: Record, s: State)
    requires Sane(c, names, record) && Inv(c, names, record, s)
    requires s.unlinkPc.DropName?
    ensures Inv(c, names, record, StepUnlink(c, s))
  {
    hide Stored, ScanSafe, AtRest, KeysAre, AllMarkers;
    DropKeys(c, names, s.at, NameMade(s));
  }

  lemma UnlinkQuietSteps(c: Calls, names: set<string>, record: Record, s: State)
    requires Inv(c, names, record, s)
    requires s.unlinkPc in {TakeLock, DropRecord, DropLastRecord, GiveLock, Finished}
    ensures Inv(c, names, record, StepUnlink(c, s))
  {
    hide KeysAre, AllMarkers, AtRest, ScanSafe, Stored;
  }

  lemma UnlinkReadStep(c: Calls, names: set<string>, record: Record, s: State)
    requires Sane(c, names, record) && !Hazard(c, names, record) && Inv(c, names, record, s)
    requires s.unlinkPc.ReadNames?
    ensures Inv(c, names, record, StepUnlink(c, s))
  {
    hide KeysAre, AllMarkers, AtRest, LiveFirst, Stored;
    var u := StepUnlink(c, s);
    assert u.unlinkRec.names[0..] == u.unlinkRec.names;
  }

  lemma UnlinkCheckStep(c: Calls, names: set<string>, record: Record, s: State)
    requires Sane(c, names, record) && Inv(c, names, record, s)
    requires s.unlinkPc.Check?
    ensures Inv(c, names, record, StepUnlink(c, s))
  {
    hide AtRest, Stored, ScanSafe, KeysAre;
    var i := s.unlinkPc.i;
    if i < |s.unlinkRec.names| && !LinkCounted(s) {
      if s.unlinkRec.names[i] in s.at && s.at[s.unlinkRec.names[i]].Marker? {
      } else {
        ScanNext(c, names, s, i);
      }
    }
  }

  /** A name that is no marker is not among the names that stay. */
  lemma ScanNext(c: Calls, names: set<string>, s: State, i: nat)
    requires NamesOk(c, names, s) && AllMarkers(s.at) && i < |s.unlinkRec.names|
    requires ScanSafe(c, names, s.unlinkRec.names, i) && s.unlinkRec.names[i] !in s.at
    ensures ScanSafe(c, names, s.unlinkRec.names, i + 1)
  {
    var r := s.unlinkRec.names;
    assert r[i..][0] == r[i] && r[i..][1..] == r[i + 1..];
    assert r[i] !in names - {c.gone};
  }

  lemma OneLeft(names: set<string>, gone: string)
    requires gone in names
    ensures |names| == 1 ==> names - {gone} == {}
    ensures |names| == 2 ==> exists n :: names - {gone} == {n}
  {
    var rest := names - {gone};
    assert |rest| == |names| - 1;
    if |names| == 2 {
      var n :| n in rest;
      assert |rest - {n}| == 0;
      assert rest == {n};
    }
  }

  lemma UnlinkRestoreStep(c: Calls, names: set<string>, record: Record, s: State)
    requires Sane(c, names, record) && Inv(c, names, record, s)
    requires s.unlinkPc.Restore?
    ensures Inv(c, names, record, StepUnlink(c, s))
  {
    hide Stored;
    var i := s.unlinkPc.i;
    var u := StepUnlink(c, s);
    var name := s.unlinkRec.names[i];
    assert s.unlinkRec.names[i..][0] == name;
    OneLeft(names, c.gone);
    var rest := names - {c.gone} + (if LinkCounted(s) then {c.added} else {});
    assert u.at.Keys == s.at.Keys;
    if LinkCounted(s) {
      assert |names| == 1;
    } else {
      assert |names| == 2;
      assert name != c.added;
    }
    assert name in rest;
    assert rest == {name};
  }

  lemma UnlinkObjectStep(c: Calls, names: set<string>, record: Record, s: State)
    requires Sane(c, names, record) && Inv(c, names, record, s)
    requires s.unlinkPc.DropObject?
    ensures Inv(c, names, record, StepUnlink(c, s))
  {
    hide Stored, ScanSafe, KeysAre;
    OneLeft(names, c.gone);
  }

  lemma UnlinkWriteStep(c: Calls, names: set<string>, record: Record, s: State)
    requires Sane(c, names, record) && Inv(c, names, record, s)
    requires s.unlinkPc.WriteNames?
    ensures Inv(c, names, record, StepUnlink(c, s))
  {
    hide Kept, ToDecimal, ScanSafe, KeysAre, AllMarkers, AtRest;
  }

  lemma StepInv(c: Calls, names: set<string>, record: Record, s: State, who: Proc)
    requires Sane(c, names, record) && !Hazard(c, names, record) && Inv(c, names, record, s)
    ensures Inv(c, names, record, Step(c, s, who))
  {
    hide Inv, StepLink, StepUnlink, Hazard;
    if who.Linker? {
      match s.linkPc
      case MakeName => LinkMakeStep(c, names, record, s);
      case Undo => LinkUndoStep(c, names, record, s);
      case WriteCount => LinkWriteStep(c, names, record, s);
      case _ => LinkQuietSteps(c, names, record, s);
    } else {
      match s.unlinkPc
      case DropName => UnlinkDropStep(c, names, record, s);
      case ReadNames => UnlinkReadStep(c, names, record, s);
      case Check(_) => UnlinkCheckStep(c, names, record, s);
      case Restore(_) => UnlinkRestoreStep(c, names, record, s);
      case DropObject => UnlinkObjectStep(c, names, record, s);
      case WriteNames => UnlinkWriteStep(c, names, record, s);
      case _ => UnlinkQuietSteps(c, names, record, s);
    }
  }

  lemma {:induction false} ExecInv(c: Calls, names: set<string>, record: Record, s: State, schedule: seq<Proc>)
    requires Sane(c, names, record) && !Hazard(c, names, record) && Inv(c, names, record, s)
    ensures Inv(c, names, record, Exec(c, s, schedule))
    decreases |schedule|
  {
    hide Inv, Step, Hazard;
    if schedule != [] {
      StepInv(c, names, record, s, schedule[0]);
      ExecInv(c, names, record, Step(c, s, schedule[0]), schedule[1..]);
    }
  }

  lemma LinkEnds(s: State)
    requires LinkOk(s) && s.linkPc.Done?
    ensures s.linkPc.errno in {0, 2}
  {
  }

  lemma OverIsGood(c: Calls, names: set<string>, record: Record, s: State)
    requires Sane(c, names, record) && Inv(c, names, record, s) && Over(s)
    ensures Good(c, names, s)
  {
    hide Kept, ToDecimal, LiveFirst, LinkOk, UnlinkOk, LockOk, StoredOk, RestoredOk;
    LinkEnds(s);
    assert s.at.Keys == names - {c.gone} + (if s.linkPc == Done(0) then {c.added} else {});
    if s.stored {
      OverStored(c, names, s);
    } else {
      OverRestored(c, names, s);
    }
  }

  lemma OverStored(c: Calls, names: set<string>, s: State)
    requires c.gone in names && c.added !in names && NamesOk(c, names, s) && StoredOk(names, s) && Over(s) && s.stored
    requires s.linkPc.errno in {0, 2}
    ensures AllMarkers(s.at) && s.record.Some? && s.record.value.count == |s.at.Keys| > 0
  {
    var rest := names - {c.gone};
    assert |rest| == |names| - 1;
    assert s.at.Keys == rest + (if LinkCounted(s) then {c.added} else {});
  }

  lemma OverRestored(c: Calls, names: set<string>, s: State)
    requires NamesOk(c, names, s) && RestoredOk(c, names, s) && Over(s) && !s.stored && s.linkPc.errno in {0, 2}
    ensures s.record.None? && (s.at.Keys == {} || exists n :: s.at == map[n := TheFile])
  {
    assert s.at.Keys == names - {c.gone} + (if LinkCounted(s) then {c.added} else {});
    if s.at.Keys != {} {
      var n :| n in s.at && s.at.Keys == {n} && s.at[n] == TheFile;
      assert s.at == map[n := TheFile];
    }
  }

  /** Whenever both calls have returned, whatever the schedule, the outcome is good. */
  lemma EveryScheduleGood(c: Calls, names: set<string>, record: Record, schedule: seq<Proc>)
    requires Sane(c, names, record) && !Hazard(c, names, record)
    requires Over(Exec(c, Start(names, record), schedule))
    ensures Good(c, names, Exec(c, Start(names, record), schedule))
  {
    hide Exec, Good, Inv, Hazard;
    StartInv(c, names, record);
    ExecInv(c, names, record, Start(names, record), schedule);
    OverIsGood(c, names, record, Exec(c, Start(names, record), schedule));
  }

  // ---- the schedule that loses the file ----

  lemma {:induction false} ExecConcat(c: Calls, s: State, a: seq<Proc>, b: seq<Proc>)
    ensures Exec(c, s, a + b) == Exec(c, Exec(c, s, a), b)
    decreases |a|
  {
    hide Step;
    if a == [] {
      assert a + b == b;
    } else {
      ExecConcat(c, Step(c, s, a[0]), a[1..], b);
      assert (a + b)[0] == a[0] && (a + b)[1..] == a[1..] + b;
    }
  }

  /** First mention of the new name. */
  function FirstOf(names: seq<string>, n: string): (i: nat)
    requires n in names
    ensures i < |names| && names[i] == n && forall j :: 0 <= j < i ==> names[j] != n
  {
    if names[0] == n then 0 else 1 + FirstOf(names[1..], n)
  }

  lemma {:induction false} NoLiveBefore(names: seq<string>, live: set<string>, added: string, j: nat)
    requires added in names && !LiveFirst(names, live, added) && j < FirstOf(names, added)
    ensures names[j] !in live
    decreases |names|
  {
    if j > 0 {
      NoLiveBefore(names[1..], live, added, j - 1);
    }
  }

  function Repeat(n: nat, who: Proc): (r: seq<Proc>)
    ensures |r| == n
  {
    if n == 0 then [] else [who] + Repeat(n - 1, who)
  }

  /** The scan walks past recorded names that are no markers. */
  lemma {:induction false} ScanPast(c: Calls, s: State, i: nat, k: nat)
    requires s.unlinkPc == Check(i) && i <= k < |s.unlinkRec.names|
    requires forall j :: i <= j < k ==> s.unlinkRec.names[j] !in s.at
    ensures Exec(c, s, Repeat(k - i, Unlinker)) == s.(unlinkPc := Check(k))
    decreases k - i
  {
    if i < k {
      ScanPast(c, s.(unlinkPc := Check(i + 1)), i + 1, k);
    }
  }

  lemma HazardBefore(c: Calls, names: set<string>, record: Record)
    requires Sane(c, names, record) && Hazard(c, names, record)
    ensures var s := Exec(c, Start(names, record), [Linker, Linker, Unlinker, Unlinker, Unlinker]);
            s == State((map n | n in names - {c.gone} + {c.added} :: Marker), true, Some(record), Some(Unlinker), Lock,
                       Record(0, []), Check(0), Record(1, Without(record.names, c.gone)))
  {
    hide LiveFirst, Without;
    var s0 := Start(names, record);
    var s1 := Step(c, s0, Linker);
    var s2 := Step(c, s1, Linker);
    var s3 := Step(c, s2, Unlinker);
    var s4 := Step(c, s3, Unlinker);
    var s5 := Step(c, s4, Unlinker);
    assert s3.at == map n | n in names - {c.gone} + {c.added} :: Marker;
    ExecFive(c, s0, Linker, Linker, Unlinker, Unlinker, Unlinker);
  }

  lemma ExecFive(c: Calls, s: State, a: Proc, b: Proc, d: Proc, e: Proc, f: Proc)
    ensures Exec(c, s, [a, b, d, e, f]) == Step(c, Step(c, Step(c, Step(c, Step(c, s, a), b), d), e), f)
  {
    hide Step;
    ExecCons(c, s, a, [b, d, e, f]);
    ExecCons(c, Step(c, s, a), b, [d, e, f]);
    ExecCons(c, Step(c, Step(c, s, a), b), d, [e, f]);
    ExecCons(c, Step(c, Step(c, Step(c, s, a), b), d), e, [f]);
    ExecCons(c, Step(c, Step(c, Step(c, Step(c, s, a), b), d), e), f, []);
  }

  lemma ExecCons(c: Calls, s: State, a: Proc, rest: seq<Proc>)
    ensures Exec(c, s, [a] + rest) == Exec(c, Step(c, s, a), rest)
  {
    hide Step;
    assert ([a] + rest)[1..] == rest;
  }

  lemma ExecFour(c: Calls, s: State, who: Proc)
    ensures Exec(c, s, [who, who, who, who]) == Step(c, Step(c, Step(c, Step(c, s, who), who), who), who)
  {
    hide Step;
    ExecCons(c, s, who, [who, who, who]);
    ExecCons(c, Step(c, s, who), who, [who, who]);
    ExecCons(c, Step(c, Step(c, s, who), who), who, [who]);
    ExecCons(c, Step(c, Step(c, Step(c, s, who), who), who), who, []);
  }

  /** The scan reaches the stale mention of the new name and restores the file there. */
  lemma HazardRestores(c: Calls, s: State, k: nat)
    requires s.unlinkPc == Check(k) && k < |s.unlinkRec.names| && s.unlinkRec.names[k] == c.added
    requires c.added in s.at && s.at[c.added] == Marker
    ensures Exec(c, s, [Unlinker, Unlinker, Unlinker, Unlinker]) ==
            s.(at := s.at[c.added := TheFile], stored := false, record := None, lock := None, unlinkPc := Finished)
  {
    ExecFour(c, s, Unlinker);
  }

  /** `link_existing` finds the object gone and removes the name, which is the file by now. */
  lemma HazardUndoes(c: Calls, s: State)
    requires s.linkPc.Lock? && s.lock.None? && !s.stored
    ensures Exec(c, s, [Linker, Linker, Linker, Linker]) == s.(at := s.at - {c.added}, linkPc := Done(2))
  {
    ExecFour(c, s, Linker);
  }

  lemma DanglingIsNotGood(c: Calls, names: set<string>, u: State, n: string)
    requires !u.stored && n in u.at && u.at[n] == Marker
    ensures !Good(c, names, u)
  {
  }

  lemma HazardMentions(c: Calls, names: set<string>, record: Record)
    requires Sane(c, names, record) && Hazard(c, names, record)
    ensures var recorded := Without(record.names, c.gone);
            c.added in recorded && !LiveFirst(recorded, names - {c.gone}, c.added)
  {
  }

  /** The scan up to the first mention of the new name. */
  lemma HazardScans(c: Calls, names: set<string>, record: Record)
    requires Sane(c, names, record) && Hazard(c, names, record)
    ensures c.added in Without(record.names, c.gone)
    ensures var recorded := Without(record.names, c.gone);
            var k := FirstOf(recorded, c.added);
            Exec(c, Start(names, record), [Linker, Linker, Unlinker, Unlinker, Unlinker] + Repeat(k, Unlinker)) ==
            State((map n | n in names - {c.gone} + {c.added} :: Marker), true, Some(record), Some(Unlinker), Lock,
                  Record(0, []), Check(k), Record(1, recorded))
  {
    hide StepLink, StepUnlink, LiveFirst, Exec, Start, Without, FirstOf, Repeat, Hazard, Sane;
    var recorded := Without(record.names, c.gone);
    HazardMentions(c, names, record);
    var k := FirstOf(recorded, c.added);
    HazardBefore(c, names, record);
    var s := Exec(c, Start(names, record), [Linker, Linker, Unlinker, Unlinker, Unlinker]);
    forall j | 0 <= j < k ensures recorded[j] !in s.at {
      NoLiveBefore(recorded, names - {c.gone}, c.added, j);
    }
    ScanPast(c, s, 0, k);
    ExecConcat(c, Start(names, record), [Linker, Linker, Unlinker, Unlinker, Unlinker], Repeat(k, Unlinker));
  }

  /** In the one bad start some schedule ends with a name that leads nowhere: the file is gone. */
  lemma HazardLosesFile(c: Calls, names: set<string>, record: Record) returns (schedule: seq<Proc>)
    requires Sane(c, names, record) && Hazard(c, names, record)
    ensures Over(Exec(c, Start(names, record), schedule))
    ensures !Good(c, names, Exec(c, Start(names, record), schedule))
  {
    hide StepLink, StepUnlink, LiveFirst, Exec, Start, Good;
    HazardScans(c, names, record);
    var k := FirstOf(Without(record.names, c.gone), c.added);
    var head := [Linker, Linker, Unlinker, Unlinker, Unlinker] + Repeat(k, Unlinker);
    var four, rest := [Unlinker, Unlinker, Unlinker, Unlinker], [Linker, Linker, Linker, Linker];
    schedule := head + four + rest;
    ExecConcat(c, Start(names, record), head, four);
    ExecConcat(c, Start(names, record), head + four, rest);
    var m := Exec(c, Start(names, record), head);
    HazardRestores(c, m, k);
    HazardUndoes(c, Exec(c, m, four));
    OneLeft(names, c.gone);
    var n :| names - {c.gone} == {n};
    assert n in names - {c.gone} && n != c.added;
    DanglingIsNotGood(c, names, Exec(c, Start(names, record), schedule), n);
  }

  /** A link and an unlink may run at once exactly when the start is not the bad one. */
  lemma RaceIsSafeIff(c: Calls, names: set<string>, record: Record)
    requires Sane(c, names, record)
    ensures (forall schedule ::
               Over(Exec(c, Start(names, record), schedule)) ==>
                   Good(c, names, Exec(c, Start(names, record), schedule)))
            <==> !Hazard(c, names, record)
  {
    hide Exec, Good, Hazard, Over, Start;
    if Hazard(c, names, record) {
      var schedule := HazardLosesFile(c, names, record);
    } else {
      forall schedule | Over(Exec(c, Start(names, record), schedule))
        ensures Good(c, names, Exec(c, Start(names, record), schedule))
      {
        EveryScheduleGood(c, names, record, schedule);
      }
    }
  }

  /** A record that lists exactly the current names is never the bad start. */
  lemma ExactRecordIsSafe(c: Calls, names: set<string>, record: Record, schedule: seq<Proc>)
    requires Sane(c, names, record) && (forall n :: n in record.names <==> n in names)
    requires Over(Exec(c, Start(names, record), schedule))
    ensures Good(c, names, Exec(c, Start(names, record), schedule))
  {
    hide Exec, Good, Over, Start;
    EveryScheduleGood(c, names, record, schedule);
  }
}
