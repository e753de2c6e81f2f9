/** The race of module LinkRace where a session cannot open the store lock and goes on without it
    (src/engines/rootless/link_store.cpp, StoreLock). */
module UnlockedRace {
  import opened Decimal
  import opened LinkRace
  import opened LinkRecord
  import opened Wrappers

  /** Which of the two sessions can open the lock. */
  datatype Locks = Locks(linker: bool, unlinker: bool)

  /** A step; a session without the lock neither waits for it nor holds it. */
  function StepWith(k: Locks, c: Calls, s: State, who: Proc): State {
    if who.Linker? && !k.linker && s.linkPc.Lock? then s.(linkPc := LookAgain)
    else if who.Linker? && !k.linker && s.linkPc.Unlock? then s.(linkPc := LinkPc.Done(s.linkPc.errno))
    else if who.Unlinker? && !k.unlinker && s.unlinkPc.TakeLock? then s.(unlinkPc := ReadNames)
    else if who.Unlinker? && !k.unlinker && s.unlinkPc.GiveLock? then s.(unlinkPc := Finished)
    else Step(c, s, who)
  }

  function ExecWith(k: Locks, c: Calls, s: State, schedule: seq<Proc>): State
    decreases |schedule|
  {
    if schedule == [] then s else ExecWith(k, c, StepWith(k, c, s, schedule[0]), schedule[1..])
  }

  lemma {:induction false} BothLock(c: Calls, s: State, schedule: seq<Proc>)
    ensures ExecWith(Locks(true, true), c, s, schedule) == Exec(c, s, schedule)
    decreases |schedule|
  {
    hide Step;
    if schedule != [] {
      BothLock(c, Step(c, s, schedule[0]), schedule[1..]);
    }
  }

  lemma {:induction false} WithConcat(k: Locks, c: Calls, s: State, a: seq<Proc>, b: seq<Proc>)
    ensures ExecWith(k, c, s, a + b) == ExecWith(k, c, ExecWith(k, c, s, a), b)
    decreases |a|
  {
    hide StepWith;
    if a == [] {
      assert a + b == b;
    } else {
      WithConcat(k, c, StepWith(k, c, s, a[0]), a[1..], b);
      assert (a + b)[0] == a[0] && (a + b)[1..] == a[1..] + b;
    }
  }

  lemma WithCons(k: Locks, c: Calls, s: State, who: Proc, rest: seq<Proc>)
    ensures ExecWith(k, c, s, [who] + rest) == ExecWith(k, c, StepWith(k, c, s, who), rest)
  {
    hide StepWith;
    assert ([who] + rest)[1..] == rest;
  }

  // ---- the schedule that miscounts ----

  /** The session that unlinks can move: nothing it waits for is held. */
  predicate Free(k: Locks, s: State) {
    k.unlinker ==> s.lock.None? || s.lock == Some(Unlinker)
  }

  predicate Underway(c: Calls, keys: set<string>, s: State) {
    (if s.unlinkPc.DropName? then s.at.Keys - {c.gone} else s.at.Keys) == keys &&
    (s.unlinkPc.Restore? ==> s.unlinkPc.i < |s.unlinkRec.names| && s.unlinkRec.names[s.unlinkPc.i] in s.at)
  }

  function Stage(pc: UnlinkPc): nat {
    match pc
    case DropName => 9
    case TakeLock => 8
    case ReadNames => 7
    case Check(_) => 6
    case Restore(_) => 5
    case WriteNames => 4
    case DropObject => 4
    case DropRecord => 3
    case DropLastRecord => 3
    case GiveLock => 2
    case Finished => 0
  }

  function ToScan(s: State): nat {
    if s.unlinkPc.Check? && s.unlinkPc.i <= |s.unlinkRec.names| then |s.unlinkRec.names| - s.unlinkPc.i else 0
  }

  /** What a move of the unlinking session leaves of the names. */
  lemma UnlinkerKeeps(k: Locks, c: Calls, keys: set<string>, s: State)
    requires Free(k, s) && Underway(c, keys, s) && !s.unlinkPc.Finished?
    requires s.unlinkPc.TakeLock? && k.unlinker ==> s.lock.None?
    ensures var u := StepWith(k, c, s, Unlinker);
            Free(k, u) && Underway(c, keys, u) && u.linkPc == s.linkPc && u.linkRec == s.linkRec
  {
    hide Without, Stored;
    var u := StepWith(k, c, s, Unlinker);
    if s.unlinkPc.DropName? {
      assert u.at.Keys == s.at.Keys - {c.gone};
    } else if s.unlinkPc.Restore? {
      assert u.at.Keys == s.at.Keys;
    }
  }

  lemma UnlinkerMoves(k: Locks, c: Calls, keys: set<string>, s: State)
    requires Free(k, s) && Underway(c, keys, s) && !s.unlinkPc.Finished?
    requires s.unlinkPc.TakeLock? && k.unlinker ==> s.lock.None?
    ensures var u := StepWith(k, c, s, Unlinker);
            Free(k, u) && Underway(c, keys, u) && u.linkPc == s.linkPc && u.linkRec == s.linkRec &&
            (u.unlinkPc.TakeLock? && k.unlinker ==> s.unlinkPc.DropName? && u.lock == s.lock) &&
            !u.unlinkPc.DropName? &&
            (Stage(u.unlinkPc) < Stage(s.unlinkPc) || (Stage(u.unlinkPc) == Stage(s.unlinkPc) && ToScan(u) < ToScan(s)))
  {
    hide Without, Stored;
    UnlinkerKeeps(k, c, keys, s);
    hide Underway;
    assert s.unlinkPc.Restore? ==> s.unlinkPc.i < |s.unlinkRec.names| by { RestorePlace(c, keys, s); }
  }

  lemma RestorePlace(c: Calls, keys: set<string>, s: State)
    requires Underway(c, keys, s)
    ensures s.unlinkPc.Restore? ==> s.unlinkPc.i < |s.unlinkRec.names|
  {
  }

  /** Left to itself the unlinking session returns, and what it leaves are the names it should. */
  lemma {:induction false} UnlinkerReturns(k: Locks, c: Calls, keys: set<string>, s: State)
    returns (schedule: seq<Proc>)
    requires Free(k, s) && Underway(c, keys, s)
    requires (s.unlinkPc.DropName? || s.unlinkPc.TakeLock?) && k.unlinker ==> s.lock.None?
    ensures var u := ExecWith(k, c, s, schedule);
            u.unlinkPc.Finished? && u.at.Keys == keys && u.linkPc == s.linkPc && u.linkRec == s.linkRec
    decreases Stage(s.unlinkPc), ToScan(s)
  {
    hide StepWith, Stage, ToScan, Free;
    if s.unlinkPc.Finished? {
      schedule := [];
    } else {
      UnlinkerMoves(k, c, keys, s);
      var rest := UnlinkerReturns(k, c, keys, StepWith(k, c, s, Unlinker));
      schedule := [Unlinker] + rest;
      WithCons(k, c, s, Unlinker, rest);
    }
  }

  /** The linking session has read the count and not written it back yet. */
  function HasRead(k: Locks, c: Calls, names: set<string>, record: Record): State {
    Start(names, record).(
      at := (map n | n in names :: Marker)[c.added := Marker],
      lock := if k.linker then Some(Linker) else None,
      linkPc := WriteCount,
      linkRec := Record(record.count + 1, if c.added in record.names then record.names else record.names + [c.added]))
  }

  lemma LinkerReads(k: Locks, c: Calls, names: set<string>, record: Record)
    requires Sane(c, names, record)
    ensures ExecWith(k, c, Start(names, record), [Linker, Linker, Linker, Linker, Linker]) ==
            HasRead(k, c, names, record)
  {
    var s0 := Start(names, record);
    var s1 := StepWith(k, c, s0, Linker);
    var s2 := StepWith(k, c, s1, Linker);
    var s3 := StepWith(k, c, s2, Linker);
    var s4 := StepWith(k, c, s3, Linker);
    var s5 := StepWith(k, c, s4, Linker);
    assert s5 == HasRead(k, c, names, record);
    FiveLinks(k, c, s0);
  }

  lemma FiveLinks(k: Locks, c: Calls, s: State)
    ensures ExecWith(k, c, s, [Linker, Linker, Linker, Linker, Linker]) ==
            StepWith(k, c, StepWith(k, c, StepWith(k, c, StepWith(k, c, StepWith(k, c, s, Linker), Linker), Linker),
                                    Linker), Linker)
  {
    hide StepWith;
    var s1 := StepWith(k, c, s, Linker);
    var s2 := StepWith(k, c, s1, Linker);
    var s3 := StepWith(k, c, s2, Linker);
    var s4 := StepWith(k, c, s3, Linker);
    WithCons(k, c, s, Linker, [Linker, Linker, Linker, Linker]);
    WithCons(k, c, s1, Linker, [Linker, Linker, Linker]);
    WithCons(k, c, s2, Linker, [Linker, Linker]);
    WithCons(k, c, s3, Linker, [Linker]);
    WithCons(k, c, s4, Linker, []);
  }

  lemma LinkerWrites(k: Locks, c: Calls, s: State)
    requires s.linkPc.WriteCount?
    ensures var u := ExecWith(k, c, s, [Linker, Linker]);
            u.at == s.at && u.stored == s.stored && u.unlinkPc == s.unlinkPc &&
            u.record == Some(Stored(s.linkRec)) && u.linkPc == LinkPc.Done(0)
  {
    hide Stored;
    WithCons(k, c, s, Linker, [Linker]);
    WithCons(k, c, StepWith(k, c, s, Linker), Linker, []);
  }

  /** Whatever the start, unless both sessions hold the lock: the count read before the unlink is written
      after it, and is one too high, or stands for an object that is gone. */
  lemma UnlockedMiscounts(k: Locks, c: Calls, names: set<string>, record: Record) returns (schedule: seq<Proc>)
    requires Sane(c, names, record) && !(k.linker && k.unlinker)
    ensures var end := ExecWith(k, c, Start(names, record), schedule);
            Over(end) && !Good(c, names, end) &&
            end.record.Some? && end.record.value.count == |end.at.Keys| + 1
  {
    hide StepWith, ExecWith, Start, Kept, ToDecimal;
    var five, two := [Linker, Linker, Linker, Linker, Linker], [Linker, Linker];
    LinkerReads(k, c, names, record);
    var s := HasRead(k, c, names, record);
    var keys := names + {c.added} - {c.gone};
    ReadKeys(k, c, names, record);
    var rest := UnlinkerReturns(k, c, keys, s);
    var u := ExecWith(k, c, s, rest);
    LinkerWrites(k, c, u);
    schedule := five + rest + two;
    WithConcat(k, c, Start(names, record), five, rest);
    WithConcat(k, c, Start(names, record), five + rest, two);
    var end := ExecWith(k, c, Start(names, record), schedule);
    assert end.record == Some(Stored(s.linkRec));
    assert |keys| == |names|;
  }

  lemma ReadKeys(k: Locks, c: Calls, names: set<string>, record: Record)
    requires Sane(c, names, record) && !(k.linker && k.unlinker)
    ensures var s := HasRead(k, c, names, record);
            Free(k, s) && Underway(c, names + {c.added} - {c.gone}, s) && s.unlinkPc.DropName? &&
            s.linkPc.WriteCount? &&
            (k.unlinker ==> s.lock.None?) && s.linkRec.count == |names| + 1
    ensures |names + {c.added} - {c.gone}| == |names|
  {
    assert HasRead(k, c, names, record).at.Keys == names + {c.added};
    assert |names + {c.added}| == |names| + 1;
  }

  /** A link and an unlink may run at once exactly when both sessions can lock the store and the start is not
      the bad one. */
  lemma SafeIffLocked(k: Locks, c: Calls, names: set<string>, record: Record)
    requires Sane(c, names, record)
    ensures (forall schedule ::
               Over(ExecWith(k, c, Start(names, record), schedule)) ==>
                   Good(c, names, ExecWith(k, c, Start(names, record), schedule)))
            <==> k.linker && k.unlinker && !Hazard(c, names, record)
  {
    hide ExecWith, Exec, Good, Over, Start, Hazard;
    if k.linker && k.unlinker {
      assert k == Locks(true, true);
      if Hazard(c, names, record) {
        var schedule := HazardLosesFile(c, names, record);
        BothLock(c, Start(names, record), schedule);
      } else {
        forall schedule | Over(ExecWith(k, c, Start(names, record), schedule))
          ensures Good(c, names, ExecWith(k, c, Start(names, record), schedule))
        {
          BothLock(c, Start(names, record), schedule);
          EveryScheduleGood(c, names, record, schedule);
        }
      }
    } else {
      var schedule := UnlockedMiscounts(k, c, names, record);
    }
  }
}
