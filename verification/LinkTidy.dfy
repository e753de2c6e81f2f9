/** Why emulated hard links go away again (src/engines/rootless/link_store.cpp): while every record lists the
    names its object has, a file that is left with one name is a plain file again. */
module LinkTidy {
  import opened Decimal
  import opened HardLinkSpec
  import opened LinkMarker
  import opened LinkRecord
  import opened LinkStores
  import opened LinkView

  ghost predicate NoRepeats(names: seq<string>) {
    forall i, j :: 0 <= i < j < |names| ==> names[i] != names[j]
  }

  /** The record of an object lists each of these names once, and nothing else. */
  ghost predicate Lists(root: string, t: Tree, id: string, names: set<string>) {
    var r := RecordPath(root, id);
    r in t && t[r].Sym? && |t[r].text| <= RECORD_MAX && NoRepeats(Parse(t[r].text).names) &&
    forall n :: n in Parse(t[r].text).names <==> n in names
  }

  /** An object has at least two names, and its record lists them. */
  ghost predicate TidyAt(root: string, t: Tree, id: string) {
    ObjectPath(root, id) in t ==> |Names(root, t, id)| >= 2 && Lists(root, t, id, Names(root, t, id))
  }

  ghost predicate Tidy(root: string, t: Tree) {
    forall id :: IsLinkId(id) ==> TidyAt(root, t, id)
  }

  // ---- names a record has room for ----

  /** What the names take up in a record, a line break before each. */
  ghost function Chars(names: set<string>): nat {
    if names == {} then 0 else var n :| n in names; 1 + |n| + Chars(names - {n})
  }

  /** The names have room in a record and none of them contains a line break. */
  ghost predicate HaveRoom(names: set<string>) {
    (forall n :: n in names ==> '\n' !in n) && |ToDecimal(|names|)| + Chars(names) <= RECORD_MAX
  }

  ghost function NamesOf(v: Files, ino: nat): set<string> {
    set p | p in v && v[p] == Regular(ino)
  }

  /** Every file with more than one name has names that fit a record. */
  ghost predicate Recordable(v: Files) {
    forall ino :: |NamesOf(v, ino)| >= 2 ==> HaveRoom(NamesOf(v, ino))
  }

  lemma {:induction false} CharsWithout(names: set<string>, n: string)
    requires n in names
    ensures Chars(names) == 1 + |n| + Chars(names - {n})
    decreases |names|
  {
    var m :| m in names && Chars(names) == 1 + |m| + Chars(names - {m});
    if m != n {
      CharsWithout(names - {m}, n);
      CharsWithout(names - {n}, m);
      assert names - {m} - {n} == names - {n} - {m};
    }
  }

  lemma {:induction false} LinedChars(list: seq<string>, names: set<string>)
    requires NoRepeats(list) && forall n :: n in list <==> n in names
    ensures |Lined(list)| == Chars(names) && |list| == |names|
    decreases |list|
  {
    if list == [] {
      assert names == {};
    } else {
      var rest := names - {list[0]};
      assert list[0] in list && list[0] in names;
      forall n ensures n in list[1..] <==> n in rest {
        if n in list[1..] {
          assert n in list;
        }
        if n in rest {
          assert n in list;
        }
      }
      LinedChars(list[1..], rest);
      CharsWithout(names, list[0]);
    }
  }

  /** A record written with its names is read back with them. */
  lemma WrittenLists(root: string, t: Tree, id: string, rec: Record, names: set<string>)
    requires RecordPath(root, id) in t && t[RecordPath(root, id)] == Sym(Text(rec))
    requires NoRepeats(rec.names) && (forall n :: n in rec.names <==> n in names) && "" !in names
    requires HaveRoom(names) && rec.count == |names| && 0 < rec.count < COUNT_LIMIT
    ensures Lists(root, t, id, names)
  {
    hide RecordPath, Parse, Text, ToDecimal, Kept, Lined, Chars;
    RecordRoundTrip(rec);
    LinedChars(rec.names, names);
    KeptAll(|ToDecimal(rec.count)|, rec.names);
  }

  // ---- what a change of the tree leaves alone ----

  /** Names, objects and records are the same in both trees, but for the objects `ids`. */
  ghost predicate SameBut(root: string, t: Tree, u: Tree, ids: set<string>) {
    forall k :: IsLinkId(k) && k !in ids ==>
      Names(root, u, k) == Names(root, t, k) && (ObjectPath(root, k) in t <==> ObjectPath(root, k) in u) &&
      (RecordPath(root, k) in t <==> RecordPath(root, k) in u) &&
      (RecordPath(root, k) in t ==> t[RecordPath(root, k)] == u[RecordPath(root, k)])
  }

  lemma SameTidy(root: string, t: Tree, u: Tree, ids: set<string>)
    requires SameBut(root, t, u, ids)
    ensures forall k :: IsLinkId(k) && k !in ids ==> (TidyAt(root, u, k) <==> TidyAt(root, t, k))
  {
    hide IsLinkId, Names, ObjectPath, RecordPath, Parse, NoRepeats;
  }

  lemma SameLists(root: string, t: Tree, u: Tree, ids: set<string>, k: string, names: set<string>)
    requires SameBut(root, t, u, ids) && IsLinkId(k) && k !in ids && Lists(root, t, k, names)
    ensures Lists(root, u, k, names) && Names(root, u, k) == Names(root, t, k)
  {
    hide IsLinkId, Names, ObjectPath, RecordPath, Parse, NoRepeats;
  }

  lemma SameTwice(root: string, t: Tree, u: Tree, v: Tree, ids: set<string>, more: set<string>)
    requires SameBut(root, t, u, ids) && SameBut(root, u, v, more)
    ensures SameBut(root, t, v, ids + more)
  {
    hide IsLinkId, Names, ObjectPath, RecordPath;
  }

  /** Changes outside the store, and the names that follow from them. */
  lemma SameOutside(root: string, t: Tree, u: Tree, ids: set<string>)
    requires forall p :: InStore(root, p) ==> (p in t <==> p in u) && (p in t ==> t[p] == u[p])
    requires forall k :: IsLinkId(k) && k !in ids ==> Names(root, u, k) == Names(root, t, k)
    ensures SameBut(root, t, u, ids)
    ensures forall k, names :: IsLinkId(k) && Lists(root, t, k, names) ==> Lists(root, u, k, names)
    ensures forall k :: IsLinkId(k) ==> (ObjectPath(root, k) in t <==> ObjectPath(root, k) in u)
  {
    hide IsLinkId, Names, ObjectPath, RecordPath, InStore, Parse, NoRepeats;
    forall k | IsLinkId(k) ensures InStore(root, ObjectPath(root, k)) && InStore(root, RecordPath(root, k)) {
      StorePaths(root, k);
    }
  }

  /** Changes of the store directory and its lock only. */
  lemma SameStoreOnly(root: string, t: Tree, u: Tree)
    requires StoreOnly(root, t, u)
    ensures SameBut(root, t, u, {})
  {
    hide IsLinkId, Names, ObjectPath, RecordPath, StorePath, LockPath, InStore;
    var own := {StorePath(root), LockPath(root)};
    StoreEntryPath(root, StorePath(root));
    StoreEntryPath(root, LockPath(root));
    forall p | p !in own ensures (p in t <==> p in u) && (p in t ==> t[p] == u[p]) {
      assert p in t - own <==> p in t;
      assert p in u - own <==> p in u;
    }
    forall k | IsLinkId(k)
      ensures Names(root, u, k) == Names(root, t, k)
      ensures ObjectPath(root, k) !in own && RecordPath(root, k) !in own
    {
      StorePaths(root, k);
      NamesAgree(root, t, u, k);
    }
  }

  /** A new record changes nothing but that record. */
  lemma SameRecord(root: string, t: Tree, id: string, node: Node)
    requires IsLinkId(id)
    ensures var u := t[RecordPath(root, id) := node];
            SameBut(root, t, u, {id}) && Names(root, u, id) == Names(root, t, id) &&
            (ObjectPath(root, id) in u <==> ObjectPath(root, id) in t)
  {
    hide IsLinkId, Names, ObjectPath, RecordPath, InStore;
    var u := t[RecordPath(root, id) := node];
    StorePaths(root, id);
    forall k ensures Names(root, u, k) == Names(root, t, k) {
      NamesAgree(root, t, u, k);
    }
    forall k | IsLinkId(k)
      ensures ObjectPath(root, k) != RecordPath(root, id) && (k != id ==> RecordPath(root, k) != RecordPath(root, id))
    {
      PathsInjective(root, k, id);
    }
  }

  /** The guest's names of a file are the names of its object. */
  lemma NamesInView(root: string, t: Tree, open: string, id: string)
    requires InvOpen(root, t, open) && IsLinkId(id) && ObjectPath(root, id) in t && t[ObjectPath(root, id)].File?
    ensures NamesOf(View(root, t), t[ObjectPath(root, id)].ino) == Names(root, t, id)
  {
    hide StorePath, ObjectPath, RecordPath, LinkTargetId, IsLinkId, InStore, Parse, Counted, Sizes, RecordsOwned;
    EmptyIsNoId();
    var o := ObjectPath(root, id);
    StorePaths(root, id);
    forall p | p in t && !InStore(root, p)
      ensures ReadEntry(root, t, p) == Regular(t[o].ino) <==> EntryId(t, p) == id
    {
      EntryIdIsLinkId(t, p);
      if EntryId(t, p) != "" {
        PathsInjective(root, EntryId(t, p), id);
        assert ObjectShape(root, t, EntryId(t, p));
      }
    }
  }

  lemma RoomForNames(root: string, t: Tree, open: string, id: string)
    requires InvOpen(root, t, open) && IsLinkId(id) && ObjectPath(root, id) in t && Recordable(View(root, t))
    ensures |Names(root, t, id)| >= 2 ==> HaveRoom(Names(root, t, id))
  {
    hide StorePath, ObjectPath, LinkTargetId, IsLinkId, Parse, View, HaveRoom, NamesOf, InStore;
    assert ObjectShape(root, t, id);
    NamesInView(root, t, open, id);
  }

  // ---- what each operation does ----

  /** link(2) from a plain file. */
  lemma LinkedTidy(root: string, t: Tree, id: string, old_: string, new_: string)
    requires Inv(root, t) && IsLinkId(id) && ObjectPath(root, id) !in t
    requires old_ in t && t[old_].File? && new_ !in t && old_ != "" && new_ != ""
    requires !InStore(root, old_) && !InStore(root, new_)
    requires |TargetFor(root, old_, id)| <= RECORD_MAX && |TargetFor(root, new_, id)| <= RECORD_MAX
    requires HaveRoom({old_, new_})
    ensures var u := Linked(root, t, id, old_, new_, Text(Record(2, [old_, new_])));
            SameBut(root, t, u, {id}) && TidyAt(root, u, id)
  {
    hide LinkTargetId, IsLinkId, StorePath, ObjectPath, RecordPath, InStore, Parse, TargetFor, Names, Text, View,
         HaveRoom, AsObject, InvOpen, Lists, SameBut;
    var m1, m2, rec := TargetFor(root, old_, id), TargetFor(root, new_, id), Record(2, [old_, new_]);
    TargetForMarks(root, old_, id);
    TargetForMarks(root, new_, id);
    RecordRoundTrip(rec);
    assert CanMakeObject(root, t, id, old_, m1, Text(rec));
    var u1 := AsObject(root, t, id, old_, m1, Text(rec));
    MakeObjectNames(root, t, id, old_, m1, Text(rec));
    SameMade(root, t, id, old_, m1, Text(rec));
    assert EntryId(u1, new_) == "" by { NewIsFree(root, t, id, old_, m1, Text(rec), new_); }
    MarkerNames(root, u1, id, new_, m2);
    SameName(root, u1, new_, m2, id);
    var u := u1[new_ := Sym(m2)];
    SameTwice(root, t, u1, u, {id}, {id});
    assert {id} + {id} == {id} && {old_} + {new_} == {old_, new_};
    assert |{old_, new_}| == 2;
    WrittenLists(root, u1, id, rec, {old_, new_});
  }

  lemma NewIsFree(root: string, t: Tree, id: string, name: string, text: string, record: string, new_: string)
    requires name in t && new_ !in t && IsLinkId(id) && !InStore(root, new_)
    ensures new_ !in AsObject(root, t, id, name, text, record)
  {
    hide ObjectPath, RecordPath, InStore, IsLinkId;
    StorePaths(root, id);
  }

  /** A file that became an object changes no other object. */
  lemma SameMade(root: string, t: Tree, id: string, name: string, text: string, record: string)
    requires CanMakeObject(root, t, id, name, text, record)
    ensures var u := AsObject(root, t, id, name, text, record);
            SameBut(root, t, u, {id}) && ObjectPath(root, id) in u && RecordPath(root, id) in u &&
            u[RecordPath(root, id)] == Sym(record)
  {
    hide LinkTargetId, IsLinkId, StorePath, ObjectPath, RecordPath, InStore, Parse, Names, InvOpen, EntryId;
    MakeObjectNames(root, t, id, name, text, record);
    StorePaths(root, id);
    PathsInjective(root, id, id);
    forall k | IsLinkId(k) && k != id
      ensures ObjectPath(root, k) !in {ObjectPath(root, id), RecordPath(root, id), name}
      ensures RecordPath(root, k) !in {ObjectPath(root, id), RecordPath(root, id), name}
    {
      StorePaths(root, k);
      PathsInjective(root, k, id);
      PathsInjective(root, id, k);
    }
  }

  /** link(2) to an object. */
  lemma OneMoreTidy(root: string, t: Tree, id: string, new_: string)
    requires Inv(root, t) && IsLinkId(id) && ObjectPath(root, id) in t && TidyAt(root, t, id)
    requires new_ !in t && new_ != "" && !InStore(root, new_)
    requires |TargetFor(root, new_, id)| <= RECORD_MAX && |Names(root, t, id)| + 1 < COUNT_LIMIT
    requires RecordPath(root, id) in t && t[RecordPath(root, id)].Sym?
    requires HaveRoom(Names(root, t, id) + {new_})
    ensures var u := OneMore(root, t, id, new_); SameBut(root, t, u, {id}) && TidyAt(root, u, id)
  {
    hide LinkTargetId, IsLinkId, StorePath, ObjectPath, RecordPath, InStore, Parse, TargetFor, Names, Text, View,
         HaveRoom, NoRepeats;
    EmptyIsNoId();
    var rec := Parse(t[RecordPath(root, id)].text);
    assert ObjectShape(root, t, id) && Counted(root, t, id);
    TargetForMarks(root, new_, id);
    var m := TargetFor(root, new_, id);
    MarkerNames(root, t, id, new_, m);
    var u1 := t[new_ := Sym(m)];
    var more := Sym(Text(Bumped(rec, new_)));
    SameRecord(root, u1, id, more);
    SameName(root, t, new_, m, id);
    SameTwice(root, t, u1, OneMore(root, t, id, new_), {id}, {id});
    assert {id} + {id} == {id};
    NameMember(root, t, new_, id);
    assert new_ !in rec.names;
    NoRepeatsMore(rec.names, new_);
    WrittenLists(root, OneMore(root, t, id, new_), id, Bumped(rec, new_), Names(root, t, id) + {new_});
  }

  lemma SameName(root: string, t: Tree, name: string, text: string, id: string)
    requires IsLinkId(id) && !InStore(root, name) && EntryId(t, name) == ""
    requires LinkTargetId(text) == id && |text| <= RECORD_MAX
    ensures SameBut(root, t, t[name := Sym(text)], {id})
    ensures forall k, names :: IsLinkId(k) && Lists(root, t, k, names) ==> Lists(root, t[name := Sym(text)], k, names)
    ensures ObjectPath(root, id) in t[name := Sym(text)] <==> ObjectPath(root, id) in t
  {
    hide LinkTargetId, IsLinkId, StorePath, ObjectPath, RecordPath, InStore, Names, Lists;
    MarkerNames(root, t, id, name, text);
    SameOutside(root, t, t[name := Sym(text)], {id});
  }

  lemma NoRepeatsMore(names: seq<string>, n: string)
    requires NoRepeats(names) && n !in names
    ensures NoRepeats(names + [n])
  {
  }

  lemma {:induction false} NoRepeatsWithout(names: seq<string>, gone: string)
    requires NoRepeats(names)
    ensures NoRepeats(Without(names, gone))
  {
    if names != [] {
      assert NoRepeats(names[1..]);
      NoRepeatsWithout(names[1..], gone);
      assert names[0] !in names[1..];
    }
  }

  lemma {:induction false} ReplacedNames(names: seq<string>, from: string, to: string)
    requires NoRepeats(names) && to !in names
    ensures NoRepeats(Replaced(names, from, to))
    ensures forall n :: n in Replaced(names, from, to) <==> (n in names && n != from) || (n == to && from in names)
  {
    if names != [] {
      assert names == [names[0]] + names[1..] && names[0] !in names[1..] && NoRepeats(names[1..]);
      ReplacedNames(names[1..], from, to);
    }
  }

  /** A name given up: a file with one name left is a plain file there, and any other record is right. */
  lemma ReleasedTidy(root: string, t: Tree, id: string, gone: string)
    requires Releasable(root, t, id) && HasRecord(root, t, id)
    requires Names(root, t, id) != {} && gone !in Names(root, t, id) && Lists(root, t, id, Names(root, t, id) + {gone})
    requires |Names(root, t, id)| >= 2 ==> HaveRoom(Names(root, t, id))
    ensures var u := Released(root, t, id, gone, OnlyStuck({}));
            SameBut(root, t, u, {id}) && TidyAt(root, u, id)
  {
    hide LinkTargetId, IsLinkId, StorePath, ObjectPath, RecordPath, InStore, Parse, Names, Text, View, HaveRoom,
         NoRepeats, InvOpen, FirstLive, Restored, Without;
    var left := Names(root, t, id);
    ReleasedRecord(root, t, id);
    var rec := Parse(t[RecordPath(root, id)].text);
    var names := Without(rec.names, gone);
    NoRepeatsWithout(rec.names, gone);
    assert forall n :: n in names <==> n in left;
    if |left| == 1 {
      OneNameBack(root, t, id, names);
    } else {
      var lower := Record(|left|, names);
      assert Released(root, t, id, gone, OnlyStuck({})) == t[RecordPath(root, id) := Sym(Text(lower))];
      SameRecord(root, t, id, Sym(Text(lower)));
      WrittenLists(root, t[RecordPath(root, id) := Sym(Text(lower))], id, lower, left);
    }
  }

  lemma OneNameBack(root: string, t: Tree, id: string, names: seq<string>)
    requires Releasable(root, t, id) && HasRecord(root, t, id)
    requires |Names(root, t, id)| == 1 && forall n :: n in names <==> n in Names(root, t, id)
    ensures FirstLive(t, id, {}, names) < |names|
    ensures var name := names[FirstLive(t, id, {}, names)];
            var u := t[name := t[ObjectPath(root, id)]] - {ObjectPath(root, id)} - {RecordPath(root, id)};
            SameBut(root, t, u, {id}) && ObjectPath(root, id) !in u
  {
    hide LinkTargetId, IsLinkId, StorePath, ObjectPath, RecordPath, InStore, Parse, Names, InvOpen;
    var left := Names(root, t, id);
    var x :| x in left;
    OnlyMember(left, x);
    NameMember(root, t, x, id);
    assert x in names;
    var i := FirstLive(t, id, {}, names);
    assert i < |names| && names[i] in names;
    assert names[i] == x;
    var u := t[x := t[ObjectPath(root, id)]] - {ObjectPath(root, id)} - {RecordPath(root, id)};
    StorePaths(root, id);
    assert u == Restored(root, t, id, x);
    forall k | IsLinkId(k) && k != id
      ensures Names(root, u, k) == Names(root, t, k)
      ensures ObjectPath(root, k) !in {ObjectPath(root, id), RecordPath(root, id), x}
      ensures RecordPath(root, k) !in {ObjectPath(root, id), RecordPath(root, id), x}
    {
      RestoreApart(root, t, id, x, k);
    }
  }

  /** A name that was renamed: the record follows. */
  lemma MovedTidy(root: string, t: Tree, id: string, from: string, to: string)
    requires Inv(root, t) && IsLinkId(id) && ObjectPath(root, id) in t
    requires RecordPath(root, id) in t && t[RecordPath(root, id)].Sym?
    requires from !in Names(root, t, id) && to in Names(root, t, id) && to != "" && !InStore(root, to)
    requires |Names(root, t, id)| >= 2 && HaveRoom(Names(root, t, id))
    requires Lists(root, t, id, Names(root, t, id) - {to} + {from})
    ensures var u := t[RecordPath(root, id) :=
                         Sym(Text(RecordedMove(Parse(t[RecordPath(root, id)].text), from, to)))];
            SameBut(root, t, u, {id}) && TidyAt(root, u, id)
  {
    hide LinkTargetId, IsLinkId, StorePath, ObjectPath, RecordPath, InStore, Parse, Names, Text, View, HaveRoom,
         NoRepeats, Replaced;
    EmptyIsNoId();
    assert ObjectShape(root, t, id) && Counted(root, t, id);
    var now := Names(root, t, id);
    var rec := Parse(t[RecordPath(root, id)].text);
    assert to !in rec.names && from in rec.names;
    ReplacedNames(rec.names, from, to);
    var next := RecordedMove(rec, from, to);
    assert forall n :: n in next.names <==> n in now;
    SameRecord(root, t, id, Sym(Text(next)));
    WrittenLists(root, t[RecordPath(root, id) := Sym(Text(next))], id, next, now);
  }

  // ---- a rename, from the host's part on ----

  /** The record still lists the old name of a name that was renamed. */
  ghost predicate MoveDue(root: string, t: Tree, id: string, from: string, to: string) {
    var now := Names(root, t, id);
    ObjectPath(root, id) in t && from !in now && to in now && |now| >= 2 && Lists(root, t, id, now - {to} + {from})
  }

  /** The record still lists a name that is gone. */
  ghost predicate DropDue(root: string, t: Tree, id: string, gone: string) {
    var now := Names(root, t, id);
    ObjectPath(root, id) in t && gone !in now && now != {} && Lists(root, t, id, now + {gone})
  }

  ghost predicate TidyBut(root: string, t: Tree, ids: set<string>) {
    forall id :: IsLinkId(id) && id !in ids ==> TidyAt(root, t, id)
  }

  lemma StillDue(root: string, t: Tree, u: Tree, ids: set<string>, id: string)
    requires SameBut(root, t, u, ids) && IsLinkId(id) && id !in ids
    ensures forall from, to :: MoveDue(root, t, id, from, to) ==> MoveDue(root, u, id, from, to)
    ensures forall gone :: DropDue(root, t, id, gone) ==> DropDue(root, u, id, gone)
  {
    hide IsLinkId, Names, ObjectPath, RecordPath, Parse, NoRepeats;
  }

  lemma StillTidy(root: string, t: Tree, u: Tree, ids: set<string>, fixed: set<string>)
    requires SameBut(root, t, u, fixed) && TidyBut(root, t, ids) && fixed <= ids
    requires forall id :: id in fixed && IsLinkId(id) ==> TidyAt(root, u, id)
    ensures TidyBut(root, u, ids - fixed)
  {
    hide IsLinkId, TidyAt, SameBut;
    SameTidy(root, t, u, fixed);
  }

  lemma TidyButNone(root: string, t: Tree)
    ensures TidyBut(root, t, {}) <==> Tidy(root, t)
    ensures TidyBut(root, t, {""}) ==> Tidy(root, t)
  {
    hide TidyAt;
    EmptyIsNoId();
  }

  /** After the host moved an entry over another, or over nothing. */
  lemma MovedIsDue(root: string, t: Tree, from: string, to: string)
    requires CanMove(root, t, from, to) && Tidy(root, t)
    ensures var u, src, dst := MoveEntry(t, from, to), EntryId(t, from), EntryId(t, to);
            TidyBut(root, u, {src, dst}) && (src != "" ==> MoveDue(root, u, src, from, to)) &&
            (dst != "" ==> DropDue(root, u, dst, to))
  {
    hide LinkTargetId, IsLinkId, StorePath, ObjectPath, RecordPath, InStore, Names, InvOpen, Lists, EntryId, Renamed,
         TidyAt, SameBut, MoveDue, DropDue, MoveEntry;
    var u, src, dst := MoveEntry(t, from, to), EntryId(t, from), EntryId(t, to);
    EntryIdIsLinkId(t, from);
    EntryIdIsLinkId(t, to);
    forall k | IsLinkId(k)
      ensures Names(root, u, k) == Renamed(Names(root, t, k), from, to)
      ensures from in Names(root, t, k) <==> k == src
      ensures to in Names(root, t, k) <==> k == dst
    {
      MoveNames(root, t, from, to, k);
    }
    forall k | IsLinkId(k) && k !in {src, dst} ensures Names(root, u, k) == Names(root, t, k) {
      NotRenamed(Names(root, t, k), from, to);
    }
    StoreUntouched(root, t, u, from, to);
    SameOutside(root, t, u, {src, dst});
    TidyOthers(root, t, u, {src, dst});
    if src != "" {
      MarkerHasObject(root, t, from);
      BecomesMove(root, t, u, src, from, to);
    }
    if dst != "" {
      MarkerHasObject(root, t, to);
      BecomesDrop(root, t, u, dst, from, to);
    }
  }

  lemma NotRenamed<T>(s: set<T>, a: T, b: T)
    requires a !in s && b !in s
    ensures Renamed(s, a, b) == s && Exchanged(s, a, b) == s
  {
  }

  lemma StoreUntouched(root: string, t: Tree, u: Tree, a: string, b: string)
    requires !InStore(root, a) && !InStore(root, b) && a in t
    requires u == MoveEntry(t, a, b) || (b in t && u == SwapEntries(t, a, b))
    ensures forall p :: InStore(root, p) ==> (p in t <==> p in u) && (p in t ==> t[p] == u[p])
  {
    hide InStore;
  }

  lemma TidyOthers(root: string, t: Tree, u: Tree, ids: set<string>)
    requires Tidy(root, t) && SameBut(root, t, u, ids)
    ensures TidyBut(root, u, ids)
  {
    hide TidyAt, SameBut;
    SameTidy(root, t, u, ids);
  }

  /** The object whose name was renamed, when nothing but its names changed. */
  lemma BecomesMove(root: string, t: Tree, u: Tree, id: string, from: string, to: string)
    requires Tidy(root, t) && IsLinkId(id) && ObjectPath(root, id) in t && ObjectPath(root, id) in u
    requires from in Names(root, t, id) && to !in Names(root, t, id)
    requires Names(root, u, id) == Renamed(Names(root, t, id), from, to) ||
             Names(root, u, id) == Exchanged(Names(root, t, id), from, to) ||
             Names(root, u, id) == Exchanged(Names(root, t, id), to, from)
    requires forall k, names :: IsLinkId(k) && Lists(root, t, k, names) ==> Lists(root, u, k, names)
    ensures MoveDue(root, u, id, from, to)
  {
    hide IsLinkId, Names, ObjectPath, Lists;
    var was, now := Names(root, t, id), Names(root, u, id);
    assert TidyAt(root, t, id);
    assert now == was - {from} + {to};
    assert now - {to} + {from} == was;
    ReplaceMember(was, from, to);
  }

  /** The object whose name was replaced. */
  lemma BecomesDrop(root: string, t: Tree, u: Tree, id: string, from: string, to: string)
    requires Tidy(root, t) && IsLinkId(id) && ObjectPath(root, id) in t && ObjectPath(root, id) in u
    requires from !in Names(root, t, id) && to in Names(root, t, id)
    requires Names(root, u, id) == Renamed(Names(root, t, id), from, to)
    requires forall k, names :: IsLinkId(k) && Lists(root, t, k, names) ==> Lists(root, u, k, names)
    ensures DropDue(root, u, id, to)
  {
    hide IsLinkId, Names, ObjectPath, Lists;
    var was, now := Names(root, t, id), Names(root, u, id);
    assert TidyAt(root, t, id);
    assert now == was - {to};
    assert now + {to} == was;
    LeftOver(was, to);
  }

  lemma MarkerHasObject(root: string, t: Tree, p: string)
    requires Inv(root, t) && !InStore(root, p) && EntryId(t, p) != ""
    ensures p in t && ObjectPath(root, EntryId(t, p)) in t
  {
    hide ObjectPath, InStore, LinkTargetId;
  }

  lemma LeftOver<T>(s: set<T>, x: T)
    requires |s| >= 2
    ensures s - {x} != {}
  {
    if x in s {
      assert |s - {x}| == |s| - 1;
    } else {
      assert s - {x} == s;
    }
  }

  /** After the host exchanged two entries. */
  lemma SwappedIsDue(root: string, t: Tree, a: string, b: string)
    requires CanSwap(root, t, a, b) && Tidy(root, t) && a != b
    ensures var u, src, dst := SwapEntries(t, a, b), EntryId(t, a), EntryId(t, b);
            (src == dst ==> Tidy(root, u)) &&
            (src != dst ==> (TidyBut(root, u, {src, dst}) && (src != "" ==> MoveDue(root, u, src, a, b)) &&
                             (dst != "" ==> MoveDue(root, u, dst, b, a))))
  {
    hide LinkTargetId, IsLinkId, StorePath, ObjectPath, RecordPath, InStore, Names, InvOpen, Lists, EntryId, Exchanged,
         TidyAt, SameBut, MoveDue, SwapEntries;
    var u, src, dst := SwapEntries(t, a, b), EntryId(t, a), EntryId(t, b);
    EntryIdIsLinkId(t, a);
    EntryIdIsLinkId(t, b);
    forall k | IsLinkId(k)
      ensures Names(root, u, k) == Exchanged(Names(root, t, k), a, b)
      ensures a in Names(root, t, k) <==> k == src
      ensures b in Names(root, t, k) <==> k == dst
    {
      SwapNames(root, t, a, b, k);
    }
    var ids := if src == dst then {} else {src, dst};
    forall k | IsLinkId(k) && k !in ids ensures Names(root, u, k) == Names(root, t, k) {
      ExchangedBoth(Names(root, t, k), a, b);
    }
    StoreUntouched(root, t, u, a, b);
    SameOutside(root, t, u, ids);
    TidyOthers(root, t, u, ids);
    TidyButNone(root, u);
    if src != dst && src != "" {
      MarkerHasObject(root, t, a);
      BecomesMove(root, t, u, src, a, b);
    }
    if src != dst && dst != "" {
      MarkerHasObject(root, t, b);
      BecomesMove(root, t, u, dst, b, a);
    }
  }

  lemma ExchangedBoth<T>(s: set<T>, a: T, b: T)
    requires a in s <==> b in s
    ensures Exchanged(s, a, b) == s
  {
  }

  /** The record of a replaced name is lowered, or the file it leaves is a plain file again. */
  lemma DropTidy(root: string, t: Tree, id: string, gone: string, ids: set<string>, objects: map<nat, string>,
                 byPath: map<string, nat>)
    requires Releasable(root, t, id) && Indexed(root, t, objects, byPath) && Recordable(View(root, t))
    requires DropDue(root, t, id, gone) && TidyBut(root, t, ids) && id in ids
    requires HasRecord(root, WithStore(root, t, false), id)
    ensures var u := Released(root, WithStore(root, t, false), id, gone, OnlyStuck({}));
            SameBut(root, t, u, {id}) && TidyBut(root, u, ids - {id})
  {
    hide LinkTargetId, IsLinkId, StorePath, LockPath, ObjectPath, RecordPath, InStore, Names, InvOpen, Lists, View,
         Recordable, HaveRoom, WithStore, Released, TidyAt, Indexed, SameBut, TidyBut;
    var t1 := WithStore(root, t, false);
    var u := Released(root, t1, id, gone, OnlyStuck({}));
    WithStoreKeeps(root, t, false, id, objects, byPath);
    WithStoreRecord(root, t, id);
    SameStoreOnly(root, t, t1);
    StillDue(root, t, t1, {}, id);
    RoomForNames(root, t1, id, id);
    ReleasedTidy(root, t1, id, gone);
    SameTwice(root, t, t1, u, {}, {id});
    assert {} + {id} == {id};
    StillTidy(root, t, u, ids, {id});
  }

  /** The record of a renamed name lists it. */
  lemma MoveTidy(root: string, t: Tree, u: Tree, id: string, from: string, to: string, ids: set<string>,
                 objects: map<nat, string>, byPath: map<string, nat>)
    requires Inv(root, t) && Indexed(root, t, objects, byPath) && Recordable(View(root, t)) && IsLinkId(id)
    requires MoveDue(root, t, id, from, to) && TidyBut(root, t, ids) && id in ids && to != "" && !InStore(root, to)
    requires var t1, r := WithStore(root, t, false), RecordPath(root, id);
             u == if r in t1 && t1[r].Sym? && |t1[r].text| <= RECORD_MAX
                  then t1[r := Sym(Text(RecordedMove(Parse(t1[r].text), from, to)))] else t1
    ensures SameBut(root, t, u, {id}) && TidyBut(root, u, ids - {id})
  {
    hide LinkTargetId, IsLinkId, StorePath, LockPath, ObjectPath, RecordPath, InStore, Names, InvOpen, View, Parse,
         Recordable, HaveRoom, WithStore, TidyAt, Indexed, SameBut, TidyBut, NoRepeats, Text, RecordedMove;
    var t1 := WithStore(root, t, false);
    WithStoreKeeps(root, t, false, "", objects, byPath);
    SameStoreOnly(root, t, t1);
    StillDue(root, t, t1, {}, id);
    RoomForNames(root, t1, "", id);
    MovedTidy(root, t1, id, from, to);
    SameTwice(root, t, t1, u, {}, {id});
    assert {} + {id} == {id};
    StillTidy(root, t, u, ids, {id});
  }

  // ---- what the calls keep ----

  /** Where the names fit their records afterwards, the records still list the names. */
  ghost predicate KeepsTidy(root: string, t: Tree, u: Tree) {
    Tidy(root, t) && Recordable(View(root, u)) ==> Tidy(root, u)
  }

  lemma SameKeeps(root: string, t: Tree, u: Tree)
    requires t == u || StoreOnly(root, t, u) || SameBut(root, t, u, {})
    ensures KeepsTidy(root, t, u)
  {
    hide StoreOnly, SameBut, TidyAt, View, Recordable;
    if t != u {
      if StoreOnly(root, t, u) {
        SameStoreOnly(root, t, u);
      }
      SameTidy(root, t, u, {});
    }
  }

  lemma LinkNewTidy(root: string, t: Tree, u: Tree, id: string, old_: string, new_: string, objects: map<nat, string>,
                    byPath: map<string, nat>)
    requires Inv(root, t) && Indexed(root, t, objects, byPath) && IsLinkId(id) && ObjectPath(root, id) !in t
    requires old_ in t && t[old_].File? && new_ !in t && old_ != "" && new_ != ""
    requires !InStore(root, old_) && !InStore(root, new_)
    requires |TargetFor(root, old_, id)| <= RECORD_MAX && |TargetFor(root, new_, id)| <= RECORD_MAX
    requires u == Linked(root, WithStore(root, t, true), id, old_, new_, Text(Record(2, [old_, new_]))) && Inv(root, u)
    ensures KeepsTidy(root, t, u)
  {
    hide LinkTargetId, IsLinkId, StorePath, LockPath, ObjectPath, RecordPath, InStore, Names, InvOpen, View,
         Recordable, HaveRoom, WithStore, TidyAt, Indexed, SameBut, TargetFor, Text, Linked;
    if Tidy(root, t) && Recordable(View(root, u)) {
      var t1 := WithStore(root, t, true);
      WithStoreKeeps(root, t, true, "", objects, byPath);
      StoreNotName(root, old_);
      WithStoreOld(root, t, old_);
      LinkedNames(root, t1, id, old_, new_);
      RoomForNames(root, u, "", id);
      LinkedTidy(root, t1, id, old_, new_);
      SameStoreOnly(root, t, t1);
      SameTwice(root, t, t1, u, {}, {id});
      assert {} + {id} == {id};
      SameTidy(root, t, u, {id});
    }
  }

  lemma LinkedNames(root: string, t: Tree, id: string, old_: string, new_: string)
    requires Inv(root, t) && IsLinkId(id) && ObjectPath(root, id) !in t
    requires old_ in t && t[old_].File? && new_ !in t && old_ != "" && new_ != ""
    requires !InStore(root, old_) && !InStore(root, new_)
    requires |TargetFor(root, old_, id)| <= RECORD_MAX && |TargetFor(root, new_, id)| <= RECORD_MAX
    ensures var u := Linked(root, t, id, old_, new_, Text(Record(2, [old_, new_])));
            Names(root, u, id) == {old_, new_} && |Names(root, u, id)| == 2 && ObjectPath(root, id) in u
  {
    hide LinkTargetId, IsLinkId, StorePath, ObjectPath, RecordPath, InStore, Parse, TargetFor, Names, Text, AsObject,
         InvOpen;
    var m1, m2, rec := TargetFor(root, old_, id), TargetFor(root, new_, id), Record(2, [old_, new_]);
    TargetForMarks(root, old_, id);
    TargetForMarks(root, new_, id);
    RecordRoundTrip(rec);
    assert CanMakeObject(root, t, id, old_, m1, Text(rec));
    var u1 := AsObject(root, t, id, old_, m1, Text(rec));
    MakeObjectNames(root, t, id, old_, m1, Text(rec));
    SameMade(root, t, id, old_, m1, Text(rec));
    assert EntryId(u1, new_) == "" by { NewIsFree(root, t, id, old_, m1, Text(rec), new_); }
    MarkerNames(root, u1, id, new_, m2);
    SameName(root, u1, new_, m2, id);
    assert {old_} + {new_} == {old_, new_};
    assert |{old_, new_}| == 2;
  }

  lemma LinkExistingTidy(root: string, t: Tree, u: Tree, id: string, new_: string, objects: map<nat, string>,
                         byPath: map<string, nat>)
    requires Inv(root, t) && Indexed(root, t, objects, byPath) && IsLinkId(id) && ObjectPath(root, id) in t
    requires new_ !in t && new_ != "" && !InStore(root, new_)
    requires |TargetFor(root, new_, id)| <= RECORD_MAX && |Names(root, t, id)| + 1 < COUNT_LIMIT
    requires var t1, r := WithStore(root, t, false), RecordPath(root, id);
             r in t1 && t1[r].Sym? && u == OneMore(root, t1, id, new_)
    requires Inv(root, u)
    ensures KeepsTidy(root, t, u)
  {
    hide LinkTargetId, IsLinkId, StorePath, LockPath, ObjectPath, RecordPath, InStore, Names, InvOpen, View,
         Recordable, HaveRoom, WithStore, Lists, Indexed, SameBut, TargetFor, OneMore;
    if Tidy(root, t) && Recordable(View(root, u)) {
      var t1 := WithStore(root, t, false);
      WithStoreKeeps(root, t, false, "", objects, byPath);
      SameStoreOnly(root, t, t1);
      SameTidy(root, t, t1, {});
      OneMoreNames(root, t1, id, new_);
      RoomForNames(root, u, "", id);
      OneMoreTidy(root, t1, id, new_);
      SameTwice(root, t, t1, u, {}, {id});
      assert {} + {id} == {id};
      SameTidy(root, t, u, {id});
    }
  }

  lemma OneMoreNames(root: string, t: Tree, id: string, new_: string)
    requires IsLinkId(id) && ObjectPath(root, id) in t && new_ !in t && !InStore(root, new_)
    requires |TargetFor(root, new_, id)| <= RECORD_MAX && RecordPath(root, id) in t && t[RecordPath(root, id)].Sym?
    ensures var u := OneMore(root, t, id, new_);
            Names(root, u, id) == Names(root, t, id) + {new_} && ObjectPath(root, id) in u &&
            |Names(root, u, id)| == |Names(root, t, id)| + 1
  {
    hide LinkTargetId, IsLinkId, StorePath, ObjectPath, RecordPath, InStore, Parse, TargetFor, Names, Text, Bumped;
    TargetForMarks(root, new_, id);
    var m := TargetFor(root, new_, id);
    assert EntryId(t, new_) == "";
    MarkerNames(root, t, id, new_, m);
    SameName(root, t, new_, m, id);
    SameRecord(root, t[new_ := Sym(m)], id, Sym(Text(Bumped(Parse(t[RecordPath(root, id)].text), new_))));
  }

  /** unlink(2) of a name of an object. */
  lemma UnlinkTidy(root: string, t: Tree, u: Tree, name: string, objects: map<nat, string>, byPath: map<string, nat>)
    requires Inv(root, t) && Indexed(root, t, objects, byPath) && name in t && !InStore(root, name)
    requires EntryId(t, name) != ""
    requires var t1 := WithStore(root, t - {name}, false);
             HasRecord(root, t1, EntryId(t, name)) &&
             u == Released(root, t1, EntryId(t, name), name, OnlyStuck({}))
    requires View(root, u) == View(root, t) - {name}
    ensures KeepsTidy(root, t, u)
  {
    hide LinkTargetId, IsLinkId, StorePath, LockPath, ObjectPath, RecordPath, InStore, Names, InvOpen, View,
         Recordable, HaveRoom, WithStore, TidyAt, Indexed, SameBut, Released, EntryId, HasRecord, TidyBut, Lists;
    if Tidy(root, t) && Recordable(View(root, u)) {
      var id, w := EntryId(t, name), t - {name};
      DropMarker(root, t, name);
      IndexOutside(root, t, w, objects, byPath);
      DropNames(root, t, name);
      SameOutside(root, t, w, {id});
      DroppedIsDue(root, t, name);
      SameTidy(root, t, w, {id});
      ReleasableMeans(root, w, id);
      TidyOthers(root, t, w, {id});
      DropTidy(root, w, id, name, {id}, objects, byPath);
      assert {id} - {id} == {};
      TidyButNone(root, u);
    }
  }

  lemma DroppedIsDue(root: string, t: Tree, name: string)
    requires Inv(root, t) && name in t && !InStore(root, name) && EntryId(t, name) != "" && Tidy(root, t)
    ensures DropDue(root, t - {name}, EntryId(t, name), name)
  {
    hide LinkTargetId, IsLinkId, StorePath, ObjectPath, RecordPath, InStore, Names, InvOpen, EntryId, Lists;
    var id, u := EntryId(t, name), t - {name};
    EntryIdIsLinkId(t, name);
    MarkerHasObject(root, t, name);
    DropNames(root, t, name);
    SameOutside(root, t, u, {id});
    var now := Names(root, t, id);
    assert now - {name} + {name} == now;
    LeftOver(now, name);
  }

  /** Entries that are no emulated links come and go. */
  lemma PlainTidy(root: string, t: Tree, u: Tree, p: string)
    requires !InStore(root, p) && EntryId(t, p) == "" && EntryId(u, p) == ""
    requires forall q :: q != p ==> (q in t <==> q in u) && (q in t ==> t[q] == u[q])
    ensures KeepsTidy(root, t, u)
  {
    hide LinkTargetId, IsLinkId, StorePath, ObjectPath, RecordPath, InStore, Names, SameBut, KeepsTidy, EntryId;
    EmptyIsNoId();
    forall k | IsLinkId(k) ensures Names(root, u, k) == Names(root, t, k) {
      NamesChange(root, t, u, k, {p}, {});
      NameMember(root, t, p, k);
    }
    SameOutside(root, t, u, {});
    SameKeeps(root, t, u);
  }

  // ---- what it comes to ----

  lemma MarkerCount(root: string, t: Tree, p: string)
    requires Inv(root, t) && p in t && !InStore(root, p) && EntryId(t, p) != ""
    ensures p in View(root, t) && View(root, t)[p].Regular?
    ensures LinkCount(View(root, t), View(root, t)[p].ino) == |Names(root, t, EntryId(t, p))|
  {
    hide LinkTargetId, IsLinkId, StorePath, ObjectPath, RecordPath, InStore, Parse, Names;
    var id, v := EntryId(t, p), View(root, t);
    EntryIdIsLinkId(t, p);
    assert ObjectShape(root, t, id);
    NamesInView(root, t, "", id);
    assert NamesOf(v, v[p].ino) == set q | q in v && v[q] == Regular(v[p].ino);
  }

  /** A run that renames no directory and whose files' names always have room in a record. */
  ghost predicate Recorded(root: string, v: Files, ops: seq<Op>)
    requires AllSensible(root, ops)
  {
    forall k :: 0 <= k < |ops| ==> RecordedAt(root, v, ops, k)
  }

  ghost predicate RecordedAt(root: string, v: Files, ops: seq<Op>, k: nat)
    requires AllSensible(root, ops) && k < |ops|
  {
    !MovesDirectory(HardLinkSpec.Run(root, v, ops[..k]), ops[k]) && Recordable(HardLinkSpec.Run(root, v, ops[..k + 1]))
  }

  /** A store that does not exist is tidy. */
  lemma NoObjectsTidy(root: string, t: Tree)
    requires forall id :: IsLinkId(id) ==> ObjectPath(root, id) !in t
    ensures Tidy(root, t)
  {
    hide IsLinkId, ObjectPath;
  }

  /** No emulation is left where none is needed: a file with one name is a plain file there, and every object
      in the store has two names at least. */
  ghost predicate Collapsed(root: string, t: Tree) {
    (forall p :: (p in View(root, t) && View(root, t)[p].Regular? &&
                  LinkCount(View(root, t), View(root, t)[p].ino) == 1) ==>
      p in t && t[p] == File(View(root, t)[p].ino)) &&
    (forall id :: IsLinkId(id) && ObjectPath(root, id) in t ==> |Names(root, t, id)| >= 2)
  }

  lemma TidyIsPlain(root: string, t: Tree)
    requires Inv(root, t) && Tidy(root, t)
    ensures Collapsed(root, t)
  {
    hide LinkTargetId, IsLinkId, StorePath, ObjectPath, RecordPath, InStore, Parse, Names, Lists, NoRepeats;
    var v := View(root, t);
    forall p | p in v && v[p].Regular? && LinkCount(v, v[p].ino) == 1 ensures p in t && t[p] == File(v[p].ino) {
      var id := EntryId(t, p);
      EntryIdIsLinkId(t, p);
      if id != "" {
        MarkerCount(root, t, p);
      }
    }
  }
}
