/** The host tree below one mount that holds emulated hard links, what a guest sees of it, and
    what every operation of the link store keeps.

    Layout (src/engines/rootless/link_store.hpp): an object `<store>/<id>`, its record
    `<store>/<id>.n`, the lock `<store>/.lock`, and names anywhere else whose symlink text ends in
    "<store dir>/<id>". */
module LinkView {
  import opened GuestPath
  import opened LinkMarker
  import opened LinkRecord

  /** `Sym` is a symlink with its text, `Lock` the store's lock file. */
  datatype Node = Dir | File(ino: nat) | Sym(text: string) | Lock

  type Tree = map<string, Node>

  /** What a guest sees at a name: an emulated hard link is the file it stands for. */
  datatype Entry = Directory | Regular(ino: nat) | Symlink(text: string)

  function ObjectPath(root: string, id: string): string {
    StorePath(root) + "/" + id
  }

  function RecordPath(root: string, id: string): string {
    StorePath(root) + "/" + id + ".n"
  }

  function LockPath(root: string): string {
    StorePath(root) + "/.lock"
  }

  predicate InStore(root: string, p: string) {
    IsBelow(p, StorePath(root))
  }

  /** `entry_id`: the object a name refers to, "" when it is not an emulated link. */
  function EntryId(t: Tree, p: string): string {
    if p in t && t[p].Sym? && |t[p].text| <= RECORD_MAX then LinkTargetId(t[p].text) else ""
  }

  ghost predicate IsName(root: string, t: Tree, p: string, id: string) {
    p in t && !InStore(root, p) && EntryId(t, p) == id
  }

  /** The names of object `id`. */
  ghost function Names(root: string, t: Tree, id: string): set<string> {
    set p | p in t && IsName(root, t, p, id)
  }

  function ReadEntry(root: string, t: Tree, p: string): Entry
    requires p in t
  {
    var id := EntryId(t, p);
    if id != "" && ObjectPath(root, id) in t && t[ObjectPath(root, id)].File? then
      Regular(t[ObjectPath(root, id)].ino)
    else
      match t[p]
      case Dir => Directory
      case Lock => Directory
      case File(i) => Regular(i)
      case Sym(text) => Symlink(text)
  }

  /** The tree as a guest sees it, each marker read as its object. */
  function View(root: string, t: Tree): map<string, Entry> {
    map p | p in t && !InStore(root, p) :: ReadEntry(root, t, p)
  }

  // ---- the invariant ----

  ghost predicate ObjectShape(root: string, t: Tree, id: string) {
    var o, r := ObjectPath(root, id), RecordPath(root, id);
    o in t && t[o].File? && r in t && t[r].Sym? && |t[r].text| <= RECORD_MAX &&
    forall n :: n in Parse(t[r].text).names ==> n != "" && !InStore(root, n)
  }

  function CountAt(root: string, t: Tree, id: string): nat {
    var r := RecordPath(root, id);
    if r in t && t[r].Sym? then Parse(t[r].text).count else 0
  }

  ghost predicate Counted(root: string, t: Tree, id: string) {
    0 < |Names(root, t, id)| < COUNT_LIMIT && CountAt(root, t, id) == |Names(root, t, id)|
  }

  /** Every marker has its object. */
  ghost predicate MarkersLive(root: string, t: Tree) {
    forall p :: p in t && !InStore(root, p) && EntryId(t, p) != "" ==>
      ObjectPath(root, EntryId(t, p)) in t
  }

  /** Every object has its record; the count is the number of names, except for `open`. */
  ghost predicate ObjectsOk(root: string, t: Tree, open: string) {
    forall id :: IsLinkId(id) && ObjectPath(root, id) in t ==>
      ObjectShape(root, t, id) && (id != open ==> Counted(root, t, id))
  }

  /** No record without its object. */
  ghost predicate RecordsOwned(root: string, t: Tree) {
    forall id :: IsLinkId(id) && RecordPath(root, id) in t ==> ObjectPath(root, id) in t
  }

  /** The host refuses link(2), so no two host names share an inode. */
  ghost predicate InodesDistinct(t: Tree) {
    forall p, q :: p in t && q in t && p != q && t[p].File? && t[q].File? ==> t[p].ino != t[q].ino
  }

  /** Nothing but objects, records and the lock in the store; symlink texts fit the kernel limit. */
  ghost predicate Sizes(root: string, t: Tree) {
    (forall p :: p in t && InStore(root, p) ==> |p| <= |StorePath(root)| + 1 + ID_LEN + 2) &&
    (forall p :: p in t && t[p].Sym? ==> |t[p].text| <= RECORD_MAX) &&
    (forall p :: p in t && t[p].Lock? ==> InStore(root, p))
  }

  /** The invariant, with the count of object `open` not settled yet. */
  ghost predicate InvOpen(root: string, t: Tree, open: string) {
    MarkersLive(root, t) && ObjectsOk(root, t, open) && RecordsOwned(root, t) &&
    InodesDistinct(t) && Sizes(root, t)
  }

  ghost predicate Inv(root: string, t: Tree) {
    InvOpen(root, t, "")
  }

  // ---- paths ----

  lemma StoreShape(root: string)
    ensures StorePath(root) != "" && StorePath(root) != "/"
  {
    var s := StorePath(root);
    assert s[|s| - 1] == STORE_DIR[|STORE_DIR| - 1] == 's';
  }

  lemma StorePaths(root: string, id: string)
    requires IsLinkId(id)
    ensures InStore(root, ObjectPath(root, id)) && InStore(root, RecordPath(root, id))
    ensures InStore(root, LockPath(root))
    ensures |ObjectPath(root, id)| == |StorePath(root)| + 1 + ID_LEN
    ensures |RecordPath(root, id)| == |StorePath(root)| + 1 + ID_LEN + 2
    ensures |LockPath(root)| == |StorePath(root)| + 6
    ensures |StorePath(root)| < |LockPath(root)|
  {
    StoreShape(root);
  }

  lemma PathsInjective(root: string, a: string, b: string)
    requires IsLinkId(a) && IsLinkId(b)
    ensures ObjectPath(root, a) == ObjectPath(root, b) ==> a == b
    ensures RecordPath(root, a) == RecordPath(root, b) ==> a == b
    ensures ObjectPath(root, a) != RecordPath(root, b)
  {
    var n := |StorePath(root)| + 1;
    assert ObjectPath(root, a)[n..] == a && ObjectPath(root, b)[n..] == b;
    assert RecordPath(root, a)[n..] == a + ".n" && RecordPath(root, b)[n..] == b + ".n";
    assert (a + ".n")[..ID_LEN] == a && (b + ".n")[..ID_LEN] == b;
    StorePaths(root, a);
    StorePaths(root, b);
  }

  lemma EmptyIsNoId()
    ensures !IsLinkId("")
  {
  }

  lemma EntryIdIsLinkId(t: Tree, p: string)
    ensures EntryId(t, p) != "" ==> IsLinkId(EntryId(t, p))
  {
  }

  // ---- how Names and entries change ----

  /** Two trees that agree on the names outside the store have the same names of every object. */
  lemma NamesAgree(root: string, t: Tree, u: Tree, id: string)
    requires forall p :: !InStore(root, p) ==> (p in t <==> p in u) && (p in t ==> t[p] == u[p])
    ensures Names(root, u, id) == Names(root, t, id)
  {
    hide LinkTargetId, IsLinkId, StorePath, ObjectPath, RecordPath, LockPath, InStore, Parse;
    forall p ensures p in Names(root, u, id) <==> p in Names(root, t, id) {
      if !InStore(root, p) {
      }
    }
  }

  /** Replacing the record of an object settles its count. */
  lemma SetRecord(root: string, t: Tree, open: string, id: string, rec: Record)
    requires InvOpen(root, t, open) && IsLinkId(id) && ObjectPath(root, id) in t
    requires rec.count == |Names(root, t, id)| && 0 < rec.count < COUNT_LIMIT
    requires forall n :: n in rec.names ==> n != "" && !InStore(root, n)
    ensures var u := t[RecordPath(root, id) := Sym(Text(rec))];
            InvOpen(root, u, if open == id then "" else open) && View(root, u) == View(root, t)
  {
    hide LinkTargetId, IsLinkId, StorePath, ObjectPath, RecordPath, LockPath, InStore, Parse, Names, View, Text;
    EmptyIsNoId();
    var r := RecordPath(root, id);
    var u := t[r := Sym(Text(rec))];
    StorePaths(root, id);
    RecordRoundTrip(rec);
    forall k ensures Names(root, u, k) == Names(root, t, k) {
      NamesAgree(root, t, u, k);
    }
    forall k | IsLinkId(k) ensures ObjectPath(root, k) != r && (k != id ==> RecordPath(root, k) != r) {
      PathsInjective(root, k, id);
    }
    assert t[r].Sym?;
    assert MarkersLive(root, u);
    assert RecordsOwned(root, u);
    assert InodesDistinct(u);
    forall k | IsLinkId(k) && ObjectPath(root, k) in u
      ensures ObjectShape(root, u, k) && (k != open || k == id ==> Counted(root, u, k))
    {
      assert ObjectShape(root, t, k);
    }
    ViewAgree(root, t, u);
  }

  /** Trees that agree outside the store and on every object read have the same view. */
  lemma ViewAgree(root: string, t: Tree, u: Tree)
    requires forall p :: !InStore(root, p) ==> (p in t <==> p in u) && (p in t ==> t[p] == u[p])
    requires forall id :: IsLinkId(id) ==>
               (ObjectPath(root, id) in t <==> ObjectPath(root, id) in u) &&
               (ObjectPath(root, id) in t ==> t[ObjectPath(root, id)] == u[ObjectPath(root, id)])
    ensures View(root, u) == View(root, t)
  {
    hide LinkTargetId, IsLinkId, StorePath, ObjectPath, RecordPath, LockPath, InStore, Parse;
    forall p | p in t && !InStore(root, p) ensures ReadEntry(root, u, p) == ReadEntry(root, t, p) {
      EntryIdIsLinkId(t, p);
    }
  }

  /** Trees that agree on the store and on the other names have the same names of object `id`,
      apart from the listed changes. */
  lemma NamesChange(root: string, t: Tree, u: Tree, id: string, gone: set<string>, come: set<string>)
    requires forall p :: !InStore(root, p) && p !in gone && p !in come ==>
               (p in t <==> p in u) && (p in t ==> t[p] == u[p])
    requires forall p :: p in gone && p !in come ==> !IsName(root, u, p, id)
    requires forall p :: p in come ==> IsName(root, u, p, id)
    ensures Names(root, u, id) == Names(root, t, id) - gone + come
  {
    hide LinkTargetId, IsLinkId, StorePath, ObjectPath, RecordPath, LockPath, InStore, Parse;
    forall p ensures p in Names(root, u, id) <==> p in Names(root, t, id) - gone + come {
      if InStore(root, p) {
      } else if p in come {
      } else if p in gone {
      } else {
        assert IsName(root, u, p, id) <==> IsName(root, t, p, id);
      }
    }
  }

  /** The objects and records of a tree whose store part did not change. */
  lemma StoreKept(root: string, t: Tree, u: Tree, open: string, exempt: string)
    requires ObjectsOk(root, t, open) && RecordsOwned(root, t)
    requires forall p :: InStore(root, p) ==> (p in t <==> p in u) && (p in t ==> t[p] == u[p])
    requires forall id :: IsLinkId(id) && id != exempt && ObjectPath(root, id) in t ==>
               |Names(root, u, id)| == |Names(root, t, id)|
    requires open == "" || open == exempt
    ensures ObjectsOk(root, u, exempt) && RecordsOwned(root, u)
  {
    hide LinkTargetId, IsLinkId, StorePath, ObjectPath, RecordPath, LockPath, InStore, Parse;
    EmptyIsNoId();
    forall id | IsLinkId(id)
      ensures InStore(root, ObjectPath(root, id)) && InStore(root, RecordPath(root, id))
    {
      StorePaths(root, id);
    }
    forall id | IsLinkId(id) && ObjectPath(root, id) in u
      ensures ObjectShape(root, u, id) && (id != exempt ==> Counted(root, u, id))
    {
      assert ObjectShape(root, t, id);
    }
  }

  /** A marker put at an unused name adds that name to one object and to no other. */
  lemma MarkerNames(root: string, t: Tree, id: string, name: string, text: string)
    requires IsLinkId(id) && !InStore(root, name) && EntryId(t, name) == ""
    requires LinkTargetId(text) == id && |text| <= RECORD_MAX
    ensures var u := t[name := Sym(text)];
            Names(root, u, id) == Names(root, t, id) + {name} &&
            |Names(root, u, id)| == |Names(root, t, id)| + 1 &&
            forall k :: IsLinkId(k) && k != id ==> Names(root, u, k) == Names(root, t, k)
  {
    hide LinkTargetId, IsLinkId, StorePath, ObjectPath, RecordPath, LockPath, InStore, Parse;
    EmptyIsNoId();
    var u := t[name := Sym(text)];
    NamesChange(root, t, u, id, {}, {name});
    assert name !in Names(root, t, id);
    forall k | IsLinkId(k) && k != id ensures Names(root, u, k) == Names(root, t, k) {
      OtherNames(root, t, id, name, text, k);
    }
  }

  lemma OtherNames(root: string, t: Tree, id: string, name: string, text: string, k: string)
    requires IsLinkId(k) && k != id && EntryId(t, name) == ""
    requires LinkTargetId(text) == id && |text| <= RECORD_MAX
    ensures Names(root, t[name := Sym(text)], k) == Names(root, t, k)
  {
    hide LinkTargetId, IsLinkId, StorePath, ObjectPath, RecordPath, LockPath, InStore, Parse;
    EmptyIsNoId();
    NamesChange(root, t, t[name := Sym(text)], k, {name}, {});
    assert name !in Names(root, t, k);
  }

  /** A new marker for an existing object: one more name of that file. */
  lemma AddMarker(root: string, t: Tree, id: string, new_: string, text: string)
    requires Inv(root, t) && IsLinkId(id) && ObjectPath(root, id) in t
    requires new_ !in t && !InStore(root, new_)
    requires LinkTargetId(text) == id && |text| <= RECORD_MAX
    ensures var u := t[new_ := Sym(text)];
            InvOpen(root, u, id) &&
            |Names(root, u, id)| == |Names(root, t, id)| + 1 &&
            t[ObjectPath(root, id)].File? &&
            View(root, u) == View(root, t)[new_ := Regular(t[ObjectPath(root, id)].ino)]
  {
    hide LinkTargetId, IsLinkId, StorePath, ObjectPath, RecordPath, LockPath, InStore, Parse, Names, Counted;
    EmptyIsNoId();
    var u := t[new_ := Sym(text)];
    StorePaths(root, id);
    assert ObjectShape(root, t, id);
    MarkerNames(root, t, id, new_, text);
    StoreKept(root, t, u, "", id);
    forall p | p in u && !InStore(root, p) && p != new_
      ensures ReadEntry(root, u, p) == ReadEntry(root, t, p)
      ensures EntryId(u, p) != "" ==> ObjectPath(root, EntryId(u, p)) in u
    {
      EntryIdIsLinkId(t, p);
      ObjectUntouched(root, t, u, EntryId(t, p));
    }
    ObjectUntouched(root, t, u, id);
  }

  /** A store path is not among changed names. */
  lemma ObjectUntouched(root: string, t: Tree, u: Tree, id: string)
    requires forall p :: InStore(root, p) ==> (p in t <==> p in u) && (p in t ==> t[p] == u[p])
    ensures IsLinkId(id) ==> (ObjectPath(root, id) in t <==> ObjectPath(root, id) in u)
    ensures IsLinkId(id) && ObjectPath(root, id) in t ==>
              t[ObjectPath(root, id)] == u[ObjectPath(root, id)]
  {
    if IsLinkId(id) {
      StorePaths(root, id);
    }
  }

  /** The tree after `name` became the object `id` with one marker. */
  function AsObject(root: string, t: Tree, id: string, name: string, text: string, record: string): Tree
    requires name in t
  {
    t[ObjectPath(root, id) := t[name]][RecordPath(root, id) := Sym(record)][name := Sym(text)]
  }

  /** What `link_new` asks of its arguments: a plain file outside the store and an unused id. */
  ghost predicate CanMakeObject(root: string, t: Tree, id: string, name: string, text: string, record: string) {
    Inv(root, t) && IsLinkId(id) && ObjectPath(root, id) !in t &&
    name in t && t[name].File? && !InStore(root, name) &&
    LinkTargetId(text) == id && |text| <= RECORD_MAX && |record| <= RECORD_MAX &&
    forall n :: n in Parse(record).names ==> n != "" && !InStore(root, n)
  }

  lemma NoNamesWithoutObject(root: string, t: Tree, id: string)
    requires MarkersLive(root, t) && IsLinkId(id) && ObjectPath(root, id) !in t
    ensures Names(root, t, id) == {}
  {
    hide LinkTargetId, IsLinkId, StorePath, ObjectPath, RecordPath, LockPath, InStore, Parse;
    EmptyIsNoId();
    assert forall p :: p in Names(root, t, id) ==> ObjectPath(root, EntryId(t, p)) in t;
  }

  lemma MakeObjectNames(root: string, t: Tree, id: string, name: string, text: string, record: string)
    requires CanMakeObject(root, t, id, name, text, record)
    ensures var u := AsObject(root, t, id, name, text, record);
            Names(root, u, id) == {name} &&
            forall k :: IsLinkId(k) && k != id ==> Names(root, u, k) == Names(root, t, k)
  {
    hide LinkTargetId, IsLinkId, StorePath, ObjectPath, RecordPath, LockPath, InStore, Parse, Counted, ObjectShape;
    EmptyIsNoId();
    var u := AsObject(root, t, id, name, text, record);
    StorePaths(root, id);
    NoNamesWithoutObject(root, t, id);
    NamesChange(root, t, u, id, {}, {name});
    forall k | IsLinkId(k) && k != id ensures Names(root, u, k) == Names(root, t, k) {
      NamesChange(root, t, u, k, {name}, {});
      assert name !in Names(root, t, k);
    }
  }

  lemma MakeObjectStore(root: string, t: Tree, id: string, name: string, text: string, record: string)
    requires CanMakeObject(root, t, id, name, text, record)
    ensures var u := AsObject(root, t, id, name, text, record);
            ObjectsOk(root, u, id) && RecordsOwned(root, u) && Sizes(root, u)
  {
    hide LinkTargetId, IsLinkId, StorePath, ObjectPath, RecordPath, LockPath, InStore, Parse, Names, MarkersLive,
         InodesDistinct;
    EmptyIsNoId();
    var u := AsObject(root, t, id, name, text, record);
    var o, r := ObjectPath(root, id), RecordPath(root, id);
    StorePaths(root, id);
    PathsInjective(root, id, id);
    MakeObjectNames(root, t, id, name, text, record);
    forall k | IsLinkId(k) && k != id
      ensures ObjectPath(root, k) !in {o, r, name} && RecordPath(root, k) !in {o, r, name}
    {
      PathsInjective(root, k, id);
      PathsInjective(root, id, k);
      StorePaths(root, k);
    }
    forall k | IsLinkId(k) && ObjectPath(root, k) in u
      ensures ObjectShape(root, u, k) && (k != id ==> Counted(root, u, k))
    {
      if k != id {
        assert ObjectShape(root, t, k);
      }
    }
  }

  lemma MakeObjectView(root: string, t: Tree, id: string, name: string, text: string, record: string)
    requires CanMakeObject(root, t, id, name, text, record)
    ensures var u := AsObject(root, t, id, name, text, record);
            MarkersLive(root, u) && View(root, u) == View(root, t)
  {
    hide LinkTargetId, IsLinkId, StorePath, ObjectPath, RecordPath, LockPath, InStore, Parse, Counted, ObjectShape,
         InodesDistinct, ObjectsOk, RecordsOwned;
    EmptyIsNoId();
    var u := AsObject(root, t, id, name, text, record);
    StorePaths(root, id);
    PathsInjective(root, id, id);
    forall p | p in u && !InStore(root, p)
      ensures ReadEntry(root, u, p) == ReadEntry(root, t, p)
      ensures EntryId(u, p) != "" ==> ObjectPath(root, EntryId(u, p)) in u
    {
      if p != name {
        var k := EntryId(t, p);
        EntryIdIsLinkId(t, p);
        if k != "" {
          PathsInjective(root, k, id);
          StorePaths(root, k);
        }
      }
    }
  }

  lemma MakeObjectInodes(root: string, t: Tree, id: string, name: string, text: string, record: string)
    requires CanMakeObject(root, t, id, name, text, record)
    ensures InodesDistinct(AsObject(root, t, id, name, text, record))
  {
    hide LinkTargetId, IsLinkId, StorePath, ObjectPath, RecordPath, LockPath, InStore, Parse, Counted, ObjectShape,
         ObjectsOk, RecordsOwned, MarkersLive;
    var u := AsObject(root, t, id, name, text, record);
    var o := ObjectPath(root, id);
    StorePaths(root, id);
    PathsInjective(root, id, id);
    forall p, q | p in u && q in u && p != q && u[p].File? && u[q].File? ensures u[p].ino != u[q].ino {
      var p', q' := if p == o then name else p, if q == o then name else q;
      assert p' in t && q' in t && t[p'] == u[p] && t[q'] == u[q] && p' != q';
    }
  }

  /** Turning a plain file into an object with one marker leaves the view as it was. */
  lemma MakeObject(root: string, t: Tree, id: string, name: string, text: string, record: string)
    requires CanMakeObject(root, t, id, name, text, record)
    ensures var u := AsObject(root, t, id, name, text, record);
            InvOpen(root, u, id) && Names(root, u, id) == {name} && View(root, u) == View(root, t)
  {
    MakeObjectNames(root, t, id, name, text, record);
    MakeObjectStore(root, t, id, name, text, record);
    MakeObjectView(root, t, id, name, text, record);
    MakeObjectInodes(root, t, id, name, text, record);
  }

  /** Removing a name that is not a marker. */
  lemma DropPlain(root: string, t: Tree, name: string)
    requires Inv(root, t) && name in t && !InStore(root, name) && EntryId(t, name) == ""
    ensures Inv(root, t - {name}) && View(root, t - {name}) == View(root, t) - {name}
  {
    hide LinkTargetId, IsLinkId, StorePath, ObjectPath, RecordPath, LockPath, InStore, Parse;
    EmptyIsNoId();
    var u := t - {name};
    forall k | IsLinkId(k) ensures Names(root, u, k) == Names(root, t, k) {
      NamesChange(root, t, u, k, {name}, {});
      assert name !in Names(root, t, k);
    }
    StoreKept(root, t, u, "", "");
    forall p | p in u && !InStore(root, p)
      ensures ReadEntry(root, u, p) == ReadEntry(root, t, p)
      ensures EntryId(u, p) != "" ==> ObjectPath(root, EntryId(u, p)) in u
    {
      EntryIdIsLinkId(t, p);
      ObjectUntouched(root, t, u, EntryId(t, p));
    }
  }

  /** One name fewer of one object, and the others as they were. */
  lemma DropNames(root: string, t: Tree, name: string)
    requires name in t && !InStore(root, name) && EntryId(t, name) != ""
    ensures var u, id := t - {name}, EntryId(t, name);
            Names(root, u, id) == Names(root, t, id) - {name} && name in Names(root, t, id) &&
            forall k :: IsLinkId(k) && k != id ==> Names(root, u, k) == Names(root, t, k)
  {
    hide LinkTargetId, IsLinkId, StorePath, ObjectPath, RecordPath, LockPath, InStore, Parse;
    EmptyIsNoId();
    var u, id := t - {name}, EntryId(t, name);
    NamesChange(root, t, u, id, {name}, {});
    forall k | IsLinkId(k) && k != id ensures Names(root, u, k) == Names(root, t, k) {
      NamesChange(root, t, u, k, {name}, {});
      assert name !in Names(root, t, k);
    }
  }

  /** Removing a marker: the record of its object now counts one name too many. */
  lemma DropMarker(root: string, t: Tree, name: string)
    requires Inv(root, t) && name in t && !InStore(root, name) && EntryId(t, name) != ""
    ensures var u, id := t - {name}, EntryId(t, name);
            InvOpen(root, u, id) && IsLinkId(id) && ObjectPath(root, id) in u &&
            CountAt(root, u, id) == |Names(root, u, id)| + 1 < COUNT_LIMIT &&
            View(root, u) == View(root, t) - {name}
  {
    hide LinkTargetId, IsLinkId, StorePath, ObjectPath, RecordPath, LockPath, InStore, Parse, Names;
    EmptyIsNoId();
    var u, id := t - {name}, EntryId(t, name);
    EntryIdIsLinkId(t, name);
    StorePaths(root, id);
    assert ObjectShape(root, t, id) && Counted(root, t, id);
    DropNames(root, t, name);
    StoreKept(root, t, u, "", id);
    forall p | p in u && !InStore(root, p)
      ensures ReadEntry(root, u, p) == ReadEntry(root, t, p)
      ensures EntryId(u, p) != "" ==> ObjectPath(root, EntryId(u, p)) in u
    {
      EntryIdIsLinkId(t, p);
      ObjectUntouched(root, t, u, EntryId(t, p));
    }
  }

  /** An object whose last name is gone is removed with its record. */
  lemma RemoveObject(root: string, t: Tree, id: string)
    requires InvOpen(root, t, id) && IsLinkId(id) && ObjectPath(root, id) in t
    requires Names(root, t, id) == {}
    ensures var u := t - {ObjectPath(root, id), RecordPath(root, id)};
            Inv(root, u) && View(root, u) == View(root, t)
  {
    hide LinkTargetId, IsLinkId, StorePath, ObjectPath, RecordPath, LockPath, InStore, Parse, Names, View, MarkersLive,
         ReadEntry, EntryId;
    EmptyIsNoId();
    var o, r := ObjectPath(root, id), RecordPath(root, id);
    var u := t - {o, r};
    StorePaths(root, id);
    forall k | IsLinkId(k)
      ensures Names(root, u, k) == Names(root, t, k)
      ensures k != id ==> ObjectPath(root, k) !in {o, r} && RecordPath(root, k) !in {o, r}
    {
      NamesAgree(root, t, u, k);
      PathsInjective(root, k, id);
      PathsInjective(root, id, k);
    }
    forall k | IsLinkId(k) && ObjectPath(root, k) in u
      ensures ObjectShape(root, u, k) && Counted(root, u, k)
    {
      assert ObjectShape(root, t, k);
    }
    RemoveObjectView(root, t, id);
  }

  lemma RemoveObjectView(root: string, t: Tree, id: string)
    requires MarkersLive(root, t) && IsLinkId(id) && Names(root, t, id) == {}
    ensures var u := t - {ObjectPath(root, id), RecordPath(root, id)};
            MarkersLive(root, u) && View(root, u) == View(root, t)
  {
    hide LinkTargetId, IsLinkId, StorePath, ObjectPath, RecordPath, LockPath, InStore, Parse, Names;
    EmptyIsNoId();
    var u := t - {ObjectPath(root, id), RecordPath(root, id)};
    StorePaths(root, id);
    forall p | p in u && !InStore(root, p)
      ensures ReadEntry(root, u, p) == ReadEntry(root, t, p)
      ensures EntryId(u, p) != "" ==> ObjectPath(root, EntryId(u, p)) in u
    {
      var k := EntryId(t, p);
      EntryIdIsLinkId(t, p);
      NameMember(root, t, p, id);
      if k != "" {
        PathsInjective(root, k, id);
      }
    }
  }

  /** The tree after the object was moved back over `name` and its record removed. */
  function Restored(root: string, t: Tree, id: string, name: string): Tree
    requires ObjectPath(root, id) in t
  {
    t[name := t[ObjectPath(root, id)]] - {ObjectPath(root, id), RecordPath(root, id)}
  }

  ghost predicate CanRestore(root: string, t: Tree, id: string, name: string) {
    InvOpen(root, t, id) && IsLinkId(id) && ObjectPath(root, id) in t &&
    IsName(root, t, name, id) && Names(root, t, id) == {name}
  }

  /** The paths of another object, and its names, are none of those that a restored file touches. */
  lemma RestoreApart(root: string, t: Tree, id: string, name: string, k: string)
    requires CanRestore(root, t, id, name) && IsLinkId(k) && k != id
    ensures Names(root, Restored(root, t, id, name), k) == Names(root, t, k)
    ensures var o, r := ObjectPath(root, id), RecordPath(root, id);
            ObjectPath(root, k) !in {o, r, name} && RecordPath(root, k) !in {o, r, name}
  {
    hide LinkTargetId, IsLinkId, StorePath, ObjectPath, RecordPath, LockPath, InStore, Parse, MarkersLive,
         InodesDistinct,
         RecordsOwned, Sizes;
    EmptyIsNoId();
    assert ObjectShape(root, t, id);
    StorePaths(root, id);
    PathsInjective(root, k, id);
    PathsInjective(root, id, k);
    StorePaths(root, k);
    NamesChange(root, t, Restored(root, t, id, name), k, {name}, {});
    assert name !in Names(root, t, k);
  }

  lemma RestoreStore(root: string, t: Tree, id: string, name: string)
    requires CanRestore(root, t, id, name)
    ensures var u := Restored(root, t, id, name);
            ObjectsOk(root, u, "") && RecordsOwned(root, u) && Sizes(root, u)
  {
    hide LinkTargetId, IsLinkId, StorePath, ObjectPath, RecordPath, LockPath, InStore, Parse, MarkersLive,
         InodesDistinct, Names,
         EntryId;
    EmptyIsNoId();
    var o, r := ObjectPath(root, id), RecordPath(root, id);
    var u := Restored(root, t, id, name);
    StorePaths(root, id);
    assert ObjectShape(root, t, id);
    forall k | IsLinkId(k) && k != id
      ensures Names(root, u, k) == Names(root, t, k)
      ensures ObjectPath(root, k) !in {o, r, name} && RecordPath(root, k) !in {o, r, name}
    {
      RestoreApart(root, t, id, name, k);
    }
    forall k | IsLinkId(k) && ObjectPath(root, k) in u
      ensures ObjectShape(root, u, k) && Counted(root, u, k)
    {
      assert k != id;
      assert ObjectShape(root, t, k);
    }
  }

  lemma RestoreView(root: string, t: Tree, id: string, name: string)
    requires CanRestore(root, t, id, name)
    ensures var u := Restored(root, t, id, name);
            MarkersLive(root, u) && View(root, u) == View(root, t)
  {
    hide LinkTargetId, IsLinkId, StorePath, ObjectPath, RecordPath, LockPath, InStore, Parse, Counted,
         InodesDistinct, RecordsOwned;
    EmptyIsNoId();
    var o, r := ObjectPath(root, id), RecordPath(root, id);
    var u := Restored(root, t, id, name);
    StorePaths(root, id);
    assert ObjectShape(root, t, id);
    forall p | p in u && !InStore(root, p)
      ensures ReadEntry(root, u, p) == ReadEntry(root, t, p)
      ensures EntryId(u, p) != "" ==> ObjectPath(root, EntryId(u, p)) in u
    {
      if p != name {
        var k := EntryId(t, p);
        EntryIdIsLinkId(t, p);
        assert k != id by {
          assert p !in Names(root, t, id);
        }
        if k != "" {
          PathsInjective(root, k, id);
          StorePaths(root, k);
        }
      }
    }
  }

  lemma RestoreInodes(root: string, t: Tree, id: string, name: string)
    requires CanRestore(root, t, id, name)
    ensures InodesDistinct(Restored(root, t, id, name))
  {
    hide LinkTargetId, IsLinkId, StorePath, ObjectPath, RecordPath, LockPath, InStore, Parse, Counted, ObjectShape,
         ObjectsOk, RecordsOwned, MarkersLive, Names;
    var u := Restored(root, t, id, name);
    var o := ObjectPath(root, id);
    StorePaths(root, id);
    forall p, q | p in u && q in u && p != q && u[p].File? && u[q].File? ensures u[p].ino != u[q].ino {
      var p', q' := if p == name then o else p, if q == name then o else q;
      assert p' in t && q' in t && t[p'] == u[p] && t[q'] == u[q] && p' != q';
    }
  }

  /** An object moved back over its only name: the collapse leaves the view as it was. */
  lemma RestoreName(root: string, t: Tree, id: string, name: string)
    requires CanRestore(root, t, id, name)
    ensures Inv(root, Restored(root, t, id, name))
    ensures View(root, Restored(root, t, id, name)) == View(root, t)
  {
    RestoreStore(root, t, id, name);
    RestoreView(root, t, id, name);
    RestoreInodes(root, t, id, name);
  }

  lemma OnlyMember<T>(s: set<T>, x: T)
    requires x in s && |s| == 1
    ensures s == {x}
  {
    assert |s - {x}| == 0;
  }

  // ---- renames ----

  function MoveEntry<T>(t: map<string, T>, old_: string, new_: string): map<string, T>
    requires old_ in t
  {
    (t - {old_})[new_ := t[old_]]
  }

  function SwapEntries<T>(t: map<string, T>, a: string, b: string): map<string, T>
    requires a in t && b in t
  {
    t[a := t[b]][b := t[a]]
  }

  /** A rename of non-directories between two names that are not names of one object. */
  ghost predicate CanMove(root: string, t: Tree, old_: string, new_: string) {
    Inv(root, t) && old_ in t && old_ != new_ && !InStore(root, old_) && !InStore(root, new_) &&
    (EntryId(t, old_) == "" || EntryId(t, old_) != EntryId(t, new_))
  }

  lemma NameMember(root: string, t: Tree, p: string, id: string)
    ensures p in Names(root, t, id) <==> IsName(root, t, p, id)
  {
  }

  lemma ReplaceMember<T>(s: set<T>, a: T, b: T)
    requires a in s && b !in s
    ensures |s - {a} + {b}| == |s|
  {
  }

  /** The set with `a`, if it has it, called `b`. */
  function Renamed<T>(s: set<T>, a: T, b: T): set<T> {
    s - {a, b} + (if a in s then {b} else {})
  }

  lemma MoveNames(root: string, t: Tree, old_: string, new_: string, k: string)
    requires CanMove(root, t, old_, new_) && IsLinkId(k)
    ensures var u := MoveEntry(t, old_, new_);
            Names(root, u, k) == Renamed(Names(root, t, k), old_, new_) &&
            (old_ in Names(root, t, k) <==> k == EntryId(t, old_)) &&
            (new_ in Names(root, t, k) <==> k == EntryId(t, new_)) &&
            (k != EntryId(t, new_) ==> |Names(root, u, k)| == |Names(root, t, k)|) &&
            (k == EntryId(t, new_) ==> |Names(root, u, k)| == |Names(root, t, k)| - 1)
  {
    hide LinkTargetId, IsLinkId, StorePath, ObjectPath, RecordPath, LockPath, InStore, Parse, InvOpen, Names;
    EmptyIsNoId();
    var u := MoveEntry(t, old_, new_);
    var names := Names(root, t, k);
    assert EntryId(u, new_) == EntryId(t, old_);
    assert EntryId(u, old_) == "";
    NameMember(root, t, old_, k);
    NameMember(root, t, new_, k);
    if k == EntryId(t, old_) {
      NamesChange(root, t, u, k, {old_, new_}, {new_});
      assert Names(root, u, k) == names - {old_} + {new_};
      ReplaceMember(names, old_, new_);
    } else {
      NamesChange(root, t, u, k, {old_, new_}, {});
      assert Names(root, u, k) == names - {new_};
    }
  }

  lemma MoveStore(root: string, t: Tree, old_: string, new_: string)
    requires CanMove(root, t, old_, new_)
    ensures var u, dst := MoveEntry(t, old_, new_), EntryId(t, new_);
            InvOpen(root, u, dst) &&
            (dst != "" ==> IsLinkId(dst) && ObjectPath(root, dst) in u &&
                           CountAt(root, u, dst) == |Names(root, u, dst)| + 1 < COUNT_LIMIT)
  {
    hide LinkTargetId, IsLinkId, StorePath, ObjectPath, RecordPath, LockPath, InStore, Parse, Names;
    EmptyIsNoId();
    var u, dst := MoveEntry(t, old_, new_), EntryId(t, new_);
    forall k | IsLinkId(k)
      ensures k != dst ==> |Names(root, u, k)| == |Names(root, t, k)|
      ensures k == dst ==> |Names(root, u, k)| == |Names(root, t, k)| - 1
    {
      MoveNames(root, t, old_, new_, k);
    }
    StoreKept(root, t, u, "", dst);
    EntryIdIsLinkId(t, new_);
    if dst != "" {
      assert ObjectShape(root, t, dst) && Counted(root, t, dst);
      StorePaths(root, dst);
    }
    assert MarkersLive(root, u) by {
      forall p | p in u && !InStore(root, p) && EntryId(u, p) != ""
        ensures ObjectPath(root, EntryId(u, p)) in u
      {
        var q := if p == new_ then old_ else p;
        EntryIdIsLinkId(t, q);
        ObjectUntouched(root, t, u, EntryId(t, q));
      }
    }
    assert InodesDistinct(u) by {
      forall p, q | p in u && q in u && p != q && u[p].File? && u[q].File? ensures u[p].ino != u[q].ino {
        var p', q' := if p == new_ then old_ else p, if q == new_ then old_ else q;
        assert p' in t && q' in t && t[p'] == u[p] && t[q'] == u[q] && p' != q';
      }
    }
  }

  lemma MoveView(root: string, t: Tree, old_: string, new_: string)
    requires CanMove(root, t, old_, new_)
    ensures View(root, MoveEntry(t, old_, new_)) == MoveEntry(View(root, t), old_, new_)
  {
    hide LinkTargetId, IsLinkId, StorePath, ObjectPath, RecordPath, LockPath, InStore, Parse, InvOpen;
    var u := MoveEntry(t, old_, new_);
    forall p | p in u && !InStore(root, p)
      ensures ReadEntry(root, u, p) == ReadEntry(root, t, if p == new_ then old_ else p)
    {
      var q := if p == new_ then old_ else p;
      EntryIdIsLinkId(t, q);
      ObjectUntouched(root, t, u, EntryId(t, q));
    }
  }

  ghost predicate CanSwap(root: string, t: Tree, a: string, b: string) {
    Inv(root, t) && a in t && b in t && !InStore(root, a) && !InStore(root, b)
  }

  /** The set with `a` and `b` in each other's place. */
  function Exchanged<T>(s: set<T>, a: T, b: T): set<T> {
    s - {a, b} + (if a in s then {b} else {}) + (if b in s then {a} else {})
  }

  lemma ExchangedSize<T>(s: set<T>, a: T, b: T)
    ensures |Exchanged(s, a, b)| == |s|
  {
    if a in s && b !in s {
      assert Exchanged(s, a, b) == s - {a} + {b};
      ReplaceMember(s, a, b);
    } else if a !in s && b in s {
      assert Exchanged(s, a, b) == s - {b} + {a};
      ReplaceMember(s, b, a);
    } else {
      assert Exchanged(s, a, b) == s;
    }
  }

  lemma SwapNames(root: string, t: Tree, a: string, b: string, k: string)
    requires CanSwap(root, t, a, b) && IsLinkId(k)
    ensures Names(root, SwapEntries(t, a, b), k) == Exchanged(Names(root, t, k), a, b)
    ensures |Names(root, SwapEntries(t, a, b), k)| == |Names(root, t, k)|
    ensures (a in Names(root, t, k) <==> EntryId(t, a) == k) && (b in Names(root, t, k) <==> EntryId(t, b) == k)
  {
    hide LinkTargetId, IsLinkId, StorePath, ObjectPath, RecordPath, LockPath, InStore, Parse, InvOpen, Names;
    var u, names := SwapEntries(t, a, b), Names(root, t, k);
    forall p ensures p in Names(root, u, k) <==> p in Exchanged(names, a, b) {
      NameMember(root, u, p, k);
      NameMember(root, t, if p == a then b else if p == b then a else p, k);
    }
    NameMember(root, t, a, k);
    NameMember(root, t, b, k);
    ExchangedSize(names, a, b);
  }

  lemma SwapEntry(root: string, t: Tree, a: string, b: string, p: string)
    requires CanSwap(root, t, a, b) && p in SwapEntries(t, a, b) && !InStore(root, p)
    ensures var u, q := SwapEntries(t, a, b), if p == a then b else if p == b then a else p;
            q in t && ReadEntry(root, u, p) == ReadEntry(root, t, q) && EntryId(u, p) == EntryId(t, q) &&
            (EntryId(u, p) != "" ==> ObjectPath(root, EntryId(u, p)) in u)
  {
    hide LinkTargetId, IsLinkId, StorePath, ObjectPath, RecordPath, LockPath, InStore, Parse, ObjectsOk, RecordsOwned,
         InodesDistinct;
    var q := if p == a then b else if p == b then a else p;
    EntryIdIsLinkId(t, q);
    ObjectUntouched(root, t, SwapEntries(t, a, b), EntryId(t, q));
  }

  lemma SwapView(root: string, t: Tree, a: string, b: string)
    requires CanSwap(root, t, a, b)
    ensures MarkersLive(root, SwapEntries(t, a, b))
    ensures View(root, SwapEntries(t, a, b)) == SwapEntries(View(root, t), a, b)
  {
    hide LinkTargetId, IsLinkId, StorePath, ObjectPath, RecordPath, LockPath, InStore, Parse, InvOpen, ReadEntry,
         EntryId;
    var u := SwapEntries(t, a, b);
    forall p | p in u && !InStore(root, p)
      ensures ReadEntry(root, u, p) == ReadEntry(root, t, if p == a then b else if p == b then a else p)
      ensures EntryId(u, p) != "" ==> ObjectPath(root, EntryId(u, p)) in u
    {
      SwapEntry(root, t, a, b, p);
    }
  }

  lemma SwapInodes(t: Tree, a: string, b: string)
    requires InodesDistinct(t) && a in t && b in t
    ensures InodesDistinct(SwapEntries(t, a, b))
  {
    var u := SwapEntries(t, a, b);
    forall p, q | p in u && q in u && p != q && u[p].File? && u[q].File? ensures u[p].ino != u[q].ino {
      var p' := if p == a then b else if p == b then a else p;
      var q' := if q == a then b else if q == b then a else q;
      assert p' in t && q' in t && t[p'] == u[p] && t[q'] == u[q] && p' != q';
    }
  }

  /** RENAME_EXCHANGE swaps what the guest sees at the two names and keeps every count. */
  lemma SwapKeeps(root: string, t: Tree, a: string, b: string)
    requires CanSwap(root, t, a, b)
    ensures Inv(root, SwapEntries(t, a, b))
    ensures View(root, SwapEntries(t, a, b)) == SwapEntries(View(root, t), a, b)
  {
    hide LinkTargetId, IsLinkId, StorePath, ObjectPath, RecordPath, LockPath, InStore, Parse, Names, MarkersLive,
         ObjectsOk,
         RecordsOwned, InodesDistinct, View;
    EmptyIsNoId();
    var u := SwapEntries(t, a, b);
    forall k | IsLinkId(k) ensures |Names(root, u, k)| == |Names(root, t, k)| {
      SwapNames(root, t, a, b, k);
    }
    StoreKept(root, t, u, "", "");
    SwapView(root, t, a, b);
    SwapInodes(t, a, b);
  }
}
