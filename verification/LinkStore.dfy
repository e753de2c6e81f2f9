/** The link store: creating, counting and giving up emulated hard links by changing host entries
    step by step (src/engines/rootless/link_store.cpp). */
module LinkStores {
  import opened GuestPath
  import opened Decimal
  import opened Errno
  import opened LinkMarker
  import opened LinkRecord
  import opened LinkView

  /** The host calls of `link_new` and `link_existing` that can fail. */
  datatype Call = SymlinkNew | MkdirStore | SymlinkTemp | RenameTemp | RenameObject | SymlinkOld

  /** At most one host call fails, with the given errno; the calls that undo earlier steps succeed. */
  datatype Fault = NoFault | Fails(call: Call, errno: nat)

  /** Which host calls of a release the host refuses, all of them ignored: the rename of the file back over
      the names in `stuck`, the new record, the removal of the object and of the record. */
  datatype Trouble = Trouble(stuck: set<string>, write: bool, dropObject: bool, dropRecord: bool)

  /** Nothing but a rename of the file back is refused. */
  function OnlyStuck(stuck: set<string>): Trouble {
    Trouble(stuck, false, false, false)
  }

  function CallErrno(fault: Fault, call: Call, natural: nat): nat {
    if fault.Fails? && fault.call == call && fault.errno > 0 then fault.errno else natural
  }

  /** symlink(2) without an injected failure. */
  function SymlinkErrno(t: Tree, path: string, text: string): nat {
    if path in t then EEXIST else if |text| > RECORD_MAX then ENAMETOOLONG else 0
  }

  function Dots(n: nat): string {
    if n == 0 then "" else "../" + Dots(n - 1)
  }

  /** Text of the marker at `name`: relative to the name's directory where that is possible. */
  function TargetFor(root: string, name: string, id: string): string {
    (if IsBelow(name, root) then
       var n := |Components(SuffixAfter(name, root))|;
       Dots(if n == 0 then 0 else n - 1) + STORE_DIR
     else StorePath(root)) + "/" + id
  }

  lemma DotsEnd(n: nat)
    ensures n > 0 ==> Dots(n) != "" && Dots(n)[|Dots(n)| - 1] == '/'
  {
  }

  /** Whatever prefix it was written with, the marker of a name reads back as its object. */
  lemma TargetForMarks(root: string, name: string, id: string)
    requires IsLinkId(id)
    ensures LinkTargetId(TargetFor(root, name, id)) == id
  {
    hide IsLinkId, Components, LinkTargetId, TargetFor;
    var head := TargetHead(root, name, id);
    if head == "" {
      BareMarker(id);
      assert head + STORE_DIR == STORE_DIR;
    } else {
      var h := head[..|head| - 1];
      assert head == h + "/";
      MarkerWithHead(h, id);
    }
  }

  /** A marker is the store's name and the id behind nothing, or behind something that ends in a slash. */
  lemma TargetHead(root: string, name: string, id: string) returns (head: string)
    ensures TargetFor(root, name, id) == head + STORE_DIR + "/" + id && (head == "" || head[|head| - 1] == '/')
  {
    hide Components;
    if IsBelow(name, root) {
      var n := |Components(SuffixAfter(name, root))|;
      DotsEnd(if n == 0 then 0 else n - 1);
      head := Dots(if n == 0 then 0 else n - 1);
    } else {
      var store := StorePath(root);
      head := store[..|store| - |STORE_DIR|];
      assert store == head + STORE_DIR;
    }
  }

  function Ups(n: nat): seq<string> {
    if n == 0 then [] else [".."] + Ups(n - 1)
  }

  lemma {:induction false} DotsParts(n: nat, rest: string)
    requires !IsAbsolute(rest)
    ensures Components(Dots(n) + rest) == Ups(n) + Components(rest)
    ensures !IsAbsolute(Dots(n) + rest)
  {
    hide Components;
    if n == 0 {
      assert Dots(n) + rest == rest && Ups(n) + Components(rest) == Components(rest);
    } else {
      DotsParts(n - 1, rest);
      var more := Dots(n - 1) + rest;
      assert Dots(n) + rest == ".." + ("/" + more);
      ComponentsRun("..", "/" + more);
      KeepOne("..");
      SlashThen(more);
      assert [".."] + (Ups(n - 1) + Components(rest)) == [".."] + Ups(n - 1) + Components(rest);
    }
  }

  lemma {:induction false} UpsCollapse(stack: seq<string>, n: nat, rest: seq<string>)
    requires n <= |stack|
    ensures Collapse(stack, Ups(n) + rest) == Collapse(stack[..|stack| - n], rest)
    decreases n
  {
    if n == 0 {
      assert Ups(n) + rest == rest && stack[..|stack| - n] == stack;
    } else {
      var all := Ups(n) + rest;
      assert all[0] == ".." && all[1..] == Ups(n - 1) + rest;
      UpsCollapse(stack[..|stack| - 1], n - 1, rest);
      assert stack[..|stack| - 1][..|stack| - n] == stack[..|stack| - n];
    }
  }

  lemma IdComponent(id: string)
    requires IsLinkId(id)
    ensures ValidComponent(id) && id != ".." && !IsAbsolute(STORE_DIR + "/" + id)
    ensures Components(STORE_DIR + "/" + id) == [STORE_DIR, id]
  {
    hide Components;
    assert STORE_DIR + "/" + id == STORE_DIR + ("/" + id);
    ComponentsRun(STORE_DIR, "/" + id);
    KeepOne(STORE_DIR);
    SlashThen(id);
    assert id + "" == id;
    ComponentsRun(id, "");
    KeepOne(id);
    NoComponents();
  }

  /** A marker below the root of its mount leads to its object for the host as well: looked up from the
      directory the name is in, its text is the object's path. */
  lemma MarkerLeadsHome(mount: seq<string>, parts: seq<string>, id: string)
    requires Canonical(mount) && Canonical(parts) && parts != [] && IsLinkId(id)
    ensures var root, parent := Build(mount), Build(mount + parts[..|parts| - 1]);
            NormalizeLexical(JoinPath(parent, TargetFor(root, Build(mount + parts), id))) == ObjectPath(root, id)
  {
    hide Components, Build, IsLinkId, LinkTargetId, JoinPath, NormalizeLexical, Collapse, Ups, Dots, TargetFor;
    var n := |parts|;
    var above := mount + parts[..n - 1];
    TargetBelow(mount, parts, id);
    IdComponent(id);
    var text := Dots(n - 1) + (STORE_DIR + "/" + id);
    DotsParts(n - 1, STORE_DIR + "/" + id);
    JoinedPath(Build(above), text);
    ComponentsBuild(above);
    CollapseConcat([], above, Ups(n - 1) + [STORE_DIR, id]);
    CollapsePlain([], above);
    assert [] + above == above;
    UpsCollapse(above, n - 1, [STORE_DIR, id]);
    assert above[..|above| - (n - 1)] == mount;
    CollapsePlain(mount, [STORE_DIR, id]);
    ObjectPathIs(mount, id);
    Normalized(JoinPath(Build(above), text), mount + [STORE_DIR, id]);
  }

  lemma TargetBelow(mount: seq<string>, parts: seq<string>, id: string)
    requires Canonical(mount) && Canonical(parts) && parts != []
    ensures TargetFor(Build(mount), Build(mount + parts), id) == Dots(|parts| - 1) + (STORE_DIR + "/" + id)
  {
    hide Components, Build, IsBelow, SuffixAfter, Join, TargetFor, Canonical, Dots, Ups;
    NameBelow(mount, parts);
    PartsOf(parts);
    TargetIs(Build(mount), Build(mount + parts), id, |parts|);
  }

  lemma TargetIs(root: string, name: string, id: string, n: nat)
    requires IsBelow(name, root) && |Components(SuffixAfter(name, root))| == n > 0
    ensures TargetFor(root, name, id) == Dots(n - 1) + (STORE_DIR + "/" + id)
  {
    hide Components, IsBelow, SuffixAfter, Dots;
    assert Dots(n - 1) + STORE_DIR + "/" + id == Dots(n - 1) + (STORE_DIR + "/" + id);
  }

  lemma PartsOf(parts: seq<string>)
    requires Canonical(parts)
    ensures Components(Join(parts)) == parts
  {
    ComponentsBuild(parts);
  }

  lemma Normalized(path: string, parts: seq<string>)
    requires Collapse([], Components(path)) == parts
    ensures NormalizeLexical(path) == Build(parts)
  {
  }

  lemma ObjectPathIs(mount: seq<string>, id: string)
    requires Canonical(mount)
    ensures ObjectPath(Build(mount), id) == Build(mount + [STORE_DIR, id])
  {
    assert mount + [STORE_DIR, id] == mount + [STORE_DIR] + [id];
    JoinSnoc(mount, STORE_DIR);
    JoinSnoc(mount + [STORE_DIR], id);
    if mount != [] {
      JoinEnd(mount);
    }
  }

  function Replaced(names: seq<string>, from: string, to: string): (r: seq<string>)
    ensures forall n :: n in r ==> n in names || n == to
  {
    if names == [] then []
    else [if names[0] == from then to else names[0]] + Replaced(names[1..], from, to)
  }

  /** The in-memory index: exactly the objects of the store, by inode and by path. */
  ghost predicate Indexed(root: string, t: Tree, objects: map<nat, string>, byPath: map<string, nat>) {
    (forall i :: i in objects ==>
      IsLinkId(objects[i]) && ObjectPath(root, objects[i]) in t && t[ObjectPath(root, objects[i])] == File(i)) &&
    (forall id :: IsLinkId(id) && ObjectPath(root, id) in t && t[ObjectPath(root, id)].File? ==>
      t[ObjectPath(root, id)].ino in objects && objects[t[ObjectPath(root, id)].ino] == id &&
      ObjectPath(root, id) in byPath && byPath[ObjectPath(root, id)] == t[ObjectPath(root, id)].ino) &&
    (forall p :: p in byPath ==> byPath[p] in objects && p == ObjectPath(root, objects[byPath[p]]))
  }

  /** The index only looks at the objects. */
  lemma IndexAgree(root: string, t: Tree, u: Tree, objects: map<nat, string>, byPath: map<string, nat>)
    requires Indexed(root, t, objects, byPath)
    requires forall id :: IsLinkId(id) ==>
               (ObjectPath(root, id) in t <==> ObjectPath(root, id) in u) &&
               (ObjectPath(root, id) in t ==> t[ObjectPath(root, id)] == u[ObjectPath(root, id)])
    ensures Indexed(root, u, objects, byPath)
  {
    hide IsLinkId, ObjectPath;
  }

  lemma IndexOutside(root: string, t: Tree, u: Tree, objects: map<nat, string>, byPath: map<string, nat>)
    requires Indexed(root, t, objects, byPath)
    requires forall p :: InStore(root, p) ==> (p in t <==> p in u) && (p in t ==> t[p] == u[p])
    ensures Indexed(root, u, objects, byPath)
  {
    hide IsLinkId, ObjectPath, InStore, Indexed;
    forall id | IsLinkId(id)
      ensures (ObjectPath(root, id) in t <==> ObjectPath(root, id) in u) &&
              (ObjectPath(root, id) in t ==> t[ObjectPath(root, id)] == u[ObjectPath(root, id)])
    {
      ObjectUntouched(root, t, u, id);
    }
    IndexAgree(root, t, u, objects, byPath);
  }

  /** A directory or lock entry in the store is no object and no record. */
  lemma AddStoreEntry(root: string, t: Tree, p: string, node: Node, open: string)
    requires InvOpen(root, t, open) && p !in t && (node.Dir? || node.Lock?)
    requires p == StorePath(root) || p == LockPath(root)
    ensures InvOpen(root, t[p := node], open) && View(root, t[p := node]) == View(root, t)
    ensures forall k :: IsLinkId(k) ==> Names(root, t[p := node], k) == Names(root, t, k)
    ensures InStore(root, p)
  {
    hide LinkTargetId, IsLinkId, StorePath, ObjectPath, RecordPath, LockPath, InStore, Parse;
    var u := t[p := node];
    StoreEntryPath(root, p);
    forall k | IsLinkId(k)
      ensures Names(root, u, k) == Names(root, t, k)
      ensures ObjectPath(root, k) != p && RecordPath(root, k) != p
    {
      NamesAgree(root, t, u, k);
      StorePaths(root, k);
    }
    forall k | IsLinkId(k) && ObjectPath(root, k) in u
      ensures ObjectShape(root, u, k) && (k != open ==> Counted(root, u, k))
    {
      assert ObjectShape(root, t, k);
    }
    ViewAgree(root, t, u);
    forall q | q in u && !InStore(root, q) && EntryId(u, q) != ""
      ensures ObjectPath(root, EntryId(u, q)) in u
    {
      assert EntryId(t, q) == EntryId(u, q);
    }
    assert InodesDistinct(u);
  }

  lemma StoreEntryPath(root: string, p: string)
    requires p == StorePath(root) || p == LockPath(root)
    ensures InStore(root, p) && |p| <= |StorePath(root)| + 6
  {
    StoreShape(root);
  }

  /** The tree `link_new` leaves behind. */
  function Linked(root: string, t: Tree, id: string, old_: string, new_: string, record: string): Tree
    requires old_ in t
  {
    AsObject(root, t, id, old_, TargetFor(root, old_, id), record)[new_ := Sym(TargetFor(root, new_, id))]
  }

  /** A plain file linked for the first time: two names of one file, and a record counting two. */
  lemma LinkNewKeeps(root: string, t: Tree, id: string, old_: string, new_: string)
    requires Inv(root, t) && IsLinkId(id) && ObjectPath(root, id) !in t
    requires old_ in t && t[old_].File? && new_ !in t && old_ != "" && new_ != ""
    requires !InStore(root, old_) && !InStore(root, new_)
    requires |TargetFor(root, old_, id)| <= RECORD_MAX && |TargetFor(root, new_, id)| <= RECORD_MAX
    ensures var u := Linked(root, t, id, old_, new_, Text(Record(2, [old_, new_])));
            Inv(root, u) && View(root, u) == View(root, t)[new_ := View(root, t)[old_]]
  {
    hide LinkTargetId, IsLinkId, StorePath, ObjectPath, RecordPath, InStore, Parse, TargetFor, InvOpen, Names, Text,
         View;
    var m1, m2 := TargetFor(root, old_, id), TargetFor(root, new_, id);
    TargetForMarks(root, old_, id);
    TargetForMarks(root, new_, id);
    StorePaths(root, id);
    PathsInjective(root, id, id);
    var one := Text(Record(1, [old_]));
    assert one == Text(Record(1, [old_])) && CanMakeObject(root, t, id, old_, m1, one) by {
      RecordRoundTrip(Record(1, [old_]));
    }
    var u1 := AsObject(root, t, id, old_, m1, one);
    MakeObject(root, t, id, old_, m1, one);
    SingleNameSettled(root, u1, id, old_);
    AddMarker(root, u1, id, new_, m2);
    var u2 := u1[new_ := Sym(m2)];
    SetRecord(root, u2, id, id, Record(2, [old_, new_]));
    var u3 := u2[RecordPath(root, id) := Sym(Text(Record(2, [old_, new_])))];
    assert u3 == Linked(root, t, id, old_, new_, Text(Record(2, [old_, new_])));
    ViewOfFile(root, t, old_);
  }

  lemma ViewOfFile(root: string, t: Tree, p: string)
    requires p in t && t[p].File? && !InStore(root, p)
    ensures p in View(root, t) && View(root, t)[p] == Regular(t[p].ino)
  {
  }

  lemma SingleNameSettled(root: string, u: Tree, id: string, name: string)
    requires InvOpen(root, u, id) && IsLinkId(id) && Names(root, u, id) == {name}
    requires RecordPath(root, id) in u && u[RecordPath(root, id)] == Sym(Text(Record(1, [name]))) && name != ""
    ensures Inv(root, u)
  {
    hide LinkTargetId, IsLinkId, StorePath, ObjectPath, RecordPath, InStore, Parse, Text, Names;
    RecordRoundTrip(Record(1, [name]));
    assert |Names(root, u, id)| == 1;
    assert CountAt(root, u, id) == 1;
    assert Counted(root, u, id);
  }

  /** The id a store listing shows at a path, "" for anything that is not an object. */
  function IdOfPath(root: string, p: string): string {
    var n := |StorePath(root)| + 1;
    if |p| == n + ID_LEN && p[..n] == StorePath(root) + "/" && IsLinkId(p[n..]) then p[n..] else ""
  }

  lemma IdOfPathIff(root: string, p: string, id: string)
    requires IsLinkId(id)
    ensures IdOfPath(root, p) == id <==> p == ObjectPath(root, id)
    ensures IdOfPath(root, p) != "" ==> IsLinkId(IdOfPath(root, p)) && p == ObjectPath(root, IdOfPath(root, p))
  {
    var n := |StorePath(root)| + 1;
    if p == ObjectPath(root, id) {
      assert p[..n] == StorePath(root) + "/" && p[n..] == id;
    }
    if IdOfPath(root, p) != "" {
      assert p == p[..n] + p[n..];
    }
  }

  /** The index while the paths in `todo` are still to be listed. */
  ghost predicate IndexedBut(root: string, t: Tree, objects: map<nat, string>, byPath: map<string, nat>,
                             todo: set<string>) {
    (forall i :: i in objects ==>
      IsLinkId(objects[i]) && ObjectPath(root, objects[i]) in t && t[ObjectPath(root, objects[i])] == File(i)) &&
    (forall id ::
      (IsLinkId(id) && ObjectPath(root, id) in t && ObjectPath(root, id) !in todo &&
       t[ObjectPath(root, id)].File?) ==>
      t[ObjectPath(root, id)].ino in objects && objects[t[ObjectPath(root, id)].ino] == id &&
      ObjectPath(root, id) in byPath && byPath[ObjectPath(root, id)] == t[ObjectPath(root, id)].ino) &&
    (forall p :: p in byPath ==> byPath[p] in objects && p == ObjectPath(root, objects[byPath[p]]))
  }

  lemma IndexNothing(root: string, t: Tree)
    ensures IndexedBut(root, t, map[], map[], t.Keys)
  {
  }

  lemma IndexComplete(root: string, t: Tree, objects: map<nat, string>, byPath: map<string, nat>)
    requires IndexedBut(root, t, objects, byPath, {})
    ensures Indexed(root, t, objects, byPath)
  {
    hide IsLinkId, ObjectPath;
  }

  /** What a listed path says about the objects of the store. */
  lemma ListedPath(root: string, p: string)
    ensures var id := IdOfPath(root, p);
            if id != "" then IsLinkId(id) && p == ObjectPath(root, id) &&
              (forall k :: IsLinkId(k) && ObjectPath(root, k) == p ==> k == id)
            else forall k :: IsLinkId(k) ==> ObjectPath(root, k) != p
  {
    hide IsLinkId, ObjectPath, IdOfPath;
    EmptyIsNoId();
    IdOfPathIsObject(root, p);
    forall k | IsLinkId(k) ensures IdOfPath(root, p) == k <==> p == ObjectPath(root, k) {
      IdOfPathIff(root, p, k);
    }
  }

  lemma IndexMore(root: string, t: Tree, objects: map<nat, string>, byPath: map<string, nat>, todo: set<string>,
                  p: string)
    requires Inv(root, t) && IndexedBut(root, t, objects, byPath, todo) && p in todo && p in t
    ensures var id := IdOfPath(root, p);
            if id != "" then
              IsLinkId(id) && p == ObjectPath(root, id) && t[p].File? &&
              IndexedBut(root, t, objects[t[p].ino := id], byPath[p := t[p].ino], todo - {p})
            else IndexedBut(root, t, objects, byPath, todo - {p})
  {
    hide IsLinkId, ObjectPath, IdOfPath, InvOpen, IndexedBut;
    ListedPath(root, p);
    var id := IdOfPath(root, p);
    if id != "" {
      ObjectIsFile(root, t, id);
      InvInodesOf(root, t);
      IndexAdd(root, t, objects, byPath, todo, p, id);
    } else {
      IndexSkip(root, t, objects, byPath, todo, p);
    }
  }

  lemma InvInodesOf(root: string, t: Tree)
    requires Inv(root, t)
    ensures InodesDistinct(t)
  {
  }

  lemma IndexAdd(root: string, t: Tree, objects: map<nat, string>, byPath: map<string, nat>, todo: set<string>,
                 p: string,
                 id: string)
    requires InodesDistinct(t) && IndexedBut(root, t, objects, byPath, todo) && p in todo && p in t && t[p].File?
    requires IsLinkId(id) && p == ObjectPath(root, id)
    requires forall k :: IsLinkId(k) && ObjectPath(root, k) == p ==> k == id
    ensures IndexedBut(root, t, objects[t[p].ino := id], byPath[p := t[p].ino], todo - {p})
  {
    hide IsLinkId, ObjectPath;
  }

  lemma IndexSkip(root: string, t: Tree, objects: map<nat, string>, byPath: map<string, nat>, todo: set<string>,
                  p: string)
    requires IndexedBut(root, t, objects, byPath, todo) && forall k :: IsLinkId(k) ==> ObjectPath(root, k) != p
    ensures IndexedBut(root, t, objects, byPath, todo - {p})
  {
    hide IsLinkId, ObjectPath;
  }

  lemma IdOfPathIsObject(root: string, p: string)
    ensures IdOfPath(root, p) != "" ==> IsLinkId(IdOfPath(root, p)) && p == ObjectPath(root, IdOfPath(root, p))
  {
    if IdOfPath(root, p) != "" {
      IdOfPathIff(root, p, IdOfPath(root, p));
    }
  }

  /** No object appears except possibly `id`. */
  ghost predicate NoNewObject(root: string, t: Tree, u: Tree, id: string) {
    forall k :: IsLinkId(k) && ObjectPath(root, k) in u ==> ObjectPath(root, k) in t || k == id
  }

  class LinkStore {
    const root: string
    const pid: nat
    var tree: Tree                // the host tree of the mount
    var objects: map<nat, string> // objects_: inode -> id
    var byPath: map<string, nat>  // by_path_: object path -> inode
    var counter: nat              // g_counter

    ghost predicate Valid()
      reads this
    {
      Inv(root, tree) && Indexed(root, tree, objects, byPath)
    }

    /** A session starts with an empty index on whatever tree it finds. */
    constructor (root: string, tree: Tree, pid: nat)
      ensures this.root == root && this.tree == tree && this.pid == pid
      ensures objects == map[] && byPath == map[]
    {
      this.root, this.tree, this.pid := root, tree, pid;
      objects, byPath, counter := map[], map[], 0;
    }

    /** Registers the objects an earlier session left in the store, in whatever order they are listed. */
    method Scan()
      requires Inv(root, tree) && objects == map[] && byPath == map[]
      modifies this`objects, this`byPath
      ensures Valid()
    {
      hide StorePath, IsLinkId, ObjectPath, Inv, LinkTargetId;
      var todo := tree.Keys;
      IndexNothing(root, tree);
      while todo != {}
        invariant todo <= tree.Keys && IndexedBut(root, tree, objects, byPath, todo)
        decreases |todo|
      {
        var p :| p in todo;
        var id := IdOfPath(root, p);
        IndexMore(root, tree, objects, byPath, todo, p);
        if id != "" {
          Remember(id);
        }
        todo := todo - {p};
      }
      IndexComplete(root, tree, objects, byPath);
    }

    method Remember(id: string)
      modifies this`objects, this`byPath
      ensures var o := ObjectPath(root, id);
              if o in tree && tree[o].File?
              then objects == old(objects)[tree[o].ino := id] && byPath == old(byPath)[o := tree[o].ino]
              else objects == old(objects) && byPath == old(byPath)
    {
      var path := ObjectPath(root, id);
      if path in tree && tree[path].File? {
        objects := objects[tree[path].ino := id];
        byPath := byPath[path := tree[path].ino];
      }
    }

    method Forget(id: string)
      modifies this`objects, this`byPath
      ensures var o := ObjectPath(root, id);
              if o in old(byPath)
              then objects == old(objects) - {old(byPath)[o]} && byPath == old(byPath) - {o}
              else objects == old(objects) && byPath == old(byPath)
    {
      var path := ObjectPath(root, id);
      if path in byPath {
        objects := objects - {byPath[path]};
        byPath := byPath - {path};
      }
    }

    /** `write_record`: the text goes to a temporary symlink that is renamed over the record. */
    method WriteRecord(id: string, rec: Record, fault: Fault) returns (e: nat)
      requires Sizes(root, tree) && IsLinkId(id)
      modifies this`tree, this`counter
      ensures e == 0 ==> tree == old(tree)[RecordPath(root, id) := Sym(Text(rec))] && |Text(rec)| <= RECORD_MAX
      ensures e != 0 ==> tree == old(tree)
      ensures fault.NoFault? && |Text(rec)| <= RECORD_MAX ==> e == 0
      ensures fault.Fails? && fault.errno > 0 && fault.call in {SymlinkTemp, RenameTemp} ==> e != 0
    {
      hide Text, StorePath, LinkTargetId, IsLinkId, InStore, RecordPath, ToDecimal;
      var body := BuildText(rec);
      counter := counter + 1;
      var final := RecordPath(root, id);
      var tmp := TempPath(root, id, pid, counter);
      TempUnused(root, tree, id, tmp);
      e := CallErrno(fault, SymlinkTemp, SymlinkErrno(tree, tmp, body));
      if e != 0 {
        return;
      }
      tree := tree[tmp := Sym(body)];
      e := CallErrno(fault, RenameTemp, 0);
      if e != 0 {
        tree := tree - {tmp};
        return;
      }
      tree := tree[final := tree[tmp]] - {tmp};
    }

    /** mkdir of the store and its lock: the two entries a refused link may leave behind. */
    method OpenStore(make: bool, fault: Fault) returns (e: nat)
      modifies this`tree
      ensures e == 0 ==> tree == WithStore(root, old(tree), make)
      ensures e != 0 ==> tree == old(tree) && make && fault.Fails?
      ensures make && fault.Fails? && fault.call == MkdirStore && fault.errno !in {0, EEXIST} ==> e != 0
      ensures fault.Fails? && fault.call != MkdirStore ==> e == 0
    {
      hide StorePath, LockPath;
      var store := StorePath(root);
      e := 0;
      if make {
        e := CallErrno(fault, MkdirStore, if store in tree then EEXIST else 0);
        if e != 0 && e != EEXIST {
          return;
        }
        e := 0;
        if store !in tree {
          tree := tree[store := Dir];
        }
      }
      if LockPath(root) !in tree {
        tree := tree[LockPath(root) := Lock];
      }
    }

    /** The host calls of `link_new` in order, each failure undone before its errno is returned. */
    method LinkNewCalls(id: string, old_: string, new_: string, fault: Fault) returns (e: nat)
      requires Sizes(root, tree) && Sizes(root, WithStore(root, tree, true)) && IsLinkId(id)
      requires ObjectPath(root, id) !in WithStore(root, tree, true) &&
               RecordPath(root, id) !in WithStore(root, tree, true)
      requires old_ in tree && tree[old_].File? && old_ != "" && new_ != ""
      requires !InStore(root, old_) && !InStore(root, new_)
      modifies this`tree, this`counter
      ensures e == 0 ==>
                (new_ !in old(tree) &&
                 tree == Linked(root, WithStore(root, old(tree), true), id, old_, new_, Text(Record(2, [old_, new_]))))
      ensures e != 0 ==> tree == old(tree) || tree == WithStore(root, old(tree), true)
      ensures e == 0 ==> |TargetFor(root, old_, id)| <= RECORD_MAX && |TargetFor(root, new_, id)| <= RECORD_MAX
      ensures (fault.NoFault? && new_ !in old(tree) && |TargetFor(root, old_, id)| <= RECORD_MAX &&
               |TargetFor(root, new_, id)| <= RECORD_MAX) ==> e == 0
      ensures fault.NoFault? && new_ in old(tree) ==> e == EEXIST
      ensures fault.Fails? && fault.errno !in {0, EEXIST} ==> e != 0
    {
      hide StorePath, LockPath, InStore, LinkTargetId, IsLinkId, TargetFor, Text, ObjectPath, RecordPath, WithStore,
           AsObject;
      var o, r := ObjectPath(root, id), RecordPath(root, id);
      ghost var t1 := WithStore(root, tree, true);
      StorePaths(root, id);
      PathsInjective(root, id, id);
      StoreNotName(root, new_);
      StoreNotName(root, old_);
      WithStoreOld(root, tree, new_);
      WithStoreOld(root, tree, old_);
      var newText, oldText := TargetFor(root, new_, id), TargetFor(root, old_, id);
      e := CallErrno(fault, SymlinkNew, SymlinkErrno(tree, new_, newText));
      if e != 0 {
        return;
      }
      WithStoreName(root, tree, new_, Sym(newText));
      assert new_ !in t1;
      UndoAdd(tree, new_, Sym(newText));
      UndoAdd(t1, new_, Sym(newText));
      tree := tree[new_ := Sym(newText)];
      e := OpenStore(true, fault);
      if e != 0 {
        tree := tree - {new_};
        return;
      }
      e := LinkNewLocked(id, old_, new_, fault, t1);
    }

    /** The rest of them, once the new name and the store are there. */
    method LinkNewLocked(id: string, old_: string, new_: string, fault: Fault, ghost t1: Tree) returns (e: nat)
      requires IsLinkId(id) && old_ in t1 && t1[old_].File? && new_ !in t1 && old_ != "" && new_ != ""
      requires ObjectPath(root, id) !in t1 && RecordPath(root, id) !in t1 && !InStore(root, old_) &&
               !InStore(root, new_)
      requires tree == t1[new_ := Sym(TargetFor(root, new_, id))] && Sizes(root, t1) &&
               |TargetFor(root, new_, id)| <= RECORD_MAX
      modifies this`tree, this`counter
      ensures e == 0 ==> tree == Linked(root, t1, id, old_, new_, Text(Record(2, [old_, new_])))
      ensures e != 0 ==> tree == t1
      ensures e == 0 ==> |TargetFor(root, old_, id)| <= RECORD_MAX
      ensures fault.NoFault? && |TargetFor(root, old_, id)| <= RECORD_MAX ==> e == 0
      ensures fault.Fails? && fault.errno > 0 && fault.call in {SymlinkTemp, RenameTemp, RenameObject, SymlinkOld}
              ==> e != 0
    {
      hide StorePath, LockPath, InStore, LinkTargetId, IsLinkId, TargetFor, Text, ObjectPath, RecordPath, AsObject;
      var o, r := ObjectPath(root, id), RecordPath(root, id);
      StorePaths(root, id);
      PathsInjective(root, id, id);
      var newText, oldText := TargetFor(root, new_, id), TargetFor(root, old_, id);
      UndoAdd(t1, new_, Sym(newText));
      NamesSized(root, t1, new_, newText);
      ghost var t2 := tree;
      var rec := Record(2, [old_, new_]);
      RecordRoundTrip(rec);
      e := WriteRecord(id, rec, fault);
      if e != 0 {
        tree := tree - {new_};
        return;
      }
      ghost var t3 := t2[r := Sym(Text(rec))];
      UndoAdd(t2, r, Sym(Text(rec)));
      e := CallErrno(fault, RenameObject, 0);
      if e != 0 {
        tree := tree - {r};
        tree := tree - {new_};
        return;
      }
      UndoMove(t3, old_, o);
      LinkedSteps(t1, o, r, old_, new_, Sym(Text(rec)), Sym(oldText), Sym(newText));
      LinkedIs(root, t1, id, old_, new_, Text(rec));
      tree := tree[o := tree[old_]] - {old_};
      e := CallErrno(fault, SymlinkOld, SymlinkErrno(tree, old_, oldText));
      if e != 0 {
        tree := tree[old_ := tree[o]] - {o};
        tree := tree - {r};
        tree := tree - {new_};
        return;
      }
      tree := tree[old_ := Sym(oldText)];
    }

    /** link(2) from a plain file: the file becomes the object and both names link to it. A refused
        link leaves no trace beyond an empty store. */
    method LinkNew(id: string, old_: string, new_: string, fault: Fault) returns (e: nat)
      requires Valid() && IsLinkId(id) && ObjectPath(root, id) !in tree
      requires old_ in tree && tree[old_].File? && old_ != "" && new_ != ""
      requires !InStore(root, old_) && !InStore(root, new_)
      modifies this
      ensures Valid()
      ensures e == 0 ==>
                (new_ !in old(tree) &&
                 View(root, tree) == old(View(root, tree))[new_ := old(View(root, tree))[old_]] &&
                 tree == Linked(root, WithStore(root, old(tree), true), id, old_, new_,
                                Text(Record(2, [old_, new_]))) &&
                 |TargetFor(root, old_, id)| <= RECORD_MAX && |TargetFor(root, new_, id)| <= RECORD_MAX)
      ensures e != 0 ==>
                (StoreOnly(root, old(tree), tree) && View(root, tree) == old(View(root, tree)) &&
                 objects == old(objects) && byPath == old(byPath))
      ensures fault.NoFault? ==>
                (e == 0 <==> new_ !in old(tree) && |TargetFor(root, old_, id)| <= RECORD_MAX &&
                             |TargetFor(root, new_, id)| <= RECORD_MAX)
      ensures fault.NoFault? && new_ in old(tree) ==> e == EEXIST
      ensures fault.Fails? && fault.errno !in {0, EEXIST} ==> e != 0
      ensures NoNewObject(root, old(tree), tree, id)
    {
      hide StorePath, LockPath, InStore, LinkTargetId, IsLinkId, Names, View, TargetFor, Text, Indexed, InvOpen,
           ObjectPath, RecordPath, Sizes, WithStore;
      ghost var t0, t1 := tree, WithStore(root, tree, true);
      WithStoreKeeps(root, t0, true, "", objects, byPath);
      RecordOfNew(root, id, t1);
      InvSizes(root, t0, "");
      InvSizes(root, t1, "");
      ViewOfFile(root, t0, old_);
      e := LinkNewCalls(id, old_, new_, fault);
      if e != 0 {
        StoreOnlyRefl(root, t0);
        return;
      }
      LinkNewKeeps(root, t1, id, old_, new_);
      ghost var objects0, byPath0 := objects, byPath;
      Remember(id);
      LinkedObjects(root, t1, id, old_, new_, Text(Record(2, [old_, new_])));
      IndexNew(root, t1, tree, id, objects0, byPath0);
    }

    /** `read_record`: nothing when there is no record to read. */
    method ReadRecord(id: string) returns (found: bool, rec: Record)
      ensures found == (RecordPath(root, id) in tree && tree[RecordPath(root, id)].Sym? &&
                        |tree[RecordPath(root, id)].text| <= RECORD_MAX)
      ensures found ==> rec == Parse(tree[RecordPath(root, id)].text)
    {
      var r := RecordPath(root, id);
      found, rec := false, Record(1, []);
      if r in tree && tree[r].Sym? && |tree[r].text| <= RECORD_MAX {
        found := true;
        rec := ParseText(tree[r].text);
      }
    }

    /** The host calls of `link_existing` in order. */
    method LinkExistingCalls(id: string, new_: string, fault: Fault) returns (e: nat)
      requires Inv(root, tree) && Inv(root, WithStore(root, tree, false)) && IsLinkId(id)
      requires ObjectPath(root, id) in WithStore(root, tree, false) <==> ObjectPath(root, id) in tree
      requires |Names(root, WithStore(root, tree, false), id)| + 1 < COUNT_LIMIT
      requires new_ != "" && !InStore(root, new_)
      modifies this`tree, this`counter
      ensures e == 0 ==>
                (new_ !in old(tree) && ObjectPath(root, id) in old(tree) && |TargetFor(root, new_, id)| <= RECORD_MAX &&
                 var t1 := WithStore(root, old(tree), false);
                 RecordPath(root, id) in t1 && t1[RecordPath(root, id)].Sym? &&
                 tree == OneMore(root, t1, id, new_))
      ensures e != 0 ==> tree == old(tree) || tree == WithStore(root, old(tree), false)
      ensures (fault.NoFault? && new_ !in old(tree) && ObjectPath(root, id) in old(tree) &&
               |TargetFor(root, new_, id)| <= RECORD_MAX) ==> e == 0
      ensures ObjectPath(root, id) !in old(tree) ==> e == ENOENT
      ensures fault.NoFault? && ObjectPath(root, id) in old(tree) && new_ in old(tree) ==> e == EEXIST
      ensures fault.Fails? && fault.errno !in {0, EEXIST} && fault.call in {SymlinkNew, SymlinkTemp, RenameTemp} ==>
                e != 0
    {
      hide StorePath, LockPath, InStore, LinkTargetId, IsLinkId, TargetFor, Text, ObjectPath, RecordPath, Names, Parse;
      var o, r := ObjectPath(root, id), RecordPath(root, id);
      ghost var t0, t1 := tree, WithStore(root, tree, false);
      if o !in tree {
        return ENOENT;
      }
      StorePaths(root, id);
      StoreNotName(root, new_);
      assert ObjectShape(root, t1, id) && Counted(root, t1, id) by { EmptyIsNoId(); }
      var text := TargetFor(root, new_, id);
      e := CallErrno(fault, SymlinkNew, SymlinkErrno(tree, new_, text));
      if e != 0 {
        return;
      }
      WithStoreName(root, tree, new_, Sym(text));
      UndoAdd(t1, new_, Sym(text));
      tree := tree[new_ := Sym(text)];
      // The source looks at the object once more here, under the lock: see module LinkRace.
      var _ := OpenStore(false, NoFault);
      ghost var t2 := t1[new_ := Sym(text)];
      assert tree == t2;
      assert o in tree && r in tree && tree[r] == t1[r];
      var found, rec := ReadRecord(id);
      assert found && rec == Parse(t1[r].text);
      BumpedFits(rec, new_);
      e := WriteRecord(id, Bumped(rec, new_), fault);
      if e != 0 {
        tree := tree - {new_};
        return;
      }
    }

    /** link(2) to an existing object: one more name of the same file. */
    method LinkExisting(id: string, new_: string, fault: Fault) returns (e: nat)
      requires Valid() && IsLinkId(id) && new_ != "" && !InStore(root, new_)
      requires |Names(root, tree, id)| + 1 < COUNT_LIMIT
      modifies this
      ensures Valid()
      ensures e == 0 ==>
                (new_ !in old(tree) && ObjectPath(root, id) in old(tree) && old(tree[ObjectPath(root, id)].File?) &&
                 View(root, tree) == old(View(root, tree))[new_ := Regular(old(tree[ObjectPath(root, id)].ino))] &&
                 |TargetFor(root, new_, id)| <= RECORD_MAX &&
                 var t1 := WithStore(root, old(tree), false);
                 RecordPath(root, id) in t1 && t1[RecordPath(root, id)].Sym? && tree == OneMore(root, t1, id, new_))
      ensures e != 0 ==>
                (StoreOnly(root, old(tree), tree) && View(root, tree) == old(View(root, tree)) &&
                 objects == old(objects) && byPath == old(byPath))
      ensures fault.NoFault? ==>
                (e == 0 <==> ObjectPath(root, id) in old(tree) && new_ !in old(tree) &&
                             |TargetFor(root, new_, id)| <= RECORD_MAX)
      ensures ObjectPath(root, id) !in old(tree) ==> e == ENOENT
      ensures fault.NoFault? && ObjectPath(root, id) in old(tree) && new_ in old(tree) ==> e == EEXIST
      ensures fault.Fails? && fault.errno !in {0, EEXIST} && fault.call in {SymlinkNew, SymlinkTemp, RenameTemp} ==>
                e != 0
      ensures NoNewObject(root, old(tree), tree, "")
    {
      hide StorePath, LockPath, InStore, LinkTargetId, IsLinkId, Names, View, TargetFor, Text, Indexed, InvOpen,
           ObjectPath, RecordPath, Sizes, WithStore, Parse;
      ghost var t0, t1 := tree, WithStore(root, tree, false);
      WithStoreKeeps(root, t0, false, "", objects, byPath);
      ObjectIsFile(root, t0, id);
      e := LinkExistingCalls(id, new_, fault);
      if e != 0 {
        StoreOnlyRefl(root, t0);
        return;
      }
      LinkExistingKeeps(root, t1, id, new_);
      LinkExistingIndex(root, t1, tree, id, new_, objects, byPath);
      Remember(id);
    }

    /** Drops one name of `id` that is already gone: the object goes with its last name, and a single
        remaining name gets its file back. What the host refuses is ignored: the guest's view is right in any
        case, and the store is, exactly unless the refused call was due. A record that could not be lowered
        counts one name too many; otherwise what is left over has no name. */
    method Release(id: string, gone: string, trouble: Trouble)
      requires Releasable(root, tree, id) && Indexed(root, tree, objects, byPath)
      modifies this
      ensures View(root, tree) == old(View(root, tree))
      ensures var t := WithStore(root, old(tree), false);
              HasRecord(root, t, id) && tree == Released(root, t, id, gone, trouble) &&
              Ended(root, t, tree, id, EndingOf(root, t, id, gone, trouble.stuck), trouble, objects, byPath)
      ensures Valid() <==> !Spoils(EndingOf(root, WithStore(root, old(tree), false), id, gone, trouble.stuck), trouble)
      ensures NoNewObject(root, old(tree), tree, "")
    {
      hide StorePath, LockPath, InStore, LinkTargetId, IsLinkId, Names, View, Text, Indexed, InvOpen, ObjectPath,
           RecordPath,
           Sizes, WithStore, Parse, Restored, Without, Counted, Cleared, FirstLive, EntryId, WithoutObject, Ended,
           Releasable, Spoils;
      ReleasableMeans(root, tree, id);
      ghost var t0 := tree;
      WithStoreKeeps(root, t0, false, id, objects, byPath);
      var _ := OpenStore(false, NoFault);
      WithStoreRecord(root, t0, id);
      RecordPresent(root, tree, id);
      ReleasableMeans(root, tree, id);
      ghost var t1, end := tree, EndingOf(root, tree, id, gone, trouble.stuck);
      var found, rec := ReadRecord(id);
      if !found {
        return;
      }
      rec := Record(if rec.count > 0 then rec.count - 1 else 0, Without(rec.names, gone));
      var o, r := ObjectPath(root, id), RecordPath(root, id);
      if rec.count == 0 {
        assert end == Removed;
        EndsRemoved(root, t1, id, gone, trouble, objects, byPath);
        Forget(id);
        if !trouble.dropObject {
          tree := tree - {o};
        }
        if !trouble.dropRecord {
          tree := tree - {r};
        }
        assert tree == t1 - (if trouble.dropObject then {} else {o}) - (if trouble.dropRecord then {} else {r});
        EndedMeans(root, t1, tree, id, end, trouble, objects, byPath);
        return;
      }
      if rec.count == 1 {
        var i := 0;
        while i < |rec.names|
          invariant 0 <= i <= |rec.names|
          invariant tree == t1 && objects == old(objects) && byPath == old(byPath)
          invariant forall k :: 0 <= k < i ==> !Replaceable(t1, id, trouble.stuck, rec.names[k])
        {
          var name := rec.names[i];
          if EntryId(tree, name) == id && name !in trouble.stuck {
            FirstLiveIs(t1, id, trouble.stuck, rec.names, i);
            assert end == MovedBack(name);
            EndsMovedBack(root, t1, id, gone, trouble, objects, byPath);
            tree := tree[name := tree[o]] - {o};
            Forget(id);
            if !trouble.dropRecord {
              tree := tree - {r};
            }
            assert tree == t1[name := t1[o]] - {o} - (if trouble.dropRecord then {} else {r});
            EndedMeans(root, t1, tree, id, end, trouble, objects, byPath);
            return;
          }
          i := i + 1;
        }
        FirstLiveIs(t1, id, trouble.stuck, rec.names, |rec.names|);
      }
      assert end == Lowered(rec);
      EndsLowered(root, t1, id, gone, trouble, objects, byPath);
      if !trouble.write {
        var _ := WriteRecord(id, rec, NoFault);
      }
      EndedMeans(root, t1, tree, id, end, trouble, objects, byPath);
    }

    /** unlink(2) of an emulated link; `errno` is what the host's unlink answers. */
    method UnlinkName(id: string, name: string, errno: nat, trouble: Trouble) returns (e: nat)
      requires Valid() && !InStore(root, name) && id != "" && EntryId(tree, name) == id
      modifies this
      ensures e == errno
      ensures errno != 0 ==> tree == old(tree) && objects == old(objects) && byPath == old(byPath)
      ensures errno == 0 ==> View(root, tree) == old(View(root, tree)) - {name}
      ensures errno == 0 ==>
                var t := WithStore(root, old(tree) - {name}, false);
                HasRecord(root, t, id) && tree == Released(root, t, id, name, trouble) &&
                (Valid() <==> !Spoils(EndingOf(root, t, id, name, trouble.stuck), trouble))
      ensures errno != 0 || !(trouble.write || trouble.dropObject || trouble.dropRecord) ==> Valid()
      ensures NoNewObject(root, old(tree), tree, "")
    {
      hide StorePath, LockPath, InStore, LinkTargetId, IsLinkId, Names, View, Text, Indexed, InvOpen,
           ObjectPath, RecordPath, Sizes, WithStore, Parse;
      if errno != 0 {
        return errno;
      }
      DropMarker(root, tree, name);
      IndexOutside(root, tree, tree - {name}, objects, byPath);
      tree := tree - {name};
      Release(id, name, trouble);
      e := 0;
    }

    /** A rename that already happened replaced the emulated link `name`. */
    method NameDropped(id: string, name: string, trouble: Trouble)
      requires Releasable(root, tree, id) && Indexed(root, tree, objects, byPath)
      modifies this
      ensures View(root, tree) == old(View(root, tree))
      ensures var t := WithStore(root, old(tree), false);
              HasRecord(root, t, id) && tree == Released(root, t, id, name, trouble) &&
              (Valid() <==> !Spoils(EndingOf(root, t, id, name, trouble.stuck), trouble))
      ensures NoNewObject(root, old(tree), tree, "")
    {
      Release(id, name, trouble);
    }

    /** A rename that already happened moved an emulated link: only the recorded names change. A record
        that cannot be written keeps the old names, and its count is right all the same. */
    method NameMoved(id: string, from: string, to: string, refused: bool)
      requires Valid() && IsLinkId(id)
      requires to != "" && !InStore(root, to)
      modifies this
      ensures Valid()
      ensures View(root, tree) == old(View(root, tree))
      ensures var t, r := WithStore(root, old(tree), false), RecordPath(root, id);
              tree == if !refused && r in t && t[r].Sym? && |t[r].text| <= RECORD_MAX
                      then t[r := Sym(Text(RecordedMove(Parse(t[r].text), from, to)))] else t
      ensures NoNewObject(root, old(tree), tree, "")
    {
      hide StorePath, LockPath, InStore, LinkTargetId, IsLinkId, Names, View, Text, Indexed, InvOpen,
           ObjectPath, RecordPath, Sizes, WithStore, Parse;
      ghost var t0 := tree;
      WithStoreKeeps(root, t0, false, "", objects, byPath);
      var _ := OpenStore(false, NoFault);
      ghost var t1 := tree;
      var found, rec := ReadRecord(id);
      if !found || refused {
        return;
      }
      RecordHasObject(root, t1, id);
      var names := Replaced(rec.names, from, to);
      if to !in names {
        names := names + [to];
      }
      rec := Record(rec.count, names);
      InvSizes(root, t1, "");
      RecordRoundTrip(rec);
      SetRecord(root, t1, "", id, rec);
      RecordIndex(root, t1, id, Sym(Text(rec)), objects, byPath);
      var _ := WriteRecord(id, rec, NoFault);
    }
  }

  /** The tree with one more marker of an object and its count raised. */
  function OneMore(root: string, t: Tree, id: string, new_: string): Tree
    requires RecordPath(root, id) in t && t[RecordPath(root, id)].Sym?
  {
    t[new_ := Sym(TargetFor(root, new_, id))]
     [RecordPath(root, id) := Sym(Text(Bumped(Parse(t[RecordPath(root, id)].text), new_)))]
  }

  /** The name still is an emulated link to `id`, and the host lets it be replaced. */
  predicate Replaceable(t: Tree, id: string, stuck: set<string>, name: string) {
    EntryId(t, name) == id && name !in stuck
  }

  /** The first recorded name the file can go back to. */
  function FirstLive(t: Tree, id: string, stuck: set<string>, names: seq<string>): (i: nat)
    ensures i <= |names| && (forall k :: 0 <= k < i ==> !Replaceable(t, id, stuck, names[k]))
    ensures i < |names| ==> Replaceable(t, id, stuck, names[i])
  {
    if names == [] || Replaceable(t, id, stuck, names[0]) then 0 else 1 + FirstLive(t, id, stuck, names[1..])
  }

  lemma FirstLiveIs(t: Tree, id: string, stuck: set<string>, names: seq<string>, i: nat)
    requires i <= |names| && (forall k :: 0 <= k < i ==> !Replaceable(t, id, stuck, names[k]))
    requires i < |names| ==> Replaceable(t, id, stuck, names[i])
    ensures FirstLive(t, id, stuck, names) == i
  {
  }

  /** An object with a name too many in its record, because one was just given up. */
  ghost predicate Releasable(root: string, t: Tree, id: string) {
    InvOpen(root, t, id) && IsLinkId(id) && ObjectPath(root, id) in t &&
    CountAt(root, t, id) == |Names(root, t, id)| + 1 < COUNT_LIMIT
  }

  predicate HasRecord(root: string, t: Tree, id: string) {
    ObjectPath(root, id) in t && RecordPath(root, id) in t && t[RecordPath(root, id)].Sym?
  }

  /** What becomes of an object that gives up a name: it goes with its last name, its file goes back to a
      recorded name when that is the only one left, and otherwise its record is lowered by one. */
  datatype Ending = Removed | MovedBack(name: string) | Lowered(rec: Record)

  function EndingOf(root: string, t: Tree, id: string, gone: string, stuck: set<string>): Ending
    requires HasRecord(root, t, id)
  {
    var rec := Parse(t[RecordPath(root, id)].text);
    var count, names := if rec.count > 0 then rec.count - 1 else 0, Without(rec.names, gone);
    if count == 0 then Removed
    else if count == 1 && FirstLive(t, id, stuck, names) < |names| then MovedBack(names[FirstLive(t, id, stuck, names)])
    else Lowered(Record(count, names))
  }

  /** The tree it leaves, with what the host refused undone. */
  function Released(root: string, t: Tree, id: string, gone: string, trouble: Trouble): Tree
    requires HasRecord(root, t, id)
  {
    var o, r := ObjectPath(root, id), RecordPath(root, id);
    match EndingOf(root, t, id, gone, trouble.stuck)
    case Removed => t - (if trouble.dropObject then {} else {o}) - (if trouble.dropRecord then {} else {r})
    case MovedBack(name) => t[name := t[o]] - {o} - (if trouble.dropRecord then {} else {r})
    case Lowered(rec) => if trouble.write then t else t[r := Sym(Text(rec))]
  }

  /** The refused call was due. */
  predicate Spoils(e: Ending, trouble: Trouble) {
    match e
    case Removed => trouble.dropObject || trouble.dropRecord
    case MovedBack(_) => trouble.dropRecord
    case Lowered(_) => trouble.write
  }

  function WithoutObject(root: string, t: Tree, id: string): Tree {
    t - {ObjectPath(root, id), RecordPath(root, id)}
  }

  /** What is left of an object has no name, and the store is right without it. */
  ghost predicate Cleared(root: string, t: Tree, id: string) {
    Names(root, t, id) == {} && Inv(root, WithoutObject(root, t, id))
  }

  /** Left-over parts of an object without names are not seen, and break the invariant. */
  lemma Litter(root: string, c: Tree, u: Tree, id: string)
    requires Inv(root, c) && IsLinkId(id) && ObjectPath(root, id) !in c && WithoutObject(root, u, id) == c
    ensures Cleared(root, u, id) && View(root, u) == View(root, c)
    ensures Inv(root, u) <==> u == c
  {
    hide LinkTargetId, IsLinkId, StorePath, ObjectPath, RecordPath, LockPath, InStore, Parse, Names;
    EmptyIsNoId();
    var o, r := ObjectPath(root, id), RecordPath(root, id);
    StorePaths(root, id);
    NoNamesWithoutObject(root, c, id);
    assert forall p :: p !in {o, r} ==> (p in u <==> p in c) && (p in c ==> u[p] == c[p]);
    NamesAgree(root, c, u, id);
    LitterView(root, c, u, id);
    if o in u {
      assert !Counted(root, u, id);
      assert !ObjectsOk(root, u, "");
    }
    if o !in u && r !in u {
      assert u == c;
    }
  }

  lemma LitterView(root: string, c: Tree, u: Tree, id: string)
    requires IsLinkId(id) && Names(root, c, id) == {}
    requires forall p :: p !in {ObjectPath(root, id), RecordPath(root, id)} ==>
               (p in u <==> p in c) && (p in c ==> u[p] == c[p])
    ensures View(root, u) == View(root, c)
  {
    hide LinkTargetId, IsLinkId, StorePath, ObjectPath, RecordPath, LockPath, InStore, Parse, Names;
    StorePaths(root, id);
    forall p | p in c && !InStore(root, p) ensures ReadEntry(root, u, p) == ReadEntry(root, c, p) {
      var k := EntryId(c, p);
      EntryIdIsLinkId(c, p);
      NameMember(root, c, p, id);
      if k != "" {
        PathsInjective(root, k, id);
      }
    }
  }

  lemma LitterRemoved(root: string, t: Tree, id: string, trouble: Trouble)
    requires Inv(root, WithoutObject(root, t, id)) && IsLinkId(id) && HasRecord(root, t, id)
    ensures var u := t - (if trouble.dropObject then {} else {ObjectPath(root, id)}) -
                     (if trouble.dropRecord then {} else {RecordPath(root, id)});
            WithoutObject(root, u, id) == WithoutObject(root, t, id) && Cleared(root, u, id) &&
            View(root, u) == View(root, WithoutObject(root, t, id)) &&
            (Inv(root, u) <==> !trouble.dropObject && !trouble.dropRecord)
  {
    hide LinkTargetId, IsLinkId, StorePath, ObjectPath, RecordPath, LockPath, InStore, Parse, Names, InvOpen, View,
         Cleared;
    var o, r := ObjectPath(root, id), RecordPath(root, id);
    PathsInjective(root, id, id);
    var c := WithoutObject(root, t, id);
    var u := t - (if trouble.dropObject then {} else {o}) - (if trouble.dropRecord then {} else {r});
    assert u - {o, r} == c;
    Litter(root, c, u, id);
    assert o in u <==> trouble.dropObject;
    assert r in u <==> trouble.dropRecord;
    if !trouble.dropObject && !trouble.dropRecord {
      assert u == c;
    }
  }

  lemma LitterRestored(root: string, t: Tree, id: string, name: string, trouble: Trouble)
    requires IsLinkId(id) && HasRecord(root, t, id) && name != ObjectPath(root, id) && name != RecordPath(root, id)
    requires Inv(root, Restored(root, t, id, name))
    ensures var u := t[name := t[ObjectPath(root, id)]] - {ObjectPath(root, id)} -
                     (if trouble.dropRecord then {} else {RecordPath(root, id)});
            WithoutObject(root, u, id) == Restored(root, t, id, name) && Cleared(root, u, id) &&
            View(root, u) == View(root, Restored(root, t, id, name)) && (Inv(root, u) <==> !trouble.dropRecord) &&
            (!trouble.dropRecord ==> u == Restored(root, t, id, name))
  {
    hide LinkTargetId, IsLinkId, StorePath, ObjectPath, RecordPath, LockPath, InStore, Parse, Names, InvOpen, View,
         Cleared;
    var o, r := ObjectPath(root, id), RecordPath(root, id);
    PathsInjective(root, id, id);
    var c := Restored(root, t, id, name);
    var u := t[name := t[o]] - {o} - (if trouble.dropRecord then {} else {r});
    assert u - {o, r} == c;
    Litter(root, c, u, id);
    assert r in u <==> trouble.dropRecord;
    if !trouble.dropRecord {
      assert u == c;
    }
  }

  /** What a release leaves of the store: the guest sees no difference; nothing is wrong unless a refused call
      was due; a record that was not lowered counts one name too many, and what else is left has no name. */
  ghost predicate Ended(root: string, t: Tree, u: Tree, id: string, e: Ending, trouble: Trouble,
                        objects: map<nat, string>,
                        byPath: map<string, nat>) {
    View(root, u) == View(root, t) && NoNewObject(root, t, u, "") &&
    (Inv(root, u) && Indexed(root, u, objects, byPath) <==> !Spoils(e, trouble)) &&
    (e.Lowered? && trouble.write ==> Releasable(root, u, id) && Indexed(root, u, objects, byPath)) &&
    (!e.Lowered? ==> Cleared(root, u, id) && Indexed(root, WithoutObject(root, u, id), objects, byPath))
  }

  lemma EndedMeans(root: string, t: Tree, u: Tree, id: string, e: Ending, trouble: Trouble, objects: map<nat, string>,
                   byPath: map<string, nat>)
    requires Ended(root, t, u, id, e, trouble, objects, byPath)
    ensures View(root, u) == View(root, t) && NoNewObject(root, t, u, "")
    ensures Inv(root, u) && Indexed(root, u, objects, byPath) <==> !Spoils(e, trouble)
  {
  }

  lemma ReleasableMeans(root: string, t: Tree, id: string)
    ensures Releasable(root, t, id) <==>
              InvOpen(root, t, id) && IsLinkId(id) && ObjectPath(root, id) in t &&
              CountAt(root, t, id) == |Names(root, t, id)| + 1 < COUNT_LIMIT
  {
  }

  lemma ReleasedRecord(root: string, t: Tree, id: string)
    requires Releasable(root, t, id)
    ensures HasRecord(root, t, id) && t[ObjectPath(root, id)].File?
    ensures var rec := Parse(t[RecordPath(root, id)].text);
            rec.count == |Names(root, t, id)| + 1 && forall n :: n in rec.names ==> n != "" && !InStore(root, n)
  {
    hide StorePath, ObjectPath, RecordPath, Parse, InStore, InvOpen, IsLinkId;
    RecordPresent(root, t, id);
  }

  lemma NoNewMeans(root: string, t: Tree, u: Tree)
    requires forall k :: IsLinkId(k) && ObjectPath(root, k) in u ==> ObjectPath(root, k) in t
    ensures NoNewObject(root, t, u, "")
  {
  }

  lemma EndsRemoved(root: string, t: Tree, id: string, gone: string, trouble: Trouble, objects: map<nat, string>,
                    byPath: map<string, nat>)
    requires Releasable(root, t, id) && Indexed(root, t, objects, byPath)
    requires HasRecord(root, t, id) && EndingOf(root, t, id, gone, trouble.stuck) == Removed
    ensures ObjectPath(root, id) in byPath
    ensures var o := ObjectPath(root, id);
            Ended(root, t, Released(root, t, id, gone, trouble), id, Removed, trouble, objects - {byPath[o]},
                  byPath - {o})
  {
    hide StorePath, LockPath, InStore, LinkTargetId, IsLinkId, Names, View, Text, Indexed, InvOpen, ObjectPath,
         RecordPath,
         Parse, Restored, Without, Cleared, FirstLive, EntryId;
    ReleasedRecord(root, t, id);
    ObjectGone(root, t, id, objects, byPath);
    LitterRemoved(root, t, id, trouble);
    var u := Released(root, t, id, gone, trouble);
    if !trouble.dropObject && !trouble.dropRecord {
      assert u == WithoutObject(root, t, id);
    }
    NoNewMeans(root, t, u);
  }

  lemma EndsMovedBack(root: string, t: Tree, id: string, gone: string, trouble: Trouble, objects: map<nat, string>,
                      byPath: map<string, nat>)
    requires Releasable(root, t, id) && Indexed(root, t, objects, byPath)
    requires HasRecord(root, t, id) && EndingOf(root, t, id, gone, trouble.stuck).MovedBack?
    ensures ObjectPath(root, id) in byPath
    ensures var o := ObjectPath(root, id); var e := EndingOf(root, t, id, gone, trouble.stuck);
            e.name != o && e.name != RecordPath(root, id) &&
            Ended(root, t, Released(root, t, id, gone, trouble), id, e, trouble, objects - {byPath[o]}, byPath - {o})
  {
    hide StorePath, LockPath, InStore, LinkTargetId, IsLinkId, Names, View, Text, Indexed, InvOpen, ObjectPath,
         RecordPath,
         Parse, Restored, Without, Cleared, FirstLive, EntryId;
    ReleasedRecord(root, t, id);
    var name := EndingOf(root, t, id, gone, trouble.stuck).name;
    NameRestored(root, t, id, name, objects, byPath);
    LitterRestored(root, t, id, name, trouble);
    MovedBackIsOld(root, t, id, name, trouble);
  }

  lemma MovedBackIsOld(root: string, t: Tree, id: string, name: string, trouble: Trouble)
    requires IsLinkId(id) && HasRecord(root, t, id) && !InStore(root, name)
    ensures var u := t[name := t[ObjectPath(root, id)]] - {ObjectPath(root, id)} -
                     (if trouble.dropRecord then {} else {RecordPath(root, id)});
            NoNewObject(root, t, u, "")
  {
    hide IsLinkId, ObjectPath, RecordPath, InStore;
    forall k | IsLinkId(k) ensures ObjectPath(root, k) != name {
      StorePaths(root, k);
    }
  }

  lemma EndsLowered(root: string, t: Tree, id: string, gone: string, trouble: Trouble, objects: map<nat, string>,
                    byPath: map<string, nat>)
    requires Releasable(root, t, id) && Indexed(root, t, objects, byPath)
    requires HasRecord(root, t, id) && EndingOf(root, t, id, gone, trouble.stuck).Lowered?
    ensures var e := EndingOf(root, t, id, gone, trouble.stuck);
            |Text(e.rec)| <= RECORD_MAX &&
            Ended(root, t, Released(root, t, id, gone, trouble), id, e, trouble, objects, byPath)
    ensures Sizes(root, t)
  {
    hide StorePath, LockPath, InStore, LinkTargetId, IsLinkId, Names, View, Text, Indexed, InvOpen, ObjectPath,
         RecordPath,
         Parse, Restored, Without, Cleared, FirstLive, EntryId, Sizes;
    ReleasedRecord(root, t, id);
    var rec := EndingOf(root, t, id, gone, trouble.stuck).rec;
    InvSizes(root, t, id);
    RecordRoundTrip(rec);
    if trouble.write {
      NotCounted(root, t, id);
      NoNewMeans(root, t, t);
    } else {
      SetRecord(root, t, id, id, rec);
      RecordIndex(root, t, id, Sym(Text(rec)), objects, byPath);
      RecordIsNoObject(root, t, id, Sym(Text(rec)));
    }
  }

  lemma RecordIsNoObject(root: string, t: Tree, id: string, node: Node)
    requires IsLinkId(id)
    ensures NoNewObject(root, t, t[RecordPath(root, id) := node], "")
  {
    hide IsLinkId, ObjectPath, RecordPath;
    forall k | IsLinkId(k) ensures ObjectPath(root, k) != RecordPath(root, id) {
      PathsInjective(root, k, id);
    }
  }

  lemma NotCounted(root: string, t: Tree, id: string)
    requires Releasable(root, t, id)
    ensures !Inv(root, t)
  {
    hide LinkTargetId, IsLinkId, StorePath, ObjectPath, RecordPath, LockPath, InStore, Parse, Names;
    EmptyIsNoId();
    assert Inv(root, t) ==> Counted(root, t, id);
  }

  /** A file goes back to its last name exactly when the record lists that name and the host can replace it; if
      not it stays in the store, with the name a marker. */
  lemma LastNameIsRestored(root: string, t: Tree, id: string, gone: string, trouble: Trouble, last: string)
    requires InvOpen(root, t, id) && IsLinkId(id) && ObjectPath(root, id) in t && CountAt(root, t, id) == 2
    requires Names(root, t, id) == {last} && last != gone
    requires RecordPath(root, id) in t && t[RecordPath(root, id)].Sym?
    ensures var u, o := Released(root, t, id, gone, trouble), ObjectPath(root, id);
            if last in Parse(t[RecordPath(root, id)].text).names && last !in trouble.stuck then
              last in u && u[last] == t[o] && u[last].File? && o !in u &&
              (RecordPath(root, id) in u <==> trouble.dropRecord)
            else o in u && u[o] == t[o] && last in u && u[last] == t[last] && EntryId(u, last) == id
  {
    hide StorePath, LinkTargetId, IsLinkId, Names, Parse, InStore, InvOpen, ObjectPath, RecordPath;
    var recorded := Parse(t[RecordPath(root, id)].text).names;
    var names := Without(recorded, gone);
    RecordPresent(root, t, id);
    StorePaths(root, id);
    PathsInjective(root, id, id);
    NameMember(root, t, last, id);
    LinkIdNonEmpty(id);
    var i := FirstLive(t, id, trouble.stuck, names);
    if i < |names| {
      assert Replaceable(t, id, trouble.stuck, names[i]) && names[i] in names;
      assert names[i] in recorded;
      NameMember(root, t, names[i], id);
      assert names[i] == last;
    }
    if last in recorded && last !in trouble.stuck {
      assert last in names;
      assert i < |names|;
    }
  }

  lemma LinkIdNonEmpty(id: string)
    requires IsLinkId(id)
    ensures id != ""
  {
  }

  /** The recorded names of `id` after one was renamed. */
  function RecordedMove(rec: Record, from: string, to: string): Record {
    var names := Replaced(rec.names, from, to);
    Record(rec.count, if to in names then names else names + [to])
  }

  /** What `link_existing` makes of a record. */
  function Bumped(rec: Record, new_: string): Record {
    Record(rec.count + 1, if new_ in rec.names then rec.names else rec.names + [new_])
  }

  lemma BumpedFits(rec: Record, new_: string)
    requires rec.count + 1 < COUNT_LIMIT && new_ != "" && "" !in rec.names
    ensures |Text(Bumped(rec, new_))| <= RECORD_MAX
  {
    RecordRoundTrip(Bumped(rec, new_));
  }

  lemma ObjectIsFile(root: string, t: Tree, id: string)
    requires Inv(root, t) && IsLinkId(id)
    ensures ObjectPath(root, id) in t ==> t[ObjectPath(root, id)].File?
  {
    assert ObjectPath(root, id) in t ==> ObjectShape(root, t, id);
  }

  lemma LinkExistingKeeps(root: string, t: Tree, id: string, new_: string)
    requires Inv(root, t) && IsLinkId(id) && ObjectPath(root, id) in t
    requires new_ !in t && new_ != "" && !InStore(root, new_)
    requires |TargetFor(root, new_, id)| <= RECORD_MAX && |Names(root, t, id)| + 1 < COUNT_LIMIT
    requires RecordPath(root, id) in t && t[RecordPath(root, id)].Sym?
    ensures t[ObjectPath(root, id)].File?
    ensures var u := t[new_ := Sym(TargetFor(root, new_, id))]
                      [RecordPath(root, id) := Sym(Text(Bumped(Parse(t[RecordPath(root, id)].text), new_)))];
            Inv(root, u) && View(root, u) == View(root, t)[new_ := Regular(t[ObjectPath(root, id)].ino)]
  {
    hide StorePath, InStore, LinkTargetId, IsLinkId, Names, View, TargetFor, Text, ObjectPath, RecordPath, Parse;
    var rec := Parse(t[RecordPath(root, id)].text);
    EmptyIsNoId();
    assert ObjectShape(root, t, id) && Counted(root, t, id);
    TargetForMarks(root, new_, id);
    AddMarker(root, t, id, new_, TargetFor(root, new_, id));
    var u1 := t[new_ := Sym(TargetFor(root, new_, id))];
    SetRecord(root, u1, id, id, Bumped(rec, new_));
  }

  lemma LinkExistingIndex(root: string, t: Tree, u: Tree, id: string, new_: string, objects: map<nat, string>,
                          byPath: map<string, nat>)
    requires Indexed(root, t, objects, byPath) && IsLinkId(id) && !InStore(root, new_)
    requires ObjectPath(root, id) in t && t[ObjectPath(root, id)].File?
    requires RecordPath(root, id) in u && new_ in u
    requires u == t[new_ := u[new_]][RecordPath(root, id) := u[RecordPath(root, id)]]
    ensures Indexed(root, u, objects, byPath)
    ensures var o := ObjectPath(root, id);
            o in u && u[o].File? && objects == objects[u[o].ino := id] && byPath == byPath[o := u[o].ino]
    ensures NoNewObject(root, t, u, "")
  {
    hide IsLinkId, ObjectPath, RecordPath, InStore;
    forall k | IsLinkId(k) ensures ObjectPath(root, k) !in {new_, RecordPath(root, id)} {
      StorePaths(root, k);
      PathsInjective(root, k, id);
    }
    IndexAgree(root, t, u, objects, byPath);
  }

  lemma WithStoreRecord(root: string, t: Tree, id: string)
    requires IsLinkId(id)
    ensures var u := WithStore(root, t, false);
            CountAt(root, u, id) == CountAt(root, t, id) &&
            (ObjectPath(root, id) in u <==> ObjectPath(root, id) in t)
  {
    hide IsLinkId, ObjectPath, RecordPath, LockPath, StorePath, Parse;
    StorePaths(root, id);
  }

  /** The record of an object whose count is open is still there and well formed. */
  lemma RecordPresent(root: string, t: Tree, id: string)
    requires InvOpen(root, t, id) && IsLinkId(id) && ObjectPath(root, id) in t
    ensures var r := RecordPath(root, id);
            t[ObjectPath(root, id)].File? && r in t && t[r].Sym? && |t[r].text| <= RECORD_MAX &&
            CountAt(root, t, id) == Parse(t[r].text).count &&
            forall n :: n in Parse(t[r].text).names ==> n != "" && !InStore(root, n)
  {
    hide IsLinkId, ObjectPath, RecordPath, Parse, InStore;
    assert ObjectShape(root, t, id);
  }

  lemma RecordHasObject(root: string, t: Tree, id: string)
    requires Inv(root, t) && IsLinkId(id) && RecordPath(root, id) in t && t[RecordPath(root, id)].Sym?
    ensures ObjectPath(root, id) in t
    ensures var rec := Parse(t[RecordPath(root, id)].text);
            rec.count == |Names(root, t, id)| && 0 < rec.count < COUNT_LIMIT &&
            forall n :: n in rec.names ==> n != "" && !InStore(root, n)
  {
    hide IsLinkId, ObjectPath, RecordPath, Parse, InStore, Names;
    EmptyIsNoId();
    assert ObjectShape(root, t, id) && Counted(root, t, id);
  }

  lemma RecordIndex(root: string, t: Tree, id: string, node: Node, objects: map<nat, string>, byPath: map<string, nat>)
    requires Indexed(root, t, objects, byPath) && IsLinkId(id)
    ensures Indexed(root, t[RecordPath(root, id) := node], objects, byPath)
  {
    hide IsLinkId, ObjectPath, RecordPath, Indexed;
    forall k | IsLinkId(k) ensures ObjectPath(root, k) != RecordPath(root, id) {
      PathsInjective(root, k, id);
    }
    IndexAgree(root, t, t[RecordPath(root, id) := node], objects, byPath);
  }

  /** Forgetting an object that leaves the store. */
  lemma IndexForget(root: string, t: Tree, u: Tree, id: string, objects: map<nat, string>, byPath: map<string, nat>)
    requires Indexed(root, t, objects, byPath) && IsLinkId(id)
    requires ObjectPath(root, id) in t && t[ObjectPath(root, id)].File? && ObjectPath(root, id) !in u
    requires forall k :: IsLinkId(k) && k != id ==>
               (ObjectPath(root, k) in t <==> ObjectPath(root, k) in u) &&
               (ObjectPath(root, k) in t ==> t[ObjectPath(root, k)] == u[ObjectPath(root, k)])
    ensures var o := ObjectPath(root, id);
            o in byPath && Indexed(root, u, objects - {byPath[o]}, byPath - {o})
  {
    hide IsLinkId, ObjectPath;
    forall k | IsLinkId(k) ensures ObjectPath(root, k) == ObjectPath(root, id) ==> k == id {
      PathsInjective(root, k, id);
    }
  }

  lemma StoreOthers(root: string, t: Tree, u: Tree, id: string, name: string)
    requires IsLinkId(id) && !InStore(root, name)
    requires forall p :: p !in {ObjectPath(root, id), RecordPath(root, id), name} ==>
               (p in t <==> p in u) && (p in t ==> t[p] == u[p])
    ensures forall k :: IsLinkId(k) && k != id ==>
              (ObjectPath(root, k) in t <==> ObjectPath(root, k) in u) &&
              (ObjectPath(root, k) in t ==> t[ObjectPath(root, k)] == u[ObjectPath(root, k)])
  {
    hide IsLinkId, ObjectPath, RecordPath, InStore;
    forall k | IsLinkId(k) && k != id
      ensures ObjectPath(root, k) !in {ObjectPath(root, id), RecordPath(root, id), name}
    {
      StorePaths(root, k);
      PathsInjective(root, k, id);
    }
  }

  lemma ObjectGone(root: string, t: Tree, id: string, objects: map<nat, string>, byPath: map<string, nat>)
    requires InvOpen(root, t, id) && IsLinkId(id) && ObjectPath(root, id) in t && t[ObjectPath(root, id)].File?
    requires |Names(root, t, id)| == 0 && Indexed(root, t, objects, byPath)
    ensures var o, r := ObjectPath(root, id), RecordPath(root, id);
            Inv(root, t - {o, r}) && View(root, t - {o, r}) == View(root, t) &&
            o in byPath && Indexed(root, t - {o, r}, objects - {byPath[o]}, byPath - {o})
  {
    hide IsLinkId, ObjectPath, RecordPath, InStore, InvOpen, Names, View, Indexed;
    var o, r := ObjectPath(root, id), RecordPath(root, id);
    RemoveObject(root, t, id);
    RootOutside(root);
    StoreOthers(root, t, t - {o, r}, id, "");
    IndexForget(root, t, t - {o, r}, id, objects, byPath);
  }

  lemma RootOutside(root: string)
    ensures !InStore(root, "")
  {
    StoreShape(root);
  }

  lemma NameRestored(root: string, t: Tree, id: string, name: string, objects: map<nat, string>,
                     byPath: map<string, nat>)
    requires InvOpen(root, t, id) && IsLinkId(id) && ObjectPath(root, id) in t && t[ObjectPath(root, id)].File?
    requires |Names(root, t, id)| == 1 && EntryId(t, name) == id && !InStore(root, name)
    requires Indexed(root, t, objects, byPath)
    ensures var u, o := Restored(root, t, id, name), ObjectPath(root, id);
            Inv(root, u) && View(root, u) == View(root, t) && name != o && name != RecordPath(root, id) &&
            NoNewObject(root, t, u, "") &&
            o in byPath && Indexed(root, u, objects - {byPath[o]}, byPath - {o})
  {
    hide IsLinkId, ObjectPath, RecordPath, InStore, InvOpen, View, Indexed, LinkTargetId;
    EmptyIsNoId();
    NameMember(root, t, name, id);
    OnlyMember(Names(root, t, id), name);
    RestoreName(root, t, id, name);
    StorePaths(root, id);
    var u := Restored(root, t, id, name);
    StoreOthers(root, t, u, id, name);
    IndexForget(root, t, u, id, objects, byPath);
  }

  lemma UndoAdd<T>(m: map<string, T>, k: string, v: T)
    requires k !in m
    ensures m[k := v] - {k} == m
  {
    assert (m[k := v] - {k}).Keys == m.Keys;
  }

  lemma UndoMove<T>(m: map<string, T>, a: string, b: string)
    requires a in m && b !in m
    ensures var n := m[b := m[a]] - {a}; a !in n && b in n && n[a := n[b]] - {b} == m
  {
    var n := m[b := m[a]] - {a};
    assert (n[a := n[b]] - {b}).Keys == m.Keys;
  }

  lemma LinkedSteps<T>(t: map<string, T>, o: string, r: string, a: string, n: string, rec: T, at: T, nt: T)
    requires a in t && n !in t && o !in t && r !in t && o != r && o != n && r != n
    ensures var u := t[n := nt][r := rec];
            a in u && (u[o := u[a]] - {a})[a := at] == t[o := t[a]][r := rec][a := at][n := nt]
  {
  }

  lemma LinkedIs(root: string, t: Tree, id: string, old_: string, new_: string, record: string)
    requires old_ in t
    ensures Linked(root, t, id, old_, new_, record) ==
            t[ObjectPath(root, id) := t[old_]][RecordPath(root, id) := Sym(record)]
             [old_ := Sym(TargetFor(root, old_, id))]
             [new_ := Sym(TargetFor(root, new_, id))]
  {
  }

  lemma StoreOnlyRefl(root: string, t: Tree)
    ensures StoreOnly(root, t, t)
  {
  }

  lemma LinkedObjects(root: string, t: Tree, id: string, old_: string, new_: string, record: string)
    requires IsLinkId(id) && old_ in t && t[old_].File? && !InStore(root, old_) && !InStore(root, new_)
    ensures var u := Linked(root, t, id, old_, new_, record);
            ObjectPath(root, id) in u && u[ObjectPath(root, id)] == t[old_] &&
            forall k :: IsLinkId(k) && k != id ==>
              (ObjectPath(root, k) in t <==> ObjectPath(root, k) in u) &&
              (ObjectPath(root, k) in t ==> t[ObjectPath(root, k)] == u[ObjectPath(root, k)])
  {
    hide IsLinkId, ObjectPath, RecordPath, TargetFor, InStore;
    StorePaths(root, id);
    PathsInjective(root, id, id);
    forall k | IsLinkId(k) && k != id
      ensures ObjectPath(root, k) !in {ObjectPath(root, id), RecordPath(root, id), old_, new_}
    {
      StorePaths(root, k);
      PathsInjective(root, k, id);
    }
  }

  /** The tree once the store directory and its lock exist. */
  function WithStore(root: string, t: Tree, make: bool): Tree {
    var u := if make && StorePath(root) !in t then t[StorePath(root) := Dir] else t;
    if LockPath(root) !in u then u[LockPath(root) := Lock] else u
  }

  lemma WithStoreKeeps(root: string, t: Tree, make: bool, open: string, objects: map<nat, string>,
                       byPath: map<string, nat>)
    requires InvOpen(root, t, open) && Indexed(root, t, objects, byPath)
    ensures var u := WithStore(root, t, make);
            InvOpen(root, u, open) && Indexed(root, u, objects, byPath) &&
            View(root, u) == View(root, t) && StoreOnly(root, t, u) &&
            (forall k :: IsLinkId(k) ==> Names(root, u, k) == Names(root, t, k)) &&
            (forall id :: IsLinkId(id) ==> (ObjectPath(root, id) in u <==> ObjectPath(root, id) in t) &&
                                           (RecordPath(root, id) in u <==> RecordPath(root, id) in t)) &&
            (forall p :: !InStore(root, p) ==> (p in u <==> p in t))
  {
    hide StorePath, LockPath, InStore, LinkTargetId, IsLinkId, Names, View, InvOpen, Indexed, ObjectPath, RecordPath;
    var s, l := StorePath(root), LockPath(root);
    StoreEntryPath(root, s);
    StoreEntryPath(root, l);
    forall id | IsLinkId(id) ensures ObjectPath(root, id) !in {s, l} && RecordPath(root, id) !in {s, l} {
      StorePaths(root, id);
    }
    var u := t;
    if make && s !in t {
      AddStoreEntry(root, t, s, Dir, open);
      IndexStoreEntry(root, t, s, Dir, objects, byPath);
      u := t[s := Dir];
    }
    if l !in u {
      AddStoreEntry(root, u, l, Lock, open);
      IndexStoreEntry(root, u, l, Lock, objects, byPath);
    }
  }

  lemma WithStoreName(root: string, t: Tree, p: string, node: Node)
    requires p != StorePath(root) && p != LockPath(root)
    ensures WithStore(root, t[p := node], true) == WithStore(root, t, true)[p := node]
    ensures WithStore(root, t[p := node], false) == WithStore(root, t, false)[p := node]
  {
    hide StorePath, LockPath;
  }

  lemma NamesSized(root: string, t: Tree, p: string, text: string)
    requires Sizes(root, t) && !InStore(root, p) && |text| <= RECORD_MAX
    ensures Sizes(root, t[p := Sym(text)])
  {
    hide StorePath, InStore;
  }

  /** The names outside the store are those from before. */
  lemma WithStoreOld(root: string, t: Tree, p: string)
    requires p != StorePath(root) && p != LockPath(root)
    ensures p in WithStore(root, t, true) <==> p in t
    ensures p in t ==> WithStore(root, t, true)[p] == t[p]
  {
    hide StorePath, LockPath;
  }

  lemma StoreNotName(root: string, p: string)
    ensures !InStore(root, p) ==> p != StorePath(root) && p != LockPath(root)
  {
    StoreEntryPath(root, StorePath(root));
    StoreEntryPath(root, LockPath(root));
  }

  lemma InvSizes(root: string, t: Tree, open: string)
    requires InvOpen(root, t, open)
    ensures Sizes(root, t)
  {
  }

  /** An unused id has no record either. */
  lemma RecordOfNew(root: string, id: string, t: Tree)
    requires Inv(root, t) && IsLinkId(id) && ObjectPath(root, id) !in t
    ensures RecordPath(root, id) !in t
  {
  }

  /** Remembering the object a file just became. */
  lemma IndexNew(root: string, t: Tree, u: Tree, id: string, objects: map<nat, string>, byPath: map<string, nat>)
    requires Indexed(root, t, objects, byPath) && Inv(root, u) && IsLinkId(id)
    requires ObjectPath(root, id) !in t && ObjectPath(root, id) in u && u[ObjectPath(root, id)].File?
    requires forall k :: IsLinkId(k) && k != id ==>
               (ObjectPath(root, k) in t <==> ObjectPath(root, k) in u) &&
               (ObjectPath(root, k) in t ==> t[ObjectPath(root, k)] == u[ObjectPath(root, k)])
    ensures var o := ObjectPath(root, id);
            Indexed(root, u, objects[u[o].ino := id], byPath[o := u[o].ino])
  {
    hide IsLinkId, ObjectPath, RecordPath, MarkersLive, ObjectsOk, RecordsOwned, Sizes;
    forall k | IsLinkId(k) ensures ObjectPath(root, k) == ObjectPath(root, id) ==> k == id {
      PathsInjective(root, k, id);
    }
  }

  /** Nothing but the store directory and its lock may differ. */
  ghost predicate StoreOnly(root: string, t: Tree, u: Tree) {
    t - {StorePath(root), LockPath(root)} == u - {StorePath(root), LockPath(root)} &&
    (forall p :: p in t ==> p in u && u[p] == t[p])
  }

  lemma IndexStoreEntry(root: string, t: Tree, p: string, node: Node, objects: map<nat, string>,
                        byPath: map<string, nat>)
    requires Indexed(root, t, objects, byPath) && p !in t
    requires p == StorePath(root) || p == LockPath(root)
    ensures Indexed(root, t[p := node], objects, byPath)
  {
    hide IsLinkId, ObjectPath, Indexed, StorePath, LockPath;
    var u := t[p := node];
    StoreEntryPath(root, p);
    forall id | IsLinkId(id) ensures ObjectPath(root, id) != p {
      StorePaths(root, id);
    }
    IndexAgree(root, t, u, objects, byPath);
  }

  /** Where a new record is written before it takes the place of the old one. */
  function TempPath(root: string, id: string, pid: nat, counter: nat): string {
    RecordPath(root, id) + "." + ToDecimal(pid) + "." + ToDecimal(counter)
  }

  /** No two writes of a record, by one session or by two, use the same path. */
  lemma TempsDiffer(root: string, id: string, pid: nat, counter: nat, id2: string, pid2: nat, counter2: nat)
    requires IsLinkId(id) && IsLinkId(id2) && TempPath(root, id, pid, counter) == TempPath(root, id2, pid2, counter2)
    ensures id == id2 && pid == pid2 && counter == counter2
  {
    hide IsLinkId, StorePath, ToDecimal, FromDecimal;
    var n := |StorePath(root)| + 1;
    var a := "." + ToDecimal(pid) + "." + ToDecimal(counter);
    var b := "." + ToDecimal(pid2) + "." + ToDecimal(counter2);
    IdLength(id);
    IdLength(id2);
    assert TempPath(root, id, pid, counter)[n..n + ID_LEN] == id by {
      assert TempPath(root, id, pid, counter) == StorePath(root) + "/" + id + (".n" + a);
    }
    assert TempPath(root, id2, pid2, counter2)[n..n + ID_LEN] == id2 by {
      assert TempPath(root, id2, pid2, counter2) == StorePath(root) + "/" + id2 + (".n" + b);
    }
    assert a == TempPath(root, id, pid, counter)[|RecordPath(root, id)|..];
    assert b == TempPath(root, id2, pid2, counter2)[|RecordPath(root, id)|..];
    TwoNumbers(pid, counter, pid2, counter2);
  }

  lemma IdLength(id: string)
    requires IsLinkId(id)
    ensures |id| == ID_LEN
  {
  }

  lemma NoShorter(p: string, x: string, q: string, y: string)
    requires AllDigits(q) && p + "." + x == q + "." + y
    ensures |p| >= |q|
  {
    var s, t := p + "." + x, q + "." + y;
    assert s[|p|] == '.';
    assert forall k :: 0 <= k < |q| ==> t[k] == q[k] && IsDigit(q[k]);
  }

  lemma AtTheDot(p: string, x: string, q: string, y: string)
    requires AllDigits(p) && AllDigits(q) && "." + p + "." + x == "." + q + "." + y
    ensures p == q && x == y
  {
    var s, t := p + "." + x, q + "." + y;
    assert s == ("." + p + "." + x)[1..] && t == ("." + q + "." + y)[1..];
    NoShorter(p, x, q, y);
    NoShorter(q, y, p, x);
    assert p == s[..|p|] && q == t[..|p|];
    assert x == s[|p| + 1..] && y == t[|p| + 1..];
  }

  lemma TwoNumbers(a: nat, b: nat, c: nat, d: nat)
    requires "." + ToDecimal(a) + "." + ToDecimal(b) == "." + ToDecimal(c) + "." + ToDecimal(d)
    ensures a == c && b == d
  {
    hide ToDecimal, FromDecimal, AllDigits;
    AtTheDot(ToDecimal(a), ToDecimal(b), ToDecimal(c), ToDecimal(d));
    DecimalRoundTrip(a);
    DecimalRoundTrip(b);
    DecimalRoundTrip(c);
    DecimalRoundTrip(d);
  }

  lemma TempUnused(root: string, t: Tree, id: string, tmp: string)
    requires Sizes(root, t) && IsLinkId(id)
    requires RecordPath(root, id) < tmp && tmp[|RecordPath(root, id)|] == '.'
    ensures tmp !in t
  {
    hide StorePath, IsLinkId;
    StoreShape(root);
    StorePaths(root, id);
    assert StorePath(root) <= tmp && tmp[|StorePath(root)|] == '/';
    assert InStore(root, tmp);
  }
}
