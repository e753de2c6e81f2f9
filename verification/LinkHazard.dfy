/** How a link store comes to stand where a link racing an unlink can lose the file: a hard link is made
    and the directory of its old name is renamed. The hazard of module LinkRace is a state that two calls
    reach. */
module LinkHazard {
  import opened Decimal
  import opened GuestPath
  import opened HardLinkSpec
  import opened LinkHandlers
  import opened LinkMarker
  import opened LinkRecord
  import opened LinkStores
  import opened LinkTidy
  import opened LinkView
  import opened SubtreeMoves
  import Race = LinkRace

  /** The smallest such state: the file has the names "/e/x" and "/y", and its record still says "/d/x". */
  lemma SmallestHazard()
    ensures var calls, names, record := Race.Calls("/d/x", "/y"), {"/e/x", "/y"}, Record(2, ["/d/x", "/y"]);
            Race.Sane(calls, names, record) && Race.Hazard(calls, names, record)
  {
    StaleRecordIsHazard("/d/x", "/y", "/e/x", ["/d/x", "/y"]);
  }

  /** A record that lists the stale name first, with the name that goes behind it or missing. */
  lemma StaleRecordIsHazard(stale: string, gone: string, kept: string, recorded: seq<string>)
    requires stale != gone && stale != kept && gone != kept && (recorded == [stale, gone] || recorded == [stale])
    ensures var calls, names, record := Race.Calls(stale, gone), {kept, gone}, Record(2, recorded);
            Race.Sane(calls, names, record) && Race.Hazard(calls, names, record)
  {
    var left := Without(recorded, gone);
    assert recorded[1..] == [gone] || recorded[1..] == [];
    assert Without([gone], gone) == [] by { assert [gone][1..] == []; }
    assert left == [stale];
    assert stale in recorded by { assert recorded[0] == stale; }
    assert |{kept, gone}| == 2;
  }

  /** A plain file `p` below the directory `d`, an unused name `q` elsewhere, and an unused name `e` for the
      directory. */
  ghost predicate Scene(root: string, t: Tree, p: string, q: string, d: string, e: string) {
    Apart(root, p) && Apart(root, q) && Apart(root, d) && Apart(root, e) &&
    p in t && t[p].File? && IsBelow(p, d) && q !in t && !IsBelow(q, d) && !IsBelow(q, e) &&
    d in t && t[d].Dir? && !IsBelow(e, d) && !IsBelow(d, e) && forall k :: k in t ==> !IsBelow(k, e)
  }

  /** The tree after the link. */
  function AfterLink(root: string, t: Tree, id: string, p: string, q: string): Tree
    requires p in t
  {
    Linked(root, WithStore(root, t, true), id, p, q, Text(Record(2, [p, q])))
  }

  lemma LinkedNames(root: string, t: Tree, id: string, p: string, q: string)
    requires Inv(root, t) && IsLinkId(id) && ObjectPath(root, id) !in t && p in t && q !in t
    requires p != q && !InStore(root, p) && !InStore(root, q)
    requires |TargetFor(root, p, id)| <= RECORD_MAX && |TargetFor(root, q, id)| <= RECORD_MAX
    ensures Names(root, AfterLink(root, t, id, p, q), id) == {p, q}
  {
    hide LinkTargetId, IsLinkId, StorePath, ObjectPath, RecordPath, LockPath, InStore, Parse, TargetFor, Text, InvOpen;
    var u := AfterLink(root, t, id, p, q);
    TargetForMarks(root, p, id);
    TargetForMarks(root, q, id);
    MarkersOfTree(root, t);
    NoNamesWithoutObject(root, t, id);
    StorePaths(root, id);
    StoreEntryPath(root, StorePath(root));
    StoreEntryPath(root, LockPath(root));
    NamesChange(root, t, u, id, {p, q}, {p, q});
    assert {} - {p, q} + {p, q} == {p, q};
  }

  lemma MarkersOfTree(root: string, t: Tree)
    requires Inv(root, t)
    ensures MarkersLive(root, t)
  {
  }

  lemma LinkedRecord(root: string, t: Tree, id: string, p: string, q: string)
    requires p in t && IsLinkId(id) && !InStore(root, p) && !InStore(root, q)
    requires p != "" && q != "" && '\n' !in p && |p| + 2 <= RECORD_MAX
    ensures var u, r := AfterLink(root, t, id, p, q), RecordPath(root, id);
            r in u && u[r].Sym? && (Parse(u[r].text) == Record(2, [p, q]) || Parse(u[r].text) == Record(2, [p]))
  {
    hide LinkTargetId, IsLinkId, StorePath, ObjectPath, RecordPath, LockPath, InStore, Parse, TargetFor, Text,
         ToDecimal;
    StorePaths(root, id);
    PathsInjective(root, id, id);
    RecordRoundTrip(Record(2, [p, q]));
    TwoIsShort();
    assert [p, q][1..] == [q] && [q][1..] == [];
    assert Kept(1 + 1 + |p|, [q]) == [q] || Kept(1 + 1 + |p|, [q]) == [];
  }

  lemma TwoIsShort()
    ensures |ToDecimal(2)| == 1
  {
  }

  /** The directory can be renamed, and its rename is the move of a subtree. */
  lemma DirectoryMoves(root: string, t: Tree, id: string, p: string, q: string, d: string, e: string)
    requires Inv(root, t) && Scene(root, t, p, q, d, e) && IsLinkId(id)
    ensures var u := AfterLink(root, t, id, p, q);
            CanRemap(u.Keys, OneWay(d, e)) && HostRename(u, d, e, Plain) == (0, Remap(u, OneWay(d, e)))
    ensures EntryId(AfterLink(root, t, id, p, q), d) == "" && EntryId(AfterLink(root, t, id, p, q), e) == ""
  {
    hide LinkTargetId, IsLinkId, StorePath, ObjectPath, RecordPath, LockPath, IsBelow, Parse, TargetFor, Text, InvOpen,
         Remap, AsObject;
    var u := AfterLink(root, t, id, p, q);
    StorePaths(root, id);
    StoreEntryPath(root, StorePath(root));
    StoreEntryPath(root, LockPath(root));
    AfterLinkEntries(root, t, id, p, q);
    BelowItself(d);
    BelowItself(e);
    forall k | k in u ensures !IsBelow(k, e) {
      if IsBelow(k, e) {
        if InStore(root, k) {
          NotAbove(root, e, k);
        }
      }
    }
    assert e !in u;
    assert u - {e} == u;
    assert d in u && u[d].Dir?;
  }

  lemma BelowItself(p: string)
    requires p != "/"
    ensures IsBelow(p, p)
  {
  }

  lemma NotAbove(root: string, e: string, k: string)
    requires Apart(root, e) && InStore(root, k)
    ensures !IsBelow(k, e)
  {
    hide StorePath, IsBelow;
    StoreShape(root);
    if IsBelow(k, e) {
      BelowBoth(k, StorePath(root), e);
      assert false;
    }
  }

  /** Outside the store the link changes its two names only. */
  lemma AfterLinkEntries(root: string, t: Tree, id: string, p: string, q: string)
    requires p in t && IsLinkId(id)
    ensures var u := AfterLink(root, t, id, p, q);
            forall k :: !InStore(root, k) && k != p && k != q ==> (k in u <==> k in t) && (k in t ==> u[k] == t[k])
  {
    hide IsLinkId, StorePath, ObjectPath, RecordPath, LockPath, InStore, Parse, TargetFor, Text;
    StorePaths(root, id);
    StoreEntryPath(root, StorePath(root));
    StoreEntryPath(root, LockPath(root));
  }

  /** After the rename the file has the names `q` and the moved `p`, and its record still lists `p` first. */
  lemma RenameMakesHazard(root: string, t: Tree, id: string, p: string, q: string, d: string, e: string)
    requires Inv(root, t) && Scene(root, t, p, q, d, e) && IsLinkId(id) && ObjectPath(root, id) !in t
    requires |TargetFor(root, p, id)| <= RECORD_MAX && |TargetFor(root, q, id)| <= RECORD_MAX
    requires '\n' !in p && |p| + 2 <= RECORD_MAX && Inv(root, AfterLink(root, t, id, p, q))
    ensures var u, r := HostRename(AfterLink(root, t, id, p, q), d, e, Plain).1, RecordPath(root, id);
            r in u && u[r].Sym? &&
            Race.Sane(Race.Calls(p, q), Names(root, u, id), Parse(u[r].text)) &&
            Race.Hazard(Race.Calls(p, q), Names(root, u, id), Parse(u[r].text)) &&
            Names(root, u, id) == {e + p[|d|..], q} && e + p[|d|..] != q &&
            e + p[|d|..] !in Parse(u[r].text).names
  {
    hide LinkTargetId, IsLinkId, StorePath, ObjectPath, RecordPath, LockPath, IsBelow, InStore, Parse, TargetFor,
         Text, InvOpen,
         Remap, AfterLink, Names, HostRename, Race.Sane, Race.Hazard;
    var u, mv := AfterLink(root, t, id, p, q), OneWay(d, e);
    LinkedNames(root, t, id, p, q);
    LinkedRecord(root, t, id, p, q);
    DirectoryMoves(root, t, id, p, q, d, e);
    DirNames(root, u, mv, id);
    DirStoreKept(root, u, mv);
    StorePaths(root, id);
    MovedPair(p, q, mv);
    Transplant(p, d, e);
    assert Moved(p, mv) != p by { assert !IsBelow(p, e); }
    assert Moved(p, mv) != q;
    var recorded := Parse(u[RecordPath(root, id)].text).names;
    StaleRecordIsHazard(p, q, Moved(p, mv), recorded);
  }

  lemma MovedPair(p: string, q: string, mv: Move)
    requires mv.OneWay? && !IsBelow(q, mv.from)
    ensures MovedKeys({p, q}, mv) == {Moved(p, mv), q}
  {
    hide IsBelow;
  }

  /** The two calls, made on a store: afterwards linking to the old name and unlinking the other one race in
      the way that loses the file. */
  method ReachHazard(links: LinkStore, id: string, p: string, q: string, d: string, e: string, refused: Refused)
    requires links.Valid() && Scene(links.root, links.tree, p, q, d, e)
    requires IsLinkId(id) && ObjectPath(links.root, id) !in links.tree
    requires |TargetFor(links.root, p, id)| <= RECORD_MAX && |TargetFor(links.root, q, id)| <= RECORD_MAX
    requires '\n' !in p && |p| + 2 <= RECORD_MAX
    modifies links
    ensures links.Valid() && RecordPath(links.root, id) in links.tree && links.tree[RecordPath(links.root, id)].Sym?
    ensures var names := Names(links.root, links.tree, id);
            var record := Parse(links.tree[RecordPath(links.root, id)].text);
            Race.Sane(Race.Calls(p, q), names, record) && Race.Hazard(Race.Calls(p, q), names, record) &&
            names == {e + p[|d|..], q} && e + p[|d|..] != q && e + p[|d|..] !in record.names
  {
    hide LinkTargetId, IsLinkId, StorePath, ObjectPath, RecordPath, IsBelow, InStore, Parse, TargetFor, Text,
         InvOpen, Indexed,
         Names, View, HostRename, DoRename, Race.Sane, Race.Hazard, AsObject, WithStore;
    ghost var root, t := links.root, links.tree;
    var made := links.LinkNew(id, p, q, NoFault);
    assert made == 0;
    assert links.tree == AfterLink(root, t, id, p, q);
    DirectoryMoves(root, t, id, p, q, d, e);
    RenameMakesHazard(root, t, id, p, q, d, e);
    var ret := RenameLike(links, d, e, Plain, false, refused);
  }

  /** The same two calls and then an unlink of the other name: the record lists the name from before the rename,
      so that the file is not moved back to the one it has left, and stays an emulated link. */
  method ReachLeftover(links: LinkStore, id: string, p: string, q: string, d: string, e: string, refused: Refused)
    requires links.Valid() && Scene(links.root, links.tree, p, q, d, e)
    requires IsLinkId(id) && ObjectPath(links.root, id) !in links.tree
    requires |TargetFor(links.root, p, id)| <= RECORD_MAX && |TargetFor(links.root, q, id)| <= RECORD_MAX
    requires '\n' !in p && |p| + 2 <= RECORD_MAX
    modifies links
    ensures links.Valid() && ObjectPath(links.root, id) in links.tree
    ensures Names(links.root, links.tree, id) == {e + p[|d|..]}
  {
    hide LinkTargetId, IsLinkId, StorePath, ObjectPath, RecordPath, InStore, Parse, TargetFor, Text, InvOpen, Indexed,
         Names, View, Race.Sane, Race.Hazard, WithStore, Released, EntryId, LockPath, EndingOf, Spoils, NoNewObject;
    assert |d| <= |p|;
    ReachHazard(links, id, p, q, d, e, refused);
    ghost var root, t, left := links.root, links.tree, e + p[|d|..];
    NameMember(root, t, q, id);
    LinkIdNonEmpty(id);
    LeftoverIsDue(root, t, id, q, left, links.objects, links.byPath);
    var _ := links.UnlinkName(id, q, 0, OnlyStuck({}));
    LeftoverEnds(root, t, links.tree, id, q, left);
  }

  /** After the unlink one name is left, and the record does not list it. */
  lemma LeftoverIsDue(root: string, t: Tree, id: string, q: string, left: string, objects: map<nat, string>,
                      byPath: map<string, nat>)
    requires Inv(root, t) && Indexed(root, t, objects, byPath) && IsLinkId(id) && q != left && id != ""
    requires Names(root, t, id) == {left, q}
    requires RecordPath(root, id) in t && t[RecordPath(root, id)].Sym?
    requires left !in Parse(t[RecordPath(root, id)].text).names
    ensures q in t && !InStore(root, q) && EntryId(t, q) == id
    ensures var u := WithStore(root, t - {q}, false);
            InvOpen(root, u, id) && ObjectPath(root, id) in u && CountAt(root, u, id) == 2 &&
            ObjectPath(root, id) in t && u[ObjectPath(root, id)] == t[ObjectPath(root, id)] &&
            Names(root, u, id) == {left} && RecordPath(root, id) in u && u[RecordPath(root, id)].Sym? &&
            left !in Parse(u[RecordPath(root, id)].text).names
  {
    hide LinkTargetId, IsLinkId, StorePath, LockPath, ObjectPath, RecordPath, InStore, Parse, Names, View, Indexed,
         InvOpen, WithStore, EntryId;
    NameMember(root, t, q, id);
    DropMarker(root, t, q);
    DropNames(root, t, q);
    IndexOutside(root, t, t - {q}, objects, byPath);
    WithStoreKeeps(root, t - {q}, false, id, objects, byPath);
    WithStoreRecord(root, t - {q}, id);
    StorePaths(root, id);
    assert {left, q} - {q} == {left};
    RecordPresent(root, WithStore(root, t - {q}, false), id);
    SameRecordText(root, t - {q}, id);
  }

  lemma SameRecordText(root: string, t: Tree, id: string)
    requires IsLinkId(id) && RecordPath(root, id) in t
    ensures var u, r := WithStore(root, t, false), RecordPath(root, id); r in u && u[r] == t[r]
    ensures var u, o := WithStore(root, t, false), ObjectPath(root, id); o in t ==> o in u && u[o] == t[o]
  {
    hide IsLinkId, RecordPath, ObjectPath, LockPath, StorePath;
    StorePaths(root, id);
  }

  lemma LeftoverEnds(root: string, t: Tree, u: Tree, id: string, q: string, left: string)
    requires Inv(root, t) && Inv(root, u) && IsLinkId(id) && left != q && Names(root, t, id) == {left, q}
    requires var w := WithStore(root, t - {q}, false);
             InvOpen(root, w, id) && ObjectPath(root, id) in w && CountAt(root, w, id) == 2 &&
             ObjectPath(root, id) in t && w[ObjectPath(root, id)] == t[ObjectPath(root, id)] &&
             Names(root, w, id) == {left} && RecordPath(root, id) in w && w[RecordPath(root, id)].Sym? &&
             left !in Parse(w[RecordPath(root, id)].text).names &&
             u == Released(root, w, id, q, OnlyStuck({}))
    requires View(root, u) == View(root, t) - {q}
    ensures Names(root, u, id) == {left} && ObjectPath(root, id) in u
  {
    hide IsLinkId, ObjectPath, RecordPath, Names, View, InvOpen, Released, WithStore, Parse, EntryId;
    LastNameIsRestored(root, WithStore(root, t - {q}, false), id, q, OnlyStuck({}), left);
    OneNameLeft(root, t, u, id, q, left);
  }

  lemma OneNameLeft(root: string, t: Tree, u: Tree, id: string, q: string, left: string)
    requires Inv(root, t) && Inv(root, u) && IsLinkId(id) && left != q && Names(root, t, id) == {left, q}
    requires var o := ObjectPath(root, id); o in t && o in u && u[o] == t[o]
    requires View(root, u) == View(root, t) - {q}
    ensures Names(root, u, id) == {left}
  {
    hide IsLinkId, ObjectPath, Names, View, InvOpen;
    ObjectIsFile(root, t, id);
    NamesInView(root, t, "", id);
    NamesInView(root, u, "", id);
    var ino := t[ObjectPath(root, id)].ino;
    assert NamesOf(View(root, u), ino) == NamesOf(View(root, t), ino) - {q};
    assert {left, q} - {q} == {left};
  }
}
