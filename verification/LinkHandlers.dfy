/** The syscall handlers for directory entries on a host that refuses link(2)
    (src/engines/rootless/syscall_handlers.cpp: link_like, unlink_like, rename_like, rename_links),
    and the proof that a guest cannot tell the emulation from real hard links. */
module LinkHandlers {
  import opened GuestPath
  import opened LinkMarker
  import opened LinkRecord
  import opened LinkView
  import opened LinkStores
  import opened LinkTidy
  import opened Errno
  import opened HardLinkSpec
  import opened SubtreeMoves

  /** The marker text for this name stays below the kernel's symlink limit. */
  ghost predicate Fits(root: string, name: string) {
    forall id :: IsLinkId(id) ==> |TargetFor(root, name, id)| <= RECORD_MAX
  }

  lemma ViewKinds(root: string, t: Tree, p: string)
    requires Inv(root, t) && !InStore(root, p)
    ensures p in t <==> p in View(root, t)
    ensures p in t ==> (t[p].Dir? <==> View(root, t)[p].Directory?)
    ensures p in t && t[p].Sym? && EntryId(t, p) == "" ==> View(root, t)[p] == Symlink(t[p].text)
    ensures p in t && t[p].File? ==> View(root, t)[p] == Regular(t[p].ino)
    ensures p in t && EntryId(t, p) != "" ==>
              (ObjectPath(root, EntryId(t, p)) in t && t[ObjectPath(root, EntryId(t, p))].File? &&
               View(root, t)[p] == Regular(t[ObjectPath(root, EntryId(t, p))].ino))
    ensures p in t ==> !t[p].Lock?
  {
    hide StorePath, ObjectPath, RecordPath, LinkTargetId, IsLinkId, InStore, Parse, Names;
    EntryIdIsLinkId(t, p);
    if p in t && EntryId(t, p) != "" {
      ObjectIsFile(root, t, EntryId(t, p));
    }
  }

  /** Distinct names are names of one file exactly when they are markers of one object. */
  lemma SameFileIff(root: string, t: Tree, a: string, b: string)
    requires Inv(root, t) && a in t && b in t && a != b && !InStore(root, a) && !InStore(root, b)
    ensures a in View(root, t) && b in View(root, t)
    ensures SameFile(View(root, t), a, b) <==> EntryId(t, a) != "" && EntryId(t, a) == EntryId(t, b)
  {
    hide StorePath, ObjectPath, RecordPath, LinkTargetId, IsLinkId, InStore, Parse, Names, View;
    ViewKinds(root, t, a);
    ViewKinds(root, t, b);
    EntryIdIsLinkId(t, a);
    EntryIdIsLinkId(t, b);
    if EntryId(t, a) != "" {
      StorePaths(root, EntryId(t, a));
    }
    if EntryId(t, b) != "" {
      StorePaths(root, EntryId(t, b));
    }
    if EntryId(t, a) != "" && EntryId(t, b) != "" {
      PathsInjective(root, EntryId(t, a), EntryId(t, b));
    }
  }

  /** An object never has more names than the guest can see. */
  lemma NamesBound(root: string, t: Tree, id: string)
    ensures |Names(root, t, id)| <= |View(root, t)|
  {
    KeysFewer(Names(root, t, id), View(root, t).Keys);
  }

  /** The host refuses a rename exactly as a filesystem with the guest's names and directories would: the
      store is never below a name that is renamed. */
  lemma RenameErrnoAgrees(root: string, t: Tree, from: string, to: string, flags: Flags)
    requires Inv(root, t) && Apart(root, from) && Apart(root, to)
    ensures RenameErrno(t.Keys, HostDirs(t), from, to, flags) ==
            RenameErrno(View(root, t).Keys, Directories(View(root, t)), from, to, flags)
    ensures from in HostDirs(t) <==> from in Directories(View(root, t))
    ensures to in HostDirs(t) <==> to in Directories(View(root, t))
  {
    hide StorePath, IsBelow, InvOpen, NotEmpty, View, InStore;
    ViewKinds(root, t, from);
    ViewKinds(root, t, to);
    NotEmptyAgrees(root, t, to);
  }

  lemma NotEmptyAgrees(root: string, t: Tree, dir: string)
    requires Apart(root, dir)
    ensures NotEmpty(t.Keys, dir) <==> NotEmpty(View(root, t).Keys, dir)
  {
    hide StorePath, ReadEntry, IsBelow;
    StoreShape(root);
    forall p | p in t && p != dir && IsBelow(p, dir) ensures p in View(root, t) {
      if IsBelow(p, StorePath(root)) {
        BelowBoth(p, StorePath(root), dir);
        assert false;
      }
    }
  }

  /** Host calls that may fail all along and are ignored: renaming a file back over a name in `stuck`, and
      writing the record of a name that was renamed. */
  datatype Refused = Refused(stuck: set<string>, moves: bool)

  /** The host calls that a link of this name makes. */
  function CallsFor(t: Tree, from: string): set<Call> {
    if EntryId(t, from) != "" then {SymlinkNew, SymlinkTemp, RenameTemp}
    else if from !in t || t[from].Dir? then {}
    else if t[from].Sym? then {SymlinkNew}
    else {SymlinkNew, MkdirStore, SymlinkTemp, RenameTemp, RenameObject, SymlinkOld}
  }

  /** link(2) and linkat(2). The result is 0 or a negative errno. A host call that fails fails the link;
      only an existing store directory is no failure. `across` says that the names are on different mounts,
      and `unreadable` that a source symlink cannot be read, which is EIO. */
  method LinkLike(links: LinkStore, from: string, to: string, id: string, across: bool, unreadable: bool, fault: Fault)
    returns (ret: int)
    requires links.Valid() && IsLinkId(id) && ObjectPath(links.root, id) !in links.tree
    requires from != "" && to != "" && !InStore(links.root, from) && !InStore(links.root, to)
    requires |View(links.root, links.tree)| + 1 < COUNT_LIMIT
    modifies links
    ensures links.Valid() && NoNewObject(links.root, old(links.tree), links.tree, id)
    ensures fault.NoFault? && !unreadable && Fits(links.root, from) && Fits(links.root, to) ==>
              Outcome(View(links.root, links.tree), -ret) == DoLink(old(View(links.root, links.tree)), from, to, across)
    ensures ret != 0 ==> View(links.root, links.tree) == old(View(links.root, links.tree))
    ensures ret != 0 ==> StoreOnly(links.root, old(links.tree), links.tree)
    ensures ret == 0 ==>
              View(links.root, links.tree) == DoLink(old(View(links.root, links.tree)), from, to, across).files
    ensures fault.Fails? && fault.errno !in {0, EEXIST} && fault.call in CallsFor(old(links.tree), from) ==> ret != 0
    ensures unreadable && from in old(links.tree) && old(links.tree)[from].Sym? &&
            EntryId(old(links.tree), from) == "" ==>
              -ret == if to in old(links.tree) then EEXIST else if across then EXDEV else EIO
    ensures KeepsTidy(links.root, old(links.tree), links.tree)
  {
    hide StorePath, ObjectPath, RecordPath, LinkTargetId, IsLinkId, InStore, Parse, Names, View, Indexed, InvOpen,
         TargetFor, StoreOnly, KeepsTidy;
    ghost var root, t, objects, byPath := links.root, links.tree, links.objects, links.byPath;
    SameKeeps(root, t, t);
    ViewKinds(links.root, links.tree, from);
    ViewKinds(links.root, links.tree, to);
    StoreOnlyRefl(links.root, links.tree);
    EmptyIsNoId();
    if from !in links.tree {
      return -ENOENT; // the kernel reports the missing old name first
    }
    if to in links.tree {
      return -EEXIST;
    }
    if across {
      return -EXDEV;
    }
    var k := EntryId(links.tree, from);
    if k != "" {
      EntryIdIsLinkId(links.tree, from);
      NamesBound(links.root, links.tree, k);
      var e := links.LinkExisting(k, to, fault);
      if e == 0 {
        LinkExistingTidy(root, t, links.tree, k, to, objects, byPath);
      } else {
        SameKeeps(root, t, links.tree);
      }
      return -(e as int);
    }
    if links.tree[from].Dir? {
      return -EPERM; // the kernel refuses a directory
    }
    if links.tree[from].Sym? {
      // A hard link to a symlink itself: an identical symlink cannot be told apart.
      if unreadable {
        return -EIO;
      }
      InvSizes(links.root, links.tree, "");
      var e := CallErrno(fault, SymlinkNew, SymlinkErrno(links.tree, to, links.tree[from].text));
      if e != 0 {
        return -(e as int);
      }
      PlainSymlink(links.root, links.tree, to, links.tree[from].text, links.objects, links.byPath);
      links.tree := links.tree[to := Sym(links.tree[from].text)];
      PlainTidy(root, t, links.tree, to);
      return 0;
    }
    var e := links.LinkNew(id, from, to, fault);
    if e == 0 {
      LinkNewTidy(root, t, links.tree, id, from, to, objects, byPath);
    } else {
      SameKeeps(root, t, links.tree);
    }
    return -(e as int);
  }

  lemma PlainSymlink(root: string, t: Tree, p: string, text: string, objects: map<nat, string>,
                     byPath: map<string, nat>)
    requires Inv(root, t) && Indexed(root, t, objects, byPath) && p !in t && !InStore(root, p)
    requires |text| <= RECORD_MAX && LinkTargetId(text) == ""
    ensures var u := t[p := Sym(text)];
            Inv(root, u) && Indexed(root, u, objects, byPath) && View(root, u) == View(root, t)[p := Symlink(text)] &&
            NoNewObject(root, t, u, "")
  {
    hide StorePath, ObjectPath, RecordPath, LinkTargetId, IsLinkId, InStore, Parse, Indexed, View, ObjectsOk,
         RecordsOwned,
         Names, Counted, ObjectShape;
    var u := t[p := Sym(text)];
    EmptyIsNoId();
    PlainSymlinkView(root, t, p, text);
    StoreKept(root, t, u, "", "");
    IndexOutside(root, t, u, objects, byPath);
    forall k | IsLinkId(k) && ObjectPath(root, k) in u ensures ObjectPath(root, k) in t {
      StorePaths(root, k);
    }
  }

  lemma PlainSymlinkView(root: string, t: Tree, p: string, text: string)
    requires Inv(root, t) && p !in t && !InStore(root, p)
    requires |text| <= RECORD_MAX && LinkTargetId(text) == ""
    ensures var u := t[p := Sym(text)];
            MarkersLive(root, u) && View(root, u) == View(root, t)[p := Symlink(text)] &&
            forall k :: IsLinkId(k) ==> Names(root, u, k) == Names(root, t, k)
  {
    hide StorePath, ObjectPath, RecordPath, LinkTargetId, IsLinkId, InStore, Parse, Names, ObjectsOk, RecordsOwned,
         InodesDistinct, Sizes;
    var u := t[p := Sym(text)];
    EmptyIsNoId();
    forall k | IsLinkId(k) ensures Names(root, u, k) == Names(root, t, k) {
      NamesChange(root, t, u, k, {p}, {});
      NameMember(root, t, p, k);
    }
    forall q | q in u && !InStore(root, q) && q != p
      ensures ReadEntry(root, u, q) == ReadEntry(root, t, q)
      ensures EntryId(u, q) != "" ==> ObjectPath(root, EntryId(u, q)) in u
    {
      EntryIdIsLinkId(t, q);
      ObjectUntouched(root, t, u, EntryId(t, q));
    }
  }

  /** unlink(2). `errno` is what the host answers for an entry that is there and no directory; where it
      refuses, nothing changes. */
  method UnlinkLike(links: LinkStore, name: string, errno: nat, refused: Refused) returns (ret: int)
    requires links.Valid() && !InStore(links.root, name)
    modifies links
    ensures links.Valid() && NoNewObject(links.root, old(links.tree), links.tree, "")
    ensures errno == 0 ==>
              Outcome(View(links.root, links.tree), -ret) == DoUnlink(old(View(links.root, links.tree)), name)
    ensures errno != 0 ==> ret != 0 && links.tree == old(links.tree)
    ensures refused.stuck == {} ==> KeepsTidy(links.root, old(links.tree), links.tree)
  {
    hide StorePath, ObjectPath, RecordPath, LinkTargetId, IsLinkId, InStore, Parse, Names, View, Indexed, InvOpen,
         KeepsTidy;
    ghost var t, objects, byPath := links.tree, links.objects, links.byPath;
    SameKeeps(links.root, t, t);
    ViewKinds(links.root, links.tree, name);
    if name !in links.tree {
      return -ENOENT;
    }
    if links.tree[name].Dir? {
      return -EISDIR;
    }
    if links.tree[name].Sym? {
      var id := EntryId(links.tree, name);
      if id != "" {
        var e := links.UnlinkName(id, name, errno, OnlyStuck(refused.stuck));
        if errno == 0 && refused.stuck == {} {
          UnlinkTidy(links.root, t, links.tree, name, objects, byPath);
        }
        return -(e as int);
      }
    }
    if errno != 0 {
      return -(errno as int);
    }
    DropPlain(links.root, links.tree, name);
    IndexOutside(links.root, links.tree, links.tree - {name}, links.objects, links.byPath);
    links.tree := links.tree - {name};
    PlainTidy(links.root, t, links.tree, name);
    return 0;
  }

  /** What the entry stop of a rename leaves for its exit stop. */
  datatype Pending = NoFixup | RenameLinks(src: string, dst: string, from: string, to: string, exchange: bool)

  /** Entry stop: the answer when the call is not passed on, and the fixup to run if it succeeds. */
  method RenameEnter(links: LinkStore, from: string, to: string, flags: Flags)
    returns (skip: bool, ret: int, pending: Pending)
    ensures var src, dst := EntryId(links.tree, from), EntryId(links.tree, to);
            (skip <==> src != "" && src == dst && !flags.Exchange?) &&
            (skip ==> ret == if flags.NoReplace? then -EEXIST else 0) &&
            pending == if src == dst then NoFixup else RenameLinks(src, dst, from, to, flags.Exchange?)
  {
    skip, ret, pending := false, 0, NoFixup;
    var src := EntryId(links.tree, from);
    var dst := EntryId(links.tree, to);
    if src == "" && dst == "" {
      return;
    }
    if src == dst {
      if flags.Exchange? {
        return; // two names of one file swap: its record is unchanged
      }
      skip, ret := true, if flags.NoReplace? then -EEXIST else 0;
      return;
    }
    pending := RenameLinks(src, dst, from, to, flags.Exchange?);
  }

  function HostDirs(t: Tree): set<string> {
    set p | p in t && t[p].Dir?
  }

  /** rename(2) as the host kernel carries it out: the errno, and the tree right after it, before the
      records follow. */
  function HostRename(t: Tree, from: string, to: string, flags: Flags): (r: (int, Tree))
    requires from != "/" && to != "/"
  {
    var e := RenameErrno(t.Keys, HostDirs(t), from, to, flags);
    if e != 0 then (e, t)
    else (0, RenameEffect(t, HostDirs(t), from, to, flags, to in t && t[from].File? && t[to] == t[from]))
  }

  /** The store is settled except that a replaced marker, if any, is still counted. */
  ghost predicate Settling(root: string, t: Tree, dropped: string) {
    InvOpen(root, t, dropped) &&
    (dropped != "" ==> IsLinkId(dropped) && ObjectPath(root, dropped) in t &&
                       CountAt(root, t, dropped) == |Names(root, t, dropped)| + 1 < COUNT_LIMIT)
  }

  /** Exit stop: the records follow a rename that succeeded. */
  method RenameExit(links: LinkStore, pending: Pending, ret: int, refused: Refused)
    requires pending.RenameLinks? ==>
               (pending.from != "" && pending.to != "" &&
                !InStore(links.root, pending.from) && !InStore(links.root, pending.to) &&
                (pending.src != "" ==> IsLinkId(pending.src)) && (pending.dst != "" ==> IsLinkId(pending.dst)))
    requires Settling(links.root, links.tree,
                      if ret == 0 && pending.RenameLinks? && !pending.exchange then pending.dst else "")
    requires Indexed(links.root, links.tree, links.objects, links.byPath)
    modifies links
    ensures links.Valid() && NoNewObject(links.root, old(links.tree), links.tree, "")
    ensures View(links.root, links.tree) == old(View(links.root, links.tree))
    ensures pending.NoFixup? || ret != 0 ==> links.tree == old(links.tree)
    ensures (ret == 0 && pending.RenameLinks? && refused == Refused({}, false) &&
             old(Behind(links.root, links.tree, pending)) && old(Recordable(View(links.root, links.tree)))) ==>
              Tidy(links.root, links.tree)
  {
    hide StorePath, ObjectPath, RecordPath, LinkTargetId, IsLinkId, InStore, Parse, Names, View, Indexed, InvOpen,
         WithStore, Recordable, Tidy, TidyBut, SameBut, MoveDue, DropDue;
    if pending.NoFixup? || ret != 0 {
      return;
    }
    ghost var root, t0, objects0, byPath0 := links.root, links.tree, links.objects, links.byPath;
    ghost var due := refused == Refused({}, false) && Behind(root, t0, pending) && Recordable(View(root, t0));
    ghost var both := {pending.src, pending.dst};
    if pending.exchange {
      if pending.src != "" {
        links.NameMoved(pending.src, pending.from, pending.to, refused.moves);
        if due {
          MoveTidy(root, t0, links.tree, pending.src, pending.from, pending.to, both, objects0, byPath0);
        }
      }
      ghost var t1, objects1, byPath1 := links.tree, links.objects, links.byPath;
      if pending.dst != "" {
        if due && pending.src != "" {
          StillDue(root, t0, t1, {pending.src}, pending.dst);
        }
        links.NameMoved(pending.dst, pending.to, pending.from, refused.moves);
        if due {
          MoveTidy(root, t1, links.tree, pending.dst, pending.to, pending.from,
                   if pending.src == "" then both else both - {pending.src}, objects1, byPath1);
        }
      }
      AllSettled(root, links.tree, pending.src, pending.dst);
      return;
    }
    if pending.dst != "" {
      links.NameDropped(pending.dst, pending.to, OnlyStuck(refused.stuck));
      if due {
        DropTidy(root, t0, pending.dst, pending.to, both, objects0, byPath0);
      }
    }
    ghost var t1, objects1, byPath1 := links.tree, links.objects, links.byPath;
    if pending.src != "" {
      if due && pending.dst != "" {
        StillDue(root, t0, t1, {pending.dst}, pending.src);
      }
      links.NameMoved(pending.src, pending.from, pending.to, refused.moves);
      if due {
        MoveTidy(root, t1, links.tree, pending.src, pending.from, pending.to,
                 if pending.dst == "" then both else both - {pending.dst}, objects1, byPath1);
      }
    }
    AllSettled(root, links.tree, pending.src, pending.dst);
  }

  /** The records are one step behind a rename that the host has carried out. */
  ghost predicate Behind(root: string, t: Tree, pending: Pending)
    requires pending.RenameLinks?
  {
    pending.src != pending.dst && TidyBut(root, t, {pending.src, pending.dst}) &&
    (pending.src != "" ==> MoveDue(root, t, pending.src, pending.from, pending.to)) &&
    (pending.dst != "" ==> if pending.exchange then MoveDue(root, t, pending.dst, pending.to, pending.from)
                           else DropDue(root, t, pending.dst, pending.to))
  }

  /** No object but the two of a rename can be left to settle. */
  lemma AllSettled(root: string, t: Tree, src: string, dst: string)
    ensures forall ids: set<string> :: ids <= {""} && TidyBut(root, t, ids) ==> Tidy(root, t)
  {
    hide TidyAt, IsLinkId;
    EmptyIsNoId();
  }

  /** rename(2) and renameat2(2) from entry stop to exit stop, of anything to anything. */
  method RenameLike(links: LinkStore, from: string, to: string, flags: Flags, across: bool, refused: Refused)
    returns (ret: int)
    requires links.Valid() && Apart(links.root, from) && Apart(links.root, to)
    modifies links
    ensures links.Valid() && NoNewObject(links.root, old(links.tree), links.tree, "")
    ensures Outcome(View(links.root, links.tree), -ret) ==
            DoRename(old(View(links.root, links.tree)), from, to, flags, across)
    ensures !across && EntryId(old(links.tree), from) == "" && EntryId(old(links.tree), to) == "" ==>
              (-ret, links.tree) == HostRename(old(links.tree), from, to, flags)
    ensures refused == Refused({}, false) &&
            !MovesDirectory(old(View(links.root, links.tree)), Op.Rename(from, to, flags, across)) ==>
              KeepsTidy(links.root, old(links.tree), links.tree)
  {
    hide StorePath, ObjectPath, RecordPath, LinkTargetId, IsLinkId, InStore, Parse, Names, View, Indexed, InvOpen,
         IsBelow, HostRename, DoRename, Settling, KeepsTidy, MovesDirectory, Behind;
    ghost var root, t := links.root, links.tree;
    SameKeeps(root, t, t);
    if across {
      AcrossMounts(View(root, t), from, to, flags);
      return -EXDEV;
    }
    EntryIdIsLinkId(t, from);
    EntryIdIsLinkId(t, to);
    var skip, answer, pending := RenameEnter(links, from, to, flags);
    if skip {
      SkippedRename(root, t, from, to, flags);
      return answer;
    }
    RenameSettles(root, t, from, to, flags, links.objects, links.byPath);
    var (e, u) := HostRename(links.tree, from, to, flags);
    links.tree := u;
    ret := -e;
    RenameExit(links, pending, ret, refused);
    if refused == Refused({}, false) && !MovesDirectory(View(root, t), Op.Rename(from, to, flags, across)) {
      RenameKeepsTidy(root, t, from, to, flags, links.tree);
    }
  }

  /** What follows a rename of single entries finds the records one step behind, at most. */
  lemma RenameKeepsTidy(root: string, t: Tree, from: string, to: string, flags: Flags, w: Tree)
    requires Inv(root, t) && Apart(root, from) && Apart(root, to)
    requires !MovesDirectory(View(root, t), Op.Rename(from, to, flags, false))
    requires EntryId(t, from) == "" || EntryId(t, from) != EntryId(t, to) || flags.Exchange?
    requires View(root, w) == View(root, HostRename(t, from, to, flags).1)
    requires var (e, u), src, dst := HostRename(t, from, to, flags), EntryId(t, from), EntryId(t, to);
             (e != 0 || src == dst ==> w == u) &&
             ((e == 0 && src != dst && Behind(root, u, RenameLinks(src, dst, from, to, flags.Exchange?)) &&
               Recordable(View(root, u))) ==> Tidy(root, w))
    ensures KeepsTidy(root, t, w)
  {
    hide StorePath, ObjectPath, RecordPath, LinkTargetId, IsLinkId, InStore, Parse, Names, View, InvOpen, EntryId,
         IsBelow, Tidy, TidyBut, MoveDue, DropDue, Recordable, RenameErrno, MoveEntry, SwapEntries, NotEmpty;
    var (e, u) := HostRename(t, from, to, flags);
    var src, dst := EntryId(t, from), EntryId(t, to);
    if e == 0 && from != to && Tidy(root, t) {
      RenameErrnoAgrees(root, t, from, to, flags);
      SingleRename(root, t, from, to, flags);
      if flags.Exchange? {
        SwappedIsDue(root, t, from, to);
      } else {
        MovedIsDue(root, t, from, to);
        NothingDue(root, u, src, dst);
      }
    }
  }

  lemma NothingDue(root: string, u: Tree, src: string, dst: string)
    ensures src == dst == "" && TidyBut(root, u, {src, dst}) ==> Tidy(root, u)
  {
    hide TidyAt, IsLinkId;
    EmptyIsNoId();
  }

  /** A rename of single entries moves one or exchanges the two. */
  lemma SingleRename(root: string, t: Tree, from: string, to: string, flags: Flags)
    requires Inv(root, t) && Apart(root, from) && Apart(root, to) && from != to
    requires RenameErrno(t.Keys, HostDirs(t), from, to, flags) == 0 && from !in HostDirs(t) && to !in HostDirs(t)
    requires EntryId(t, from) == "" || EntryId(t, from) != EntryId(t, to) || flags.Exchange?
    ensures from in t && (flags.Exchange? ==> to in t)
    ensures HostRename(t, from, to, flags).1 ==
            if flags.Exchange? then SwapEntries(t, from, to) else MoveEntry(t, from, to)
    ensures if flags.Exchange? then CanSwap(root, t, from, to) else CanMove(root, t, from, to)
  {
    hide StorePath, ObjectPath, RecordPath, LinkTargetId, IsLinkId, Parse, Names, View, EntryId, IsBelow, NotEmpty,
         MarkersLive, ObjectsOk, RecordsOwned, Sizes, MoveEntry, SwapEntries, Remap;
  }

  lemma AcrossMounts(v: Files, from: string, to: string, flags: Flags)
    requires from != "/" && to != "/"
    ensures DoRename(v, from, to, flags, true) == Outcome(v, EXDEV)
  {
  }

  /** A rename that is not passed on: both names are names of one file. */
  lemma SkippedRename(root: string, t: Tree, from: string, to: string, flags: Flags)
    requires Inv(root, t) && Apart(root, from) && Apart(root, to) && !flags.Exchange?
    requires EntryId(t, from) != "" && EntryId(t, from) == EntryId(t, to)
    ensures DoRename(View(root, t), from, to, flags, false) ==
            Outcome(View(root, t), if flags.NoReplace? then EEXIST else 0)
  {
    hide StorePath, ObjectPath, RecordPath, LinkTargetId, IsLinkId, InStore, Parse, Names, View, InvOpen, IsBelow;
    ViewKinds(root, t, from);
    ViewKinds(root, t, to);
    if from != to {
      SameFileIff(root, t, from, to);
    }
  }

  /** What a rename that is passed on leaves behind is the guest's rename, with the records one step
      behind. */
  lemma RenameSettles(root: string, t: Tree, from: string, to: string, flags: Flags,
                      objects: map<nat, string>, byPath: map<string, nat>)
    requires Inv(root, t) && Indexed(root, t, objects, byPath) && Apart(root, from) && Apart(root, to)
    requires EntryId(t, from) == "" || EntryId(t, from) != EntryId(t, to) || flags.Exchange?
    ensures var (e, u) := HostRename(t, from, to, flags);
            Outcome(View(root, u), e) == DoRename(View(root, t), from, to, flags, false) &&
            Indexed(root, u, objects, byPath) && NoNewObject(root, t, u, "") &&
            Settling(root, u, if e == 0 && !flags.Exchange? then EntryId(t, to) else "")
  {
    hide StorePath, ObjectPath, RecordPath, LinkTargetId, IsLinkId, InStore, Parse, Names, View, Indexed, InvOpen,
         MoveEntry, SwapEntries, Remap, IsBelow, RenameErrno, RenameEffect, Settling;
    RenameErrnoAgrees(root, t, from, to, flags);
    var (e, u) := HostRename(t, from, to, flags);
    if e == 0 {
      if from in HostDirs(t) || to in HostDirs(t) {
        DirRenameSettles(root, t, from, to, flags);
        SettledBefore(root, u);
      } else {
        EntryRenameSettles(root, t, from, to, flags);
      }
    } else {
      SettledBefore(root, t);
    }
    IndexOutside(root, t, u, objects, byPath);
    forall k | IsLinkId(k) && ObjectPath(root, k) in u ensures ObjectPath(root, k) in t {
      StorePaths(root, k);
    }
  }
  /** The store part of two trees is the same. */
  ghost predicate SameStore(root: string, t: Tree, u: Tree) {
    forall p :: InStore(root, p) ==> (p in t <==> p in u) && (p in t ==> t[p] == u[p])
  }

  /** A rename that involves a directory: no name of a link object is replaced. */
  lemma DirRenameSettles(root: string, t: Tree, from: string, to: string, flags: Flags)
    requires Inv(root, t) && Apart(root, from) && Apart(root, to)
    requires RenameErrno(t.Keys, HostDirs(t), from, to, flags) == 0 && (from in HostDirs(t) || to in HostDirs(t))
    ensures var u := HostRename(t, from, to, flags).1;
            Inv(root, u) && View(root, u) == DoRename(View(root, t), from, to, flags, false).files &&
            SameStore(root, t, u) &&
            (!flags.Exchange? ==> EntryId(t, to) == "")
  {
    hide StorePath, ObjectPath, RecordPath, LinkTargetId, IsLinkId, InStore, Parse, Names, View, InvOpen, IsBelow,
         Remap, CanRemap, NotEmpty;
    RenameErrnoAgrees(root, t, from, to, flags);
    ViewKinds(root, t, to);
    if from != to {
      if flags.Exchange? {
        assert CanRemap(t.Keys, Swap(from, to)) by { CanSwapDirs(t.Keys, HostDirs(t), from, to, flags); }
        DirKeeps(root, t, Swap(from, to));
        DirStoreKept(root, t, Swap(from, to));
      } else {
        CanReplaceDir(t.Keys, HostDirs(t), from, to, flags);
        DropEmpty(root, t, to);
        DirKeeps(root, t - {to}, OneWay(from, to));
        DirStoreKept(root, t - {to}, OneWay(from, to));
      }
    }
  }

  lemma CanSwapDirs(keys: set<string>, dirs: set<string>, from: string, to: string, flags: Flags)
    requires from != "/" && to != "/" && from != to && flags.Exchange? && (from in dirs || to in dirs)
    requires RenameErrno(keys, dirs, from, to, flags) == 0
    ensures CanRemap(keys, Swap(from, to))
  {
    hide IsBelow;
  }

  /** What is left after the empty directory that a rename replaces is gone. */
  lemma DropEmpty(root: string, t: Tree, to: string)
    requires Inv(root, t) && Apart(root, to) && (to in t ==> t[to].Dir?)
    ensures EntryId(t, to) == ""
    ensures (t - {to}).Keys == t.Keys - {to} && (View(root, t) - {to}).Keys == View(root, t).Keys - {to}
    ensures Inv(root, t - {to}) && View(root, t - {to}) == View(root, t) - {to} && SameStore(root, t, t - {to})
  {
    hide StorePath, ObjectPath, RecordPath, LinkTargetId, IsLinkId, InStore, Parse, Names, View, InvOpen, IsBelow;
    ViewKinds(root, t, to);
    if to in t {
      DropPlain(root, t, to);
    } else {
      assert t - {to} == t && View(root, t) - {to} == View(root, t);
    }
  }

  /** A rename of one entry. */
  lemma EntryRenameSettles(root: string, t: Tree, from: string, to: string, flags: Flags)
    requires Inv(root, t) && Apart(root, from) && Apart(root, to)
    requires RenameErrno(t.Keys, HostDirs(t), from, to, flags) == 0 && from !in HostDirs(t) && to !in HostDirs(t)
    requires EntryId(t, from) == "" || EntryId(t, from) != EntryId(t, to) || flags.Exchange?
    ensures var u := HostRename(t, from, to, flags).1;
            View(root, u) == DoRename(View(root, t), from, to, flags, false).files && SameStore(root, t, u) &&
            Settling(root, u, if !flags.Exchange? then EntryId(t, to) else "")
  {
    hide StorePath, ObjectPath, RecordPath, LinkTargetId, IsLinkId, InStore, Parse, Names, View, InvOpen, IsBelow,
         MoveEntry, SwapEntries, Remap, CanRemap, NotEmpty;
    RenameErrnoAgrees(root, t, from, to, flags);
    ViewKinds(root, t, from);
    ViewKinds(root, t, to);
    if from != to {
      if to in t {
        SameFileIff(root, t, from, to);
      }
      if flags.Exchange? {
        SwapKeeps(root, t, from, to);
      } else {
        InvInodes(root, t);
        MoveStore(root, t, from, to);
        MoveView(root, t, from, to);
      }
    }
    EntryRenameStore(root, t, from, to, flags);
  }

  lemma EntryRenameStore(root: string, t: Tree, from: string, to: string, flags: Flags)
    requires Apart(root, from) && Apart(root, to)
    requires RenameErrno(t.Keys, HostDirs(t), from, to, flags) == 0 && from !in HostDirs(t) && to !in HostDirs(t)
    ensures SameStore(root, t, HostRename(t, from, to, flags).1)
  {
    hide InStore, StorePath, IsBelow, NotEmpty, Remap, CanRemap;
  }

  lemma InvInodes(root: string, t: Tree)
    requires Inv(root, t)
    ensures InodesDistinct(t)
  {
  }

  lemma SettledBefore(root: string, t: Tree)
    requires Inv(root, t)
    ensures Settling(root, t, "")
  {
  }

  // ---- presented link counts ----

  /** `count_for`, over the host's own count of one. */
  function PresentedCount(root: string, t: Tree, objects: map<nat, string>, ino: nat): nat {
    if ino in objects && RecordPath(root, objects[ino]) in t && t[RecordPath(root, objects[ino])].Sym? then
      CountAt(root, t, objects[ino])
    else 1
  }

  /** The link count a guest reads with stat(2) is the number of names it can find. */
  lemma PresentedCountIsLinkCount(root: string, t: Tree, objects: map<nat, string>, byPath: map<string, nat>, p: string)
    requires Inv(root, t) && Indexed(root, t, objects, byPath)
    requires p in View(root, t) && View(root, t)[p].Regular?
    ensures PresentedCount(root, t, objects, View(root, t)[p].ino) == LinkCount(View(root, t), View(root, t)[p].ino)
  {
    hide StorePath, ObjectPath, RecordPath, LinkTargetId, IsLinkId, InStore, Parse;
    var v := View(root, t);
    var i := v[p].ino;
    var same := set q | q in v && v[q] == Regular(i);
    EmptyIsNoId();
    ViewKinds(root, t, p);
    EntryIdIsLinkId(t, p);
    if EntryId(t, p) != "" {
      var id := EntryId(t, p);
      assert ObjectShape(root, t, id) && Counted(root, t, id);
      forall q ensures q in same <==> q in Names(root, t, id) {
        if q in v && q != p {
          SameFileIff(root, t, p, q);
        }
      }
      assert same == Names(root, t, id);
    } else {
      PlainNotIndexed(root, t, objects, byPath, p);
      forall q ensures q in same <==> q == p {
        if q in v && q != p {
          SameFileIff(root, t, p, q);
        }
      }
      assert same == {p};
    }
  }

  lemma PlainNotIndexed(root: string, t: Tree, objects: map<nat, string>, byPath: map<string, nat>, p: string)
    requires Inv(root, t) && Indexed(root, t, objects, byPath)
    requires p in t && !InStore(root, p) && t[p].File?
    ensures t[p].ino !in objects
  {
    hide StorePath, ObjectPath, RecordPath, LinkTargetId, IsLinkId, InStore, Parse;
    if t[p].ino in objects {
      StorePaths(root, objects[t[p].ino]);
      assert false;
    }
  }

  // ---- whole runs ----

  /** Random ids: distinct, and not in use when the session starts. */
  ghost predicate FreshIds(root: string, t: Tree, ops: seq<Op>) {
    (forall i :: 0 <= i < |ops| && ops[i].Link? ==> IsLinkId(ops[i].id) && ObjectPath(root, ops[i].id) !in t) &&
    (forall i, j :: 0 <= i < j < |ops| && ops[i].Link? && ops[j].Link? ==> ops[i].id != ops[j].id)
  }

  /** The markers a run writes fit the kernel's symlink limit, so symlink(2) does not fail. */
  ghost predicate AllFit(root: string, ops: seq<Op>) {
    forall i :: 0 <= i < |ops| && ops[i].Link? ==> Fits(root, ops[i].from) && Fits(root, ops[i].to)
  }

  method Perform(links: LinkStore, op: Op, refused: Refused) returns (ret: int)
    requires links.Valid() && Sensible(links.root, op)
    requires op.Link? ==> (IsLinkId(op.id) && ObjectPath(links.root, op.id) !in links.tree &&
                           Fits(links.root, op.from) && Fits(links.root, op.to))
    requires |View(links.root, links.tree)| + 1 < COUNT_LIMIT
    modifies links
    ensures links.Valid()
    ensures NoNewObject(links.root, old(links.tree), links.tree, if op.Link? then op.id else "")
    ensures Outcome(View(links.root, links.tree), -ret) == Step(links.root, old(View(links.root, links.tree)), op)
    ensures refused == Refused({}, false) && !MovesDirectory(old(View(links.root, links.tree)), op) ==>
              KeepsTidy(links.root, old(links.tree), links.tree)
  {
    hide KeepsTidy, MovesDirectory, StorePath, ObjectPath, RecordPath, LinkTargetId, IsLinkId, InStore, Parse, Names,
         View, Indexed, InvOpen,
         DoLink, DoUnlink, DoRename, Fits, NoNewObject, StorePath, IsBelow;
    match op
    case Link(from, to, id, across) => ret := LinkLike(links, from, to, id, across, false, NoFault);
    case Unlink(name) => ret := UnlinkLike(links, name, 0, refused);
    case Rename(from, to, flags, across) => ret := RenameLike(links, from, to, flags, across, refused);
  }

  /** Every run of link, unlink and rename calls: step for step the results and the tree a guest sees
      are those of real hard links, and every presented link count is the number of names. What the
      host may refuse all along is `refused`. */
  method PerformAll(links: LinkStore, ops: seq<Op>, refused: Refused) returns (rets: seq<int>)
    requires links.Valid() && AllSensible(links.root, ops)
    requires FreshIds(links.root, links.tree, ops) && AllFit(links.root, ops)
    requires |View(links.root, links.tree)| + |ops| < COUNT_LIMIT
    modifies links
    ensures links.Valid()
    ensures |rets| == |ops|
    ensures forall i :: 0 <= i < |ops| ==> -rets[i] == Results(links.root, old(View(links.root, links.tree)), ops)[i]
    ensures View(links.root, links.tree) == HardLinkSpec.Run(links.root, old(View(links.root, links.tree)), ops)
    ensures forall p :: p in View(links.root, links.tree) && View(links.root, links.tree)[p].Regular? ==>
              PresentedCount(links.root, links.tree, links.objects, View(links.root, links.tree)[p].ino) ==
              LinkCount(View(links.root, links.tree), View(links.root, links.tree)[p].ino)
    ensures (refused == Refused({}, false) && old(Tidy(links.root, links.tree)) &&
             Recorded(links.root, old(View(links.root, links.tree)), ops)) ==> Tidy(links.root, links.tree)
  {
    hide StorePath, ObjectPath, RecordPath, LinkTargetId, IsLinkId, InStore, Parse, Names, View, Indexed, InvOpen,
         Sensible, Step, LinkCount, PresentedCount, Fits, Tidy, Recordable, MovesDirectory;
    rets := [];
    ghost var root, t0 := links.root, links.tree;
    ghost var v0 := View(root, t0);
    var i := 0;
    assert ops[..0] == [];
    while i < |ops|
      invariant 0 <= i <= |ops| && |rets| == i && links.Valid()
      invariant View(root, links.tree) == HardLinkSpec.Run(root, v0, ops[..i])
      invariant |View(root, links.tree)| <= |v0| + i
      invariant forall j :: 0 <= j < i ==> -rets[j] == Results(root, v0, ops[..i])[j]
      invariant forall j :: i <= j < |ops| && ops[j].Link? ==> ObjectPath(root, ops[j].id) !in links.tree
      invariant refused == Refused({}, false) && Tidy(root, t0) && Recorded(root, v0, ops) ==> Tidy(root, links.tree)
    {
      RunSnoc(root, v0, ops, i);
      assert Recorded(root, v0, ops) ==> RecordedAt(root, v0, ops, i);
      StepSize(root, View(root, links.tree), ops[i]);
      EmptyIsNoId();
      var ret := Perform(links, ops[i], refused);
      rets := rets + [ret];
      i := i + 1;
    }
    assert ops[..i] == ops;
    forall p | p in View(root, links.tree) && View(root, links.tree)[p].Regular?
      ensures PresentedCount(root, links.tree, links.objects, View(root, links.tree)[p].ino) ==
              LinkCount(View(root, links.tree), View(root, links.tree)[p].ino)
    {
      PresentedCountIsLinkCount(root, links.tree, links.objects, links.byPath, p);
    }
  }

  // ---- where a run may start ----

  /** A tree without a store: no marker names anything, and no two host names share an inode. */
  ghost predicate NoStore(root: string, t: Tree) {
    (forall p :: p in t ==> !InStore(root, p) && EntryId(t, p) == "" && !t[p].Lock?) &&
    (forall p :: p in t && t[p].Sym? ==> |t[p].text| <= RECORD_MAX) &&
    InodesDistinct(t)
  }

  /** A host tree read without any emulation. */
  function AsItIs(t: Tree): Files {
    map p | p in t :: match t[p]
                      case Dir => Directory
                      case File(i) => Regular(i)
                      case Sym(text) => Symlink(text)
                      case Lock => Directory
  }

  /** Such a tree is a valid start, and the guest sees it as it is. */
  lemma NoStoreIsValid(root: string, t: Tree)
    requires NoStore(root, t)
    ensures Inv(root, t) && Indexed(root, t, map[], map[])
    ensures View(root, t) == AsItIs(t)
    ensures Tidy(root, t)
  {
    hide StorePath, ObjectPath, RecordPath, LinkTargetId, IsLinkId, InStore, Parse, Names, Tidy;
    forall id | IsLinkId(id) ensures ObjectPath(root, id) !in t && RecordPath(root, id) !in t {
      StorePaths(root, id);
    }
    assert View(root, t).Keys == t.Keys;
    NoObjectsTidy(root, t);
  }

  /** A whole session from a tree with no store: step for step the results, and in the end the tree and
      the link counts, are those of real hard links on that tree. */
  method PerformSession(root: string, pid: nat, tree: Tree, ops: seq<Op>, refused: Refused)
    returns (links: LinkStore, rets: seq<int>)
    requires NoStore(root, tree) && AllSensible(root, ops)
    requires FreshIds(root, tree, ops) && AllFit(root, ops) && |tree| + |ops| < COUNT_LIMIT
    ensures fresh(links) && links.root == root && links.Valid() && |rets| == |ops|
    ensures forall i :: 0 <= i < |ops| ==> -rets[i] == Results(root, AsItIs(tree), ops)[i]
    ensures View(root, links.tree) == HardLinkSpec.Run(root, AsItIs(tree), ops)
    ensures forall p :: p in View(root, links.tree) && View(root, links.tree)[p].Regular? ==>
              PresentedCount(root, links.tree, links.objects, View(root, links.tree)[p].ino) ==
              LinkCount(View(root, links.tree), View(root, links.tree)[p].ino)
    ensures refused == Refused({}, false) && Recorded(root, AsItIs(tree), ops) ==> Collapsed(root, links.tree)
  {
    hide StorePath, ObjectPath, RecordPath, LinkTargetId, IsLinkId, InStore, Parse, Names, View, Indexed, InvOpen,
         NoStore, AllSensible, FreshIds, AllFit, LinkCount, PresentedCount, Tidy, Recorded, Collapsed;
    NoStoreIsValid(root, tree);
    links := new LinkStore(root, tree, pid);
    assert AsItIs(tree).Keys == tree.Keys;
    rets := PerformAll(links, ops, refused);
    if Tidy(root, links.tree) {
      TidyIsPlain(root, links.tree);
    }
  }
}
