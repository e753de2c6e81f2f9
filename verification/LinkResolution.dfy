/** Where the path resolver (src/vfs/resolver.cpp) and the link store (src/engines/rootless/link_store.cpp)
    meet: a resolved name of an emulated hard link is the file the guest's view of the tree shows there. */
module LinkResolution {
  import opened GuestPath
  import opened LinkMarker
  import opened MountTables
  import opened ResolverSpec
  import opened ResolverProperties
  import LinkView

  /** The host answers lstat and readlink below a mount from the tree. */
  ghost predicate Shows(env: Env, t: LinkView.Tree) {
    forall h :: h in t ==>
      match t[h]
      case Dir => env.lstat(h).StatOk? && env.lstat(h).kind.DirKind?
      case Sym(text) => env.lstat(h).StatOk? && env.lstat(h).kind.SymlinkKind? && env.readlink(h) == LinkText(text)
      case File(ino) => env.lstat(h).StatOk? && env.lstat(h).kind.OtherKind? && env.lstat(h).ino == ino
      case Lock => env.lstat(h).StatOk? && env.lstat(h).kind.OtherKind?
  }

  /** The store of a mount as guest components, when it is a plain directory of that mount. */
  ghost predicate StoreAt(env: Env, m: Mount, store: seq<string>)
    requires WellFormed(env.mounts)
  {
    store != [] && Canonical(store) && Build(store) == StorePath(m.guest) && DirPath(env, store) && !m.kind.Proc? &&
    forall id :: IsLinkId(id) ==>
        ToHost(env.mounts, Build(store + [id])) == HostMapping(m, LinkView.ObjectPath(m.host, id))
  }

  lemma IdIsComponent(id: string)
    requires IsLinkId(id)
    ensures ValidComponent(id) && id != ".." && id != "" && id[|id| - 1] != '/'
  {
  }

  lemma ObjectComponents(store: seq<string>, id: string)
    requires store != [] && Canonical(store) && IsLinkId(id)
    ensures Canonical(store + [id]) && Build(store + [id]) == Build(store) + "/" + id
    ensures Spliced(Build(store) + "/" + id) == store + [id]
  {
    hide IsLinkId, Components;
    IdIsComponent(id);
    JoinSnoc(store, id);
    assert ValidComponents(store + [id]);
    ComponentsBuild(store + [id]);
    var target := Build(store) + "/" + id;
    assert target[|target| - 1] == id[|id| - 1];
    assert store + [id] + [] == store + [id];
  }

  /** The marker of an object in the store leads to it, whatever prefix it was written with. */
  lemma MarkerFollows(env: Env, opts: Options, dir: seq<string>, name: string, m: Mount, store: seq<string>, id: string)
    requires WellFormed(env.mounts) && StoreAt(env, m, store) && IsLinkId(id) && (opts.seeThrough || opts.followFinal)
    requires var map_ := ToHost(env.mounts, Build(dir + [name]));
             map_.mount == m && env.lstat(map_.host).StatOk? && env.lstat(map_.host).kind.SymlinkKind? &&
             ReadLink(env, map_.host).LinkText? && LinkTargetId(ReadLink(env, map_.host).text) == id
    requires env.lstat(LinkView.ObjectPath(m.host, id)).StatOk? &&
             env.lstat(LinkView.ObjectPath(m.host, id)).kind.OtherKind?
    ensures Inspect(env, opts, dir + [name], []) == Follow(Build(store) + "/" + id)
  {
    hide LinkTargetId, IsLinkId, ToHost, StorePath, ReadLink, DirPath;
    IdIsComponent(id);
  }

  /** Walking to an emulated hard link ends at its object. */
  lemma WalkToObject(env: Env, opts: Options, dir: seq<string>, name: string, m: Mount, store: seq<string>,
                     id: string, budget: nat)
    requires WellFormed(env.mounts) && StoreAt(env, m, store) && IsLinkId(id) &&
             (opts.seeThrough || opts.followFinal) && budget > 0
    requires ValidComponent(name) && name != ".."
    requires var map_ := ToHost(env.mounts, Build(dir + [name]));
             map_.mount == m && env.lstat(map_.host).StatOk? && env.lstat(map_.host).kind.SymlinkKind? &&
             ReadLink(env, map_.host).LinkText? && LinkTargetId(ReadLink(env, map_.host).text) == id
    requires env.lstat(LinkView.ObjectPath(m.host, id)).StatOk? &&
             env.lstat(LinkView.ObjectPath(m.host, id)).kind.OtherKind?
    ensures Walk(env, opts, dir, [name], budget) == At(store + [id], true, false, false)
  {
    hide LinkTargetId, IsLinkId, ToHost, StorePath, ReadLink, DirPath, Inspect, Build, IsFollow, Components;
    MarkerFollows(env, opts, dir, name, m, store, id);
    ObjectComponents(store, id);
    IdIsComponent(id);
    assert [name][1..] == [] && store + [id] + [] == store + [id] && [] + store == store;
    assert IsAbsolute(Build(store) + "/" + id) by { BuildIsAbsolute(store); }
    WalkSkip(env, opts, [], store, [id], budget - 1);
    assert [id][1..] == [];
    assert Inspect(env, opts, store + [id], []) == Leaf(false) by { ObjectIsLeaf(env, opts, m, store, id); }
  }

  lemma BuildIsAbsolute(parts: seq<string>)
    requires parts != []
    ensures Build(parts) != "" && Build(parts)[0] == '/'
  {
  }

  lemma ObjectIsLeaf(env: Env, opts: Options, m: Mount, store: seq<string>, id: string)
    requires WellFormed(env.mounts) && StoreAt(env, m, store) && IsLinkId(id)
    requires env.lstat(LinkView.ObjectPath(m.host, id)).StatOk? &&
             env.lstat(LinkView.ObjectPath(m.host, id)).kind.OtherKind?
    ensures Inspect(env, opts, store + [id], []) == Leaf(false)
  {
    hide IsLinkId, ToHost, DirPath, Build;
  }

  /** Resolving a name of an emulated hard link, followed or seen through, gives the host path of a file with the
      inode that the guest's view of the tree shows at that name. */
  lemma ResolvesToViewedFile(env: Env, opts: Options, t: LinkView.Tree, m: Mount, store: seq<string>, path: seq<string>)
    requires WellFormed(env.mounts) && StoreAt(env, m, store) && (opts.seeThrough || opts.followFinal) &&
             opts.maxSymlinks > 0
    requires Shows(env, t) && LinkView.Inv(m.host, t)
    requires path != [] && Canonical(path) && DirPath(env, path[..|path| - 1]) && |Build(path)| < PATH_MAX
    requires var map_ := ToHost(env.mounts, Build(path));
             map_.mount == m && map_.host in t && !LinkView.InStore(m.host, map_.host) &&
             LinkView.EntryId(t, map_.host) != ""
    requires |LinkView.ObjectPath(m.host, LinkView.EntryId(t, ToHost(env.mounts, Build(path)).host))| < PATH_MAX
    ensures var h := ToHost(env.mounts, Build(path)).host; var r := Resolution(env, opts, Build(path));
            r.Ok? && r.value.exists_ && !r.value.isDir && !r.value.finalIsSymlink && r.value.mount == m &&
            h in LinkView.View(m.host, t) && r.value.host in t &&
            t[r.value.host].File? && LinkView.View(m.host, t)[h] == LinkView.Regular(t[r.value.host].ino)
  {
    hide LinkTargetId, IsLinkId, ToHost, StorePath, DirPath, Build, Walk, Components, LinkView.Inv, ObjectId, Shows;
    var h := ToHost(env.mounts, Build(path)).host;
    var id := LinkView.EntryId(t, h);
    MarkerHasObject(m.host, t, h);
    var o := LinkView.ObjectPath(m.host, id);
    assert t[o].File?;
    Shown(env, t, h, o);
    var dir, name := path[..|path| - 1], path[|path| - 1];
    assert path == dir + [name] && name in path;
    WalkToObject(env, opts, dir, name, m, store, id, Budget(opts));
    assert [] + dir == dir && forall c :: c in dir ==> c in path;
    WalkSkip(env, opts, [], dir, [name], Budget(opts));
    assert Pending(Build(path)) == path by { PendingBuild(path); }
    assert IsAbsolute(Build(path)) by { BuildIsAbsolute(path); }
    assert ToHost(env.mounts, Build(store + [id])) == HostMapping(m, o);
  }

  lemma PendingBuild(path: seq<string>)
    requires path != [] && Canonical(path)
    ensures Pending(Build(path)) == path && !TrailingSlash(Build(path))
  {
    hide Components;
    assert ValidComponents(path);
    ComponentsBuild(path);
    JoinEnd(path);
    assert path + [] == path;
  }

  lemma MarkerHasObject(root: string, t: LinkView.Tree, h: string)
    requires LinkView.Inv(root, t) && h in t && !LinkView.InStore(root, h) && LinkView.EntryId(t, h) != ""
    ensures var id := LinkView.EntryId(t, h);
            IsLinkId(id) && LinkView.ObjectPath(root, id) in t && t[LinkView.ObjectPath(root, id)].File? &&
            t[h].Sym? && |t[h].text| < PATH_MAX && LinkTargetId(t[h].text) == id
  {
    hide LinkTargetId, IsLinkId, StorePath, LinkView.InStore;
    var id := LinkView.EntryId(t, h);
    LinkView.EntryIdIsLinkId(t, h);
    assert LinkView.ObjectPath(root, id) in t;
    assert LinkView.ObjectShape(root, t, id);
  }

  lemma Shown(env: Env, t: LinkView.Tree, h: string, o: string)
    requires Shows(env, t) && h in t && t[h].Sym? && |t[h].text| < PATH_MAX && o in t && t[o].File?
    ensures env.lstat(h).StatOk? && env.lstat(h).kind.SymlinkKind? && ReadLink(env, h) == LinkText(t[h].text)
    ensures env.lstat(o).StatOk? && env.lstat(o).kind.OtherKind? && env.lstat(o).ino == t[o].ino
  {
  }
}
