/** The resolver loop and its directory cache (src/vfs/resolver.cpp, resolver.hpp). */
module Resolver {
  import opened Errno
  import opened GuestPath
  import opened LinkMarker
  import opened MountTables
  import opened ResolverSpec
  import opened ResolverProperties

  const MAX_ENTRIES: nat := 8192

  datatype CacheEntry = CacheEntry(host: string, dev: nat, ino: nat)

  /** Directories resolved before, by guest path. */
  class DirCache {
    var entries: map<string, CacheEntry>

    constructor ()
      ensures entries == map[]
    {
      entries := map[];
    }

    /** `put`: an entry already there keeps its host path; a full cache is cleared first. */
    method Put(guest: string, host: string, dev: nat, ino: nat)
      modifies this
      ensures entries ==
              if guest in old(entries) then old(entries)[guest := CacheEntry(old(entries)[guest].host, dev, ino)]
              else if |old(entries)| >= MAX_ENTRIES then map[guest := CacheEntry(host, dev, ino)]
              else old(entries)[guest := CacheEntry(host, dev, ino)]
      ensures |old(entries)| <= MAX_ENTRIES ==> |entries| <= MAX_ENTRIES
    {
      if guest in entries {
        entries := entries[guest := CacheEntry(entries[guest].host, dev, ino)];
        assert entries.Keys == old(entries).Keys;
        return;
      }
      if |entries| >= MAX_ENTRIES {
        entries := map[];
      }
      entries := entries[guest := CacheEntry(host, dev, ino)];
    }

    method Drop(guest: string)
      modifies this
      ensures entries == old(entries) - {guest}
    {
      entries := entries - {guest};
    }
  }

  /** Every cached guest path is canonical, each of its prefixes is a directory on the host, and it is
      kept with the host path it maps to. */
  ghost predicate CacheOk(env: Env, entries: map<string, CacheEntry>)
    requires WellFormed(env.mounts)
  {
    forall g :: g in entries ==>
      IsAbsolute(g) && Build(Components(g)) == g && Canonical(Components(g)) && DirPath(env, Components(g)) &&
      entries[g].host == ToHost(env.mounts, g).host
  }

  lemma EmptyCacheOk(env: Env)
    requires WellFormed(env.mounts)
    ensures CacheOk(env, map[])
  {
  }

  /** A directory the walk stands on may be cached. */
  lemma PutOk(env: Env, before: map<string, CacheEntry>, after: map<string, CacheEntry>, path: seq<string>)
    requires WellFormed(env.mounts) && CacheOk(env, before) && Canonical(path) && DirPath(env, path)
    requires forall g :: g in after ==>
               (g == Build(path) && after[g].host == ToHost(env.mounts, g).host) ||
               (g in before && after[g].host == before[g].host)
    ensures CacheOk(env, after)
  {
    hide ToHost, Components, IsDirAt, DirPath;
    ComponentsBuild(path);
  }

  /** The joined key of the first `k` components names exactly those components. */
  lemma KeyComponents(pending: seq<string>, k: nat)
    requires 0 < k <= |pending| && forall i :: 0 <= i < k ==> ValidComponent(pending[i])
    ensures Join(pending[..k]) == Build(pending[..k]) && Components(Build(pending[..k])) == pending[..k]
  {
    ComponentsBuild(pending[..k]);
  }

  /** Start below the longest cached directory, if it is still the same directory; otherwise forget it
      and start at the root. Returns how many leading components are known directories. */
  method StartBelow(env: Env, cache: DirCache, ghost path: string, pending: seq<string>, slash: bool) returns (k: nat)
    requires WellFormed(env.mounts) && CacheOk(env, cache.entries)
    requires pending == Pending(path) && slash == TrailingSlash(path) && |pending| >= 2 && ".." !in Components(path)
    modifies cache
    ensures CacheOk(env, cache.entries)
    ensures k < |pending| && Canonical(pending[..k]) && DirPath(env, pending[..k])
  {
    hide ToHost, IsDirAt, Components, DirPath;
    var prefix := |pending| - 1 - (if slash then 1 else 0);
    k := prefix;
    RootIsDirPath(env);
    ComponentsValid(path);
    assert forall i :: 0 <= i < prefix ==> pending[i] in Components(path);
    while k > 0
      invariant 0 <= k <= prefix && cache.entries == old(cache.entries)
    {
      var key := Join(pending[..k]);
      KeyComponents(pending, k);
      if key in cache.entries {
        var e := cache.entries[key];
        var st := env.lstat(e.host);
        if st.StatOk? && st.kind.DirKind? && st.dev == e.dev && st.ino == e.ino {
          return;
        }
        cache.Drop(key);
        assert pending[..0] == [];
        return 0;
      }
      k := k - 1;
    }
    assert pending[..0] == [];
  }

  lemma RootIsDirPath(env: Env)
    requires WellFormed(env.mounts)
    ensures DirPath(env, [])
  {
  }

  /** What the loop has established, in terms of the walk it carries out. */
  ghost predicate Tracks(env: Env, opts: Options, goal: Outcome, pending: seq<string>, done: seq<string>, links: nat,
                         exists_: bool, isDir: bool, isSymlink: bool)
    requires WellFormed(env.mounts)
  {
    links <= Budget(opts) && Walkable(pending) &&
    if exists_ && isDir then
      Canonical(done) && DirPath(env, done) && !isSymlink &&
      goal == Walk(env, opts, done, pending, Budget(opts) - links)
    else if exists_ then
      goal == if pending == [] then At(done, true, false, isSymlink) else Fail(ENOTDIR)
    else
      !isDir && goal == if OnlyDots(pending) then At(done, false, false, false) else Fail(ENOENT)
  }

  lemma DotStep(env: Env, opts: Options, goal: Outcome, all: seq<string>, done: seq<string>, links: nat,
                exists_: bool, isDir: bool, isSymlink: bool)
    requires WellFormed(env.mounts) && Tracks(env, opts, goal, all, done, links, exists_, isDir, isSymlink)
    requires all != [] && all[0] == "."
    ensures if !isDir && exists_ then goal == Fail(ENOTDIR)
            else Tracks(env, opts, goal, all[1..], done, links, exists_, isDir, isSymlink)
  {
    hide Inspect, IsFollow, DirPath, ValidComponent;
    if !exists_ {
      assert OnlyDots(all) <==> OnlyDots(all[1..]) by {
        assert forall p :: p in all <==> p == all[0] || p in all[1..];
      }
    }
  }

  lemma DotDotStep(env: Env, opts: Options, goal: Outcome, all: seq<string>, done: seq<string>, links: nat,
                   exists_: bool, isDir: bool, isSymlink: bool)
    requires WellFormed(env.mounts) && Tracks(env, opts, goal, all, done, links, exists_, isDir, isSymlink)
    requires all != [] && all[0] == ".."
    ensures if !exists_ then goal == Fail(ENOENT)
            else if !isDir then goal == Fail(ENOTDIR)
            else Tracks(env, opts, goal, all[1..], if done == [] then [] else done[..|done| - 1], links, true, true,
                        isSymlink)
  {
    hide Inspect, IsFollow, DirPath, ValidComponent;
    assert all[0] in all;
    if exists_ && isDir && done != [] {
      DirPathPrefix(env, done, |done| - 1);
    }
  }

  /** One lookup of a name in the directory the walk stands on. */
  lemma NotOnlyDots(pending: seq<string>)
    requires pending != [] && pending[0] != "."
    ensures !OnlyDots(pending)
  {
    assert pending[0] in pending;
  }

  /** One name of the walk. */
  lemma WalkName(env: Env, opts: Options, dir: seq<string>, all: seq<string>, budget: nat)
    requires WellFormed(env.mounts) && all != [] && all[0] != "." && all[0] != ".."
    ensures var path, rest := dir + [all[0]], all[1..];
            Walk(env, opts, dir, all, budget) ==
            match Inspect(env, opts, path, rest)
            case Fails(e) => if IsFollow(env, opts, path, rest) && budget == 0 then Fail(ELOOP) else Fail(e)
            case Missing => if OnlyDots(rest) then At(path, false, false, false) else Fail(ENOENT)
            case Directory => Walk(env, opts, path, rest, budget)
            case Leaf(isSymlink) => if rest == [] then At(path, true, false, isSymlink) else Fail(ENOTDIR)
            case MagicLink => if budget == 0 then Fail(ELOOP) else AtMagic(path)
            case Follow(target) =>
              if budget == 0 then Fail(ELOOP)
              else Walk(env, opts, if IsAbsolute(target) then [] else dir, Spliced(target) + rest, budget - 1)
  {
    hide Inspect, IsFollow, Spliced, OnlyDots;
  }

  /** The next name below a directory. */
  lemma NameInDir(env: Env, opts: Options, goal: Outcome, all: seq<string>, done: seq<string>, links: nat)
    requires WellFormed(env.mounts) && Tracks(env, opts, goal, all, done, links, true, true, false)
    requires all != [] && all[0] != "." && all[0] != ".."
    ensures var path, rest := done + [all[0]], all[1..];
            match Inspect(env, opts, path, rest)
            case Missing => Tracks(env, opts, goal, rest, path, links, false, false, false)
            case Directory => Tracks(env, opts, goal, rest, path, links, true, true, false)
            case Leaf(symlink) => Tracks(env, opts, goal, rest, path, links, true, false, symlink)
            case Fails(e) => goal == if IsFollow(env, opts, path, rest) && links == Budget(opts) then Fail(ELOOP)
              else Fail(e)
            case MagicLink => goal == if links == Budget(opts) then Fail(ELOOP) else AtMagic(path)
            case Follow(target) =>
              if links == Budget(opts) then goal == Fail(ELOOP)
              else Tracks(env, opts, goal, Spliced(target) + rest, if IsAbsolute(target) then [] else done, links + 1,
                          true, true, false)
  {
    hide Inspect, IsFollow, DirPath, ValidComponent, Spliced, Walk, OnlyDots, Walkable, Canonical, Tracks;
    var path, rest := done + [all[0]], all[1..];
    TracksDir(env, opts, goal, all, done, links);
    NextName(done, all);
    WalkName(env, opts, done, all, Budget(opts) - links);
    match Inspect(env, opts, path, rest)
    case Missing => TracksElsewhere(env, opts, goal, rest, path, links, false, false);
    case Leaf(symlink) => TracksElsewhere(env, opts, goal, rest, path, links, true, symlink);
    case Directory =>
      DirPathSnoc(env, done, all[0]);
      DirectoryIsDir(env, opts, path, rest);
      TracksDir(env, opts, goal, rest, path, links);
    case Follow(target) =>
      if links < Budget(opts) {
        RootIsDirPath(env);
        SplicedWalkable(target, rest);
        TracksDir(env, opts, goal, Spliced(target) + rest, if IsAbsolute(target) then [] else done, links + 1);
      }
    case _ =>
  }

  lemma TracksDir(env: Env, opts: Options, goal: Outcome, pending: seq<string>, done: seq<string>, links: nat)
    requires WellFormed(env.mounts)
    ensures Tracks(env, opts, goal, pending, done, links, true, true, false) <==>
            links <= Budget(opts) && Walkable(pending) && Canonical(done) && DirPath(env, done) &&
            goal == Walk(env, opts, done, pending, Budget(opts) - links)
  {
    hide Walk, DirPath, Canonical, Walkable;
  }

  lemma TracksElsewhere(env: Env, opts: Options, goal: Outcome, pending: seq<string>, done: seq<string>, links: nat,
                        exists_: bool, isSymlink: bool)
    requires WellFormed(env.mounts) && links <= Budget(opts) && Walkable(pending)
    requires goal == if exists_ then (if pending == [] then At(done, true, false, isSymlink) else Fail(ENOTDIR))
                     else if OnlyDots(pending) then At(done, false, false, false) else Fail(ENOENT)
    ensures Tracks(env, opts, goal, pending, done, links, exists_, false, isSymlink)
  {
  }

  lemma NameStep(env: Env, opts: Options, goal: Outcome, all: seq<string>, done: seq<string>, links: nat,
                 exists_: bool, isDir: bool, isSymlink: bool)
    requires WellFormed(env.mounts) && Tracks(env, opts, goal, all, done, links, exists_, isDir, isSymlink)
    requires all != [] && all[0] != "." && all[0] != ".."
    ensures if !exists_ then goal == Fail(ENOENT)
            else if !isDir then goal == Fail(ENOTDIR)
            else
              var path, rest := done + [all[0]], all[1..];
              match Inspect(env, opts, path, rest)
              case Missing => Tracks(env, opts, goal, rest, path, links, false, false, false)
              case Directory => Tracks(env, opts, goal, rest, path, links, true, true, false)
              case Leaf(symlink) => Tracks(env, opts, goal, rest, path, links, true, false, symlink)
              case Fails(e) => goal == if IsFollow(env, opts, path, rest) && links == Budget(opts) then Fail(ELOOP)
                else Fail(e)
              case MagicLink => goal == if links == Budget(opts) then Fail(ELOOP) else AtMagic(path)
              case Follow(target) =>
                if links == Budget(opts) then goal == Fail(ELOOP)
                else Tracks(env, opts, goal, Spliced(target) + rest, if IsAbsolute(target) then [] else done, links + 1,
                            true, true, false)
  {
    hide Inspect, IsFollow, DirPath, ValidComponent, Spliced, Walk, OnlyDots, Walkable, Canonical;
    NotOnlyDots(all);
    if exists_ && isDir {
      assert !isSymlink;
      hide Tracks;
      NameInDir(env, opts, goal, all, done, links);
    }
  }

  /** Taking the next name keeps what is walked and what is left well formed. */
  lemma NextName(done: seq<string>, all: seq<string>)
    requires Walkable(all) && all != [] && all[0] != "." && all[0] != ".."
    ensures Walkable(all[1..]) && (Canonical(done) ==> Canonical(done + [all[0]])) && Canonical([])
  {
    hide ValidComponent;
    assert all[0] in all;
  }

  lemma SplicedWalkable(target: string, rest: seq<string>)
    requires Walkable(rest)
    ensures Walkable(Spliced(target) + rest)
  {
    hide ValidComponent, Spliced;
    SplicedValid(target);
  }

  /** What lstat and the options say about an entry, before a symlink to follow is read. */
  datatype Status = Gone | Dir | End(isSymlink: bool) | Stop(errno: int) | MustFollow

  /** The part of the loop body up to the decision to follow; directories are cached. */
  method LookUp(env: Env, opts: Options, cache: DirCache?, done: seq<string>, pending: seq<string>) returns (s: Status)
    requires WellFormed(env.mounts) && (cache != null ==> CacheOk(env, cache.entries))
    requires Canonical(done) && (done != [] ==> DirPath(env, done[..|done| - 1]))
    modifies cache
    ensures cache != null ==> CacheOk(env, cache.entries)
    ensures s.MustFollow? <==> IsFollow(env, opts, done, pending)
    ensures match s
            case Gone => Inspect(env, opts, done, pending).Missing?
            case Dir => Inspect(env, opts, done, pending).Directory?
            case End(symlink) => Inspect(env, opts, done, pending) == Leaf(symlink)
            case Stop(e) => Inspect(env, opts, done, pending) == Fails(e)
            case MustFollow => Inspect(env, opts, done, pending) ==
                               FollowTarget(env, opts, Build(done), ToHost(env.mounts, Build(done)), OnlyDots(pending))
  {
    hide ToHost, Build, DirPath, CacheOk, FollowTarget, LinkTargetId, StorePath, Components;
    var last := OnlyDots(pending);
    var mustFollow := !last || opts.followFinal || pending != [];
    var guest := Build(done);
    var map_ := ToHost(env.mounts, guest);
    var st := env.lstat(map_.host);
    if st.StatErr? {
      if st.errno == ENOENT {
        return Gone;
      }
      if st.errno == EACCES && last && map_.mount.kind.Proc? {
        return End(false);
      }
      return Stop(st.errno);
    }
    var follow := st.kind.SymlinkKind? && mustFollow;
    if st.kind.SymlinkKind? && !follow && opts.seeThrough && !map_.mount.kind.Proc? {
      var text := ReadLink(env, map_.host);
      if text.LinkText? {
        var id := LinkTargetId(text.text);
        if id != "" {
          var object_ := env.lstat(StorePath(map_.mount.host) + "/" + id);
          follow := object_.StatOk? && !object_.kind.DirKind? && !object_.kind.SymlinkKind?;
        }
      }
    }
    if follow {
      return MustFollow;
    }
    if st.kind.DirKind? {
      if cache != null && !map_.mount.kind.Proc? && !map_.mount.kind.Device? {
        DirPathWhole(env, done);
        cache.Put(guest, map_.host, st.dev, st.ino);
        PutOk(env, old(cache.entries), cache.entries, done);
      }
      return Dir;
    }
    return End(st.kind.SymlinkKind?);
  }

  lemma DirPathWhole(env: Env, path: seq<string>)
    requires WellFormed(env.mounts) && (path != [] ==> DirPath(env, path[..|path| - 1]) && IsDirAt(env, path))
    ensures DirPath(env, path)
  {
    hide IsDirAt, DirPath;
    RootIsDirPath(env);
    if path != [] {
      DirPathSnoc(env, path[..|path| - 1], path[|path| - 1]);
      assert path[..|path| - 1] + [path[|path| - 1]] == path;
    }
  }

  /** The part of the loop body that reads the target of a symlink to follow. */
  method ReadTarget(env: Env, opts: Options, done: seq<string>, last: bool) returns (f: Found)
    requires WellFormed(env.mounts)
    ensures f == FollowTarget(env, opts, Build(done), ToHost(env.mounts, Build(done)), last)
    ensures f.Fails? || f.MagicLink? || f.Follow?
  {
    hide ToHost, Build, LinkTargetId, StorePath, ProcLinkTarget;
    var guest := Build(done);
    var map_ := ToHost(env.mounts, guest);
    var target := "";
    if map_.mount.kind.Proc? {
      var proc := ProcLinkTarget(env, opts, guest, map_);
      if proc.ProcErr? {
        return Fails(proc.errno);
      }
      if proc.Magic? {
        if !last {
          return Fails(ENOTDIR);
        }
        return MagicLink;
      }
      target := proc.target;
    } else {
      var text := ReadLink(env, map_.host);
      if text.LinkErr? {
        return Fails(text.errno);
      }
      target := text.text;
      var id := LinkTargetId(target);
      if id != "" {
        target := StorePath(map_.mount.guest) + "/" + id;
      }
    }
    if target == "" {
      return Fails(ENOENT);
    }
    return Follow(target);
  }

  /** What looking up one name leads to: the end of the walk, or what the loop goes on with. */
  datatype Turn =
    | Halt(answer: Result<Resolved>)
    | GoOn(pending: seq<string>, done: seq<string>, links: nat, exists_: bool, isDir: bool, isSymlink: bool)

  /** The part of the loop body that looks up a name below a directory. */
  method NameTurn(env: Env, opts: Options, cache: DirCache?, comp: string, rest: seq<string>, at: seq<string>,
                  followed: nat,
                  slash: bool, ghost goal: Outcome, ghost isSymlink: bool) returns (turn: Turn)
    requires WellFormed(env.mounts) && (cache != null ==> CacheOk(env, cache.entries))
    requires Tracks(env, opts, goal, [comp] + rest, at, followed, true, true, isSymlink)
    requires followed <= Budget(opts) && comp != "." && comp != ".."
    modifies cache
    ensures cache != null ==> CacheOk(env, cache.entries)
    ensures turn.Halt? ==> turn.answer == Finish(env, slash, goal)
    ensures turn.GoOn? ==>
              Tracks(env, opts, goal, turn.pending, turn.done, turn.links, turn.exists_, turn.isDir, turn.isSymlink) &&
              (turn.links == followed + 1 <= Budget(opts) || (turn.links == followed && turn.pending == rest))
  {
    hide ToHost, IsDirAt, Components, Walk, Inspect, DirPath, Finish, CacheOk, Spliced, FollowTarget, IsFollow,
         ValidComponent, OnlyDots, Tracks, Build, Canonical;
    ghost var all := [comp] + rest;
    assert all[0] == comp && all[1..] == rest;
    NameStep(env, opts, goal, all, at, followed, true, true, isSymlink);
    NameIsProper(env, opts, goal, all, at, followed, isSymlink);
    var path := at + [comp];
    var status := LookUp(env, opts, cache, path, rest);
    if status.MustFollow? {
      if followed + 1 > opts.maxSymlinks {
        FollowFails(env, opts, goal, all, at, followed);
        return Halt(Failure(env, slash, goal, ELOOP));
      }
      var found := ReadTarget(env, opts, path, OnlyDots(rest));
      if found.Fails? {
        return Halt(Failure(env, slash, goal, found.errno));
      }
      if found.MagicLink? {
        return Halt(Finish(env, slash, AtMagic(path)));
      }
      var more := SplitTarget(found.target);
      return GoOn(more + rest, if IsAbsolute(found.target) then [] else at, followed + 1, true, true, false);
    }
    if status.Stop? {
      return Halt(Failure(env, slash, goal, status.errno));
    }
    return GoOn(rest, path, followed, !status.Gone?, status.Dir?, status.End? && status.isSymlink);
  }

  /** The loop of `resolve`, from the directory the cache or the root provides. */
  method WalkLoop(env: Env, opts: Options, cache: DirCache?, start: seq<string>, todo: seq<string>, slash: bool,
                  ghost goal: Outcome) returns (r: Result<Resolved>)
    requires WellFormed(env.mounts) && (cache != null ==> CacheOk(env, cache.entries))
    requires Tracks(env, opts, goal, todo, start, 0, true, true, false)
    modifies cache
    ensures r == Finish(env, slash, goal)
    ensures cache != null ==> CacheOk(env, cache.entries)
  {
    hide ToHost, IsDirAt, Components, Walk, Inspect, DirPath, Finish, CacheOk, Spliced, FollowTarget, IsFollow,
         ValidComponent, OnlyDots, Tracks, Build, Canonical;
    var pending, done := todo, start;
    var links, exists_, isDir, isSymlink := 0, true, true, false;
    while pending != []
      invariant Tracks(env, opts, goal, pending, done, links, exists_, isDir, isSymlink)
      invariant links <= Budget(opts)
      invariant cache != null ==> CacheOk(env, cache.entries)
      decreases Budget(opts) - links, |pending|
    {
      var comp := pending[0];
      ghost var all := pending;
      pending := pending[1..];
      if comp == "." {
        DotStep(env, opts, goal, all, done, links, exists_, isDir, isSymlink);
        if !isDir && exists_ {
          return Failure(env, slash, goal, ENOTDIR);
        }
        continue;
      }
      if comp == ".." {
        DotDotStep(env, opts, goal, all, done, links, exists_, isDir, isSymlink);
        if !exists_ {
          return Failure(env, slash, goal, ENOENT);
        }
        if !isDir {
          return Failure(env, slash, goal, ENOTDIR);
        }
        if done != [] {
          done := done[..|done| - 1];
        }
        isDir := true;
        continue;
      }
      NameStep(env, opts, goal, all, done, links, exists_, isDir, isSymlink);
      if !exists_ {
        return Failure(env, slash, goal, ENOENT);
      }
      if !isDir {
        return Failure(env, slash, goal, ENOTDIR);
      }
      assert all == [comp] + pending;
      var turn := NameTurn(env, opts, cache, comp, pending, done, links, slash, goal, isSymlink);
      if turn.Halt? {
        return turn.answer;
      }
      pending, done, links := turn.pending, turn.done, turn.links;
      exists_, isDir, isSymlink := turn.exists_, turn.isDir, turn.isSymlink;
    }
    EndTracks(env, opts, goal, done, links, exists_, isDir, isSymlink);
    r := Finish(env, slash, At(done, exists_, exists_ && isDir, exists_ && isSymlink));
  }

  function Failure(env: Env, slash: bool, ghost goal: Outcome, errno: int): (r: Result<Resolved>)
    requires WellFormed(env.mounts) && goal == Fail(errno)
    ensures r == Finish(env, slash, goal)
  {
    Err(errno)
  }

  /** The components of a symlink target, with a directory asked for behind a trailing slash. */
  method SplitTarget(target: string) returns (parts: seq<string>)
    ensures parts == Spliced(target)
  {
    parts := ScanComponents(target);
    if |target| > 1 && target[|target| - 1] == '/' {
      parts := parts + ["."];
    }
  }

  /** `resolve`: with any cache that holds true directories, the errno and the result are exactly those
      of the plain walk, and the cache still holds true directories. */
  method Resolve(env: Env, path: string, opts: Options, cache: DirCache?) returns (r: Result<Resolved>)
    requires WellFormed(env.mounts) && (cache != null ==> CacheOk(env, cache.entries))
    modifies cache
    ensures r == Resolution(env, opts, path)
    ensures cache != null ==> CacheOk(env, cache.entries)
  {
    hide ToHost, IsDirAt, Components, Walk, DirPath, Finish, CacheOk, Tracks;
    if !IsAbsolute(path) {
      return Err(EINVAL);
    }
    if |path| >= PATH_MAX {
      return Err(ENAMETOOLONG);
    }
    var slash := TrailingSlash(path);
    var parts := ScanComponents(path);
    var pending := parts + (if slash then ["."] else []);
    var k := 0;
    assert pending[..0] == [];
    RootIsDirPath(env);
    if cache != null && ".." !in parts && |pending| >= 2 {
      k := StartBelow(env, cache, path, pending, slash);
    }
    StartTracks(env, opts, path, k);
    r := WalkLoop(env, opts, cache, pending[..k], pending[k..], slash, Walk(env, opts, [], pending, Budget(opts)));
  }

  lemma NameIsProper(env: Env, opts: Options, goal: Outcome, all: seq<string>, done: seq<string>, links: nat,
                     isSymlink: bool)
    requires WellFormed(env.mounts) && Tracks(env, opts, goal, all, done, links, true, true, isSymlink)
    requires all != [] && all[0] != "." && all[0] != ".."
    ensures Canonical(done + [all[0]]) && DirPath(env, (done + [all[0]])[..|done|])
    ensures !isSymlink
  {
    hide Walk, DirPath;
    assert all[0] in all;
    assert (done + [all[0]])[..|done|] == done;
  }

  /** With no budget left, a symlink to follow ends the walk whatever its target. */
  lemma FollowFails(env: Env, opts: Options, goal: Outcome, all: seq<string>, done: seq<string>, links: nat)
    requires WellFormed(env.mounts) && Tracks(env, opts, goal, all, done, links, true, true, false)
    requires all != [] && all[0] != "." && all[0] != ".."
    requires IsFollow(env, opts, done + [all[0]], all[1..]) && links + 1 > opts.maxSymlinks
    ensures goal == Fail(ELOOP)
  {
    hide FollowTarget, ToHost, Build, SeesThrough;
    FollowIsNoDirectory(env, opts, Build(done + [all[0]]), ToHost(env.mounts, Build(done + [all[0]])),
                        OnlyDots(all[1..]));
  }

  lemma StartTracks(env: Env, opts: Options, path: string, k: nat)
    requires WellFormed(env.mounts) && k <= |Pending(path)|
    requires Canonical(Pending(path)[..k]) && DirPath(env, Pending(path)[..k])
    ensures Tracks(env, opts, Walk(env, opts, [], Pending(path), Budget(opts)), Pending(path)[k..],
                   Pending(path)[..k], 0,
                   true, true, false)
  {
    hide Walk, DirPath, Components, ValidComponent;
    var all := Pending(path);
    PendingWalkable(path);
    assert [] + all[..k] == all[..k] && all[..k] + all[k..] == all;
    WalkSkip(env, opts, [], all[..k], all[k..], Budget(opts));
  }

  lemma EndTracks(env: Env, opts: Options, goal: Outcome, done: seq<string>, links: nat,
                  exists_: bool, isDir: bool, isSymlink: bool)
    requires WellFormed(env.mounts) && Tracks(env, opts, goal, [], done, links, exists_, isDir, isSymlink)
    ensures goal == At(done, exists_, exists_ && isDir, exists_ && isSymlink)
  {
  }

  /** One query of a program. */
  datatype Query = Query(path: string, opts: Options)

  /** Any sequence of resolutions that share one cache, initially empty, gives every answer the
      resolutions give without a cache. */
  method ResolveAll(env: Env, queries: seq<Query>) returns (answers: seq<Result<Resolved>>)
    requires WellFormed(env.mounts)
    ensures |answers| == |queries|
    ensures forall i :: 0 <= i < |queries| ==> answers[i] == Resolution(env, queries[i].opts, queries[i].path)
  {
    hide Resolution, CacheOk;
    var cache := new DirCache();
    EmptyCacheOk(env);
    answers := [];
    for i := 0 to |queries|
      invariant |answers| == i && CacheOk(env, cache.entries)
      invariant forall j :: 0 <= j < i ==> answers[j] == Resolution(env, queries[j].opts, queries[j].path)
    {
      var answer := Resolve(env, queries[i].path, queries[i].opts, cache);
      answers := answers + [answer];
    }
  }
}
