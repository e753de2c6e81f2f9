/** What a lookup means, said about guest paths as strings (src/vfs/resolver.cpp, resolve): a symlink stands for
    its target, ".." for the parent directory, and the last component for what lstat finds there. */
module ResolverLaws {
  import opened Decimal
  import opened Errno
  import opened GuestPath
  import opened LinkMarker
  import opened MountTables
  import opened ResolverProperties
  import opened ResolverSpec

  /** The rest asks for more than the component in front of it: an entry below it, or a directory. */
  predicate GoesOn(rest: string) {
    Components(rest) != [] || (rest != "" && rest[|rest| - 1] == '/')
  }

  /** The same answer, but for a slash behind the host path, which may make it too long. */
  predicate SlashApart(a: Result<Resolved>, b: Result<Resolved>) {
    a == b ||
    (a.Ok? && b == (if |a.value.host| + 1 >= PATH_MAX then Err(ENAMETOOLONG)
                    else Ok(a.value.(host := a.value.host + "/"))))
  }

  // ---- a symlink is its target ----

  /** The path with a symlink's text in the place of the symlink: behind the directory the symlink is in, or at
      the root when the text is absolute. A text that ends in a slash asks for a directory even where the rest
      is only dots. */
  function Through(dir: seq<string>, text: string, rest: string): string {
    (if IsAbsolute(text) then text else Join(dir) + "/" + text) + rest +
    (if TrailingSlash(text) && rest != "" && !GoesOn(rest) then "/" else "")
  }

  /** `a`, a path with the symlink in it, and `b`, the one with its text there, resolve alike. */
  predicate Alike(text: string, rest: string, a: Result<Resolved>, b: Result<Resolved>) {
    if TrailingSlash(text) && !GoesOn(rest) then SlashApart(a, b) else a == b
  }

  /** A symlink with this text, outside proc mounts, that is no emulated hard link. */
  predicate PlainLink(env: Env, guest: string, text: string)
    requires WellFormed(env.mounts) && IsAbsolute(guest)
  {
    var map_ := ToHost(env.mounts, guest);
    var st := env.lstat(map_.host);
    !map_.mount.kind.Proc? && st.StatOk? && st.kind.SymlinkKind? && env.readlink(map_.host) == LinkText(text) &&
    0 < |text| < PATH_MAX && LinkTargetId(text) == ""
  }

  /** A name in a directory that is really there. */
  predicate InDirectory(env: Env, dir: seq<string>, name: string)
    requires WellFormed(env.mounts)
  {
    Canonical(dir) && ValidComponent(name) && name != ".." && DirPath(env, dir)
  }

  /** Whatever follows a symlink that is looked through resolves as it does behind the symlink's text, at the
      price of one symlink; every outcome is covered, errors as well. With none left the answer is ELOOP. */
  lemma SymlinkIsItsText(env: Env, opts: Options, dir: seq<string>, name: string, text: string, rest: string)
    requires WellFormed(env.mounts) && InDirectory(env, dir, name) && IsRest(rest)
    requires PlainLink(env, Build(dir + [name]), text) && (opts.followFinal || GoesOn(rest))
    requires |Build(dir + [name]) + rest| < PATH_MAX && |Through(dir, text, rest)| < PATH_MAX
    ensures opts.maxSymlinks >= 0 ==>
              Alike(text, rest, Resolution(env, opts.(maxSymlinks := opts.maxSymlinks + 1), Build(dir + [name]) + rest),
                    Resolution(env, opts, Through(dir, text, rest)))
    ensures opts.maxSymlinks <= 0 ==> Resolution(env, opts, Build(dir + [name]) + rest) == Err(ELOOP)
  {
    hide Walk, Components, ToHost, Build, DirPath, LinkTargetId;
    assert ReadLink(env, ToHost(env.mounts, Build(dir + [name])).host) == LinkText(text);
    assert IsFollow(env, opts, dir + [name], Tail(rest));
    LinkIsItsText(env, opts, dir, name, text, rest);
  }

  /** A symlink that has to be followed and cannot be read ends the lookup, unless no more may be followed. */
  lemma UnreadableLink(env: Env, opts: Options, dir: seq<string>, name: string, rest: string)
    requires WellFormed(env.mounts) && InDirectory(env, dir, name) && IsRest(rest)
    requires |Build(dir + [name]) + rest| < PATH_MAX && (opts.followFinal || GoesOn(rest))
    requires var map_ := ToHost(env.mounts, Build(dir + [name]));
             !map_.mount.kind.Proc? && env.lstat(map_.host).StatOk? && env.lstat(map_.host).kind.SymlinkKind?
    ensures var link := env.readlink(ToHost(env.mounts, Build(dir + [name])).host);
            var r := Resolution(env, opts, Build(dir + [name]) + rest);
            (link.LinkErr? ==> r == Err(if opts.maxSymlinks <= 0 then ELOOP else link.errno)) &&
            (link == LinkText("") ==> r == Err(if opts.maxSymlinks <= 0 then ELOOP else ENOENT)) &&
            (link.LinkText? && |link.text| >= PATH_MAX ==>
              r == Err(if opts.maxSymlinks <= 0 then ELOOP else ENAMETOOLONG))
  {
    hide Walk, Components, ToHost, Build, DirPath, LinkTargetId;
    TailShape(rest);
    var path := dir + [name];
    var link := env.readlink(ToHost(env.mounts, Build(path)).host);
    if link == LinkText("") {
      NoMarker();
    }
    if link.LinkErr? || link.text == "" || |link.text| >= PATH_MAX {
      assert Inspect(env, opts, path, Tail(rest)).Fails? && IsFollow(env, opts, path, Tail(rest));
      FollowStops(env, opts, dir, name, rest);
    }
  }

  lemma NoMarker()
    ensures LinkTargetId("") == ""
  {
  }

  lemma FollowStops(env: Env, opts: Options, dir: seq<string>, name: string, rest: string)
    requires WellFormed(env.mounts) && InDirectory(env, dir, name) && IsRest(rest)
    requires Inspect(env, opts, dir + [name], Tail(rest)).Fails? && |Build(dir + [name]) + rest| < PATH_MAX
    requires IsFollow(env, opts, dir + [name], Tail(rest))
    ensures Resolution(env, opts, Build(dir + [name]) + rest) ==
            Err(if opts.maxSymlinks <= 0 then ELOOP else Inspect(env, opts, dir + [name], Tail(rest)).errno)
  {
    hide Components, Build, DirPath, Inspect, IsFollow, Tail, Finish;
    WalkToName(env, opts, dir, name, rest);
    FailsAre(env, if opts.maxSymlinks <= 0 then ELOOP else Inspect(env, opts, dir + [name], Tail(rest)).errno);
  }

  /** /proc/self is the directory of the calling process, /proc/thread-self that of the calling thread, in any
      proc mount, and neither can be followed for a caller without an id. */
  lemma ProcSelf(env: Env, opts: Options, dir: seq<string>, m: Mount, thread: bool, rest: string)
    requires WellFormed(env.mounts) && m.kind.Proc? && m.guest == Build(dir) && dir != [] && IsRest(rest)
    requires var name := if thread then "thread-self" else "self";
             InDirectory(env, dir, name) && ToHost(env.mounts, Build(dir + [name])).mount == m &&
             env.lstat(ToHost(env.mounts, Build(dir + [name])).host).StatOk? &&
             env.lstat(ToHost(env.mounts, Build(dir + [name])).host).kind.SymlinkKind? &&
             |Build(dir + [name]) + rest| < PATH_MAX
    requires opts.maxSymlinks >= 0 && (opts.followFinal || GoesOn(rest))
    ensures var path := Build(dir + [if thread then "thread-self" else "self"]) + rest;
            var r := Resolution(env, opts.(maxSymlinks := opts.maxSymlinks + 1), path);
            if opts.procTgid <= 0 || (thread && opts.procTid <= 0) then r == Err(EACCES)
            else
              var own := m.guest + "/" + ToDecimal(opts.procTgid) +
                         (if thread then "/task/" + ToDecimal(opts.procTid) else "") + rest;
              |own| < PATH_MAX ==> r == Resolution(env, opts, own)
  {
    hide Components, Build, DirPath, ToDecimal, Through, Inspect, Alike, ToHost;
    var name := if thread then "thread-self" else "self";
    var more := opts.(maxSymlinks := opts.maxSymlinks + 1);
    SelfFound(env, opts, dir, m, thread, rest);
    SameLookup(env, opts, more, dir + [name], Tail(rest));
    if opts.procTgid > 0 && !(thread && opts.procTid <= 0) {
      var text := ToDecimal(opts.procTgid) + (if thread then "/task/" + ToDecimal(opts.procTid) else "");
      ThroughOwn(dir, opts.procTgid, opts.procTid, thread, rest);
      if |Through(dir, text, rest)| < PATH_MAX {
        LinkIsItsText(env, opts, dir, name, text, rest);
        NotTrailing(text, rest, Resolution(env, more, Build(dir + [name]) + rest),
                    Resolution(env, opts, Through(dir, text, rest)));
      }
    } else {
      StopsAt(env, more, dir, name, rest);
    }
  }

  lemma NotTrailing(text: string, rest: string, a: Result<Resolved>, b: Result<Resolved>)
    requires Alike(text, rest, a, b) && !TrailingSlash(text)
    ensures a == b
  {
  }

  lemma SelfFound(env: Env, opts: Options, dir: seq<string>, m: Mount, thread: bool, rest: string)
    requires WellFormed(env.mounts) && m.kind.Proc? && m.guest == Build(dir) && dir != [] && Canonical(dir)
    requires var name := if thread then "thread-self" else "self";
             ToHost(env.mounts, Build(dir + [name])).mount == m &&
             env.lstat(ToHost(env.mounts, Build(dir + [name])).host).StatOk? &&
             env.lstat(ToHost(env.mounts, Build(dir + [name])).host).kind.SymlinkKind?
    requires opts.followFinal || GoesOn(rest)
    ensures Inspect(env, opts, dir + [if thread then "thread-self" else "self"], Tail(rest)) ==
            if opts.procTgid <= 0 || (thread && opts.procTid <= 0) then Fails(EACCES)
            else Follow(ToDecimal(opts.procTgid) + (if thread then "/task/" + ToDecimal(opts.procTid) else ""))
  {
    hide Components, ToHost, Build, LinkTargetId, ToDecimal, Tail, SeesThrough, ProcLinkTarget, OnlyDots;
    hide WellFormed, Canonical;
    OwnTarget(env, opts, dir, ToHost(env.mounts, Build(dir + [if thread then "thread-self" else "self"])), thread);
    TailShape(rest);
  }

  lemma OwnTarget(env: Env, opts: Options, dir: seq<string>, map_: HostMapping, thread: bool)
    requires map_.mount.guest == Build(dir) && Canonical(dir)
    ensures var guest := Build(dir + [if thread then "thread-self" else "self"]);
            IsBelow(guest, map_.mount.guest) && ProcLinkTarget(env, opts, guest, map_) ==
            if opts.procTgid <= 0 || (thread && opts.procTid <= 0) then ProcErr(EACCES)
            else ProcPath(ToDecimal(opts.procTgid) + (if thread then "/task/" + ToDecimal(opts.procTid) else ""))
  {
    hide Build, ToDecimal, ToGuest, SuffixAfter, IsBelow, Contains, EndsDeleted;
    ProcName(map_.mount, dir, if thread then "thread-self" else "self");
  }

  lemma ProcName(m: Mount, dir: seq<string>, name: string)
    requires m.guest == Build(dir) && Canonical(dir) && ValidComponent(name) && name != ".."
    ensures IsBelow(Build(dir + [name]), m.guest) && SuffixAfter(Build(dir + [name]), m.guest) == "/" + name
  {
    hide Build, IsBelow, SuffixAfter;
    NameBelow(dir, [name]);
    OneName(name);
  }

  lemma OneName(name: string)
    ensures Join([name]) == "/" + name
  {
    assert [name][1..] == [];
    assert "/" + name + "" == "/" + name;
  }

  lemma ThroughOwn(dir: seq<string>, tgid: int, tid: int, thread: bool, rest: string)
    requires dir != [] && tgid > 0 && (thread ==> tid > 0)
    ensures var text := ToDecimal(tgid) + (if thread then "/task/" + ToDecimal(tid) else "");
            text != "" && !IsAbsolute(text) && !TrailingSlash(text) &&
            Through(dir, text, rest) ==
            Build(dir) + "/" + ToDecimal(tgid) + (if thread then "/task/" + ToDecimal(tid) else "") + rest
  {
    hide ToDecimal, Components;
    DecimalDigits(tgid);
    if thread {
      DecimalDigits(tid);
    }
  }

  /** A link of a proc mount that names a host directory or file (root, cwd, exe, an open file) is the guest
      path that host path is mapped to, and cannot be followed when it is in no mount or has been deleted. */
  lemma ProcLinkIsMapped(env: Env, opts: Options, dir: seq<string>, name: string, raw: string, rest: string)
    requires WellFormed(env.mounts) && InDirectory(env, dir, name) && IsRest(rest)
    requires var map_ := ToHost(env.mounts, Build(dir + [name]));
             map_.mount.kind.Proc? && env.lstat(map_.host).StatOk? && env.lstat(map_.host).kind.SymlinkKind? &&
             env.readlink(map_.host) == LinkText(raw) &&
             SuffixAfter(Build(dir + [name]), map_.mount.guest) !in {"/self", "/thread-self"}
    requires IsAbsolute(raw) && |raw| < PATH_MAX && |Build(dir + [name]) + rest| < PATH_MAX
    requires opts.maxSymlinks >= 0 && (opts.followFinal || GoesOn(rest))
    ensures var r := Resolution(env, opts.(maxSymlinks := opts.maxSymlinks + 1), Build(dir + [name]) + rest);
            if exists front :: raw == front + " (deleted)" && front != "" then r == Err(ENOENT)
            else if forall m :: m in env.mounts ==> !IsBelow(raw, m.host) then r == Err(EACCES)
            else
              var text := ToGuest(env.mounts, raw).value;
              |Through(dir, text, rest)| < PATH_MAX ==>
                Alike(text, rest, r, Resolution(env, opts, Through(dir, text, rest)))
  {
    hide Walk, Components, ToHost, Build, DirPath, LinkTargetId, IsBelow;
    var more := opts.(maxSymlinks := opts.maxSymlinks + 1);
    TailShape(rest);
    DeletedIs(raw);
    if !EndsDeleted(raw) && ToGuest(env.mounts, raw).Some? {
      var text := ToGuest(env.mounts, raw).value;
      GuestIsAbsolute(env.mounts, raw);
      assert Inspect(env, opts, dir + [name], Tail(rest)) == Follow(text);
      if |Through(dir, text, rest)| < PATH_MAX {
        LinkIsItsText(env, opts, dir, name, text, rest);
      }
    } else {
      NoMountHolds(env.mounts, raw);
      StopsAt(env, more, dir, name, rest);
    }
  }

  lemma NoMountHolds(mounts: seq<Mount>, host: string)
    ensures ToGuest(mounts, host).None? <==> forall m :: m in mounts ==> !IsBelow(host, m.host)
  {
    hide IsBelow;
  }

  predicate BracketAt(raw: string, i: int) {
    0 <= i < |raw| - 1 && raw[i] == ':' && raw[i + 1] == '['
  }

  /** A link of a proc mount that names an object of the kernel, which has no path: "pipe:[17]". */
  ghost predicate NamesKernelObject(raw: string) {
    "anon_inode:" <= raw || exists i :: BracketAt(raw, i)
  }

  lemma {:induction false} ContainsIs(s: string)
    ensures Contains(s, ":[") <==> exists i :: BracketAt(s, i)
  {
    assert ":[" <= s <==> BracketAt(s, 0);
    if s != "" {
      ContainsIs(s[1..]);
      forall i ensures BracketAt(s[1..], i) ==> BracketAt(s, i + 1) {
      }
      forall i | i > 0 ensures BracketAt(s, i) ==> BracketAt(s[1..], i - 1) {
      }
    }
  }

  /** Such a link is handed to the kernel where it is, and has nothing below it; any other relative link of a proc
      mount is followed like a symlink. */
  lemma ProcRelativeLink(env: Env, opts: Options, dir: seq<string>, name: string, raw: string, rest: string)
    requires WellFormed(env.mounts) && InDirectory(env, dir, name) && IsRest(rest)
    requires var map_ := ToHost(env.mounts, Build(dir + [name]));
             map_.mount.kind.Proc? && env.lstat(map_.host).StatOk? && env.lstat(map_.host).kind.SymlinkKind? &&
             env.readlink(map_.host) == LinkText(raw) &&
             SuffixAfter(Build(dir + [name]), map_.mount.guest) !in {"/self", "/thread-self"}
    requires !IsAbsolute(raw) && |raw| < PATH_MAX && |Build(dir + [name]) + rest| < PATH_MAX
    requires opts.maxSymlinks >= 0 && (opts.followFinal || GoesOn(rest))
    ensures var path := Build(dir + [name]);
            var r := Resolution(env, opts.(maxSymlinks := opts.maxSymlinks + 1), path + rest);
            if raw == "" then r == Err(ENOENT)
            else if NamesKernelObject(raw) then
              if Components(rest) != [] then r == Err(ENOTDIR)
              else r.Ok? && r.value.procMagic && r.value.guest == path && r.value.host == ToHost(env.mounts, path).host
            else
              |Through(dir, raw, rest)| < PATH_MAX ==>
                Alike(raw, rest, r, Resolution(env, opts, Through(dir, raw, rest)))
  {
    hide Walk, Components, ToHost, Build, DirPath, LinkTargetId, Contains, Through;
    var more := opts.(maxSymlinks := opts.maxSymlinks + 1);
    TailShape(rest);
    ContainsIs(raw);
    var found := Inspect(env, more, dir + [name], Tail(rest));
    SameLookup(env, opts, more, dir + [name], Tail(rest));
    if raw == "" || (NamesKernelObject(raw) && Components(rest) != []) {
      StopsAt(env, more, dir, name, rest);
    } else if NamesKernelObject(raw) {
      assert found == MagicLink;
      MagicEnds(env, more, dir, name, rest);
    } else {
      assert found == Follow(raw);
      if |Through(dir, raw, rest)| < PATH_MAX {
        LinkIsItsText(env, opts, dir, name, raw, rest);
      }
    }
  }

  lemma MagicEnds(env: Env, opts: Options, dir: seq<string>, name: string, rest: string)
    requires WellFormed(env.mounts) && InDirectory(env, dir, name) && IsRest(rest) && opts.maxSymlinks > 0
    requires Inspect(env, opts, dir + [name], Tail(rest)).MagicLink? && |Build(dir + [name]) + rest| < PATH_MAX
    ensures var path := Build(dir + [name]);
            var r := Resolution(env, opts, path + rest);
            r.Ok? && r.value.procMagic && r.value.guest == path && r.value.host == ToHost(env.mounts, path).host
  {
    hide Components, Build, DirPath, Inspect, IsFollow, Tail, ToHost;
    WalkToName(env, opts, dir, name, rest);
  }

  // ---- emulated hard links ----

  /** The symlink at this path is an emulated hard link to `id`, outside proc mounts. */
  ghost predicate MarkerAt(env: Env, guest: string, id: string)
    requires WellFormed(env.mounts) && IsAbsolute(guest)
  {
    var map_ := ToHost(env.mounts, guest);
    !map_.mount.kind.Proc? && env.lstat(map_.host).StatOk? && env.lstat(map_.host).kind.SymlinkKind? &&
    env.readlink(map_.host).LinkText? && |env.readlink(map_.host).text| < PATH_MAX &&
    MarksId(env.readlink(map_.host).text, id)
  }

  /** Its file is in the store of the mount. */
  predicate HasFile(env: Env, mount: Mount, id: string) {
    var st := env.lstat(StorePath(mount.host) + "/" + id);
    st.StatOk? && st.kind.OtherKind?
  }

  /** An emulated hard link that is followed, or seen through while its file is there, resolves as the object in
      the store of its mount, whatever its text says in front. */
  lemma MarkerIsItsObject(env: Env, opts: Options, dir: seq<string>, name: string, id: string, rest: string)
    requires WellFormed(env.mounts) && InDirectory(env, dir, name) && IsRest(rest)
    requires MarkerAt(env, Build(dir + [name]), id)
    requires var mount := ToHost(env.mounts, Build(dir + [name])).mount;
             (opts.followFinal || GoesOn(rest) || (opts.seeThrough && HasFile(env, mount, id))) &&
             |StorePath(mount.guest) + "/" + id + rest| < PATH_MAX
    requires |Build(dir + [name]) + rest| < PATH_MAX && opts.maxSymlinks >= 0
    ensures Resolution(env, opts.(maxSymlinks := opts.maxSymlinks + 1), Build(dir + [name]) + rest) ==
            Resolution(env, opts, StorePath(ToHost(env.mounts, Build(dir + [name])).mount.guest) + "/" + id + rest)
  {
    hide Walk, Components, ToHost, Build, DirPath, LinkTargetId, StorePath, MarksId;
    var map_ := ToHost(env.mounts, Build(dir + [name]));
    LinkTargetIdExact(env.readlink(map_.host).text, id);
    IdIsNamed(env.readlink(map_.host).text, id);
    var text := StorePath(map_.mount.guest) + "/" + id;
    assert map_.mount in env.mounts;
    StoreIsAbsolute(map_.mount.guest, id);
    TailShape(rest);
    assert Inspect(env, opts, dir + [name], Tail(rest)) == Follow(text);
    assert Through(dir, text, rest) == text + rest;
    LinkIsItsText(env, opts, dir, name, text, rest);
  }

  lemma IdIsNamed(text: string, id: string)
    requires MarksId(text, id)
    ensures id != "" && IsLinkId(id)
  {
  }

  lemma StoreIsAbsolute(root: string, id: string)
    requires IsAbsolute(root) && IsLinkId(id)
    ensures var text := StorePath(root) + "/" + id; IsAbsolute(text) && !TrailingSlash(text)
  {
    var text := StorePath(root) + "/" + id;
    assert text[|text| - 1] == id[|id| - 1];
  }

  /** Seeing through stops at a dangling link: it stays a symlink, so that nothing is made in the store through
      it. So does a symlink that is no emulated link, where final symlinks are not followed. */
  lemma DanglingStaysSymlink(env: Env, opts: Options, dir: seq<string>, name: string)
    requires WellFormed(env.mounts) && InDirectory(env, dir, name) && !opts.followFinal
    requires |Build(dir + [name])| < PATH_MAX && |ToHost(env.mounts, Build(dir + [name])).host| + 1 < PATH_MAX
    requires var map_ := ToHost(env.mounts, Build(dir + [name]));
             env.lstat(map_.host).StatOk? && env.lstat(map_.host).kind.SymlinkKind? &&
             forall id :: MarkerAt(env, Build(dir + [name]), id) ==> !HasFile(env, map_.mount, id)
    ensures Answered(Resolution(env, opts, Build(dir + [name])), Build(dir + [name]), true, false, true)
  {
    hide Walk, Components, ToHost, Build, DirPath, LinkTargetId, StorePath, MarksId, Finish;
    var path := Build(dir + [name]);
    var map_ := ToHost(env.mounts, path);
    assert path + "" == path;
    if env.readlink(map_.host).LinkText? {
      var id := LinkTargetId(env.readlink(map_.host).text);
      LinkTargetIdExact(env.readlink(map_.host).text, id);
      assert id != "" && |env.readlink(map_.host).text| < PATH_MAX && !map_.mount.kind.Proc? ==>
               MarkerAt(env, path, id);
    }
    NoComponents();
    WalkToName(env, opts, dir, name, "");
    assert Tail("") == [];
    assert Inspect(env, opts, dir + [name], []) == Leaf(true);
    LeafEnds(env, opts, dir, name);
    FinishAt(env, opts, dir + [name], "");
  }

  lemma LeafEnds(env: Env, opts: Options, dir: seq<string>, name: string)
    requires WellFormed(env.mounts) && InDirectory(env, dir, name)
    requires Inspect(env, opts, dir + [name], []) == Leaf(true)
    ensures Walk(env, opts, dir, [name] + [], Budget(opts)) == At(dir + [name], true, false, true)
  {
    hide Inspect, IsFollow, DirPath, Components;
    assert ([name] + [])[1..] == [];
  }

  /** A file is reported as a store object exactly by its path: the store of its mount and its id. */
  lemma ObjectIdIs(path: seq<string>, mount: Mount, id: string)
    requires Canonical(path) && IsAbsolute(mount.guest) && id != ""
    ensures ObjectId(path, mount) == id <==> IsLinkId(id) && Build(path) == StorePath(mount.guest) + "/" + id
  {
    hide Components, Build, IsLinkId, StorePath, Canonical;
    if IsLinkId(id) && Build(path) == StorePath(mount.guest) + "/" + id {
      StoreComponents(path, mount.guest, id);
      IdIsLong(id);
    }
    if ObjectId(path, mount) == id {
      LastName(path);
      IdIsLong(id);
      Rebuilt(Build(path), StorePath(mount.guest), id);
    }
  }

  lemma IdIsLong(id: string)
    requires IsLinkId(id)
    ensures |id| == ID_LEN
  {
  }

  lemma Rebuilt(s: string, front: string, last: string)
    requires |s| == |front| + 1 + |last| && front <= s && s[|s| - |last|..] == last && s[|s| - |last| - 1] == '/'
    ensures s == front + "/" + last
  {
  }

  lemma LastName(path: seq<string>)
    requires Canonical(path) && path != []
    ensures var last := path[|path| - 1]; |Build(path)| > |last|
    ensures var last := path[|path| - 1]; Build(path)[|Build(path)| - |last|..] == last
    ensures var last := path[|path| - 1]; Build(path)[|Build(path)| - |last| - 1] == '/'
  {
    var front, last := path[..|path| - 1], path[|path| - 1];
    assert path == front + [last];
    JoinSnoc(front, last);
  }

  lemma StoreComponents(path: seq<string>, root: string, id: string)
    requires Canonical(path) && IsLinkId(id) && Build(path) == StorePath(root) + "/" + id
    ensures |path| >= 2 && path[|path| - 2] == STORE_DIR && path[|path| - 1] == id
  {
    hide Components;
    ComponentsBuild(path);
    var head := StorePath(root)[..|StorePath(root)| - |STORE_DIR| - 1];
    var last := "/" + id;
    assert StorePath(root) == head + ("/" + STORE_DIR);
    assert Build(path) == head + ("/" + STORE_DIR + last);
    ComponentsConcat(head, "/" + STORE_DIR + last);
    assert ("/" + STORE_DIR + last) == "/" + STORE_DIR + last;
    ComponentThen(STORE_DIR, last);
    assert "/" + id + "" == last;
    ComponentThen(id, "");
    NoComponents();
    assert path == Components(head) + ([STORE_DIR] + ([id] + []));
  }

  /** Only absolute paths below the limit are looked up at all. */
  lemma BadPaths(env: Env, opts: Options, path: string)
    requires WellFormed(env.mounts)
    ensures path == "" || path[0] != '/' ==> Resolution(env, opts, path) == Err(EINVAL)
    ensures path != "" && path[0] == '/' && |path| >= 4096 ==> Resolution(env, opts, path) == Err(ENAMETOOLONG)
  {
    hide Walk, Components;
  }

  /** A path with a trailing slash is looked up as a directory on the host as well. */
  lemma HostEndsInSlash(env: Env, opts: Options, path: string)
    requires WellFormed(env.mounts) && Resolution(env, opts, path).Ok? && TrailingSlash(path)
    ensures var r := Resolution(env, opts, path).value;
            r.procMagic || (|r.host| < PATH_MAX && r.host != "" && r.host[|r.host| - 1] == '/')
  {
    hide Walk, ToHost, Build, ObjectId, Pending;
  }

  // ---- the parent ----

  /** "d/x/.." is "d" when "d/x" is a directory. */
  lemma DotDotIsParent(env: Env, opts: Options, dir: seq<string>, name: string, rest: string)
    requires WellFormed(env.mounts) && InDirectory(env, dir, name) && IsDirAt(env, dir + [name]) && IsRest(rest)
    requires |Build(dir + [name]) + "/.." + rest| < PATH_MAX
    ensures Resolution(env, opts, Build(dir + [name]) + "/.." + rest) == Resolution(env, opts, Build(dir) + rest)
  {
    hide Components, Build, DirPath, Walk, Finish, IsDirAt;
    var path := dir + [name];
    var b := Budget(opts);
    assert (Build(path) + "/.." + rest) == Build(path) + ("/.." + rest);
    PendingBehind(path, "/.." + rest);
    PendingBehind(dir, rest);
    TailDotDot(rest);
    DirPathSnoc(env, dir, name);
    WalkFrom(env, opts, path, [".."] + Tail(rest), b);
    WalkFrom(env, opts, dir, Tail(rest), b);
    Up(env, opts, dir, name, Tail(rest), b);
    BuildLonger(dir, name);
    assert rest != "" ==> ("/.." + rest)[|"/.." + rest| - 1] == rest[|rest| - 1];
  }

  lemma Up(env: Env, opts: Options, dir: seq<string>, name: string, rest: seq<string>, b: nat)
    requires WellFormed(env.mounts)
    ensures Walk(env, opts, dir + [name], [".."] + rest, b) == Walk(env, opts, dir, rest, b)
    ensures Walk(env, opts, [], [".."] + rest, b) == Walk(env, opts, [], rest, b)
  {
    hide Inspect, IsFollow, Components;
    assert ([".."] + rest)[1..] == rest && (dir + [name])[..|dir|] == dir;
  }

  /** The parent of the root is the root. */
  lemma RootIsItsParent(env: Env, opts: Options, rest: string)
    requires WellFormed(env.mounts) && IsRest(rest) && |rest| + 3 < PATH_MAX
    ensures Resolution(env, opts, "/.." + rest) == Resolution(env, opts, "/" + rest)
  {
    hide Components, Walk, Finish;
    TailDotDot(rest);
    assert Pending("/.." + rest) == Tail("/.." + rest);
    assert rest != "" ==> ("/.." + rest)[|"/.." + rest| - 1] == rest[|rest| - 1];
    PendingBehind([], rest);
    assert [] + Tail(rest) == Tail(rest);
    Up(env, opts, [], "", Tail(rest), Budget(opts));
  }

  // ---- the entry itself ----

  /** The entry at `dir/name` is the answer. */
  predicate Answered(r: Result<Resolved>, path: string, exists_: bool, isDir: bool, isSymlink: bool) {
    r.Ok? && r.value.guest == path && r.value.exists_ == exists_ && r.value.isDir == isDir &&
    r.value.finalIsSymlink == isSymlink && !r.value.procMagic
  }

  /** Where lstat fails: a missing entry is the answer when nothing is asked for behind it, and so is one that a
      proc mount will not show; any other error ends the lookup. */
  lemma MissingEntry(env: Env, opts: Options, dir: seq<string>, name: string, rest: string)
    requires WellFormed(env.mounts) && InDirectory(env, dir, name) && IsRest(rest)
    requires |Build(dir + [name]) + rest| < PATH_MAX && |ToHost(env.mounts, Build(dir + [name])).host| + 1 < PATH_MAX
    requires env.lstat(ToHost(env.mounts, Build(dir + [name])).host).StatErr?
    ensures var path := Build(dir + [name]);
            var r, map_ := Resolution(env, opts, path + rest), ToHost(env.mounts, path);
            var e := env.lstat(map_.host).errno;
            if e == ENOENT then
              if Components(rest) == [] then Answered(r, path, false, false, false) else r == Err(ENOENT)
            else if e == EACCES && map_.mount.kind.Proc? && Components(rest) == [] then
              if GoesOn(rest) then r == Err(ENOTDIR) else Answered(r, path, true, false, false)
            else r == Err(e)
  {
    hide Components, ToHost, Build, DirPath, Finish;
    WalkToName(env, opts, dir, name, rest);
    TailShape(rest);
    assert !IsFollow(env, opts, dir + [name], Tail(rest));
    FinishAt(env, opts, dir + [name], rest);
  }

  /** Where lstat finds something: a file has nothing below it, a directory is the answer when no name follows, and
      a symlink that nothing asks to follow is the answer itself. */
  lemma PresentEntry(env: Env, opts: Options, dir: seq<string>, name: string, rest: string)
    requires WellFormed(env.mounts) && InDirectory(env, dir, name) && IsRest(rest)
    requires |Build(dir + [name]) + rest| < PATH_MAX && |ToHost(env.mounts, Build(dir + [name])).host| + 1 < PATH_MAX
    requires env.lstat(ToHost(env.mounts, Build(dir + [name])).host).StatOk?
    ensures var path := Build(dir + [name]);
            var r, kind := Resolution(env, opts, path + rest), env.lstat(ToHost(env.mounts, path).host).kind;
            (kind.OtherKind? ==> if GoesOn(rest) then r == Err(ENOTDIR) else Answered(r, path, true, false, false)) &&
            (kind.DirKind? && Components(rest) == [] ==> Answered(r, path, true, true, false)) &&
            (kind.SymlinkKind? && !GoesOn(rest) && !opts.followFinal && !opts.seeThrough ==>
              Answered(r, path, true, false, true))
  {
    hide Components, ToHost, Build, DirPath, Finish, FollowTarget, IsFollow;
    WalkToName(env, opts, dir, name, rest);
    TailShape(rest);
    var path, tail := dir + [name], Tail(rest);
    FinishAt(env, opts, path, rest);
    if Inspect(env, opts, path, tail).Directory? && Components(rest) == [] {
      DotsEnd(env, opts, path, tail, Budget(opts));
    }
  }

  lemma FinishAt(env: Env, opts: Options, path: seq<string>, rest: string)
    requires WellFormed(env.mounts) && |ToHost(env.mounts, Build(path)).host| + 1 < PATH_MAX
    ensures forall slash, e, d, s :: Answered(Finish(env, slash, At(path, e, d, s)), Build(path), e, d, s)
    ensures forall slash, e :: Finish(env, slash, Fail(e)) == Err(e)
  {
    hide ToHost, Build, ObjectId;
  }

  // ---- components of a path ----

  /** What is walked behind a component. */
  function Tail(rest: string): seq<string> {
    Components(rest) + (if rest != "" && rest[|rest| - 1] == '/' then ["."] else [])
  }

  lemma TailShape(rest: string)
    ensures Tail(rest) != [] <==> GoesOn(rest)
    ensures OnlyDots(Tail(rest)) <==> Components(rest) == []
    ensures forall c :: c in Tail(rest) ==> c == "." || ValidComponent(c)
  {
    hide Split;
    ComponentsValid(rest);
    if Components(rest) != [] {
      assert Components(rest)[0] in Components(rest) && Components(rest)[0] in Tail(rest);
    }
  }

  lemma TailDotDot(rest: string)
    requires IsRest(rest)
    ensures Tail("/.." + rest) == [".."] + Tail(rest)
  {
    hide Components;
    assert "/" + ".." + rest == "/.." + rest;
    ComponentThen("..", rest);
    assert [".."] + Components(rest) + [] == [".."] + Components(rest);
  }

  lemma PendingBehind(dir: seq<string>, rest: string)
    requires ValidComponents(dir) && IsRest(rest)
    ensures Pending(Build(dir) + rest) == dir + Tail(rest)
    ensures TrailingSlash(Build(dir) + rest) <==> rest != "" && rest[|rest| - 1] == '/'
  {
    hide Components;
    ComponentsConcat(Build(dir), rest);
    ComponentsBuild(dir);
    if dir != [] {
      JoinEnd(dir);
    }
    assert dir + (Components(rest) + ["."]) == dir + Components(rest) + ["."];
  }

  lemma BuildLonger(dir: seq<string>, name: string)
    ensures |Build(dir)| <= |Build(dir + [name])| + 1
  {
    JoinSnoc(dir, name);
  }

  lemma DecimalDigits(n: int)
    ensures n > 0 ==>
              ToDecimal(n) != "" && ToDecimal(n)[0] != '/' && ToDecimal(n)[|ToDecimal(n)| - 1] != '/'
  {
  }

  lemma DeletedIs(raw: string)
    ensures EndsDeleted(raw) <==> exists front :: raw == front + " (deleted)" && front != ""
  {
    if EndsDeleted(raw) {
      assert raw == raw[..|raw| - |DELETED|] + " (deleted)";
    }
  }

  lemma GuestIsAbsolute(mounts: seq<Mount>, host: string)
    requires WellFormed(mounts) && IsAbsolute(host) && ToGuest(mounts, host).Some?
    ensures IsAbsolute(ToGuest(mounts, host).value)
  {
    var m := MountForHost(mounts, host).value;
    assert m in mounts;
    SuffixShape(host, m.host);
  }

  // ---- the walk behind the laws ----

  lemma WalkFrom(env: Env, opts: Options, dir: seq<string>, rest: seq<string>, b: nat)
    requires WellFormed(env.mounts) && Canonical(dir) && DirPath(env, dir)
    ensures Walk(env, opts, [], dir + rest, b) == Walk(env, opts, dir, rest, b)
  {
    hide Walk, DirPath;
    assert [] + dir == dir;
    WalkSkip(env, opts, [], dir, rest, b);
  }

  lemma WalkToName(env: Env, opts: Options, dir: seq<string>, name: string, rest: string)
    requires WellFormed(env.mounts) && InDirectory(env, dir, name) && IsRest(rest)
    requires |Build(dir + [name]) + rest| < PATH_MAX
    ensures var slash := rest != "" && rest[|rest| - 1] == '/';
            Resolution(env, opts, Build(dir + [name]) + rest) ==
            Finish(env, slash, Walk(env, opts, dir, [name] + Tail(rest), Budget(opts)))
    ensures ([name] + Tail(rest))[0] == name && ([name] + Tail(rest))[1..] == Tail(rest)
  {
    hide Walk, Components, Build, DirPath, Finish;
    PendingBehind(dir + [name], rest);
    assert dir + [name] + Tail(rest) == dir + ([name] + Tail(rest));
    WalkFrom(env, opts, dir, [name] + Tail(rest), Budget(opts));
  }

  lemma DotsEnd(env: Env, opts: Options, dir: seq<string>, rest: seq<string>, b: nat)
    requires WellFormed(env.mounts) && OnlyDots(rest)
    ensures Walk(env, opts, dir, rest, b) == At(dir, true, true, false)
    decreases |rest|
  {
    hide Inspect, IsFollow;
    if rest != [] {
      assert rest[0] in rest && forall p :: p in rest[1..] ==> p in rest;
      DotsEnd(env, opts, dir, rest[1..], b);
    }
  }

  /** How many symlinks may be followed only matters through the budget. */
  lemma {:induction false} WalkBudgetOnly(env: Env, o: Options, p: Options, dir: seq<string>, rest: seq<string>, b: nat)
    requires WellFormed(env.mounts) && p == o.(maxSymlinks := p.maxSymlinks)
    ensures Walk(env, o, dir, rest, b) == Walk(env, p, dir, rest, b)
    decreases b, |rest|
  {
    hide Inspect, IsFollow, Components;
    if rest != [] {
      if rest[0] == "." {
        WalkBudgetOnly(env, o, p, dir, rest[1..], b);
      } else if rest[0] == ".." {
        WalkBudgetOnly(env, o, p, if dir == [] then [] else dir[..|dir| - 1], rest[1..], b);
      } else {
        var path := dir + [rest[0]];
        SameLookup(env, o, p, path, rest[1..]);
        match Inspect(env, o, path, rest[1..]) {
          case Directory => WalkBudgetOnly(env, o, p, path, rest[1..], b);
          case Follow(target) =>
            if b > 0 {
              WalkBudgetOnly(env, o, p, if IsAbsolute(target) then [] else dir, Spliced(target) + rest[1..], b - 1);
            }
          case _ =>
        }
      }
    }
  }

  lemma SameLookup(env: Env, o: Options, p: Options, path: seq<string>, rest: seq<string>)
    requires WellFormed(env.mounts) && p == o.(maxSymlinks := p.maxSymlinks)
    ensures Inspect(env, o, path, rest) == Inspect(env, p, path, rest)
    ensures IsFollow(env, o, path, rest) == IsFollow(env, p, path, rest)
  {
    hide ToHost, Build, FollowTarget, SeesThrough;
    SameTarget(env, o, p, Build(path), ToHost(env.mounts, Build(path)), OnlyDots(rest));
  }

  lemma SameTarget(env: Env, o: Options, p: Options, guest: string, map_: HostMapping, last: bool)
    requires IsBelow(guest, map_.mount.guest) && p == o.(maxSymlinks := p.maxSymlinks)
    ensures FollowTarget(env, o, guest, map_, last) == FollowTarget(env, p, guest, map_, last)
    ensures SeesThrough(env, o, map_) == SeesThrough(env, p, map_)
  {
    hide LinkTargetId, ObjectPresent, IsBelow, StorePath;
  }

  /** A "." with something behind it changes nothing. */
  lemma {:induction false} WalkDot(env: Env, opts: Options, dir: seq<string>, a: seq<string>, c: seq<string>, b: nat)
    requires WellFormed(env.mounts) && c != []
    ensures Walk(env, opts, dir, a + ["."] + c, b) == Walk(env, opts, dir, a + c, b)
    decreases b, |a|
  {
    hide Inspect, IsFollow, Components;
    var with, without := a + ["."] + c, a + c;
    if a == [] {
      assert with[0] == "." && with[1..] == c && without == c;
    } else {
      assert with[0] == a[0] == without[0];
      assert with[1..] == a[1..] + ["."] + c && without[1..] == a[1..] + c;
      if a[0] == "." {
        WalkDot(env, opts, dir, a[1..], c, b);
      } else if a[0] == ".." {
        WalkDot(env, opts, if dir == [] then [] else dir[..|dir| - 1], a[1..], c, b);
      } else {
        var path := dir + [a[0]];
        SameDots(a[1..], c);
        SameBehind(env, opts, path, with[1..], without[1..]);
        match Inspect(env, opts, path, with[1..]) {
          case Directory => WalkDot(env, opts, path, a[1..], c, b);
          case Follow(target) =>
            if b > 0 {
              assert Spliced(target) + with[1..] == (Spliced(target) + a[1..]) + ["."] + c;
              assert Spliced(target) + without[1..] == (Spliced(target) + a[1..]) + c;
              WalkDot(env, opts, if IsAbsolute(target) then [] else dir, Spliced(target) + a[1..], c, b - 1);
            }
          case _ =>
        }
      }
    }
  }

  lemma SameDots(a: seq<string>, c: seq<string>)
    requires c != []
    ensures OnlyDots(a + ["."] + c) <==> OnlyDots(a + c)
    ensures a + ["."] + c != [] && a + c != []
  {
    assert c[0] in c;
    assert forall p :: p in a + ["."] + c <==> p in a + c || p == ".";
  }

  lemma SameBehind(env: Env, opts: Options, path: seq<string>, rest: seq<string>, other: seq<string>)
    requires WellFormed(env.mounts) && rest != [] && other != [] && (OnlyDots(rest) <==> OnlyDots(other))
    ensures Inspect(env, opts, path, rest) == Inspect(env, opts, path, other)
    ensures IsFollow(env, opts, path, rest) == IsFollow(env, opts, path, other)
  {
    hide ToHost, Build, FollowTarget, SeesThrough, OnlyDots;
  }

  /** A lookup that fails is the answer, for a caller that may follow symlinks. */
  lemma StopsAt(env: Env, opts: Options, dir: seq<string>, name: string, rest: string)
    requires WellFormed(env.mounts) && InDirectory(env, dir, name) && IsRest(rest) && opts.maxSymlinks > 0
    requires Inspect(env, opts, dir + [name], Tail(rest)).Fails? && |Build(dir + [name]) + rest| < PATH_MAX
    ensures Resolution(env, opts, Build(dir + [name]) + rest) ==
            Err(Inspect(env, opts, dir + [name], Tail(rest)).errno)
  {
    hide Components, Build, DirPath, Inspect, IsFollow, Tail, Finish;
    WalkToName(env, opts, dir, name, rest);
    FailsAre(env, Inspect(env, opts, dir + [name], Tail(rest)).errno);
  }

  /** The walk through a symlink is the walk along its text. */
  lemma LinkIsItsText(env: Env, opts: Options, dir: seq<string>, name: string, text: string, rest: string)
    requires WellFormed(env.mounts) && InDirectory(env, dir, name) && IsRest(rest) && text != ""
    requires Inspect(env, opts, dir + [name], Tail(rest)) == Follow(text)
    requires |Build(dir + [name]) + rest| < PATH_MAX && |Through(dir, text, rest)| < PATH_MAX
    ensures opts.maxSymlinks >= 0 ==>
              Alike(text, rest, Resolution(env, opts.(maxSymlinks := opts.maxSymlinks + 1), Build(dir + [name]) + rest),
                    Resolution(env, opts, Through(dir, text, rest)))
    ensures opts.maxSymlinks <= 0 ==> Resolution(env, opts, Build(dir + [name]) + rest) == Err(ELOOP)
  {
    hide Components, Build, DirPath, Inspect, IsFollow, Finish, Tail, Through;
    var more := opts.(maxSymlinks := opts.maxSymlinks + 1);
    WalkToName(env, opts, dir, name, rest);
    WalkToName(env, more, dir, name, rest);
    SameLookup(env, opts, more, dir + [name], Tail(rest));
    var from := if IsAbsolute(text) then [] else dir;
    if opts.maxSymlinks >= 0 {
      var b := opts.maxSymlinks;
      assert Walk(env, more, dir, [name] + Tail(rest), b + 1) == Walk(env, more, from, Spliced(text) + Tail(rest), b);
      WalkBudgetOnly(env, opts, more, from, Spliced(text) + Tail(rest), b);
      AlongText(env, opts, dir, text, rest);
      SlashOnly(env, Walk(env, opts, from, Spliced(text) + Tail(rest), b));
    }
    if opts.maxSymlinks <= 0 {
      assert Walk(env, opts, dir, [name] + Tail(rest), 0) == Fail(ELOOP);
      FailsAre(env, ELOOP);
    }
  }

  lemma FailsAre(env: Env, e: int)
    requires WellFormed(env.mounts)
    ensures Finish(env, false, Fail(e)) == Err(e) == Finish(env, true, Fail(e))
  {
  }

  lemma SlashOnly(env: Env, o: Outcome)
    requires WellFormed(env.mounts)
    ensures SlashApart(Finish(env, false, o), Finish(env, true, o))
  {
    hide ToHost, ObjectId, Build;
  }

  /** The path with the text in it is walked as the text and then the rest. */
  lemma AlongText(env: Env, opts: Options, dir: seq<string>, text: string, rest: string)
    requires WellFormed(env.mounts) && Canonical(dir) && DirPath(env, dir) && IsRest(rest) && text != ""
    requires |Through(dir, text, rest)| < PATH_MAX
    ensures var slash := rest != "" && rest[|rest| - 1] == '/';
            var from := if IsAbsolute(text) then [] else dir;
            Resolution(env, opts, Through(dir, text, rest)) ==
            Finish(env, slash || (TrailingSlash(text) && !GoesOn(rest)),
                   Walk(env, opts, from, Spliced(text) + Tail(rest), Budget(opts)))
  {
    assert DirPath(env, []);
    hide Components, DirPath, Inspect, IsFollow, Finish, Walk, Through;
    var from := if IsAbsolute(text) then [] else dir;
    var dot := if TrailingSlash(text) then ["."] else [];
    var tail := Tail(rest);
    var b := Budget(opts);
    ComponentsOfThrough(dir, text, rest);
    PendingOfThrough(dir, text, rest);
    WalkFrom(env, opts, from, Components(text) + (if tail == [] then dot else tail), b);
    AlongSplice(env, opts, from, Components(text), dot, tail, b);
  }

  /** The dot a text ends in matters only where nothing comes behind it. */
  lemma AlongSplice(env: Env, opts: Options, from: seq<string>, parts: seq<string>, dot: seq<string>,
                    tail: seq<string>, b: nat)
    requires WellFormed(env.mounts) && (dot == [] || dot == ["."])
    ensures Walk(env, opts, from, parts + dot + tail, b) ==
            Walk(env, opts, from, parts + (if tail == [] then dot else tail), b)
  {
    hide Walk;
    if tail == [] {
      assert parts + dot + [] == parts + dot;
    } else if dot == [] {
      assert parts + [] + tail == parts + tail;
    } else {
      WalkDot(env, opts, from, parts, tail, b);
    }
  }

  lemma PendingOfThrough(dir: seq<string>, text: string, rest: string)
    requires ValidComponents(dir) && IsRest(rest) && text != ""
    ensures var from := if IsAbsolute(text) then [] else dir;
            var dot := if TrailingSlash(text) then ["."] else [];
            Pending(Through(dir, text, rest)) ==
            from + (Components(text) + (if Tail(rest) == [] then dot else Tail(rest)))
  {
    hide Components, Through;
    var path, from := Through(dir, text, rest), if IsAbsolute(text) then [] else dir;
    var dot := if TrailingSlash(path) then ["."] else [];
    ComponentsOfThrough(dir, text, rest);
    TailShape(rest);
    if Tail(rest) == [] {
      assert from + Components(text) + [] + dot == from + (Components(text) + dot);
    } else {
      assert from + Components(text) + Components(rest) + dot == from + (Components(text) + (Components(rest) + dot));
    }
  }

  lemma ComponentsOfThrough(dir: seq<string>, text: string, rest: string)
    requires ValidComponents(dir) && IsRest(rest) && text != ""
    ensures Components(Through(dir, text, rest)) ==
            (if IsAbsolute(text) then [] else dir) + Components(text) + Components(rest)
    ensures IsAbsolute(Through(dir, text, rest))
    ensures TrailingSlash(Through(dir, text, rest)) <==>
            (rest != "" && rest[|rest| - 1] == '/') || (TrailingSlash(text) && !GoesOn(rest))
  {
    hide Components, GoesOn, TrailingSlash;
    var front := if IsAbsolute(text) then text else Join(dir) + "/" + text;
    var last := if TrailingSlash(text) && rest != "" && !GoesOn(rest) then "/" else "";
    FrontComponents(dir, text);
    ComponentsConcat(front, rest);
    ComponentsConcat(front + rest, last);
    NoComponents();
    assert Components(front) + Components(rest) + [] == Components(front) + Components(rest);
    assert front + rest + "" == front + rest;
    EndOfThrough(dir, text, rest);
  }

  lemma FrontComponents(dir: seq<string>, text: string)
    requires ValidComponents(dir) && text != ""
    ensures Components(if IsAbsolute(text) then text else Join(dir) + "/" + text) ==
            (if IsAbsolute(text) then [] else dir) + Components(text)
  {
    hide Components;
    if IsAbsolute(text) {
      assert [] + Components(text) == Components(text);
    } else {
      ComponentsConcat(Join(dir), "/" + text);
      ComponentsBuild(dir);
      SlashThen(text);
      assert Join(dir) + "/" + text == Join(dir) + ("/" + text);
    }
  }

  lemma EndOfThrough(dir: seq<string>, text: string, rest: string)
    requires IsRest(rest) && text != ""
    ensures IsAbsolute(Through(dir, text, rest))
    ensures TrailingSlash(Through(dir, text, rest)) <==>
            (rest != "" && rest[|rest| - 1] == '/') || (TrailingSlash(text) && !GoesOn(rest))
  {
    hide Components;
    var front := if IsAbsolute(text) then text else Join(dir) + "/" + text;
    NoComponents();
    assert front != "" && front[|front| - 1] == text[|text| - 1] && front[0] == '/';
    assert rest != "" ==> (front + rest)[|front + rest| - 1] == rest[|rest| - 1];
  }
}
