/** What a guest path means: a recursive walk in guest space over an unchanging host filesystem.
    The reference the resolver loop (module Resolver) is held to. */
module ResolverSpec {
  import opened Errno
  import opened Decimal
  import opened GuestPath
  import opened LinkMarker
  import opened MountTables

  datatype FileKind = DirKind | SymlinkKind | OtherKind

  datatype StatResult = StatErr(errno: int) | StatOk(kind: FileKind, dev: nat, ino: nat)

  datatype LinkResult = LinkErr(errno: int) | LinkText(text: string)

  /** The host as the resolver sees it: the answers of lstat(2) and readlink(2), which do not change
      while paths are resolved, and the mount table. Any answers at all are allowed. */
  datatype Env = Env(mounts: seq<Mount>, lstat: string -> StatResult, readlink: string -> LinkResult)

  datatype Options = Options(followFinal: bool, maxSymlinks: int, procTgid: int, procTid: int, seeThrough: bool)

  datatype Resolved = Resolved(guest: string, host: string, mount: Mount, exists_: bool, isDir: bool,
                               finalIsSymlink: bool, procMagic: bool, linkId: string)

  datatype Result<+T> = Ok(value: T) | Err(errno: int)

  /** readlink(2) into a buffer of PATH_MAX bytes. */
  function ReadLink(env: Env, host: string): LinkResult {
    match env.readlink(host)
    case LinkErr(e) => LinkErr(e)
    case LinkText(text) => if |text| >= PATH_MAX then LinkErr(ENAMETOOLONG) else LinkText(text)
  }

  predicate OnlyDots(pending: seq<string>) {
    forall p :: p in pending ==> p == "."
  }

  // ---- one component ----

  predicate Contains(s: string, sub: string)
    decreases |s|
  {
    sub <= s || (s != "" && Contains(s[1..], sub))
  }

  const DELETED := " (deleted)"

  predicate EndsDeleted(s: string) {
    |s| > |DELETED| && s[|s| - |DELETED|..] == DELETED
  }

  /** Target of a symlink in a proc mount; `magic` for an object only the kernel can resolve. */
  datatype ProcTarget = ProcErr(errno: int) | ProcPath(target: string) | Magic

  function ProcLinkTarget(env: Env, opts: Options, guest: string, map_: HostMapping): ProcTarget
    requires IsBelow(guest, map_.mount.guest)
  {
    var rel := SuffixAfter(guest, map_.mount.guest);
    if rel == "/self" then
      if opts.procTgid <= 0 then ProcErr(EACCES) else ProcPath(ToDecimal(opts.procTgid))
    else if rel == "/thread-self" then
      if opts.procTgid <= 0 || opts.procTid <= 0 then ProcErr(EACCES)
      else ProcPath(ToDecimal(opts.procTgid) + "/task/" + ToDecimal(opts.procTid))
    else
      match ReadLink(env, map_.host)
      case LinkErr(e) => ProcErr(e)
      case LinkText(raw) =>
        if raw == "" then ProcErr(ENOENT)
        else if raw[0] != '/' then
          (if Contains(raw, ":[") || "anon_inode:" <= raw then Magic else ProcPath(raw))
        else if EndsDeleted(raw) then ProcErr(ENOENT)
        else
          match ToGuest(env.mounts, raw)
          case None => ProcErr(EACCES)
          case Some(g) => ProcPath(g)
  }

  /** The regular file an emulated hard link stands for is present. */
  predicate ObjectPresent(env: Env, mount: Mount, id: string) {
    match env.lstat(StorePath(mount.host) + "/" + id)
    case StatErr(_) => false
    case StatOk(kind, _, _) => kind.OtherKind?
  }

  /** What the walk finds at `dir/name`. */
  datatype Found =
    | Missing
    | Directory
    | Leaf(isSymlink: bool)  // anything a path cannot continue below
    | Follow(target: string) // a symlink to follow, with its target in guest space
    | MagicLink
    | Fails(errno: int)

  /** A final symlink is followed on request, when the path goes on behind it, and when it is an
      emulated hard link whose file is there. */
  predicate SeesThrough(env: Env, opts: Options, map_: HostMapping) {
    opts.seeThrough && !map_.mount.kind.Proc? &&
    match ReadLink(env, map_.host)
    case LinkErr(_) => false
    case LinkText(text) => LinkTargetId(text) != "" && ObjectPresent(env, map_.mount, LinkTargetId(text))
  }

  /** Target of a symlink that is followed: an emulated hard link leads to its object in the store of
      the mount holding it, whatever prefix it was written with. */
  function FollowTarget(env: Env, opts: Options, guest: string, map_: HostMapping, last: bool): Found
    requires IsBelow(guest, map_.mount.guest)
  {
    if map_.mount.kind.Proc? then
      match ProcLinkTarget(env, opts, guest, map_)
      case ProcErr(e) => Fails(e)
      case Magic => if last then MagicLink else Fails(ENOTDIR)
      case ProcPath(target) => if target == "" then Fails(ENOENT) else Follow(target)
    else
      match ReadLink(env, map_.host)
      case LinkErr(e) => Fails(e)
      case LinkText(text) =>
        var id := LinkTargetId(text);
        var target := if id == "" then text else StorePath(map_.mount.guest) + "/" + id;
        if target == "" then Fails(ENOENT) else Follow(target)
  }

  function Inspect(env: Env, opts: Options, path: seq<string>, rest: seq<string>): Found
    requires WellFormed(env.mounts)
  {
    var guest := Build(path);
    var map_ := ToHost(env.mounts, guest);
    var last := OnlyDots(rest);
    match env.lstat(map_.host)
    case StatErr(e) =>
      if e == ENOENT then Missing
      else if e == EACCES && last && map_.mount.kind.Proc? then Leaf(false)
      else Fails(e)
    case StatOk(kind, _, _) =>
      if kind.DirKind? then Directory
      else if kind.OtherKind? then Leaf(false)
      else if !last || opts.followFinal || rest != [] || SeesThrough(env, opts, map_) then
        FollowTarget(env, opts, guest, map_, last)
      else Leaf(true)
  }

  // ---- the walk ----

  datatype Outcome = Fail(errno: int) | At(path: seq<string>, exists_: bool, isDir: bool, isSymlink: bool)
      | AtMagic(path: seq<string>)

  function Spliced(target: string): seq<string> {
    Components(target) + (if |target| > 1 && target[|target| - 1] == '/' then ["."] else [])
  }

  /** From the directory `dir`, walk `rest`; `budget` symlinks may still be followed. */
  function Walk(env: Env, opts: Options, dir: seq<string>, rest: seq<string>, budget: nat): Outcome
    requires WellFormed(env.mounts)
    decreases budget, |rest|
  {
    if rest == [] then At(dir, true, true, false)
    else if rest[0] == "." then Walk(env, opts, dir, rest[1..], budget)
    else if rest[0] == ".." then
      Walk(env, opts, if dir == [] then [] else dir[..|dir| - 1], rest[1..], budget)
    else
      var path := dir + [rest[0]];
      match Inspect(env, opts, path, rest[1..])
      case Fails(e) => if IsFollow(env, opts, path, rest[1..]) && budget == 0 then Fail(ELOOP) else Fail(e)
      case Missing => if OnlyDots(rest[1..]) then At(path, false, false, false) else Fail(ENOENT)
      case Directory => Walk(env, opts, path, rest[1..], budget)
      case Leaf(isSymlink) => if rest[1..] == [] then At(path, true, false, isSymlink) else Fail(ENOTDIR)
      case MagicLink => if budget == 0 then Fail(ELOOP) else AtMagic(path)
      case Follow(target) =>
        if budget == 0 then Fail(ELOOP)
        else Walk(env, opts, if IsAbsolute(target) then [] else dir, Spliced(target) + rest[1..], budget - 1)
  }

  /** The entry is a symlink that has to be followed: the budget is charged before its target is read. */
  predicate IsFollow(env: Env, opts: Options, path: seq<string>, rest: seq<string>)
    requires WellFormed(env.mounts)
  {
    var map_ := ToHost(env.mounts, Build(path));
    match env.lstat(map_.host)
    case StatErr(_) => false
    case StatOk(kind, _, _) =>
      kind.SymlinkKind? &&
      (!OnlyDots(rest) || opts.followFinal || rest != [] || SeesThrough(env, opts, map_))
  }

  function Budget(opts: Options): nat {
    if opts.maxSymlinks < 0 then 0 else opts.maxSymlinks
  }

  predicate TrailingSlash(path: string) {
    |path| > 1 && path[|path| - 1] == '/'
  }

  /** The components to walk; a trailing slash asks for a directory. */
  function Pending(path: string): seq<string> {
    Components(path) + (if TrailingSlash(path) then ["."] else [])
  }

  /** The id of the object a resolved path names, "" when it is not in the store of its mount. */
  function ObjectId(path: seq<string>, mount: Mount): string {
    if |path| >= 2 && path[|path| - 2] == STORE_DIR && IsLinkId(path[|path| - 1]) &&
       |Build(path)| == |StorePath(mount.guest)| + 1 + ID_LEN && StorePath(mount.guest) <= Build(path)
    then path[|path| - 1] else ""
  }

  function Finish(env: Env, slash: bool, o: Outcome): Result<Resolved>
    requires WellFormed(env.mounts)
  {
    match o
    case Fail(e) => Err(e)
    case AtMagic(path) =>
      var map_ := ToHost(env.mounts, Build(path));
      Ok(Resolved(Build(path), map_.host, map_.mount, true, false, false, true, ""))
    case At(path, exists_, isDir, isSymlink) =>
      var map_ := ToHost(env.mounts, Build(path));
      var host := if slash && (map_.host == "" || map_.host[|map_.host| - 1] != '/') then map_.host + "/"
        else map_.host;
      if |host| >= PATH_MAX then Err(ENAMETOOLONG)
      else
        Ok(Resolved(Build(path), host, map_.mount, exists_, isDir, isSymlink, false,
                    if exists_ && !isDir && !isSymlink then ObjectId(path, map_.mount) else ""))
  }

  /** What a guest path resolves to. */
  function Resolution(env: Env, opts: Options, path: string): Result<Resolved>
    requires WellFormed(env.mounts)
  {
    if !IsAbsolute(path) then Err(EINVAL)
    else if |path| >= PATH_MAX then Err(ENAMETOOLONG)
    else Finish(env, TrailingSlash(path), Walk(env, opts, [], Pending(path), Budget(opts)))
  }
}
