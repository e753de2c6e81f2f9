/** What every resolution guarantees: a canonical guest path whose prefixes are real directories,
    a host path inside its mount, and a result that resolves to itself. */
module ResolverProperties {
  import opened GuestPath
  import opened LinkMarker
  import opened MountTables
  import opened ResolverSpec
  import opened Wrappers

  predicate IsDirAt(env: Env, path: seq<string>)
    requires WellFormed(env.mounts)
  {
    var st := env.lstat(ToHost(env.mounts, Build(path)).host);
    st.StatOk? && st.kind.DirKind?
  }

  /** Every non-empty prefix of the path, itself included, is a directory on the host. */
  predicate DirPath(env: Env, path: seq<string>)
    requires WellFormed(env.mounts)
  {
    forall k :: 0 < k <= |path| ==> IsDirAt(env, path[..k])
  }

  lemma DirPathPrefix(env: Env, path: seq<string>, k: nat)
    requires WellFormed(env.mounts) && DirPath(env, path) && k <= |path|
    ensures DirPath(env, path[..k])
  {
    forall j | 0 < j <= k ensures IsDirAt(env, path[..k][..j]) {
      assert path[..k][..j] == path[..j];
    }
  }

  lemma DirPathSnoc(env: Env, path: seq<string>, name: string)
    requires WellFormed(env.mounts) && DirPath(env, path)
    ensures DirPath(env, path + [name]) <==> IsDirAt(env, path + [name])
    ensures DirPath(env, (path + [name])[..|path|])
  {
    hide IsDirAt;
    var q := path + [name];
    assert q[..|path|] == path && q[..|q|] == q;
    forall k | 0 < k <= |path| ensures q[..k] == path[..k] {
    }
    if IsDirAt(env, q) {
      forall k | 0 < k <= |q| ensures IsDirAt(env, q[..k]) {
        if k <= |path| {
          assert q[..k] == path[..k];
        }
      }
    }
  }

  lemma SplicedValid(target: string)
    ensures forall c :: c in Spliced(target) ==> c == "." || ValidComponent(c)
  {
    ComponentsValid(target);
  }

  /** Components as the walk expects them. */
  predicate Walkable(rest: seq<string>) {
    forall c :: c in rest ==> c == "." || ValidComponent(c)
  }

  /** The shape of every place a walk can end at: all proper prefixes of the path are real directories,
      and no component is empty, "." or "..". */
  ghost predicate Proper(env: Env, o: Outcome)
    requires WellFormed(env.mounts)
  {
    match o
    case Fail(_) => true
    case AtMagic(path) => path != [] && Canonical(path) && DirPath(env, path[..|path| - 1])
    case At(path, exists_, isDir, isSymlink) =>
      Canonical(path) &&
      (path != [] ==> DirPath(env, path[..|path| - 1])) &&
      (isDir ==> exists_ && !isSymlink && DirPath(env, path)) &&
      (!isDir ==> path != [])
  }

  lemma {:induction false} WalkProper(env: Env, opts: Options, dir: seq<string>, rest: seq<string>, budget: nat)
    requires WellFormed(env.mounts) && Canonical(dir) && DirPath(env, dir) && Walkable(rest)
    ensures Proper(env, Walk(env, opts, dir, rest, budget))
    decreases budget, |rest|
  {
    hide Inspect, IsFollow, Build, ToHost, IsDirAt, Components;
    if rest == [] {
      if dir != [] {
        DirPathPrefix(env, dir, |dir| - 1);
      }
    } else if rest[0] == "." {
      WalkProper(env, opts, dir, rest[1..], budget);
    } else if rest[0] == ".." {
      if dir != [] {
        DirPathPrefix(env, dir, |dir| - 1);
      }
      WalkProper(env, opts, if dir == [] then [] else dir[..|dir| - 1], rest[1..], budget);
    } else {
      assert rest[0] in rest;
      var path := dir + [rest[0]];
      DirPathSnoc(env, dir, rest[0]);
      match Inspect(env, opts, path, rest[1..]) {
        case Directory =>
          DirectoryIsDir(env, opts, path, rest[1..]);
          WalkProper(env, opts, path, rest[1..], budget);
        case Follow(target) =>
          if budget > 0 {
            SplicedValid(target);
            WalkProper(env, opts, if IsAbsolute(target) then [] else dir, Spliced(target) + rest[1..], budget - 1);
          }
        case _ =>
      }
    }
  }

  lemma DirectoryIsDir(env: Env, opts: Options, path: seq<string>, rest: seq<string>)
    requires WellFormed(env.mounts)
    ensures Inspect(env, opts, path, rest).Directory? <==> IsDirAt(env, path)
  {
    hide SeesThrough, FollowTarget, Build, ToHost;
    FollowIsNoDirectory(env, opts, Build(path), ToHost(env.mounts, Build(path)), OnlyDots(rest));
  }

  lemma FollowIsNoDirectory(env: Env, opts: Options, guest: string, map_: HostMapping, last: bool)
    requires IsBelow(guest, map_.mount.guest)
    ensures !FollowTarget(env, opts, guest, map_, last).Directory?
    ensures !FollowTarget(env, opts, guest, map_, last).Missing?
    ensures !FollowTarget(env, opts, guest, map_, last).Leaf?
    ensures FollowTarget(env, opts, guest, map_, last).MagicLink? ==> last
  {
  }

  lemma CanonicalBelow(parts: seq<string>)
    requires Canonical(parts) && parts != []
    ensures Canonical([parts[0]]) && Canonical(parts[1..])
  {
  }

  /** Walking down known directories costs nothing: the walk may as well start below them. */
  lemma {:induction false} WalkSkip(env: Env, opts: Options, dir: seq<string>, known: seq<string>, rest: seq<string>,
                                    budget: nat)
    requires WellFormed(env.mounts) && Canonical(known) && DirPath(env, dir + known)
    ensures Walk(env, opts, dir, known + rest, budget) == Walk(env, opts, dir + known, rest, budget)
    decreases |known|
  {
    hide Inspect, IsFollow, Build, ToHost, IsDirAt;
    if known == [] {
      assert known + rest == rest && dir + known == dir;
    } else {
      var path := dir + [known[0]];
      assert known[0] in known;
      assert (known + rest)[0] == known[0] && (known + rest)[1..] == known[1..] + rest;
      assert (dir + known)[..|dir| + 1] == path;
      assert IsDirAt(env, path);
      DirectoryIsDir(env, opts, path, known[1..] + rest);
      assert path + known[1..] == dir + known;
      CanonicalBelow(known);
      WalkSkip(env, opts, path, known[1..], rest, budget);
    }
  }

  // ---- resolving a result again ----

  /** The last lookup of a walk that ends here, repeated with nothing behind it. */
  lemma EndAgain(env: Env, opts: Options, path: seq<string>, rest: seq<string>)
    requires WellFormed(env.mounts) && OnlyDots(rest)
    ensures Inspect(env, opts, path, rest).Missing? ==> Inspect(env, opts, path, []).Missing?
    ensures Inspect(env, opts, path, rest).MagicLink? ==>
              if opts.followFinal then Inspect(env, opts, path, []).MagicLink? && IsFollow(env, opts, path, [])
              else rest == [] || Inspect(env, opts, path, []) == Leaf(true)
    ensures Inspect(env, opts, path, []).MagicLink? ==> opts.followFinal
  {
    hide ProcLinkTarget, ReadLink, LinkTargetId, Build, ToHost, StorePath, ObjectPresent;
    var map_ := ToHost(env.mounts, Build(path));
    FollowIsNoDirectory(env, opts, Build(path), map_, true);
  }

  /** Where a walk ended, a walk straight to it ends too. */
  ghost predicate EndsAgain(env: Env, opts: Options, o: Outcome, budget: nat)
    requires WellFormed(env.mounts)
  {
    match o
    case Fail(_) => true
    case At(path, _, _, _) => forall b: nat :: Walk(env, opts, [], path, b) == o
    case AtMagic(path) =>
      if opts.followFinal then budget > 0 && forall b: nat :: b > 0 ==> Walk(env, opts, [], path, b) == o
      else forall b: nat :: Walk(env, opts, [], path, b) == At(path, true, false, true)
  }

  lemma LastStep(env: Env, opts: Options, dir: seq<string>, name: string, b: nat)
    requires WellFormed(env.mounts) && Canonical(dir) && DirPath(env, dir) && ValidComponent(name) && name != ".."
    ensures Walk(env, opts, [], dir + [name], b) == Walk(env, opts, dir, [name], b)
  {
    hide Walk, DirPath;
    assert [] + dir == dir;
    WalkSkip(env, opts, [], dir, [name], b);
  }

  lemma {:induction false} WalkEndsAgain(env: Env, opts: Options, dir: seq<string>, rest: seq<string>, budget: nat)
    requires WellFormed(env.mounts) && Canonical(dir) && DirPath(env, dir) && Walkable(rest)
    ensures EndsAgain(env, opts, Walk(env, opts, dir, rest, budget), budget)
    decreases budget, |rest|
  {
    hide Inspect, IsFollow, Build, ToHost, IsDirAt, Components, LinkTargetId;
    if rest == [] {
      forall b: nat ensures Walk(env, opts, [], dir, b) == At(dir, true, true, false) {
        assert [] + dir == dir && dir + [] == dir;
        WalkSkip(env, opts, [], dir, [], b);
      }
    } else if rest[0] == "." {
      WalkEndsAgain(env, opts, dir, rest[1..], budget);
    } else if rest[0] == ".." {
      if dir != [] {
        DirPathPrefix(env, dir, |dir| - 1);
      }
      WalkEndsAgain(env, opts, if dir == [] then [] else dir[..|dir| - 1], rest[1..], budget);
    } else {
      var name, path := rest[0], dir + [rest[0]];
      assert name in rest;
      DirPathSnoc(env, dir, name);
      var found := Inspect(env, opts, path, rest[1..]);
      if OnlyDots(rest[1..]) {
        EndAgain(env, opts, path, rest[1..]);
      }
      match found {
        case Directory =>
          DirectoryIsDir(env, opts, path, rest[1..]);
          WalkEndsAgain(env, opts, path, rest[1..], budget);
        case Follow(target) =>
          if budget > 0 {
            SplicedValid(target);
            WalkEndsAgain(env, opts, if IsAbsolute(target) then [] else dir, Spliced(target) + rest[1..], budget - 1);
          }
        case Fails(_) =>
        case _ =>
          MagicIsLast(env, opts, path, rest[1..]);
          EndHere(env, opts, dir, rest, budget);
      }
    }
  }

  lemma MagicIsLast(env: Env, opts: Options, path: seq<string>, rest: seq<string>)
    requires WellFormed(env.mounts)
    ensures Inspect(env, opts, path, rest).MagicLink? ==> OnlyDots(rest)
  {
    hide SeesThrough, FollowTarget, Build, ToHost;
    FollowIsNoDirectory(env, opts, Build(path), ToHost(env.mounts, Build(path)), OnlyDots(rest));
  }

  /** The walk stops at this component: a leaf, a missing entry or a magic link. */
  lemma EndHere(env: Env, opts: Options, dir: seq<string>, rest: seq<string>, budget: nat)
    requires WellFormed(env.mounts) && Canonical(dir) && DirPath(env, dir) && Walkable(rest)
    requires rest != [] && rest[0] != "." && rest[0] != ".."
    requires var found := Inspect(env, opts, dir + [rest[0]], rest[1..]);
             found.Leaf? || found.Missing? || (found.MagicLink? && OnlyDots(rest[1..]))
    ensures EndsAgain(env, opts, Walk(env, opts, dir, rest, budget), budget)
  {
    hide Inspect, IsFollow, Build, ToHost, IsDirAt, Components, LinkTargetId, DirPath;
    var name, path := rest[0], dir + [rest[0]];
    assert name in rest;
    assert [name][1..] == [];
    if OnlyDots(rest[1..]) {
      EndAgain(env, opts, path, rest[1..]);
    }
    forall b: nat ensures Walk(env, opts, [], path, b) == Walk(env, opts, dir, [name], b) {
      LastStep(env, opts, dir, name, b);
    }
  }

  // ---- the theorems about resolution ----

  lemma PendingWalkable(path: string)
    ensures Walkable(Pending(path))
  {
    ComponentsValid(path);
  }

  /** A resolved guest path is canonical and every proper prefix of it is a real directory; its host
      path is the mapped guest path, with a slash where one was asked for, inside its mount. */
  lemma ResolutionProper(env: Env, opts: Options, path: string)
    requires WellFormed(env.mounts) && Resolution(env, opts, path).Ok?
    ensures var r, parts := Resolution(env, opts, path).value, Components(Resolution(env, opts, path).value.guest);
            Build(parts) == r.guest && Canonical(parts) &&
            (parts != [] ==> DirPath(env, parts[..|parts| - 1])) &&
            (r.isDir ==> r.exists_ && DirPath(env, parts)) &&
            (r.host == ToHost(env.mounts, r.guest).host || r.host == ToHost(env.mounts, r.guest).host + "/") &&
            (r.host != ToHost(env.mounts, r.guest).host ==> TrailingSlash(path)) &&
            r.mount == ToHost(env.mounts, r.guest).mount &&
            IsBelow(ToHost(env.mounts, r.guest).host, r.mount.host)
  {
    hide Walk, ToHost, IsDirAt, ObjectId, Components, Build, IsBelow, TrailingSlash;
    PendingWalkable(path);
    WalkProper(env, opts, [], Pending(path), Budget(opts));
    var o := Walk(env, opts, [], Pending(path), Budget(opts));
    var parts := if o.At? then o.path else if o.AtMagic? then o.path else [];
    ComponentsBuild(parts);
    ToHostBelow(env.mounts, Build(parts));
  }

  /** Resolving a result again gives the result, without the extra slash, unless it is a proc object
      reached through a trailing slash while final symlinks are not followed. */
  lemma ResolutionStable(env: Env, opts: Options, path: string)
    requires WellFormed(env.mounts)
    ensures Resolution(env, opts, path).Ok? && |Resolution(env, opts, path).value.guest| < PATH_MAX ==>
              var r := Resolution(env, opts, path).value;
              var bare := r.(host := ToHost(env.mounts, r.guest).host);
              (Resolution(env, opts, r.guest) == Ok(bare) <==> (r.procMagic ==> opts.followFinal))
  {
    if Resolution(env, opts, path).Ok? && |Resolution(env, opts, path).value.guest| < PATH_MAX {
      ResolvesAgain(env, opts, path);
    }
  }

  lemma ResolvesAgain(env: Env, opts: Options, path: string)
    requires WellFormed(env.mounts) && Resolution(env, opts, path).Ok?
    requires |Resolution(env, opts, path).value.guest| < PATH_MAX
    ensures var r := Resolution(env, opts, path).value;
            var bare := r.(host := ToHost(env.mounts, r.guest).host);
            Resolution(env, opts, r.guest) == Ok(bare) <==> (r.procMagic ==> opts.followFinal)
  {
    hide Walk, ToHost, IsDirAt, ObjectId, Components;
    PendingWalkable(path);
    var b := Budget(opts);
    WalkProper(env, opts, [], Pending(path), b);
    WalkEndsAgain(env, opts, [], Pending(path), b);
    var o := Walk(env, opts, [], Pending(path), b);
    var parts := if o.At? then o.path else if o.AtMagic? then o.path else [];
    var guest := Build(parts);
    ComponentsBuild(parts);
    if parts != [] {
      JoinEnd(parts);
    }
    assert !TrailingSlash(guest);
    assert Pending(guest) == parts;
  }

  // ---- the case `ResolutionStable` leaves out ----

  /** A proc mount at "/p" whose entries are symlinks to a pipe. */
  function PipeEnv(): Env {
    Env([Mount("/", "/r", false, Rootfs), Mount("/p", "/q", false, MountKind.Proc)],
        host => StatOk(if host == "/q" then DirKind else SymlinkKind, 1, 1), _ => LinkText("pipe:[1]"))
  }

  lemma PipeMaps()
    ensures WellFormed(PipeEnv().mounts)
    ensures ToHost(PipeEnv().mounts, "/p") == HostMapping(PipeEnv().mounts[1], "/q")
    ensures ToHost(PipeEnv().mounts, "/p/x") == HostMapping(PipeEnv().mounts[1], "/q/x")
  {
    var mounts := PipeEnv().mounts;
    assert mounts[..1] == [mounts[0]] && mounts[..1][..0] == [];
    assert IsBelow("/p", "/") && IsBelow("/p/x", "/") && IsBelow("/p", "/p") && IsBelow("/p/x", "/p");
    assert MountFor(mounts, "/p") == Some(mounts[1]) && MountFor(mounts, "/p/x") == Some(mounts[1]);
    assert SuffixAfter("/p", "/p") == "" && SuffixAfter("/p/x", "/p") == "/x";
  }

  lemma PipeIsMagic(opts: Options)
    ensures IsBelow("/p/x", "/p")
    ensures ProcLinkTarget(PipeEnv(), opts, "/p/x", HostMapping(PipeEnv().mounts[1], "/q/x")) == Magic
  {
    var raw := "pipe:[1]";
    assert SuffixAfter("/p/x", "/p") == "/x";
    assert raw[1..] == "ipe:[1]" && raw[1..][1..] == "pe:[1]" && raw[1..][1..][1..] == "e:[1]";
    assert ":[" <= ":[1]" && "e:[1]"[1..] == ":[1]";
    assert Contains(":[1]", ":[");
    assert Contains("e:[1]", ":[");
    assert Contains("pe:[1]", ":[");
    assert Contains("ipe:[1]", ":[");
    assert Contains(raw, ":[");
    assert ReadLink(PipeEnv(), "/q/x") == LinkText(raw);
  }

  lemma ComponentThen(c: string, rest: string)
    requires ValidComponent(c) && (rest == "" || rest[0] == '/')
    ensures Components("/" + c + rest) == [c] + Components(rest)
  {
    hide Split, Components;
    var p := "/" + c + rest;
    assert p[0..] == p && p[1..] == c + rest;
    SkipSlash(p, 0);
    ComponentsRun(c, rest);
    KeepOne(c);
  }

  lemma PipePaths()
    ensures Pending("/p/x/") == ["p", "x", "."] && Pending("/p/x") == ["p", "x"]
    ensures Build(["p"]) == "/p" && Build(["p", "x"]) == "/p/x"
  {
    hide Split, Components;
    NoComponents();
    assert "/" + "x" + "/" == "/x/" && "/" + "x" + "" == "/x";
    ComponentThen("x", "/");
    ComponentThen("x", "");
    assert "/" + "p" + "/x/" == "/p/x/" && "/" + "p" + "/x" == "/p/x";
    ComponentThen("p", "/x/");
    ComponentThen("p", "/x");
    assert Join([]) == "" && Join(["x"]) == "/x" && Join(["p"]) == "/p";
    assert ["p", "x"][1..] == ["x"] && Join(["p", "x"]) == "/" + "p" + Join(["x"]);
  }

  /** "/p/x/" resolves to the object at "/p/x" that only the kernel can follow; "/p/x" resolves to the
      symlink there. */
  lemma ProcObjectIsNotStable()
    ensures var opts := Options(false, 40, 7, 7, false);
            WellFormed(PipeEnv().mounts) && Resolution(PipeEnv(), opts, "/p/x/").Ok? &&
            var r := Resolution(PipeEnv(), opts, "/p/x/").value;
            r.guest == "/p/x" && r.procMagic && Resolution(PipeEnv(), opts, r.guest) != Ok(r)
  {
    hide Components, Split, ToHost, Build, ProcLinkTarget, TrailingSlash, Resolution;
    var env, opts := PipeEnv(), Options(false, 40, 7, 7, false);
    PipeMaps();
    PipePaths();
    PipeIsMagic(opts);
    assert ["p", "x", "."][1..] == ["x", "."] && ["x", "."][1..] == ["."] && [] + ["p"] == ["p"] &&
           ["p"] + ["x"] == ["p", "x"];
    assert Inspect(env, opts, ["p"], ["x", "."]) == Found.Directory;
    assert Inspect(env, opts, ["p", "x"], ["."]) == MagicLink;
    assert Walk(env, opts, ["p"], ["x", "."], 40) == AtMagic(["p", "x"]);
    assert Walk(env, opts, [], ["p", "x", "."], 40) == AtMagic(["p", "x"]);
    PipeResolves(opts);
  }

  lemma PipeResolves(opts: Options)
    requires opts.maxSymlinks == 40 && WellFormed(PipeEnv().mounts)
    requires Pending("/p/x/") == ["p", "x", "."] && Build(["p", "x"]) == "/p/x"
    requires Walk(PipeEnv(), opts, [], ["p", "x", "."], 40) == AtMagic(["p", "x"])
    ensures Resolution(PipeEnv(), opts, "/p/x/").Ok?
    ensures var r := Resolution(PipeEnv(), opts, "/p/x/").value; r.guest == "/p/x" && r.procMagic
    ensures !opts.followFinal ==> Resolution(PipeEnv(), opts, "/p/x") != Resolution(PipeEnv(), opts, "/p/x/")
  {
    hide Walk, ToHost, Components, Build;
    PipeMaps();
    assert Resolution(PipeEnv(), opts, "/p/x/") == Finish(PipeEnv(), true, AtMagic(["p", "x"]));
    var r := Resolution(PipeEnv(), opts, "/p/x/").value;
    assert r.host == ToHost(PipeEnv().mounts, "/p/x").host;
    ResolutionStable(PipeEnv(), opts, "/p/x/");
  }
}
