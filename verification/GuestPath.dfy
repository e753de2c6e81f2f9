/** Lexical helpers for guest paths (src/vfs/guest_path.cpp). Nothing here touches a filesystem. */
module GuestPath {

  const PATH_MAX: nat := 4096

  predicate IsAbsolute(p: string) {
    p != "" && p[0] == '/'
  }

  /** The pieces of `p` between its slashes; always at least one piece. */
  function Split(p: string): (r: seq<string>)
    ensures r != []
  {
    if p == "" then [""]
    else
      var r := Split(p[1..]);
      if p[0] == '/' then [""] + r else [[p[0]] + r[0]] + r[1..]
  }

  /** Drops the pieces a path lookup ignores. */
  function Keep(pieces: seq<string>): (r: seq<string>)
    ensures forall c :: c in r ==> c in pieces && c != "" && c != "."
  {
    if pieces == [] then []
    else (if pieces[0] == "" || pieces[0] == "." then [] else [pieces[0]]) + Keep(pieces[1..])
  }

  /** What the lookup walks: the pieces between slashes that are neither empty nor ".". */
  function Components(p: string): seq<string> {
    Keep(Split(p))
  }

  predicate Slashless(c: string) {
    forall i :: 0 <= i < |c| ==> c[i] != '/'
  }

  /** A component that may stand in a list to be walked. */
  predicate ValidComponent(c: string) {
    c != "" && c != "." && Slashless(c)
  }

  predicate ValidComponents(parts: seq<string>) {
    forall c :: c in parts ==> ValidComponent(c)
  }

  /** A component of a canonical path: ".." is excluded as well. */
  predicate Canonical(parts: seq<string>) {
    forall c :: c in parts ==> ValidComponent(c) && c != ".."
  }

  lemma SplitSlashless(p: string)
    ensures forall c :: c in Split(p) ==> Slashless(c)
  {
    if p != "" {
      SplitSlashless(p[1..]);
      var r := Split(p[1..]);
      assert r[0] in r;
      forall c | c in Split(p) ensures Slashless(c) {
        if p[0] != '/' && c == [p[0]] + r[0] {
        } else if c in r {
        }
      }
    }
  }

  lemma ComponentsValid(p: string)
    ensures ValidComponents(Components(p))
  {
    SplitSlashless(p);
  }

  lemma {:induction false} KeepConcat(a: seq<string>, b: seq<string>)
    ensures Keep(a + b) == Keep(a) + Keep(b)
  {
    if a == [] {
      assert a + b == b;
    } else {
      var c := a + b;
      assert c[1..] == a[1..] + b;
      KeepConcat(a[1..], b);
      var first := if a[0] == "" || a[0] == "." then [] else [a[0]];
      assert Keep(c) == first + Keep(c[1..]);
      assert first + (Keep(a[1..]) + Keep(b)) == (first + Keep(a[1..])) + Keep(b);
    }
  }

  lemma SplitFirst(x: char, p: string)
    ensures Split([x] + p) == if x == '/' then [""] + Split(p) else [[x] + Split(p)[0]] + Split(p)[1..]
  {
    assert ([x] + p)[1..] == p;
  }

  /** A run without slashes followed by the end of the path or by a slash is one piece. */
  lemma {:induction false} SplitRun(c: string, rest: string)
    requires Slashless(c)
    requires rest == "" || rest[0] == '/'
    ensures rest == "" ==> Split(c + rest) == [c]
    ensures rest != "" ==> Split(c + rest) == [c] + Split(rest[1..])
  {
    if c == "" {
      assert c + rest == rest;
    } else {
      SplitRun(c[1..], rest);
      assert c + rest == [c[0]] + (c[1..] + rest);
      SplitFirst(c[0], c[1..] + rest);
      assert [c[0]] + c[1..] == c;
    }
  }

  lemma ComponentsRun(c: string, rest: string)
    requires Slashless(c)
    requires rest == "" || rest[0] == '/'
    ensures Components(c + rest) == Keep([c]) + Components(rest)
  {
    SplitRun(c, rest);
    if rest != "" {
      KeepConcat([c], Split(rest[1..]));
      assert Split(rest) == [""] + Split(rest[1..]);
      KeepConcat([""], Split(rest[1..]));
    }
  }

  lemma SkipSlash(p: string, i: nat)
    requires i < |p| && p[i] == '/'
    ensures Components(p[i..]) == Components(p[i + 1..])
  {
    assert p[i..][1..] == p[i + 1..];
    KeepConcat([""], Split(p[i + 1..]));
  }

  lemma TakeRun(p: string, start: nat, i: nat)
    requires start <= i <= |p|
    requires forall k :: start <= k < i ==> p[k] != '/'
    requires i == |p| || p[i] == '/'
    ensures Components(p[start..]) == Keep([p[start..i]]) + Components(p[i..])
  {
    assert p[start..] == p[start..i] + p[i..];
    ComponentsRun(p[start..i], p[i..]);
  }

  lemma KeepOne(c: string)
    ensures Keep([c]) == if c == "" || c == "." then [] else [c]
  {
    assert [c][1..] == [];
  }

  lemma NothingKept()
    ensures Components("") == []
  {
  }

  lemma PieceKept(out: seq<string>, c: string, rest: seq<string>)
    ensures out + (Keep([c]) + rest) == (if c != "" && c != "." then out + [c] else out) + rest
  {
    KeepOne(c);
  }

  /** The index loop of `components`: skip slashes, take a run, keep it unless it is empty or ".". */
  method ScanComponents(p: string) returns (out: seq<string>)
    ensures out == Components(p)
  {
    hide Split, Keep, Components;
    out := [];
    var i := 0;
    assert p[0..] == p;
    while i < |p|
      invariant 0 <= i <= |p|
      invariant out + Components(p[i..]) == Components(p)
    {
      ghost var i0 := i;
      while i < |p| && p[i] == '/'
        invariant i0 <= i <= |p|
        invariant Components(p[i..]) == Components(p[i0..])
      {
        SkipSlash(p, i);
        i := i + 1;
      }
      var start := i;
      while i < |p| && p[i] != '/'
        invariant start <= i <= |p|
        invariant forall k :: start <= k < i ==> p[k] != '/'
      {
        i := i + 1;
      }
      var c := p[start..i];
      TakeRun(p, start, i);
      PieceKept(out, c, Components(p[i..]));
      if c != "" && c != "." {
        out := out + [c];
      }
    }
    assert p[i..] == "";
    NothingKept();
  }

  lemma NoComponents()
    ensures Components("") == [] && Components("/") == []
  {
    assert Split("/") == [""] + Split("/"[1..]) && "/"[1..] == "";
    assert Keep([""] + [""]) == Keep([""]);
  }

  /** What may come behind a component of a path: nothing, or a slash and anything. */
  predicate IsRest(rest: string) {
    rest == "" || rest[0] == '/'
  }

  lemma Regrouped(x: string, r: seq<string>, s: seq<string>)
    requires r != []
    ensures (r + s)[0] == r[0] && [x] + (r + s) == ([x] + r) + s && [x] + (r + s)[1..] == ([x] + r[1..]) + s
  {
    assert (r + s)[1..] == r[1..] + s;
  }

  lemma {:induction false} SplitConcat(a: string, b: string)
    requires b != "" && b[0] == '/'
    ensures Split(a + b) == Split(a) + Split(b[1..])
  {
    if a == "" {
      assert a + b == b;
    } else {
      var r, s := Split(a[1..]), Split(b[1..]);
      SplitConcat(a[1..], b);
      assert a + b == [a[0]] + (a[1..] + b) && a == [a[0]] + a[1..];
      SplitFirst(a[0], a[1..] + b);
      Regrouped(if a[0] == '/' then "" else [a[0]] + r[0], r, s);
    }
  }

  lemma ComponentsConcat(a: string, b: string)
    requires IsRest(b)
    ensures Components(a + b) == Components(a) + Components(b)
  {
    hide Split;
    if b == "" {
      assert a + b == a;
      NoComponents();
    } else {
      SplitConcat(a, b);
      KeepConcat(Split(a), Split(b[1..]));
      SplitConcat("", b);
      assert "" + b == b;
      assert Components(b) == Components(b[1..]) by {
        SkipSlash(b, 0);
        assert b[0..] == b;
      }
    }
  }

  /** "/a/b" for [a, b]; "/" for no components. */
  function Build(parts: seq<string>): (s: string)
    ensures IsAbsolute(s)
  {
    if parts == [] then "/" else Join(parts)
  }

  function Join(parts: seq<string>): (s: string)
    ensures parts != [] ==> IsAbsolute(s)
    ensures parts == [] ==> s == ""
  {
    if parts == [] then "" else "/" + parts[0] + Join(parts[1..])
  }

  lemma Regroup(a: string, b: string, c: string, d: string)
    ensures a + (b + c + d) == a + b + c + d
  {
  }

  lemma {:induction false} JoinSnoc(parts: seq<string>, c: string)
    ensures Join(parts + [c]) == Join(parts) + "/" + c
  {
    var more := parts + [c];
    if parts == [] {
      assert more == [c] && Join(more[1..]) == "";
    } else {
      JoinSnoc(parts[1..], c);
      assert more[0] == parts[0] && more[1..] == parts[1..] + [c];
      Regroup("/" + parts[0], Join(parts[1..]), "/", c);
    }
  }

  /** The components of a built path are the parts it was built from. */
  lemma {:induction false} ComponentsBuild(parts: seq<string>)
    requires ValidComponents(parts)
    ensures Components(Build(parts)) == parts
    ensures Components(Join(parts)) == parts
  {
    if parts == [] {
      assert Split("/") == [""] + Split("/"[1..]);
      assert Split("/"[1..]) == [""];
      assert Keep([""] + [""]) == [] + Keep([""]);
    } else {
      assert parts[0] in parts;
      assert ValidComponents(parts[1..]);
      ComponentsBuild(parts[1..]);
      var s := Join(parts);
      assert s[1..] == parts[0] + Join(parts[1..]);
      assert Split(s) == [""] + Split(s[1..]);
      KeepConcat([""], Split(s[1..]));
      assert Keep([""]) == [];
      ComponentsRun(parts[0], Join(parts[1..]));
      assert Keep([parts[0]]) == [parts[0]];
    }
  }

  lemma JoinEnd(parts: seq<string>)
    requires ValidComponents(parts) && parts != []
    ensures Join(parts) != "" && |Join(parts)| > 1 && Join(parts)[|Join(parts)| - 1] != '/'
  {
    assert parts[0] in parts;
    if |parts| == 1 {
      assert Join(parts) == "/" + parts[0] + Join(parts[1..]);
    } else {
      JoinEnd(parts[1..]);
    }
  }

  /** The stack of `normalize_lexical`: ".." pops, clamped at the root. */
  function Collapse(stack: seq<string>, parts: seq<string>): seq<string>
    decreases |parts|
  {
    if parts == [] then stack
    else if parts[0] == ".." then Collapse(if stack == [] then [] else stack[..|stack| - 1], parts[1..])
    else Collapse(stack + [parts[0]], parts[1..])
  }

  function NormalizeLexical(abs: string): string {
    Build(Collapse([], Components(abs)))
  }

  lemma {:induction false} CollapseCanonical(stack: seq<string>, parts: seq<string>)
    requires Canonical(stack) && ValidComponents(parts)
    ensures Canonical(Collapse(stack, parts))
    decreases |parts|
  {
    if parts != [] {
      assert parts[0] in parts;
      if parts[0] == ".." {
        CollapseCanonical(if stack == [] then [] else stack[..|stack| - 1], parts[1..]);
      } else {
        CollapseCanonical(stack + [parts[0]], parts[1..]);
      }
    }
  }

  lemma {:induction false} CollapsePlain(stack: seq<string>, parts: seq<string>)
    requires ".." !in parts
    ensures Collapse(stack, parts) == stack + parts
    decreases |parts|
  {
    if parts == [] {
      assert stack + parts == stack;
    } else {
      CollapsePlain(stack + [parts[0]], parts[1..]);
      assert stack + [parts[0]] + parts[1..] == stack + parts;
    }
  }

  /** Normalising yields a canonical path, and a canonical path is left alone. */
  lemma NormalizeIdempotent(p: string)
    ensures Canonical(Components(NormalizeLexical(p)))
    ensures NormalizeLexical(NormalizeLexical(p)) == NormalizeLexical(p)
  {
    ComponentsValid(p);
    var parts := Collapse([], Components(p));
    CollapseCanonical([], Components(p));
    ComponentsBuild(parts);
    CollapsePlain([], parts);
    assert [] + parts == parts;
  }

  lemma {:induction false} CollapseConcat(stack: seq<string>, a: seq<string>, b: seq<string>)
    ensures Collapse(stack, a + b) == Collapse(Collapse(stack, a), b)
    decreases |a|
  {
    if a == [] {
      assert a + b == b;
    } else {
      assert (a + b)[0] == a[0] && (a + b)[1..] == a[1..] + b;
      var next := if a[0] != ".." then stack + [a[0]] else if stack == [] then [] else stack[..|stack| - 1];
      CollapseConcat(next, a[1..], b);
    }
  }

  /** A ".." takes away the name in front of it, and nothing at the root. */
  lemma NormalizeParent(dir: seq<string>, name: string, rest: string)
    requires Canonical(dir + [name]) && IsRest(rest)
    ensures NormalizeLexical(Build(dir + [name]) + "/.." + rest) == NormalizeLexical(Build(dir) + rest)
    ensures NormalizeLexical("/.." + rest) == NormalizeLexical("/" + rest)
    ensures NormalizeLexical(Build(dir)) == Build(dir)
  {
    hide Components, Build;
    var more := dir + [name];
    assert Canonical(dir) by { assert forall c :: c in dir ==> c in more; }
    ComponentsBuild(more);
    ComponentsBuild(dir);
    ParentThen(rest);
    assert Build(more) + "/.." + rest == Build(more) + ("/.." + rest);
    ComponentsConcat(Build(more), "/.." + rest);
    ComponentsConcat(Build(dir), rest);
    CollapseConcat([], more, [".."] + Components(rest));
    CollapseConcat([], dir, Components(rest));
    CollapsePlain([], more);
    CollapsePlain([], dir);
    assert [] + more == more && [] + dir == dir && more[..|more| - 1] == dir;
    assert ([".."] + Components(rest))[1..] == Components(rest);
  }

  lemma ParentThen(rest: string)
    requires IsRest(rest)
    ensures Components("/.." + rest) == [".."] + Components(rest) && Components("/" + rest) == Components(rest)
  {
    hide Split, Components;
    assert ("/" + rest)[0..] == "/" + rest && ("/" + rest)[1..] == rest;
    SkipSlash("/" + rest, 0);
    var p := "/.." + rest;
    assert p[0..] == p && p[1..] == ".." + rest;
    SkipSlash(p, 0);
    ComponentsRun("..", rest);
    KeepOne("..");
  }

  lemma CollapseStep(stack: seq<string>, parts: seq<string>)
    ensures parts == [] ==> Collapse(stack, parts) == stack
    ensures parts != [] && parts[0] == ".." ==>
              Collapse(stack, parts) == Collapse(if stack == [] then [] else stack[..|stack| - 1], parts[1..])
    ensures parts != [] && parts[0] != ".." ==> Collapse(stack, parts) == Collapse(stack + [parts[0]], parts[1..])
  {
  }

  /** The loop of `normalize_lexical`. */
  method Normalize(abs: string) returns (out: string)
    ensures out == NormalizeLexical(abs)
  {
    hide Components, Collapse, Build;
    var parts := ScanComponents(abs);
    var stack: seq<string> := [];
    var i := 0;
    assert parts[0..] == parts;
    while i < |parts|
      invariant 0 <= i <= |parts|
      invariant Collapse(stack, parts[i..]) == Collapse([], parts)
    {
      assert parts[i..][0] == parts[i] && parts[i..][1..] == parts[i + 1..];
      CollapseStep(stack, parts[i..]);
      if parts[i] == ".." {
        if stack != [] {
          stack := stack[..|stack| - 1];
        }
      } else {
        stack := stack + [parts[i]];
      }
      i := i + 1;
    }
    CollapseStep(stack, parts[i..]);
    out := Build(stack);
  }

  function JoinPath(base: string, rel: string): string {
    if IsAbsolute(rel) then rel
    else base + (if base == "" || base[|base| - 1] != '/' then "/" else "") + rel
  }

  /** A relative path is looked up below its base, an absolute one by itself. */
  lemma JoinedPath(base: string, rel: string)
    ensures IsAbsolute(rel) ==> JoinPath(base, rel) == rel
    ensures IsAbsolute(base) ==> IsAbsolute(JoinPath(base, rel))
    ensures !IsAbsolute(rel) ==> Components(JoinPath(base, rel)) == Components(base) + Components(rel)
  {
    hide Components;
    if !IsAbsolute(rel) {
      SlashThen(rel);
      if base == "" || base[|base| - 1] != '/' {
        assert JoinPath(base, rel) == base + ("/" + rel);
        ComponentsConcat(base, "/" + rel);
      } else {
        var front := base[..|base| - 1];
        assert JoinPath(base, rel) == front + ("/" + rel) && base == front + "/";
        ComponentsConcat(front, "/" + rel);
        ComponentsConcat(front, "/");
        NoComponents();
        assert Components(front) + [] == Components(front);
      }
    }
  }

  lemma SlashThen(rest: string)
    ensures Components("/" + rest) == Components(rest)
  {
    hide Components;
    assert ("/" + rest)[0..] == "/" + rest && ("/" + rest)[1..] == rest;
    SkipSlash("/" + rest, 0);
  }

  /** "/a/b" is below "/a" and "/a/b", not below "/ab"; every absolute path is below "/". */
  predicate IsBelow(path: string, prefix: string) {
    if prefix == "/" then IsAbsolute(path)
    else prefix <= path && (|path| == |prefix| || path[|prefix|] == '/')
  }

  function SuffixAfter(path: string, prefix: string): string
    requires IsBelow(path, prefix)
  {
    if prefix == "/" then (if path == "/" then "" else path) else path[|prefix|..]
  }

  lemma {:induction false} JoinConcat(a: seq<string>, b: seq<string>)
    ensures Join(a + b) == Join(a) + Join(b)
  {
    if a == [] {
      assert a + b == b;
    } else {
      assert (a + b)[1..] == a[1..] + b;
      JoinConcat(a[1..], b);
      assert "/" + a[0] + (Join(a[1..]) + Join(b)) == "/" + a[0] + Join(a[1..]) + Join(b);
    }
  }

  /** A path built from more names lies below the path of the first of them. */
  lemma NameBelow(mount: seq<string>, parts: seq<string>)
    requires Canonical(mount) && Canonical(parts) && parts != []
    ensures var root, name := Build(mount), Build(mount + parts);
            IsBelow(name, root) && SuffixAfter(name, root) == Join(parts)
    ensures Build(parts) == Join(parts)
  {
    hide Components;
    JoinConcat(mount, parts);
    if mount != [] {
      assert mount[0] in mount;
      assert Join(mount) == "/" + mount[0] + Join(mount[1..]);
    } else {
      assert mount + parts == parts;
      assert parts[0] in parts;
    }
  }
}
