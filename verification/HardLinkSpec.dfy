/** A filesystem with real hard links, as link(2), unlink(2) and rename(2) describe it: names map to
    entries, and two names of one file map to the same inode. The reference the emulation is held to. */
module HardLinkSpec {
  import opened Errno
  import opened GuestPath
  import opened LinkMarker
  import opened LinkView
  import opened SubtreeMoves

  type Files = map<string, Entry>

  datatype Flags = Plain | NoReplace | Exchange

  /** The calls; `across` says that the two names are on different mounts. */
  datatype Op =
    | Link(from: string, to: string, id: string, across: bool)
    | Unlink(name: string)
    | Rename(from: string, to: string, flags: Flags, across: bool)

  datatype Outcome = Outcome(files: Files, errno: int)

  predicate IsDirectory(v: Files, p: string) {
    p in v && v[p].Directory?
  }

  /** Two names of one file. */
  predicate SameFile(v: Files, a: string, b: string)
    requires a in v && b in v
  {
    a == b || (v[a].Regular? && v[a] == v[b])
  }

  function DoLink(v: Files, from: string, to: string, across: bool): Outcome {
    if from !in v then Outcome(v, ENOENT)
    else if to in v then Outcome(v, EEXIST)
    else if across then Outcome(v, EXDEV)
    else if IsDirectory(v, from) then Outcome(v, EPERM)
    else Outcome(v[to := v[from]], 0)
  }

  function DoUnlink(v: Files, name: string): Outcome {
    if name !in v then Outcome(v, ENOENT)
    else if IsDirectory(v, name) then Outcome(v, EISDIR)
    else Outcome(v - {name}, 0)
  }

  function Directories(v: Files): set<string> {
    set p | p in v && v[p].Directory?
  }

  /** Something below a directory. */
  predicate NotEmpty(keys: set<string>, dir: string) {
    exists p :: p in keys && p != dir && IsBelow(p, dir)
  }

  /** Why rename(2) refuses, or 0, for a tree with the given entries and directories. */
  function RenameErrno(keys: set<string>, dirs: set<string>, from: string, to: string, flags: Flags): int {
    if from !in keys then ENOENT
    else if flags.NoReplace? && to in keys then EEXIST
    else if flags.Exchange? && to !in keys then ENOENT
    else if from == to || (from !in dirs && to !in dirs) then 0
    else if IsBelow(to, from) then EINVAL
    else if IsBelow(from, to) then (if flags.Exchange? then EINVAL else ENOTEMPTY)
    else if flags.Exchange? then 0
    else if to in keys && to !in dirs then ENOTDIR
    else if from !in dirs then EISDIR
    else if NotEmpty(keys, to) then ENOTEMPTY
    else 0
  }

  /** What it does otherwise. Renaming one name of a file over another name of it changes nothing; a
      directory takes everything below it along, and replaces an empty one. */
  function RenameEffect<T>(m: map<string, T>, dirs: set<string>, from: string, to: string, flags: Flags, same: bool)
    : map<string, T>
    requires from != "/" && to != "/" && RenameErrno(m.Keys, dirs, from, to, flags) == 0
  {
    if from == to then m
    else if from in dirs || to in dirs then
      if flags.Exchange? then Remap(m, Swap(from, to)) else Remap(m - {to}, OneWay(from, to))
    else if flags.Exchange? then SwapEntries(m, from, to)
    else if same then m
    else MoveEntry(m, from, to)
  }

  function DoRename(v: Files, from: string, to: string, flags: Flags, across: bool): Outcome
    requires from != "/" && to != "/"
  {
    var e := RenameErrno(v.Keys, Directories(v), from, to, flags);
    if across then Outcome(v, EXDEV)
    else if e != 0 then Outcome(v, e)
    else Outcome(RenameEffect(v, Directories(v), from, to, flags, to in v && SameFile(v, from, to)), 0)
  }

  lemma CanReplaceDir(keys: set<string>, dirs: set<string>, from: string, to: string, flags: Flags)
    requires from != "/" && to != "/" && from != to && !flags.Exchange? && (from in dirs || to in dirs)
    requires RenameErrno(keys, dirs, from, to, flags) == 0
    ensures CanRemap(keys - {to}, OneWay(from, to)) && (to in keys ==> to in dirs)
  {
    hide IsBelow;
  }

  /** A directory that is renamed takes everything below it along, to the same place below its new name, and
      nothing else moves. */
  lemma DirectoryMoves(v: Files, from: string, to: string, flags: Flags, p: string)
    requires from != "/" && to != "/" && from != to && !flags.Exchange? && IsDirectory(v, from) && p in v && p != to
    requires DoRename(v, from, to, flags, false).errno == 0
    ensures var u := DoRename(v, from, to, flags, false).files;
            if p == from || from + "/" <= p then to + p[|from|..] in u && u[to + p[|from|..]] == v[p] && p !in u
            else p in u && u[p] == v[p]
  {
    hide Remap, RenameErrno, IsBelow, CanRemap;
    var dirs := Directories(v);
    CanReplaceDir(v.Keys, dirs, from, to, flags);
    assert (v - {to}).Keys == v.Keys - {to};
    RemapEntries(v - {to}, OneWay(from, to));
    BelowIs(p, from);
    assert Moved(p, OneWay(from, to)) in Remap(v - {to}, OneWay(from, to));
    if IsBelow(p, from) {
      NotBoth(v - {to}, from, to, p);
    }
  }

  lemma BelowIs(p: string, dir: string)
    requires dir != "/"
    ensures IsBelow(p, dir) <==> p == dir || dir + "/" <= p
  {
  }

  lemma NotBoth(m: Files, from: string, to: string, p: string)
    requires CanRemap(m.Keys, OneWay(from, to)) && p in m && IsBelow(p, from)
    ensures p !in Remap(m, OneWay(from, to))
  {
    hide Remap, IsBelow;
    RemapEntries(m, OneWay(from, to));
    assert Moved(p, OneWay(to, from)) == p;
    Transplant(p, from, to);
  }

  /** A file or symlink that is renamed is at its new name only, whatever was there before. */
  lemma EntryMoves(v: Files, from: string, to: string, flags: Flags, p: string)
    requires from != "/" && to != "/" && from != to && !flags.Exchange? && p in v
    requires from in v && !IsDirectory(v, from) && !IsDirectory(v, to) && !(to in v && SameFile(v, from, to))
    requires DoRename(v, from, to, flags, false).errno == 0
    ensures var u := DoRename(v, from, to, flags, false).files;
            to in u && u[to] == v[from] && from !in u && (p != from && p != to ==> p in u && u[p] == v[p])
  {
    hide Remap, IsBelow, NotEmpty;
  }

  /** A rename that succeeds and takes a directory along. */
  predicate MovesDirectory(v: Files, op: Op) {
    op.Rename? && !op.across && op.from != op.to &&
    RenameErrno(v.Keys, Directories(v), op.from, op.to, op.flags) == 0 &&
    (op.from in Directories(v) || op.to in Directories(v))
  }

  /** The number of names of a file: its link count. */
  function LinkCount(v: Files, ino: nat): nat {
    |set p | p in v && v[p] == Regular(ino)|
  }

  /** A call on names outside the store and below the mount's root. */
  predicate Sensible(root: string, op: Op) {
    match op
    case Link(from, to, _, _) => from != "" && to != "" && !InStore(root, from) && !InStore(root, to)
    case Unlink(name) => !InStore(root, name)
    case Rename(from, to, _, _) => Apart(root, from) && Apart(root, to)
  }

  function Step(root: string, v: Files, op: Op): Outcome
    requires Sensible(root, op)
  {
    match op
    case Link(from, to, _, across) => DoLink(v, from, to, across)
    case Unlink(name) => DoUnlink(v, name)
    case Rename(from, to, flags, across) => DoRename(v, from, to, flags, across)
  }

  predicate AllSensible(root: string, ops: seq<Op>) {
    forall i :: 0 <= i < |ops| ==> Sensible(root, ops[i])
  }

  function Run(root: string, v: Files, ops: seq<Op>): Files
    requires AllSensible(root, ops)
    decreases |ops|
  {
    if ops == [] then v else Run(root, Step(root, v, ops[0]).files, ops[1..])
  }

  /** The results a program sees, one per call. */
  function Results(root: string, v: Files, ops: seq<Op>): (r: seq<int>)
    requires AllSensible(root, ops)
    ensures |r| == |ops|
    decreases |ops|
  {
    if ops == [] then [] else [Step(root, v, ops[0]).errno] + Results(root, Step(root, v, ops[0]).files, ops[1..])
  }

  lemma {:induction false} RunSnoc(root: string, v: Files, ops: seq<Op>, k: nat)
    requires AllSensible(root, ops) && k < |ops|
    ensures Run(root, v, ops[..k + 1]) == Step(root, Run(root, v, ops[..k]), ops[k]).files
    ensures Results(root, v, ops[..k + 1]) ==
            Results(root, v, ops[..k]) + [Step(root, Run(root, v, ops[..k]), ops[k]).errno]
    decreases k
  {
    hide Sensible, Step;
    var next := Step(root, v, ops[0]).files;
    assert ops[..k + 1][0] == ops[0] && ops[..k + 1][1..] == ops[1..][..k];
    if k == 0 {
      assert ops[1..][..0] == [] && ops[..0] == [];
      assert Run(root, v, ops[..1]) == Run(root, next, ops[..1][1..]);
      assert Results(root, next, ops[..1][1..]) == [];
    } else {
      RunSnoc(root, next, ops[1..], k - 1);
      assert ops[..k][1..] == ops[1..][..k - 1];
      assert ops[1..][k - 1] == ops[k];
    }
  }

  /** A call makes at most one new name. */
  lemma StepSize(root: string, v: Files, op: Op)
    requires Sensible(root, op)
    ensures |Step(root, v, op).files| <= |v| + 1
  {
    hide InStore, StorePath, IsBelow, DoRename;
    match op
    case Link(from, to, _, _) =>
      if from in v {
        assert v[to := v[from]].Keys == v.Keys + {to};
      }
    case Unlink(name) =>
      KeysFewer((v - {name}).Keys, v.Keys);
    case Rename(from, to, flags, across) =>
      RenameSize(v, from, to, flags, across);
  }

  lemma RenameSize(v: Files, from: string, to: string, flags: Flags, across: bool)
    requires from != "/" && to != "/"
    ensures |DoRename(v, from, to, flags, across).files| <= |v| + 1
  {
    hide Remap, MoveEntry, SwapEntries, IsBelow;
    if RenameErrno(v.Keys, Directories(v), from, to, flags) == 0 && from != to {
      if from in Directories(v) || to in Directories(v) {
        if flags.Exchange? {
          RemapSize(v, Swap(from, to));
        } else {
          RemapSize(v - {to}, OneWay(from, to));
          KeysFewer((v - {to}).Keys, v.Keys);
        }
      } else {
        EntrySize(v, from, to);
      }
    }
  }

  lemma EntrySize(v: Files, from: string, to: string)
    ensures from in v ==> |MoveEntry(v, from, to)| <= |v| + 1
    ensures from in v && to in v ==> |SwapEntries(v, from, to)| == |v|
  {
    if from in v {
      assert MoveEntry(v, from, to).Keys == v.Keys - {from} + {to};
      if to in v {
        assert SwapEntries(v, from, to).Keys == v.Keys;
      }
    }
  }

  lemma KeysFewer(a: set<string>, b: set<string>)
    requires a <= b
    ensures |a| <= |b|
  {
    if a != b {
      var x :| x in b && x !in a;
      KeysFewer(a, b - {x});
    }
  }
}
