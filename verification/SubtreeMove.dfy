/** Renaming and exchanging directories: whole subtrees change their paths, and recorded names below them
    become stale. */
module SubtreeMoves {
  import opened GuestPath
  import opened LinkMarker
  import opened LinkRecord
  import opened LinkView

  /** `from` becomes `to`, or the two change places. */
  datatype Move = OneWay(from: string, to: string) | Swap(from: string, to: string)

  function Back(mv: Move): Move {
    if mv.OneWay? then OneWay(mv.to, mv.from) else mv
  }

  /** Where an entry goes. */
  function Moved(p: string, mv: Move): string {
    if IsBelow(p, mv.from) then mv.to + p[|mv.from|..]
    else if mv.Swap? && IsBelow(p, mv.to) then mv.from + p[|mv.to|..]
    else p
  }

  /** The target is not below the source; it is unused, or not above the source either. */
  ghost predicate CanRemap(keys: set<string>, mv: Move) {
    mv.from != "/" && mv.to != "/" && !IsBelow(mv.to, mv.from) &&
    if mv.OneWay? then forall p :: p in keys ==> !IsBelow(p, mv.to) else !IsBelow(mv.from, mv.to)
  }

  lemma BelowBoth(p: string, a: string, b: string)
    requires a != "/" && b != "/" && IsBelow(p, a) && IsBelow(p, b)
    ensures IsBelow(a, b) || IsBelow(b, a)
  {
    if |a| <= |b| {
      assert b[..|a|] == p[..|a|] == a;
      assert |a| < |b| ==> b[|a|] == p[|a|];
    } else {
      assert a[..|b|] == p[..|b|] == b;
      assert a[|b|] == p[|b|];
    }
  }

  /** A path below `a`, put below `b` instead. */
  lemma Transplant(p: string, a: string, b: string)
    requires a != "/" && b != "/" && IsBelow(p, a)
    ensures var q := b + p[|a|..]; IsBelow(q, b) && a + q[|b|..] == p
  {
    var q := b + p[|a|..];
    assert q[|b|..] == p[|a|..];
    assert a + p[|a|..] == p;
  }

  lemma MovedBack(keys: set<string>, mv: Move, p: string)
    requires CanRemap(keys, mv) && p in keys
    ensures Moved(Moved(p, mv), Back(mv)) == p
  {
    hide IsBelow;
    if IsBelow(p, mv.from) {
      Transplant(p, mv.from, mv.to);
      if mv.Swap? && IsBelow(Moved(p, mv), mv.from) {
        BelowBoth(Moved(p, mv), mv.from, mv.to);
        assert false;
      }
    } else if mv.Swap? && IsBelow(p, mv.to) {
      Transplant(p, mv.to, mv.from);
    }
  }

  function MovedKeys(keys: set<string>, mv: Move): set<string> {
    set p | p in keys :: Moved(p, mv)
  }

  /** The effect of the move on anything keyed by path. */
  function Remap<T>(m: map<string, T>, mv: Move): map<string, T>
    requires CanRemap(m.Keys, mv)
  {
    map q | q in MovedKeys(m.Keys, mv) :: (BackInKeys(m.Keys, mv, q); m[Moved(q, Back(mv))])
  }

  lemma BackInKeys(keys: set<string>, mv: Move, q: string)
    requires CanRemap(keys, mv) && q in MovedKeys(keys, mv)
    ensures Moved(q, Back(mv)) in keys && Moved(Moved(q, Back(mv)), mv) == q
  {
    hide Moved, CanRemap;
    var p :| p in keys && q == Moved(p, mv);
    MovedBack(keys, mv, p);
  }

  lemma MovedCount(keys: set<string>, sub: set<string>, mv: Move)
    requires CanRemap(keys, mv) && sub <= keys
    ensures |MovedKeys(sub, mv)| == |sub|
    decreases |sub|
  {
    hide Moved, CanRemap;
    if sub == {} {
      assert MovedKeys(sub, mv) == {};
    } else {
      var x :| x in sub;
      var rest := sub - {x};
      MovedCount(keys, rest, mv);
      var y := Moved(x, mv);
      assert y !in MovedKeys(rest, mv) by {
        MovedBack(keys, mv, x);
        forall p | p in rest ensures Moved(p, mv) != y {
          MovedBack(keys, mv, p);
        }
      }
      assert MovedKeys(sub, mv) == MovedKeys(rest, mv) + {y};
    }
  }

  lemma RemapSize<T>(m: map<string, T>, mv: Move)
    requires CanRemap(m.Keys, mv)
    ensures |Remap(m, mv)| == |m|
  {
    hide CanRemap, Moved;
    assert Remap(m, mv).Keys == MovedKeys(m.Keys, mv);
    MovedCount(m.Keys, m.Keys, mv);
  }

  lemma RemapEntries<T>(m: map<string, T>, mv: Move)
    requires CanRemap(m.Keys, mv)
    ensures var u := Remap(m, mv);
            (forall p :: p in m ==> Moved(p, mv) in u && u[Moved(p, mv)] == m[p]) &&
            (forall q :: q in u ==> Moved(q, Back(mv)) in m && u[q] == m[Moved(q, Back(mv))] &&
                                    Moved(Moved(q, Back(mv)), mv) == q)
  {
    hide Moved, CanRemap;
    var u := Remap(m, mv);
    forall p | p in m ensures Moved(p, mv) in u && u[Moved(p, mv)] == m[p] {
      MovedBack(m.Keys, mv, p);
      assert Moved(p, mv) in MovedKeys(m.Keys, mv);
    }
    forall q | q in u ensures Moved(q, Back(mv)) in m && u[q] == m[Moved(q, Back(mv))]
      ensures Moved(Moved(q, Back(mv)), mv) == q
    {
      BackInKeys(m.Keys, mv, q);
    }
  }

  // ---- below a mount with a store ----

  /** A path outside the store that does not hold it: any guest path but "/". */
  predicate Apart(root: string, p: string) {
    p != "" && p != "/" && !InStore(root, p) && !IsBelow(StorePath(root), p)
  }

  ghost predicate CanMoveDir(root: string, t: Tree, mv: Move) {
    Inv(root, t) && CanRemap(t.Keys, mv) && Apart(root, mv.from) && Apart(root, mv.to)
  }

  lemma TransplantOutside(root: string, a: string, b: string, p: string)
    requires Apart(root, a) && Apart(root, b) && IsBelow(p, a)
    ensures !InStore(root, p) && !InStore(root, b + p[|a|..])
  {
    hide StorePath, IsBelow;
    StoreShape(root);
    Transplant(p, a, b);
    var s, q := StorePath(root), b + p[|a|..];
    if InStore(root, p) {
      BelowBoth(p, s, a);
      assert false;
    }
    if InStore(root, q) {
      BelowBoth(q, s, b);
      assert false;
    }
  }

  /** Moving the directory neither touches the store nor moves anything into it. */
  lemma DirOutside(root: string, mv: Move, p: string)
    requires Apart(root, mv.from) && Apart(root, mv.to)
    ensures InStore(root, Moved(p, mv)) <==> InStore(root, p)
    ensures InStore(root, p) ==> Moved(p, mv) == p
  {
    hide Apart, InStore, IsBelow;
    if IsBelow(p, mv.from) {
      TransplantOutside(root, mv.from, mv.to, p);
    } else if mv.Swap? && IsBelow(p, mv.to) {
      TransplantOutside(root, mv.to, mv.from, p);
    }
  }

  /** The part of `CanMoveDir` the following steps use, entry by entry. */
  lemma DirEntries(root: string, t: Tree, mv: Move)
    requires CanMoveDir(root, t, mv)
    ensures var u := Remap(t, mv);
            (forall p :: p in t ==> Moved(p, mv) in u && u[Moved(p, mv)] == t[p]) &&
            (forall q :: q in u ==> Moved(q, Back(mv)) in t && u[q] == t[Moved(q, Back(mv))] &&
                                    Moved(Moved(q, Back(mv)), mv) == q) &&
            (forall p :: InStore(root, Moved(p, mv)) <==> InStore(root, p)) &&
            (forall p :: InStore(root, p) ==> Moved(p, mv) == p)
  {
    hide Moved, InStore, Apart;
    RemapEntries(t, mv);
    forall p ensures InStore(root, Moved(p, mv)) <==> InStore(root, p)
      ensures InStore(root, p) ==> Moved(p, mv) == p
    {
      DirOutside(root, mv, p);
    }
  }

  /** The store part of the tree is untouched. */
  lemma DirStoreKept(root: string, t: Tree, mv: Move)
    requires CanMoveDir(root, t, mv)
    ensures var u := Remap(t, mv);
            forall p :: InStore(root, p) ==> (p in t <==> p in u) && (p in t ==> t[p] == u[p])
  {
    hide Moved, InStore, Inv, IsBelow, Remap, Apart;
    DirEntries(root, t, mv);
    var u := Remap(t, mv);
    forall p | InStore(root, p) ensures (p in t <==> p in u) && (p in t ==> t[p] == u[p]) {
      assert Moved(p, mv) == p;
      if p in u {
        var b := Moved(p, Back(mv));
        assert b in t && Moved(b, mv) == p;
        assert InStore(root, b);
        assert b == p;
      }
    }
  }

  lemma DirNames(root: string, t: Tree, mv: Move, k: string)
    requires CanMoveDir(root, t, mv)
    ensures Names(root, Remap(t, mv), k) == MovedKeys(Names(root, t, k), mv)
    ensures |Names(root, Remap(t, mv), k)| == |Names(root, t, k)|
  {
    hide Moved, InStore, Inv, IsBelow, Remap, LinkTargetId, Apart, CanRemap;
    DirEntries(root, t, mv);
    var u := Remap(t, mv);
    var names := Names(root, t, k);
    forall q ensures q in Names(root, u, k) <==> q in MovedKeys(names, mv) {
      if q in Names(root, u, k) {
        var p := Moved(q, Back(mv));
        assert p in names;
      }
      if q in MovedKeys(names, mv) {
        var p :| p in names && q == Moved(p, mv);
        assert IsName(root, u, q, k);
      }
    }
    MovedCount(t.Keys, names, mv);
  }

  lemma RemapOfView(root: string, t: Tree, mv: Move)
    requires CanRemap(t.Keys, mv)
    ensures CanRemap(View(root, t).Keys, mv)
  {
    hide IsBelow;
  }

  /** An entry of the moved tree is read as it was where it came from. */
  lemma DirEntry(root: string, t: Tree, mv: Move, q: string)
    requires CanMoveDir(root, t, mv) && q in Remap(t, mv) && !InStore(root, q)
    ensures var u, p := Remap(t, mv), Moved(q, Back(mv));
            p in t && !InStore(root, p) && Moved(p, mv) == q && ReadEntry(root, u, q) == ReadEntry(root, t, p) &&
            (EntryId(u, q) != "" ==> ObjectPath(root, EntryId(u, q)) in u)
  {
    hide Moved, InStore, IsBelow, Remap, LinkTargetId, IsLinkId, ObjectPath, ObjectsOk, RecordsOwned, InodesDistinct,
         Sizes,
         Apart, CanRemap;
    DirEntries(root, t, mv);
    DirStoreKept(root, t, mv);
    var p := Moved(q, Back(mv));
    EntryIdIsLinkId(t, p);
    ObjectUntouched(root, t, Remap(t, mv), EntryId(t, p));
  }

  lemma DirView(root: string, t: Tree, mv: Move)
    requires CanMoveDir(root, t, mv)
    ensures MarkersLive(root, Remap(t, mv))
    ensures CanRemap(View(root, t).Keys, mv)
    ensures View(root, Remap(t, mv)) == Remap(View(root, t), mv)
  {
    hide Moved, InStore, IsBelow, Remap, EntryId, ReadEntry, ObjectPath, Inv, Apart, CanRemap;
    RemapOfView(root, t, mv);
    var u := Remap(t, mv);
    RemapEntries(View(root, t), mv);
    var v := Remap(View(root, t), mv);
    forall q | q in u && !InStore(root, q)
      ensures q in v && ReadEntry(root, u, q) == v[q]
      ensures EntryId(u, q) != "" ==> ObjectPath(root, EntryId(u, q)) in u
    {
      DirEntry(root, t, mv, q);
    }
    DirEntries(root, t, mv);
    assert View(root, u).Keys == v.Keys;
  }

  /** The names below move and nothing else the guest can see changes: recorded names become stale, but no
      count depends on them. */
  lemma DirKeeps(root: string, t: Tree, mv: Move)
    requires CanMoveDir(root, t, mv)
    ensures Inv(root, Remap(t, mv))
    ensures CanRemap(View(root, t).Keys, mv)
    ensures View(root, Remap(t, mv)) == Remap(View(root, t), mv)
  {
    hide Moved, InStore, IsBelow, Remap, IsLinkId, ObjectPath, RecordPath, Names, View, Parse, Apart, CanRemap;
    EmptyIsNoId();
    DirEntries(root, t, mv);
    DirStoreKept(root, t, mv);
    DirView(root, t, mv);
    var u := Remap(t, mv);
    forall k ensures |Names(root, u, k)| == |Names(root, t, k)| {
      DirNames(root, t, mv, k);
    }
    StoreKept(root, t, u, "", "");
    assert InodesDistinct(u) by {
      forall p, q | p in u && q in u && p != q && u[p].File? && u[q].File? ensures u[p].ino != u[q].ino {
        var p', q' := Moved(p, Back(mv)), Moved(q, Back(mv));
        assert p' in t && q' in t && t[p'] == u[p] && t[q'] == u[q] && p' != q';
      }
    }
  }
}
