/** Guest to host path mapping (src/vfs/mount_table.cpp). */
module MountTables {
  import opened GuestPath
  import opened Wrappers

  datatype MountKind = Rootfs | Bind | Device | Proc

  /** A guest directory and the host directory it shows. */
  datatype Mount = Mount(guest: string, host: string, readOnly: bool, kind: MountKind)

  /** Where a guest path lives. */
  datatype HostMapping = HostMapping(mount: Mount, host: string)

  /** The rootfs comes first and holds every absolute path. */
  predicate WellFormed(mounts: seq<Mount>) {
    mounts != [] && mounts[0].guest == "/" && forall m :: m in mounts ==> IsAbsolute(m.guest) && IsAbsolute(m.host)
  }

  /** The longest guest prefix wins; of equal ones, the first. */
  function MountFor(mounts: seq<Mount>, guest: string): (r: Option<Mount>)
    ensures r.Some? ==> r.value in mounts && IsBelow(guest, r.value.guest)
    ensures forall m :: m in mounts && IsBelow(guest, m.guest) ==> r.Some? && |m.guest| <= |r.value.guest|
  {
    if mounts == [] then None
    else
      var n := |mounts| - 1;
      var best := MountFor(mounts[..n], guest);
      if IsBelow(guest, mounts[n].guest) && (best.None? || |mounts[n].guest| > |best.value.guest|) then Some(mounts[n])
      else best
  }

  /** Two prefixes of one path that are equally long are equal. */
  lemma PrefixOfLength(p: string, a: string, b: string)
    requires IsBelow(p, a) && IsBelow(p, b) && |a| == |b|
    ensures a == b
  {
    if a != "/" && b != "/" {
      assert a == p[..|a|] && b == p[..|b|];
    }
  }

  /** `mount_for_guest` gives the mount whose guest path is the longest prefix, whatever the order in
      which the mounts were added. */
  lemma MountForAnyOrder(a: seq<Mount>, b: seq<Mount>, guest: string)
    requires forall m :: m in a <==> m in b
    requires forall m, n :: m in a && n in a && m.guest == n.guest ==> m == n
    ensures MountFor(a, guest) == MountFor(b, guest)
  {
    var x, y := MountFor(a, guest), MountFor(b, guest);
    if x.Some? {
      assert x.value in b;
      PrefixOfLength(guest, x.value.guest, y.value.guest);
    } else {
      assert forall m :: m in b ==> m in a;
    }
  }

  function HostPath(m: Mount, rest: string): string {
    if rest == "" then m.host else if m.host == "/" then rest else m.host + rest
  }

  function ToHost(mounts: seq<Mount>, guest: string): (r: HostMapping)
    requires WellFormed(mounts) && IsAbsolute(guest)
    ensures r.mount in mounts && IsBelow(guest, r.mount.guest)
  {
    assert mounts[0] in mounts;
    var m := MountFor(mounts, guest).value;
    HostMapping(m, HostPath(m, SuffixAfter(guest, m.guest)))
  }

  /** Below the guest path of its mount a path keeps its names on the host. */
  lemma ToHostKeepsNames(mounts: seq<Mount>, m: Mount, rest: string)
    requires WellFormed(mounts) && IsAbsolute(m.guest) && (rest == "" || rest[0] == '/')
    requires var guest := if m.guest == "/" then (if rest == "" then "/" else rest) else m.guest + rest;
             MountFor(mounts, guest) == Some(m)
    ensures var guest := if m.guest == "/" then (if rest == "" then "/" else rest) else m.guest + rest;
            rest != "/" || m.guest != "/" ==>
              ToHost(mounts, guest) ==
              HostMapping(m, if rest == "" then m.host else if m.host == "/" then rest else m.host + rest)
  {
    var guest := if m.guest == "/" then (if rest == "" then "/" else rest) else m.guest + rest;
    if m.guest != "/" {
      assert guest[|m.guest|..] == rest;
    }
  }

  /** The longest host prefix wins. */
  function MountForHost(mounts: seq<Mount>, host: string): (r: Option<Mount>)
    ensures r.Some? ==> r.value in mounts && IsBelow(host, r.value.host)
    ensures forall m :: m in mounts && IsBelow(host, m.host) ==> r.Some? && |m.host| <= |r.value.host|
  {
    if mounts == [] then None
    else
      var n := |mounts| - 1;
      var best := MountForHost(mounts[..n], host);
      if IsBelow(host, mounts[n].host) && (best.None? || |mounts[n].host| > |best.value.host|) then Some(mounts[n])
      else best
  }

  /** Nothing when the host path is outside every mount. */
  function ToGuest(mounts: seq<Mount>, host: string): Option<string> {
    match MountForHost(mounts, host)
    case None => None
    case Some(m) =>
      var rest := SuffixAfter(host, m.host);
      Some(if m.guest == "/" then (if rest == "" then "/" else rest) else m.guest + rest)
  }

  lemma SuffixShape(path: string, prefix: string)
    requires IsBelow(path, prefix) && IsAbsolute(path)
    ensures var rest := SuffixAfter(path, prefix); rest == "" || rest[0] == '/'
  {
  }

  /** A mapped path lies below the host root of its mount. */
  lemma ToHostBelow(mounts: seq<Mount>, guest: string)
    requires WellFormed(mounts) && IsAbsolute(guest)
    ensures IsBelow(ToHost(mounts, guest).host, ToHost(mounts, guest).mount.host)
  {
    var m := ToHost(mounts, guest).mount;
    SuffixShape(guest, m.guest);
    assert m in mounts;
  }

  /** A host path mapped into the guest and back is itself, when both directions choose one mount, unless
      it is the host directory of the guest's "/" with a slash behind it, which loses the slash. */
  lemma ToHostToGuest(mounts: seq<Mount>, host: string)
    requires WellFormed(mounts) && IsAbsolute(host) && ToGuest(mounts, host).Some?
    requires MountFor(mounts, ToGuest(mounts, host).value) == MountForHost(mounts, host)
    ensures IsAbsolute(ToGuest(mounts, host).value)
    ensures var m := MountForHost(mounts, host).value;
            ToHost(mounts, ToGuest(mounts, host).value).host == host <==>
            !(m.guest == "/" && m.host != "/" && host == m.host + "/")
  {
    var m := MountForHost(mounts, host).value;
    var rest := SuffixAfter(host, m.host);
    var guest := ToGuest(mounts, host).value;
    assert m in mounts;
    SuffixShape(host, m.host);
    assert m.host != "/" ==> host == m.host + rest;
    if m.guest != "/" {
      assert guest[|m.guest|..] == rest;
      assert SuffixAfter(guest, m.guest) == rest;
    }
  }

  /** Such a path: "/r/" below the rootfs "/r" comes back as "/r". */
  lemma RootfsSlashIsLost()
    ensures var mounts := [Mount("/", "/r", false, Rootfs)];
            WellFormed(mounts) && ToGuest(mounts, "/r/") == Some("/") &&
            MountFor(mounts, "/") == MountForHost(mounts, "/r/") &&
            ToHost(mounts, "/").host == "/r"
  {
    var rootfs := Mount("/", "/r", false, Rootfs);
    var mounts := [rootfs];
    assert mounts[..0] == [] && IsBelow("/", "/") && IsBelow("/r/", "/r");
    assert MountFor(mounts, "/") == Some(rootfs) && MountForHost(mounts, "/r/") == Some(rootfs);
    assert SuffixAfter("/r/", "/r") == "/" && SuffixAfter("/", "/") == "";
  }

  /** The vector of mounts and its lookup loops. */
  class MountTable {
    var mounts: seq<Mount>

    constructor (rootfsHost: string, readOnly: bool)
      requires IsAbsolute(rootfsHost)
      ensures mounts == [Mount("/", rootfsHost, readOnly, Rootfs)] && WellFormed(mounts)
    {
      mounts := [Mount("/", rootfsHost, readOnly, Rootfs)];
    }

    method Add(m: Mount)
      requires WellFormed(mounts) && IsAbsolute(m.guest) && IsAbsolute(m.host)
      modifies this
      ensures WellFormed(mounts) && mounts == old(mounts) + [m]
    {
      mounts := mounts + [m];
    }

    method FindForGuest(guest: string) returns (best: Option<Mount>)
      ensures best == MountFor(mounts, guest)
    {
      best := None;
      for i := 0 to |mounts|
        invariant best == MountFor(mounts[..i], guest)
      {
        assert mounts[..i + 1][..i] == mounts[..i];
        if IsBelow(guest, mounts[i].guest) && (best.None? || |mounts[i].guest| > |best.value.guest|) {
          best := Some(mounts[i]);
        }
      }
      assert mounts[..|mounts|] == mounts;
    }

    method MapToHost(guest: string) returns (out: HostMapping)
      requires WellFormed(mounts) && IsAbsolute(guest)
      ensures out == ToHost(mounts, guest)
    {
      var best := FindForGuest(guest);
      var m := if best.None? then mounts[0] else best.value;
      assert mounts[0] in mounts;
      out := HostMapping(m, HostPath(m, SuffixAfter(guest, m.guest)));
    }

    method MapToGuest(host: string) returns (out: Option<string>)
      ensures out == ToGuest(mounts, host)
    {
      var best: Option<Mount> := None;
      for i := 0 to |mounts|
        invariant best == MountForHost(mounts[..i], host)
      {
        assert mounts[..i + 1][..i] == mounts[..i];
        if IsBelow(host, mounts[i].host) && (best.None? || |mounts[i].host| > |best.value.host|) {
          best := Some(mounts[i]);
        }
      }
      assert mounts[..|mounts|] == mounts;
      if best.None? {
        return None;
      }
      var rest := SuffixAfter(host, best.value.host);
      out := Some(if best.value.guest == "/" then (if rest == "" then "/" else rest) else best.value.guest + rest);
    }
  }
}
