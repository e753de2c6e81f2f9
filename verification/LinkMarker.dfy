/** Names shared by the hard-link emulation and the resolver (src/vfs/link_marker.hpp). */
module LinkMarker {

  const STORE_DIR := ".vhdp-hardlinks"
  const ID_LEN: nat := 32

  predicate IsHexDigit(c: char) {
    '0' <= c <= '9' || 'a' <= c <= 'f'
  }

  predicate IsLinkId(s: string) {
    |s| == ID_LEN && forall i :: 0 <= i < |s| ==> IsHexDigit(s[i])
  }

  /** The byte loop of `is_link_id`. */
  method CheckLinkId(s: string) returns (ok: bool)
    ensures ok == IsLinkId(s)
  {
    if |s| != ID_LEN {
      return false;
    }
    for i := 0 to |s|
      invariant forall k :: 0 <= k < i ==> IsHexDigit(s[k])
    {
      if !IsHexDigit(s[i]) {
        return false;
      }
    }
    return true;
  }

  /** The object id a symlink target refers to, or "" for an ordinary target. */
  function LinkTargetId(target: string): string {
    if |target| < |STORE_DIR| + 1 + ID_LEN then ""
    else
      var id := target[|target| - ID_LEN..];
      var head := target[..|target| - ID_LEN];
      if !IsLinkId(id) || head[|head| - 1] != '/' then ""
      else
        var dir := head[..|head| - 1];
        if |dir| < |STORE_DIR| || dir[|dir| - |STORE_DIR|..] != STORE_DIR then ""
        else if |dir| > |STORE_DIR| && dir[|dir| - |STORE_DIR| - 1] != '/' then ""
        else id
  }

  /** A target is a marker for `id` when its last two components are the store directory and `id`. */
  ghost predicate MarksId(target: string, id: string) {
    IsLinkId(id) &&
    (target == STORE_DIR + "/" + id ||
     exists head: string :: target == head + "/" + STORE_DIR + "/" + id)
  }

  /** `link_target_id` accepts exactly the markers and returns their id. */
  lemma LinkTargetIdExact(target: string, id: string)
    ensures id != "" && LinkTargetId(target) == id <==> MarksId(target, id)
  {
    if id != "" && LinkTargetId(target) == id {
      AcceptedIsMarker(target);
    }
    if MarksId(target, id) {
      if target == STORE_DIR + "/" + id {
        BareMarker(id);
      } else {
        var head: string :| target == head + "/" + STORE_DIR + "/" + id;
        MarkerWithHead(head, id);
      }
    }
  }

  lemma AcceptedIsMarker(target: string)
    requires LinkTargetId(target) != ""
    ensures MarksId(target, LinkTargetId(target))
  {
    var id := LinkTargetId(target);
    var n := |target| - ID_LEN - 1 - |STORE_DIR|;
    var front := target[..|target| - ID_LEN];
    var dir := front[..|front| - 1];
    assert dir == target[..n] + STORE_DIR;
    assert front == dir + "/";
    assert target == front + id;
    if n == 0 {
      assert target == STORE_DIR + "/" + id;
    } else {
      var h := target[..n - 1];
      assert target[..n] == h + "/";
      assert target == h + "/" + STORE_DIR + "/" + id;
    }
  }

  lemma BareMarker(id: string)
    requires IsLinkId(id)
    ensures LinkTargetId(STORE_DIR + "/" + id) == id
  {
    var target := STORE_DIR + "/" + id;
    assert target[|target| - ID_LEN..] == id;
    var front := target[..|target| - ID_LEN];
    assert front == STORE_DIR + "/";
    assert front[..|front| - 1] == STORE_DIR;
  }

  lemma MarkerWithHead(head: string, id: string)
    requires IsLinkId(id)
    ensures LinkTargetId(head + "/" + STORE_DIR + "/" + id) == id
  {
    var target := head + "/" + STORE_DIR + "/" + id;
    var front := target[..|target| - ID_LEN];
    assert target[|target| - ID_LEN..] == id;
    assert front == head + "/" + STORE_DIR + "/";
    var dir := front[..|front| - 1];
    assert dir == head + "/" + STORE_DIR;
    assert dir[|dir| - |STORE_DIR|..] == STORE_DIR;
    assert dir[|dir| - |STORE_DIR| - 1] == '/';
  }

  /** Store directory of a mount, given the mount's guest or host root. */
  function StorePath(root: string): string {
    root + (if root == "" || root[|root| - 1] != '/' then "/" else "") + STORE_DIR
  }
}
