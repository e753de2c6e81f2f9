/** The kernel-built stack as the userland loader walks and rewrites it
    (src/engines/rootless/loader/loader.c, vhdp_loader_main): argc, argv, environment, auxiliary vector. */
module LoaderStack {
  import opened Bits
  import opened PageMath
  import opened Wrappers

  const AT_NULL: nat := 0
  const AT_PHDR: nat := 3
  const AT_PHENT: nat := 4
  const AT_PHNUM: nat := 5
  const AT_PAGESZ: nat := 6
  const AT_BASE: nat := 7
  const AT_ENTRY: nat := 9
  const AT_EXECFN: nat := 31
  const DEFAULT_PAGE: nat := 4096

  /** Where the auxiliary vector starts behind `argc` arguments and `env` environment strings. */
  function AuxStart(argc: nat, env: nat): nat {
    1 + argc + 1 + env + 1
  }

  /** A stack as execve leaves it, with `env` environment strings and `aux` auxiliary entries. */
  ghost predicate KernelStack(s: seq<nat>, env: nat, aux: nat) {
    s != [] &&
    var at := AuxStart(s[0], env);
    at + 2 * aux < |s| && (forall i :: 0 <= i < |s| ==> s[i] < TWO64) &&
    (forall p :: s[0] + 2 <= p < s[0] + 2 + env ==> s[p] != 0) && s[s[0] + 2 + env] == 0 &&
    (forall i :: 0 <= i < aux ==> s[at + 2 * i] != AT_NULL) && s[at + 2 * aux] == AT_NULL
  }

  /** The walk over the environment, which has no length of its own. */
  method FindAuxv(stack: array<nat>, ghost env: nat, ghost aux: nat) returns (auxv: nat)
    requires KernelStack(stack[..], env, aux)
    ensures auxv == AuxStart(stack[0], env)
  {
    ghost var s := stack[..];
    var argc := stack[0];
    var p := 1 + argc + 1;
    ghost var i := 0;
    while stack[p] != 0
      invariant 0 <= i <= env && p == s[0] + 2 + i && stack[..] == s
      decreases env - i
    {
      assert i != env;
      p := p + 1;
      i := i + 1;
    }
    assert i == env;
    return p + 1;
  }

  // ---- the page size ----

  lemma {:induction false} AndSelf(v: nat)
    ensures And(v, v) == v
  {
    if v > 0 {
      AndSelf(v / 2);
    }
  }

  lemma Pow2Odd(k: nat)
    ensures Pow2(k) % 2 == 1 ==> Pow2(k) == 1
  {
  }

  ghost predicate IsPower(v: nat) {
    exists k: nat :: v == Pow2(k)
  }

  lemma PowerHalf(h: nat)
    requires h > 0
    ensures IsPower(2 * h) <==> IsPower(h)
  {
    if IsPower(h) {
      var k: nat :| h == Pow2(k);
      assert 2 * h == Pow2(k + 1);
    }
    if IsPower(2 * h) {
      var k: nat :| 2 * h == Pow2(k);
      assert k > 0 && h == Pow2(k - 1);
    }
  }

  /** `v & (v - 1)` is zero exactly for the powers of two. */
  lemma {:induction false} PowerOfTwoIff(v: nat)
    requires v > 0
    ensures And(v, v - 1) == 0 <==> IsPower(v)
  {
    hide IsPower;
    if v == 1 {
      OneIsPower();
      assert And(1, 0) == 2 * And(0, 0);
    } else if v % 2 == 0 {
      PowerOfTwoIff(v / 2);
      assert And(v, v - 1) == 2 * And(v / 2, v / 2 - 1);
      PowerHalf(v / 2);
    } else {
      AndSelf(v / 2);
      assert And(v, v - 1) == 2 * And(v / 2, v / 2);
      OddIsNoPower(v);
    }
  }

  lemma OneIsPower()
    ensures IsPower(1)
  {
    assert Pow2(0) == 1;
  }

  lemma OddIsNoPower(v: nat)
    requires v % 2 == 1 && v > 1
    ensures !IsPower(v)
  {
    if k: nat :| v == Pow2(k) {
      Pow2Odd(k);
    }
  }

  lemma {:induction false} Pow2Grows(j: nat, k: nat)
    requires j <= k
    ensures Pow2(j) <= Pow2(k)
  {
    if j < k {
      Pow2Grows(j, k - 1);
    }
  }

  lemma Pow2Values()
    ensures Pow2(12) == DEFAULT_PAGE && Pow2(63) == 0x8000_0000_0000_0000
  {
    assert Pow2(4) == 16;
    assert Pow2(8) == 256;
    assert Pow2(12) == 4096;
    assert Pow2(16) == 0x1_0000;
    assert Pow2(20) == 0x10_0000;
    assert Pow2(24) == 0x100_0000;
    assert Pow2(28) == 0x1000_0000;
    assert Pow2(32) == 0x1_0000_0000;
    assert Pow2(36) == 0x10_0000_0000;
    assert Pow2(40) == 0x100_0000_0000;
    assert Pow2(44) == 0x1000_0000_0000;
    assert Pow2(48) == 0x1_0000_0000_0000;
    assert Pow2(52) == 0x10_0000_0000_0000;
    assert Pow2(56) == 0x100_0000_0000_0000;
    assert Pow2(60) == 0x1000_0000_0000_0000;
  }

  /** A 64-bit word the loader takes for a page size is one. */
  lemma TakenIsPageSize(v: nat)
    requires 0 < v < TWO64 && And(v, v - 1) == 0
    ensures IsPageSize(v)
  {
    PowerOfTwoIff(v);
    var k: nat :| v == Pow2(k);
    Pow2Values();
    if k > 63 {
      assert Pow2(64) == 2 * Pow2(63);
      Pow2Grows(64, k);
    } else {
      Pow2Grows(k, 63);
    }
  }

  predicate IsPageEntry(tag: nat, value: nat) {
    tag == AT_PAGESZ && value != 0 && And(value, value - 1) == 0
  }

  /** The last usable page size among the first `n` entries at `at`, the default if there is none. */
  function PageSizeOf(s: seq<nat>, at: nat, n: nat): (ps: nat)
    requires at + 2 * n <= |s|
    ensures ps > 0
  {
    if n == 0 then DEFAULT_PAGE
    else if IsPageEntry(s[at + 2 * n - 2], s[at + 2 * n - 1]) then s[at + 2 * n - 1]
    else PageSizeOf(s, at, n - 1)
  }

  /** The page size of the machine: whatever the auxiliary vector says, it is a power of two. */
  method FindPageSize(stack: array<nat>, auxv: nat, ghost env: nat, ghost aux: nat) returns (ps: nat)
    requires KernelStack(stack[..], env, aux) && auxv == AuxStart(stack[0], env)
    ensures IsPageSize(ps) && ps == PageSizeOf(stack[..], auxv, aux)
  {
    hide And, IsPageSize;
    ghost var s := stack[..];
    ps := DEFAULT_PAGE;
    assert IsPageSize(DEFAULT_PAGE) by { DefaultIsPageSize(); }
    var a := auxv;
    ghost var i := 0;
    while stack[a] != AT_NULL
      invariant 0 <= i <= aux && a == auxv + 2 * i && stack[..] == s
      invariant IsPageSize(ps) && ps == PageSizeOf(s, auxv, i)
      decreases aux - i
    {
      assert i < aux;
      assert s[auxv + 2 * (i + 1) - 2] == stack[a] && s[auxv + 2 * (i + 1) - 1] == stack[a + 1];
      if stack[a] == AT_PAGESZ && stack[a + 1] != 0 && And(stack[a + 1], stack[a + 1] - 1) == 0 {
        ps := stack[a + 1];
        assert s[a + 1] < TWO64;
        TakenIsPageSize(ps);
      }
      a := a + 2;
      i := i + 1;
    }
    assert i == aux;
  }

  lemma DefaultIsPageSize()
    ensures IsPageSize(DEFAULT_PAGE)
  {
    Pow2Values();
  }

  // ---- the rewrite ----

  /** What the loader reports of the guest image. */
  datatype Report = Report(phdr: nat, phent: nat, phnum: nat, entry: nat, base: nat, execfn: nat)

  function Reported(tag: nat, value: nat, r: Report): nat {
    if tag == AT_PHDR then r.phdr
    else if tag == AT_PHENT then r.phent
    else if tag == AT_PHNUM then r.phnum
    else if tag == AT_ENTRY then r.entry
    else if tag == AT_BASE then r.base
    else if tag == AT_EXECFN then r.execfn
    else value
  }

  /** One entry, by its tag. */
  method RewriteEntry(stack: array<nat>, a: nat, r: Report)
    requires a + 1 < stack.Length
    modifies stack
    ensures stack[a + 1] == Reported(old(stack[a]), old(stack[a + 1]), r)
    ensures forall k :: 0 <= k < stack.Length && k != a + 1 ==> stack[k] == old(stack[k])
  {
    match stack[a] {
      case 3 => stack[a + 1] := r.phdr;
      case 4 => stack[a + 1] := r.phent;
      case 5 => stack[a + 1] := r.phnum;
      case 9 => stack[a + 1] := r.entry;
      case 7 => stack[a + 1] := r.base;
      case 31 => stack[a + 1] := r.execfn;
      case _ =>
    }
  }

  /** Every entry that described the loader describes the guest image, in place; argc, arguments,
      environment, tags and all other entries are as the kernel left them. */
  method RewriteAuxv(stack: array<nat>, auxv: nat, r: Report, ghost env: nat, ghost aux: nat)
    requires KernelStack(stack[..], env, aux) && auxv == AuxStart(stack[0], env)
    modifies stack
    ensures forall i :: 0 <= i < aux ==>
              stack[auxv + 2 * i] == old(stack[auxv + 2 * i]) &&
              stack[auxv + 2 * i + 1] == Reported(old(stack[auxv + 2 * i]), old(stack[auxv + 2 * i + 1]), r)
    ensures forall k :: 0 <= k < stack.Length && (k < auxv || k >= auxv + 2 * aux) ==> stack[k] == old(stack[k])
  {
    ghost var s := stack[..];
    var a := auxv;
    ghost var i := 0;
    while stack[a] != AT_NULL
      invariant 0 <= i <= aux && a == auxv + 2 * i
      invariant forall k :: 0 <= k < stack.Length && (k < auxv || k >= a || (k - auxv) % 2 == 0) ==> stack[k] == s[k]
      invariant forall j :: 0 <= j < i ==> stack[auxv + 2 * j + 1] == Reported(s[auxv + 2 * j], s[auxv + 2 * j + 1], r)
      decreases aux - i
    {
      assert i < aux;
      RewriteEntry(stack, a, r);
      a := a + 2;
      i := i + 1;
    }
    assert i == aux;
  }

  // ---- the vector as a program reads it ----

  /** getauxval(3): the value of the first of `n` entries with a tag. */
  function AuxValue(s: seq<nat>, at: nat, n: nat, tag: nat): Option<nat>
    requires at + 2 * n <= |s|
    decreases n
  {
    if n == 0 then None
    else if s[at] == tag then Some(s[at + 1])
    else AuxValue(s, at + 2, n - 1, tag)
  }

  /** What a program reads of a rewritten vector. */
  lemma {:induction false} AuxReported(s: seq<nat>, u: seq<nat>, at: nat, n: nat, r: Report, tag: nat)
    requires at + 2 * n <= |s| == |u|
    requires forall i :: 0 <= i < n ==>
               u[at + 2 * i] == s[at + 2 * i] && u[at + 2 * i + 1] == Reported(s[at + 2 * i], s[at + 2 * i + 1], r)
    ensures AuxValue(u, at, n, tag) ==
            match AuxValue(s, at, n, tag)
            case None => None
            case Some(v) => Some(Reported(tag, v, r))
    decreases n
  {
    hide Reported;
    if n > 0 {
      assert u[at + 2 * 0] == s[at + 2 * 0] && u[at + 2 * 0 + 1] == Reported(s[at + 2 * 0], s[at + 2 * 0 + 1], r);
      if s[at] != tag {
        forall i | 0 <= i < n - 1
          ensures u[at + 2 + 2 * i] == s[at + 2 + 2 * i]
          ensures u[at + 2 + 2 * i + 1] == Reported(s[at + 2 + 2 * i], s[at + 2 + 2 * i + 1], r)
        {
          assert at + 2 + 2 * i == at + 2 * (i + 1);
        }
        AuxReported(s, u, at + 2, n - 1, r, tag);
      }
    }
  }

  /** The page size is the last entry that can be one. */
  lemma {:induction false} PageSizeIsLast(s: seq<nat>, at: nat, n: nat, i: nat)
    requires at + 2 * n <= |s| && i < n && s[at + 2 * i] == 6 && IsPower(s[at + 2 * i + 1])
    requires forall j :: i < j < n ==> s[at + 2 * j] == 6 ==> !IsPower(s[at + 2 * j + 1])
    ensures PageSizeOf(s, at, n) == s[at + 2 * i + 1]
    decreases n
  {
    hide IsPower, And;
    var tag, value := s[at + 2 * n - 2], s[at + 2 * n - 1];
    assert at + 2 * (n - 1) == at + 2 * n - 2;
    NoPowerIsZero();
    if value > 0 {
      PowerOfTwoIff(value);
    }
    if i < n - 1 {
      PageSizeIsLast(s, at, n - 1, i);
    }
  }

  lemma NoPowerIsZero()
    ensures !IsPower(0)
  {
  }

  /** Without one it is 4096. */
  lemma {:induction false} PageSizeIsDefault(s: seq<nat>, at: nat, n: nat)
    requires at + 2 * n <= |s| && forall j :: 0 <= j < n ==> s[at + 2 * j] == 6 ==> !IsPower(s[at + 2 * j + 1])
    ensures PageSizeOf(s, at, n) == 4096
    decreases n
  {
    hide IsPower, And;
    if n > 0 {
      var value := s[at + 2 * n - 1];
      assert at + 2 * (n - 1) == at + 2 * n - 2;
      NoPowerIsZero();
      if value > 0 {
        PowerOfTwoIff(value);
      }
      PageSizeIsDefault(s, at, n - 1);
    }
  }
}
