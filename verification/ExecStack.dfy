/** The scratch space below a tracee's stack pointer: `StackWriter` (src/engines/rootless/supervisor.cpp)
    and the argument marshalling of `handle_exec` (src/engines/rootless/syscall_handlers.cpp). */
module ExecStack {
  import opened Bits
  import opened CStrings
  import opened PageMath
  import opened Words

  const SCRATCH: nat := 1024 * 1024
  const LOWEST: nat := 4096
  const ALIGNMENT: nat := 16
  /** The largest red zone of a supported machine; aarch64 has none. */
  const MAX_RED_ZONE: nat := 128

  /** The byte at every address of the tracee. */
  type Memory = nat -> char

  function Stored(m: Memory, at: nat, data: string): Memory {
    (a: nat) => if at <= a < at + |data| then data[a - at] else m(a)
  }

  // ---- what the kernel reads ----

  /** The C string at an address, at most `limit` characters of it. */
  function ReadString(m: Memory, at: nat, limit: nat): string
    decreases limit
  {
    if limit == 0 || m(at) == NUL then "" else [m(at)] + ReadString(m, at + 1, limit - 1)
  }

  function ReadPointer(m: Memory, at: nat): nat {
    FromLe([m(at), m(at + 1), m(at + 2), m(at + 3), m(at + 4), m(at + 5), m(at + 6), m(at + 7)])
  }

  /** The strings a null-terminated vector of pointers names, at most `limit` of them. */
  function ReadVector(m: Memory, at: nat, limit: nat, longest: nat): seq<string>
    decreases limit
  {
    if limit == 0 || ReadPointer(m, at) == 0 then []
    else [ReadString(m, ReadPointer(m, at), longest)] + ReadVector(m, at + 8, limit - 1, longest)
  }

  ghost predicate StringAt(m: Memory, at: nat, s: string) {
    (forall i :: 0 <= i < |s| ==> m(at + i) == s[i]) && m(at + |s|) == NUL
  }

  lemma {:induction false} StringIsRead(m: Memory, at: nat, s: string, limit: nat)
    requires StringAt(m, at, s) && NulFree(s) && limit > |s|
    ensures ReadString(m, at, limit) == s
    decreases |s|
  {
    if s != "" {
      assert m(at + 0) == s[0];
      forall i | 0 <= i < |s[1..]| ensures m(at + 1 + i) == s[1..][i] {
        assert m(at + (i + 1)) == s[i + 1];
      }
      assert at + 1 + |s[1..]| == at + |s|;
      StringIsRead(m, at + 1, s[1..], limit - 1);
    }
  }

  /** The bytes of a vector of 64-bit pointers. */
  function Pointers(ptrs: seq<nat>): (s: string)
    ensures |s| == 8 * |ptrs|
  {
    if ptrs == [] then "" else Le(ptrs[0], 8) + Pointers(ptrs[1..])
  }

  lemma {:induction false} PointerAt(ptrs: seq<nat>, k: nat)
    requires k < |ptrs|
    ensures Pointers(ptrs)[8 * k..8 * k + 8] == Le(ptrs[k], 8)
    decreases k
  {
    if k > 0 {
      PointerAt(ptrs[1..], k - 1);
      assert Pointers(ptrs)[8 * k..8 * k + 8] == Pointers(ptrs[1..])[8 * (k - 1)..8 * (k - 1) + 8];
    }
  }

  lemma PointerIsRead(m: Memory, at: nat, ptrs: seq<nat>, k: nat)
    requires k < |ptrs| && ptrs[k] < TWO64
    requires forall i :: 0 <= i < 8 * |ptrs| ==> m(at + i) == Pointers(ptrs)[i]
    ensures ReadPointer(m, at + 8 * k) == ptrs[k]
  {
    hide Pointers, Le, FromLe;
    PointerAt(ptrs, k);
    WordSizes();
    LeRoundTrip(ptrs[k], 8);
    var a := at + 8 * k;
    var bytes := [m(a), m(a + 1), m(a + 2), m(a + 3), m(a + 4), m(a + 5), m(a + 6), m(a + 7)];
    forall i | 0 <= i < 8 ensures bytes[i] == Pointers(ptrs)[8 * k..8 * k + 8][i] {
      assert m(at + (8 * k + i)) == Pointers(ptrs)[8 * k + i];
    }
    assert bytes == Le(ptrs[k], 8);
  }

  /** A vector of pointers to the strings reads as the strings. */
  lemma {:induction false} VectorIsRead(m: Memory, at: nat, ptrs: seq<nat>, strings: seq<string>, k: nat, limit: nat,
                                        longest: nat)
    requires k <= |strings| && |ptrs| == |strings| + 1 && ptrs[|strings|] == 0 && limit > |strings| - k
    requires forall i :: 0 <= i < |strings| ==>
               0 < ptrs[i] < TWO64 && StringAt(m, ptrs[i], strings[i]) && NulFree(strings[i]) && |strings[i]| < longest
    requires forall i :: 0 <= i < 8 * |ptrs| ==> m(at + i) == Pointers(ptrs)[i]
    ensures ReadVector(m, at + 8 * k, limit, longest) == strings[k..]
    decreases |strings| - k
  {
    hide StringAt, NulFree, ReadPointer, Pointers;
    PointerIsRead(m, at, ptrs, k);
    if k < |strings| {
      StringIsRead(m, ptrs[k], strings[k], longest);
      VectorIsRead(m, at, ptrs, strings, k + 1, limit - 1, longest);
    }
  }

  /** Whatever its limits, as long as they are not exceeded, a kernel reads this path and these arguments. */
  ghost predicate KernelReads(m: Memory, execAddr: nat, argvAddr: nat, path: string, argv: seq<string>) {
    (forall limit: nat :: limit > |path| ==> ReadString(m, execAddr, limit) == path) &&
    (forall limit: nat, longest: nat :: limit > |argv| && (forall s :: s in argv ==> |s| < longest) ==>
       ReadVector(m, argvAddr, limit, longest) == argv)
  }

  // ---- the writer ----

  /** The first address that is not scratch space; it wraps when the stack pointer is too low. */
  function Ceiling(sp: nat, redZone: nat): nat
    requires sp < TWO64 && redZone <= MAX_RED_ZONE
  {
    AndNot(Sub64(Sub64(sp, redZone), 64), ALIGNMENT - 1)
  }

  lemma AlignDown(v: nat)
    ensures var d := AndNot(v, ALIGNMENT - 1); d <= v < d + ALIGNMENT
  {
    assert Pow2(0) == 1 && Pow2(1) == 2 && Pow2(2) == 4 && Pow2(3) == 8;
    assert Pow2(4) == 16;
    MaskIsMod(v, 4);
  }

  lemma CeilingFacts(sp: nat, redZone: nat)
    requires sp < TWO64 && redZone <= MAX_RED_ZONE
    ensures sp >= redZone + 64 ==> Ceiling(sp, redZone) <= sp - redZone - 64
    ensures Ceiling(sp, redZone) < TWO64
  {
    AlignDown(Sub64(Sub64(sp, redZone), 64));
  }

  /** User space ends below the last megabyte of the address space. */
  ghost predicate NothingUpThere(writable: (nat, nat) -> bool) {
    forall at, n :: at >= TWO64 - SCRATCH ==> !writable(at, n)
  }

  class StackWriter {
    const sp: nat
    const redZone: nat
    /** Which stretches of the tracee can be written. */
    const writable: (nat, nat) -> bool
    var top: nat
    var memory: Memory

    ghost predicate Valid()
      reads this
    {
      sp < TWO64 && redZone <= MAX_RED_ZONE && top <= Ceiling(sp, redZone)
    }

    constructor (sp: nat, redZone: nat, writable: (nat, nat) -> bool, memory: Memory)
      requires sp < TWO64 && redZone <= MAX_RED_ZONE
      ensures Valid() && this.sp == sp && this.redZone == redZone && this.memory == memory
    {
      this.sp, this.redZone, this.writable, this.memory := sp, redZone, writable, memory;
      top := AndNot(Sub64(Sub64(sp, redZone), 64), ALIGNMENT - 1);
    }

    /** `push`: nothing is changed unless the data is stored, below everything pushed before. A stack
        pointer of at least the red zone and 64 bytes keeps it below the red zone. A lower one wraps, and
        what is stored then stands within the scratch limit of the top of the address space, so that the
        push fails where nothing can be written up there. */
    method Push(data: string) returns (ok: bool, addr: nat)
      requires Valid()
      modifies this
      ensures Valid()
      ensures !ok ==> top == old(top) && memory == old(memory)
      ensures ok ==> addr == top && 0 < addr && addr + |data| <= old(top) && Sub64(sp, addr) <= SCRATCH
      ensures ok ==> memory == Stored(old(memory), addr, data)
      ensures ok && sp >= redZone + 64 ==> sp - SCRATCH <= addr && addr + |data| <= sp - redZone - 64
      ensures ok && sp < redZone + 64 ==> addr >= TWO64 + sp - SCRATCH && writable(addr, |data|)
      ensures sp < redZone + 64 && NothingUpThere(writable) ==> !ok
    {
      hide Ceiling, AndNot;
      CeilingFacts(sp, redZone);
      if |data| > SCRATCH || top < |data| + LOWEST {
        return false, 0;
      }
      var next := AndNot(top - |data|, ALIGNMENT - 1);
      AlignDown(top - |data|);
      if Sub64(sp, next) > SCRATCH {
        return false, 0;
      }
      if !writable(next, |data|) {
        return false, 0;
      }
      memory := Stored(memory, next, data);
      top := next;
      return true, next;
    }

    method PushString(s: string) returns (ok: bool, addr: nat)
      requires Valid()
      modifies this
      ensures Valid()
      ensures !ok ==> top == old(top) && memory == old(memory)
      ensures ok ==> addr == top && 0 < addr && addr + |s| + 1 <= old(top) && Sub64(sp, addr) <= SCRATCH
      ensures ok ==> memory == Stored(old(memory), addr, s + [NUL])
      ensures ok && sp >= redZone + 64 ==> sp - SCRATCH <= addr && addr + |s| + 1 <= sp - redZone - 64
      ensures ok && sp < redZone + 64 ==> addr >= TWO64 + sp - SCRATCH
      ensures sp < redZone + 64 && NothingUpThere(writable) ==> !ok
    {
      ok, addr := Push(s + [NUL]);
    }

    /** The marshalling of `handle_exec`: the argument strings, the path and the vector. When every push
        succeeds the kernel reads back exactly the path and the arguments, and in any case nothing at or
        above the red zone, or further down than the scratch limit, is written. */
    method Marshal(argv: seq<string>, path: string) returns (ok: bool, execAddr: nat, argvAddr: nat)
      requires Valid() && NulFree(path) && forall s :: s in argv ==> NulFree(s)
      modifies this
      ensures Valid()
      ensures ok ==> KernelReads(memory, execAddr, argvAddr, path, argv)
      ensures sp >= redZone + 64 ==>
                forall a: nat :: a >= sp - redZone - 64 || a < sp - SCRATCH ==> memory(a) == old(memory)(a)
    {
      hide Ceiling, AndNot, ReadString, ReadVector, Pointers, NulFree, StringAt;
      var ptrs: seq<nat> := [];
      ok, execAddr, argvAddr := false, 0, 0;
      CeilingFacts(sp, redZone);
      for i := 0 to |argv|
        invariant Valid() && |ptrs| == i
        invariant forall k :: 0 <= k < i ==> top <= ptrs[k] < TWO64 && ptrs[k] > 0
        invariant forall k :: 0 <= k < i ==> StringAt(memory, ptrs[k], argv[k])
        invariant Confined(sp, redZone, old(memory), memory)
      {
        ghost var was, low := memory, top;
        var fine, p := PushString(argv[i]);
        if !fine {
          return;
        }
        StoredString(was, p, argv[i]);
        StringsSurvive(was, memory, low, ptrs, argv[..i]);
        ptrs := ptrs + [p];
      }
      ptrs := ptrs + [0];
      ghost var was, low := memory, top;
      var fine, p := PushString(path);
      if !fine {
        return;
      }
      StoredString(was, p, path);
      StringsSurvive(was, memory, low, ptrs[..|argv|], argv);
      was, low := memory, top;
      var good, v := Push(Pointers(ptrs));
      if !good {
        return;
      }
      StringsSurvive(was, memory, low, ptrs[..|argv|] + [p], argv + [path]);
      ok, execAddr, argvAddr := true, p, v;
      assert StringAt(memory, p, path) by {
        assert (ptrs[..|argv|] + [p])[|argv|] == p && (argv + [path])[|argv|] == path;
      }
      forall k | 0 <= k < |argv| ensures StringAt(memory, ptrs[k], argv[k]) {
        assert (ptrs[..|argv|] + [p])[k] == ptrs[k] && (argv + [path])[k] == argv[k];
      }
      AllRead(memory, p, path, v, ptrs, argv);
    }
  }

  ghost predicate Confined(sp: nat, redZone: nat, before: Memory, after: Memory) {
    sp >= redZone + 64 ==>
      forall a: nat :: a >= sp - redZone - 64 || a < sp - SCRATCH ==> after(a) == before(a)
  }

  lemma StoredString(m: Memory, at: nat, s: string)
    ensures StringAt(Stored(m, at, s + [NUL]), at, s)
  {
  }

  /** A change below `low` leaves the strings at or above it alone. */
  lemma StringsSurvive(was: Memory, now: Memory, low: nat, ptrs: seq<nat>, strings: seq<string>)
    requires |ptrs| == |strings| && forall a: nat :: a >= low ==> now(a) == was(a)
    requires forall k :: 0 <= k < |ptrs| ==> ptrs[k] >= low && StringAt(was, ptrs[k], strings[k])
    ensures forall k :: 0 <= k < |ptrs| ==> StringAt(now, ptrs[k], strings[k])
  {
    forall k | 0 <= k < |ptrs| ensures StringAt(now, ptrs[k], strings[k]) {
      assert StringAt(was, ptrs[k], strings[k]);
    }
  }

  lemma AllRead(m: Memory, p: nat, path: string, v: nat, ptrs: seq<nat>, argv: seq<string>)
    requires StringAt(m, p, path) && NulFree(path)
    requires |ptrs| == |argv| + 1 && ptrs[|argv|] == 0
    requires forall k :: 0 <= k < |argv| ==> 0 < ptrs[k] < TWO64 && StringAt(m, ptrs[k], argv[k]) && NulFree(argv[k])
    requires forall i :: 0 <= i < 8 * |ptrs| ==> m(v + i) == Pointers(ptrs)[i]
    ensures forall limit: nat :: limit > |path| ==> ReadString(m, p, limit) == path
    ensures forall limit: nat, longest: nat ::
              limit > |argv| && (forall s :: s in argv ==> |s| < longest) ==> ReadVector(m, v, limit, longest) == argv
  {
    hide StringAt, NulFree, ReadString, ReadVector, Pointers;
    forall limit: nat | limit > |path| ensures ReadString(m, p, limit) == path {
      StringIsRead(m, p, path, limit);
    }
    forall limit: nat, longest: nat | limit > |argv| && (forall s :: s in argv ==> |s| < longest)
      ensures ReadVector(m, v, limit, longest) == argv
    {
      assert forall k :: 0 <= k < |argv| ==> argv[k] in argv;
      VectorIsRead(m, v, ptrs, argv, 0, limit, longest);
      assert argv[0..] == argv;
    }
  }
}
