/** The userland loader from its request to the jump (src/engines/rootless/loader/loader.c, vhdp_loader_main): the
    program and its dynamic loader in one address space, and the auxiliary vector that tells of them. */
module LoaderMain {
  import opened ElfHeaders
  import opened ElfLoader
  import opened LoaderStack
  import opened PageMath
  import opened Wrappers
  import LoadRequest

  /** The files of the guest, by the paths the loader opens. */
  type Files = string -> Option<Bytes>

  /** Files of bytes; where the loader goes on with one, its segments can be placed. */
  ghost predicate Usable(files: Files, machine: nat, ps: nat)
    requires ps > 0
  {
    forall path :: files(path).Some? ==>
      AreBytes(files(path).value) &&
      (HeaderOk(files(path).value, machine, false) ==> SegmentsOk(files(path).value, Headers(files(path).value), ps))
  }

  /** The file at a path is one that can be started here, as a program or as a dynamic loader. */
  predicate Fit(files: Files, path: string, machine: nat, isInterp: bool, ps: nat)
    requires ps > 0
  {
    files(path).Some? && HeaderOk(files(path).value, machine, isInterp) &&
    !BadImage(Headers(files(path).value), isInterp, ps)
  }

  /** The image of the file at a path is in memory. */
  ghost predicate Stands(mem: Memory, prot: Protection, slack: bool, files: Files, path: string, image: Image, ps: nat)
    requires ps > 0
  {
    files(path).Some? && HasTable(files(path).value) &&
    InPlace(mem, prot, slack, files(path).value, Headers(files(path).value), image, ps)
  }

  /** A C string at an address. */
  ghost predicate StringIn(mem: Memory, at: nat, s: string) {
    (forall i :: 0 <= i < |s| ==> mem(at + i) == s[i] as int) && mem(at + |s|) == 0
  }

  /** What the loader ends with: where it jumps to, the program's image and its dynamic loader's, and where the
      name for AT_EXECFN is. */
  datatype Ready = Ready(entry: nat, program: Image, interp: Option<Image>, execfn: nat)

  /** The auxiliary vector, with the numbers a program asks for: AT_PHDR is 3, AT_PHENT 4, AT_PHNUM 5, AT_BASE 7,
      AT_ENTRY 9 and AT_EXECFN 31. */
  ghost predicate Told(was: seq<nat>, now: seq<nat>, auxv: nat, aux: nat, ready: Ready)
    requires auxv + 2 * aux <= |was| == |now|
  {
    forall tag: nat ::
      AuxValue(now, auxv, aux, tag) ==
      match AuxValue(was, auxv, aux, tag)
      case None => None
      case Some(v) =>
        Some(if tag == 3 then ready.program.phdr
             else if tag == 4 then ready.program.phent
             else if tag == 5 then ready.program.phnum
             else if tag == 7 then (if ready.interp.Some? then ready.interp.value.base else 0)
             else if tag == 9 then ready.program.entry
             else if tag == 31 then ready.execfn
             else v)
  }

  /** Nothing else on the stack has changed. */
  ghost predicate OnlyAux(was: seq<nat>, now: seq<nat>, auxv: nat, aux: nat) {
    |now| == |was| && forall k :: 0 <= k < |was| && !(auxv <= k < auxv + 2 * aux) ==> now[k] == was[k]
  }

  /** Both images stand in memory, the program's headers have an address, and a program that asks for a dynamic
      loader has one, to which the jump goes. */
  ghost predicate CanJump(mem: Memory, prot: Protection, slack: bool, files: Files, names: LoadRequest.Names, ps: nat,
                          ready: Ready)
    requires ps > 0
  {
    Stands(mem, prot, slack, files, names.program, ready.program, ps) && ready.program.phdr != 0 &&
    (ready.program.hasInterp ==> names.interp.Some?) && (ready.interp.Some? <==> names.interp.Some?) &&
    (names.interp.Some? ==> Stands(mem, prot, slack, files, names.interp.value, ready.interp.value, ps)) &&
    ready.entry == (if names.interp.Some? then ready.interp.value.entry else ready.program.entry) &&
    StringIn(mem, ready.execfn, names.execfn)
  }

  /** Why a request cannot be carried out, whatever the kernel does. */
  ghost predicate CannotStart(files: Files, names: LoadRequest.Names, machine: nat, ps: nat, ready: Ready)
    requires ps > 0
  {
    !Fit(files, names.program, machine, false, ps) || (names.interp.None? && ready.program.hasInterp) ||
    (names.interp.Some? && !Fit(files, names.interp.value, machine, true, ps)) || ready.program.phdr == 0
  }

  predicate FreeAt(at: nat, len: nat, taken: seq<Region>) {
    Free(Region(at, at + len), taken)
  }

  lemma Written(mem: Memory, at: nat, len: nat, name: string, text: Bytes)
    requires |text| == |name| < len && forall i :: 0 <= i < |name| ==> text[i] == name[i] as nat
    ensures StringIn(MapRange(ZeroRange(mem, at, at + len), at, at + |name|, text, 0), at, name)
    ensures forall a: nat :: a < at || at + len <= a ==>
              MapRange(ZeroRange(mem, at, at + len), at, at + |name|, text, 0)(a) == mem(a)
  {
    var after := MapRange(ZeroRange(mem, at, at + len), at, at + |name|, text, 0);
    forall i | 0 <= i < |name| ensures after(at + i) == name[i] as int {
      var a: nat := at + i;
      assert after(a) == FileByte(text, 0 + (a - at));
    }
  }

  /** The name is copied to pages of its own, which outlive the loader's; that they are made read-only is not
      checked. */
  method PlaceName(l: Loader, name: string, ps: nat) returns (ok: bool, at: nat)
    requires IsPageSize(ps) && ps > 0 && |name| + 1 + ps <= TWO64
    modifies l`mem, l`prot, l`refused, l`taken
    ensures l.refused == (old(l.refused) || !ok)
    ensures ok ==> StringIn(l.mem, at, name)
    ensures ok ==> forall r, a: nat :: r in old(l.taken) && r.lo <= a < r.hi ==>
                     l.mem(a) == old(l.mem)(a) && l.prot(a) == old(l.prot)(a)
  {
    hide IsPageSize, RoundPage, MapRange, ZeroRange, StringIn;
    var n := |name| + 1;
    RoundFacts(n, ps);
    PagePositive(ps);
    var len := RoundPage(n, ps);
    at := 0;
    if * {
      l.refused := true;
      return false, at;
    }
    if a: nat :| a <= ADDRESS_LIMIT && FreeAt(a, len, l.taken) {
      at := a;
    } else {
      l.refused := true;
      return false, at;
    }
    var own := Region(at, at + len);
    ghost var taken := l.taken;
    var text := seq(|name|, i requires 0 <= i < |name| => name[i] as nat);
    Written(l.mem, at, len, name, text);
    l.mem := MapRange(ZeroRange(l.mem, at, at + len), at, at + |name|, text, 0);
    var access := {Read, Write};
    if * {
      access := {Read};
    }
    l.prot := Protect(l.prot, at, at + len, access);
    l.taken := l.taken + [own];
    forall r, a: nat | r in taken && r.lo <= a < r.hi
      ensures l.mem(a) == old(l.mem)(a) && l.prot(a) == old(l.prot)(a)
    {
      assert !Overlap(own, r);
    }
    ok := true;
  }

  /** An image stays where it is while other address space changes. */
  lemma Undisturbed(mem: Memory, prot: Protection, slack: bool, after: Memory, guarded: Protection, lax: bool,
                    files: Files, path: string, image: Image, ps: nat)
    requires ps > 0 && Stands(mem, prot, slack, files, path, image, ps) && (slack ==> lax)
    requires forall a: nat :: image.base <= a < image.base + image.span ==> after(a) == mem(a) && guarded(a) == prot(a)
    ensures Stands(after, guarded, lax, files, path, image, ps)
  {
    hide InPlace;
    StillInPlace(mem, prot, slack, after, guarded, lax, files(path).value, Headers(files(path).value), image, ps);
  }

  /** Opening a file and loading it into the address space. */
  method LoadFile(l: Loader, files: Files, path: string, machine: nat, isInterp: bool, ps: nat)
    returns (died: bool, image: Image)
    requires IsPageSize(ps) && ps > 0 && !l.refused && Usable(files, machine, ps)
    modifies l
    ensures died <==> l.refused || !Fit(files, path, machine, isInterp, ps)
    ensures !died ==> Stands(l.mem, l.prot, l.slack, files, path, image, ps) && Placed(old(l.taken), l.taken, image)
    ensures !died ==> (old(l.slack) ==> l.slack) && (forall a: nat :: a < image.base || image.base + image.span <= a ==>
                        l.mem(a) == old(l.mem)(a) && l.prot(a) == old(l.prot)(a))
  {
    hide IsPageSize, InPlace, SegmentsOk, BadImage, Placed, Headers, AreBytes, IDENT, Field;
    image := Image(0, 0, 0, 0, 0, 0, 0, false);
    if files(path).None? {
      return true, image;
    }
    l.fixed := [];
    died, image := l.LoadImage(files(path).value, machine, isInterp, ps);
  }

  predicate Within(a: nat, r: Region) {
    r.lo <= a < r.hi
  }

  function Home(image: Image): Region {
    Region(image.base, image.base + image.span)
  }

  /** What was taken before is no part of a new image. */
  lemma Apart(before: seq<Region>, after: seq<Region>, image: Image, r: Region)
    requires Placed(before, after, image) && r in before
    ensures forall a: nat :: Within(a, r) ==> !Within(a, Home(image))
    ensures r in after
  {
    assert !Overlap(Home(image), r);
  }

  lemma IsTaken(before: seq<Region>, after: seq<Region>, image: Image)
    requires Placed(before, after, image)
    ensures Home(image) in after
  {
  }

  /** Both loads: the program and, if one is named, its dynamic loader. */
  method LoadBoth(l: Loader, files: Files, names: LoadRequest.Names, machine: nat, ps: nat)
    returns (died: bool, ready: Ready)
    requires IsPageSize(ps) && ps > 0 && !l.refused && Usable(files, machine, ps) && |names.execfn| < 0x1_0000_0000
    modifies l
    ensures !died ==> CanJump(l.mem, l.prot, l.slack, files, names, ps, ready)
    ensures died && !l.refused ==> CannotStart(files, names, machine, ps, ready)
  {
    hide IsPageSize, InPlace, Usable, Placed, Fit, Stands, Headers;
    var none := Image(0, 0, 0, 0, 0, 0, 0, false);
    ready := Ready(0, none, None, 0);
    var program, interp := none, none;
    died, program := LoadFile(l, files, names.program, machine, false, ps);
    if died {
      return;
    }
    ready := ready.(entry := program.entry, program := program);
    if program.hasInterp && names.interp.None? {
      return true, ready;
    }
    IsTaken(old(l.taken), l.taken, program);
    ghost var home, taken := Home(program), l.taken;
    if names.interp.Some? {
      ghost var mem, prot, slack := l.mem, l.prot, l.slack;
      died, interp := LoadFile(l, files, names.interp.value, machine, true, ps);
      if died {
        return;
      }
      Apart(taken, l.taken, interp, home);
      IsTaken(taken, l.taken, interp);
      forall a: nat | program.base <= a < program.base + program.span
        ensures l.mem(a) == mem(a) && l.prot(a) == prot(a)
      {
        assert Within(a, home);
      }
      Undisturbed(mem, prot, slack, l.mem, l.prot, l.slack, files, names.program, program, ps);
      ready := ready.(entry := interp.entry, interp := Some(interp));
    }
    if program.phdr == 0 {
      return true, ready;
    }
    ghost var mem, prot := l.mem, l.prot;
    PageSmall(ps);
    var ok, at := PlaceName(l, names.execfn, ps);
    if !ok {
      return true, ready;
    }
    Undisturbed(mem, prot, l.slack, l.mem, l.prot, l.slack, files, names.program, program, ps);
    if names.interp.Some? {
      Undisturbed(mem, prot, l.slack, l.mem, l.prot, l.slack, files, names.interp.value, interp, ps);
    }
    ready := ready.(execfn := at);
    died := false;
  }

  lemma PageSmall(ps: nat)
    requires IsPageSize(ps)
    ensures 0x1_0000_0000 + ps <= TWO64
  {
    PagePositive(ps);
  }

  /** `vhdp_loader_main` up to the jump. Unless it dies the request was one, both images stand in memory, and the
      vector on the stack tells of them; nothing else on the stack has changed. It dies only where the kernel
      refuses something, the request is none, or a file cannot be started. */
  method RunLoader(request: string, files: Files, machine: nat, l: Loader, stack: array<nat>, ghost env: nat,
                   ghost aux: nat) returns (died: bool, ready: Ready)
    requires KernelStack(stack[..], env, aux) && !l.refused
    requires Usable(files, machine, PageSizeOf(stack[..], AuxStart(stack[0], env), aux))
    modifies l, stack
    ensures !died ==>
              LoadRequest.Accept(request).Some? &&
              CanJump(l.mem, l.prot, l.slack, files, LoadRequest.Accept(request).value,
                      old(PageSizeOf(stack[..], AuxStart(stack[0], env), aux)), ready)
    ensures !died ==> Told(old(stack[..]), stack[..], old(AuxStart(stack[0], env)), aux, ready)
    ensures !died ==> OnlyAux(old(stack[..]), stack[..], old(AuxStart(stack[0], env)), aux)
    ensures died ==> stack[..] == old(stack[..])
    ensures died && !l.refused ==>
              LoadRequest.Accept(request).None? ||
              CannotStart(files, LoadRequest.Accept(request).value, machine,
                          old(PageSizeOf(stack[..], AuxStart(stack[0], env), aux)), ready)
  {
    hide IsPageSize, LoadRequest.Accept, PageSizeOf, Usable, CannotStart, CanJump;
    ready := Ready(0, Image(0, 0, 0, 0, 0, 0, 0, false), None, 0);
    died := true;
    var accepted := LoadRequest.Accept(request);
    if accepted.None? {
      return;
    }
    NamesAreShort(request);
    ghost var was := stack[..];
    var auxv := FindAuxv(stack, env, aux);
    var ps := FindPageSize(stack, auxv, env, aux);
    PagePositive(ps);
    died, ready := LoadBoth(l, files, accepted.value, machine, ps);
    if died {
      return;
    }
    var p := ready.program;
    var base := if ready.interp.Some? then ready.interp.value.base else 0;
    ghost var r := Report(p.phdr, p.phent, p.phnum, p.entry, base, ready.execfn);
    RewriteAuxv(stack, auxv, Report(p.phdr, p.phent, p.phnum, p.entry, base, ready.execfn), env, aux);
    forall tag: nat ensures AuxValue(stack[..], auxv, aux, tag) ==
                            match AuxValue(was, auxv, aux, tag)
                            case None => None
                            case Some(v) => Some(Reported(tag, v, r))
    {
      AuxReported(was, stack[..], auxv, aux, r, tag);
    }
  }

  lemma NamesAreShort(request: string)
    ensures LoadRequest.Accept(request).Some? ==> |LoadRequest.Accept(request).value.execfn| < 0x1_0000_0000
  {
  }
}
