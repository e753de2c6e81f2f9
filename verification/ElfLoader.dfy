/** Mapping an ELF image into a fresh process (src/engines/rootless/loader/loader.c, map_segment and
    load_image). The kernel may refuse any call, which ends the process: `died`. */
module ElfLoader {
  import opened Bits
  import opened ElfHeaders
  import opened PageMath
  import opened Words

  /** Kernel mappings never reach the upper half of the address space. */
  const ADDRESS_LIMIT: nat := 0x8000_0000_0000_0000

  /** The byte at every address; `UNMAPPED` where nothing is mapped. */
  type Memory = nat -> int

  const UNMAPPED := -1

  datatype Access = Read | Write | Execute

  /** `elf_prot`: the permissions a segment asks for. */
  function ElfProt(flags: nat): set<Access> {
    (if flags / 4 % 2 == 1 then {Read} else {}) + (if flags / 2 % 2 == 1 then {Write} else {}) +
    (if flags % 2 == 1 then {Execute} else {})
  }

  /** PF_X, PF_W and PF_R are the lowest three bits. */
  lemma ElfProtBits(flags: nat)
    ensures Execute in ElfProt(flags) <==> Bit(flags, 0)
    ensures Write in ElfProt(flags) <==> Bit(flags, 1)
    ensures Read in ElfProt(flags) <==> Bit(flags, 2)
  {
    assert flags / 4 == flags / 2 / 2;
    assert Bit(flags, 1) == Bit(flags / 2, 0);
    assert Bit(flags, 2) == Bit(flags / 2, 1);
  }

  /** The permissions at every address. */
  type Protection = nat -> set<Access>

  /** The addresses have the permissions of a segment; with `slack` they may be writable as well. */
  ghost predicate Protected(prot: Protection, lo: nat, hi: nat, flags: nat, slack: bool) {
    forall a: nat :: lo <= a < hi ==> prot(a) == ElfProt(flags) || (slack && prot(a) == ElfProt(flags) + {Write})
  }

  function Protect(prot: Protection, lo: nat, hi: nat, access: set<Access>): Protection {
    (a: nat) => if lo <= a < hi then access else prot(a)
  }

  /** A fixed mapping [lo, hi). */
  datatype Region = Region(lo: nat, hi: nat)

  // ---- what a loaded image is ----

  /** The segment's bytes at `va`: those of the file, then zeros. */
  ghost predicate Holds(mem: Memory, file: Bytes, ph: Phdr, va: nat) {
    ph.offset + ph.filesz <= |file| &&
    (forall a: nat :: va <= a < va + ph.filesz ==> mem(a) == file[ph.offset + (a - va)]) &&
    (forall a: nat :: va + ph.filesz <= a < va + ph.memsz ==> mem(a) == 0)
  }

  /** The segment does not wrap and its bytes exist in the file. */
  ghost predicate Loadable(file: Bytes, ph: Phdr, ps: nat) {
    ph.vaddr + ph.memsz + ps <= TWO64 && ph.offset + ph.filesz <= |file| < ADDRESS_LIMIT
  }

  /** Nothing outside [lo, hi) changed. */
  ghost predicate OnlyWithin<T(!new)>(before: nat -> T, after: nat -> T, lo: nat, hi: nat) {
    forall a: nat :: a < lo || hi <= a ==> before(a) == after(a)
  }

  function FileByte(file: Bytes, off: int): int {
    if 0 <= off < |file| then file[off] else 0
  }

  function MapRange(mem: Memory, lo: nat, hi: nat, file: Bytes, off: nat): Memory {
    (a: nat) => if lo <= a < hi then FileByte(file, off + (a - lo)) else mem(a)
  }

  function ZeroRange(mem: Memory, lo: nat, hi: nat): Memory {
    (a: nat) => if lo <= a < hi then 0 else mem(a)
  }

  class Loader {
    var mem: Memory
    var prot: Protection
    var fixed: seq<Region>  // every MAP_FIXED mapping made
    ghost var refused: bool // the kernel refused a call the loader cannot do without
    ghost var slack: bool   // the kernel refused to take back the right to write a zeroed tail
    var taken: seq<Region>  // address space that is in use, the loader's own included

    constructor (taken: seq<Region>)
      ensures (forall a: nat :: mem(a) == UNMAPPED) && fixed == [] && !refused && !slack && this.taken == taken
    {
      mem, prot, fixed, refused, slack := (a: nat) => UNMAPPED, (a: nat) => {}, [], false, false;
      this.taken := taken;
    }

    /** mmap of the file at a fixed address: file bytes, zeros behind the end of the file. */
    method MapFile(lo: nat, len: nat, access: set<Access>, file: Bytes, off: nat) returns (ok: bool)
      modifies this`mem, this`prot, this`fixed, this`refused
      ensures ok ==> mem == MapRange(old(mem), lo, lo + len, file, off) && fixed == old(fixed) + [Region(lo, lo + len)]
      ensures ok ==> prot == Protect(old(prot), lo, lo + len, access)
      ensures !ok ==> mem == old(mem) && fixed == old(fixed) && prot == old(prot)
      ensures refused == (old(refused) || !ok)
    {
      if * {
        refused := true;
        return false;
      }
      mem := MapRange(mem, lo, lo + len, file, off);
      prot := Protect(prot, lo, lo + len, access);
      fixed := fixed + [Region(lo, lo + len)];
      return true;
    }

    /** Anonymous mmap at a fixed address. */
    method MapAnon(lo: nat, len: nat, access: set<Access>) returns (ok: bool)
      modifies this`mem, this`prot, this`fixed, this`refused
      ensures ok ==> mem == ZeroRange(old(mem), lo, lo + len) && fixed == old(fixed) + [Region(lo, lo + len)]
      ensures ok ==> prot == Protect(old(prot), lo, lo + len, access)
      ensures !ok ==> mem == old(mem) && fixed == old(fixed) && prot == old(prot)
      ensures refused == (old(refused) || !ok)
    {
      if * {
        refused := true;
        return false;
      }
      mem := ZeroRange(mem, lo, lo + len);
      prot := Protect(prot, lo, lo + len, access);
      fixed := fixed + [Region(lo, lo + len)];
      return true;
    }

    /** `read_full`: pread may return less than asked for, any number of times, or fail. */
    method ReadFull(file: Bytes, dst: nat, len: nat, off: nat) returns (ok: bool)
      modifies this`mem, this`refused
      ensures OnlyWithin(old(mem), mem, dst, dst + len)
      ensures refused == old(refused) || (refused && !ok)
      ensures !ok ==> refused || off + len > |file|
      ensures ok ==> forall a: nat :: dst <= a < dst + len ==> mem(a) == FileByte(file, off + (a - dst))
    {
      var got := 0;
      while got < len
        invariant 0 <= got <= len
        invariant OnlyWithin(old(mem), mem, dst, dst + len) && refused == old(refused)
        invariant forall a: nat :: dst <= a < dst + got ==> mem(a) == FileByte(file, off + (a - dst))
      {
        if * {
          refused := true;
          return false;
        }
        if off + got >= |file| {
          return false; // end of file
        }
        var n: nat :| 1 <= n <= len - got && n <= |file| - (off + got);
        mem := MapRange(mem, dst + got, dst + got + n, file, off + got);
        got := got + n;
      }
      return true;
    }

    /** A segment's file part mapped from the file; the tail of its last page is zeroed when the segment
        goes on behind it, and its right to be written for that is taken back. */
    method MapFromFile(file: Bytes, ph: Phdr, va: nat, start: nat, mapEnd: nat, zeroTail: bool) returns (ok: bool)
      requires 0 < ph.filesz && ph.offset + ph.filesz <= |file|
      requires start <= va < va + ph.filesz <= mapEnd && ph.offset >= va - start
      modifies this`mem, this`prot, this`fixed, this`refused, this`slack
      ensures ok ==> forall a: nat :: va <= a < va + ph.filesz ==> mem(a) == file[ph.offset + (a - va)]
      ensures ok && zeroTail ==> forall a: nat :: va + ph.filesz <= a < mapEnd ==> mem(a) == 0
      ensures OnlyWithin(old(mem), mem, start, mapEnd) && OnlyWithin(old(prot), prot, start, mapEnd)
      ensures ok ==> Protected(prot, start, mapEnd, ph.flags, slack)
      ensures old(slack) ==> slack
      ensures fixed == old(fixed) || fixed == old(fixed) + [Region(start, mapEnd)]
      ensures refused == (old(refused) || !ok)
    {
      hide ElfProt;
      var fileEnd := va + ph.filesz;
      var mapProt := if zeroTail then ElfProt(ph.flags) + {Write} else ElfProt(ph.flags);
      ok := MapFile(start, mapEnd - start, mapProt, file, ph.offset - (va - start));
      if !ok {
        return;
      }
      assert forall a: nat :: va <= a < fileEnd ==> mem(a) == FileByte(file, ph.offset - (va - start) + (a - start));
      if zeroTail {
        assert forall a: nat :: fileEnd <= a < mapEnd ==> Write in prot(a);
        mem := ZeroRange(mem, fileEnd, mapEnd);
        if mapProt != ElfProt(ph.flags) {
          if * {
            slack := true; // mprotect, not checked
          } else {
            prot := Protect(prot, start, mapEnd, ElfProt(ph.flags));
          }
        }
      }
    }

    /** A segment's file part read into anonymous memory. */
    method CopyFromFile(file: Bytes, ph: Phdr, va: nat, start: nat, mapEnd: nat) returns (ok: bool)
      requires 0 < ph.filesz && ph.offset + ph.filesz <= |file| && start <= va < va + ph.filesz <= mapEnd
      modifies this`mem, this`prot, this`fixed, this`refused, this`slack
      ensures ok ==> forall a: nat :: va <= a < va + ph.filesz ==> mem(a) == file[ph.offset + (a - va)]
      ensures ok ==> forall a: nat :: va + ph.filesz <= a < mapEnd ==> mem(a) == 0
      ensures OnlyWithin(old(mem), mem, start, mapEnd) && OnlyWithin(old(prot), prot, start, mapEnd)
      ensures ok ==> Protected(prot, start, mapEnd, ph.flags, slack)
      ensures slack == old(slack)
      ensures fixed == old(fixed) || fixed == old(fixed) + [Region(start, mapEnd)]
      ensures refused == (old(refused) || !ok)
    {
      hide ElfProt;
      ok := MapAnon(start, mapEnd - start, {Read, Write});
      if !ok {
        return;
      }
      assert forall a: nat :: va <= a < va + ph.filesz ==> Write in prot(a);
      ok := ReadFull(file, va, ph.filesz, ph.offset);
      if !ok {
        return;
      }
      if * {
        refused := true; // mprotect
        return false;
      }
      prot := Protect(prot, start, mapEnd, ElfProt(ph.flags));
    }

    /** The file part of `map_segment`: mapped from the file or, when its offset is not congruent with
        its address modulo the page size, copied. Both leave the same bytes and permissions, and bytes are
        only ever written where that is permitted. */
    method MapFilePart(file: Bytes, ph: Phdr, va: nat, start: nat, mapEnd: nat, ps: nat) returns (died: bool)
      requires IsPageSize(ps) && 0 < ph.filesz <= ph.memsz && ph.offset + ph.filesz <= |file|
      requires start <= va < va + ph.filesz <= mapEnd
      requires Aligned(va + ph.filesz, ps) ==> mapEnd == va + ph.filesz
      modifies this`mem, this`prot, this`fixed, this`refused, this`slack
      ensures !died ==> forall a: nat :: va <= a < va + ph.filesz ==> mem(a) == file[ph.offset + (a - va)]
      ensures !died && ph.filesz < ph.memsz ==> forall a: nat :: va + ph.filesz <= a < mapEnd ==> mem(a) == 0
      ensures OnlyWithin(old(mem), mem, start, mapEnd) && OnlyWithin(old(prot), prot, start, mapEnd)
      ensures !died ==> Protected(prot, start, mapEnd, ph.flags, slack)
      ensures old(slack) ==> slack
      ensures fixed == old(fixed) || fixed == old(fixed) + [Region(start, mapEnd)]
      ensures ph.offset < va - start ==> died && refused == old(refused)
      ensures !died ==> refused == old(refused)
      ensures died && !old(refused) ==> refused || ph.offset < va - start
    {
      hide And, IsPageSize, Aligned, Protected;
      PagePositive(ps);
      var fileEnd := va + ph.filesz;
      var delta := va - start;
      OnlyWithinRefl(mem, start, mapEnd);
      OnlyWithinRefl(prot, start, mapEnd);
      if ph.offset < delta {
        return true;
      }
      var off := ph.offset - delta;
      var zeroTail := ph.memsz > ph.filesz && And(fileEnd, ps - 1) != 0;
      MaskZero(fileEnd, ps);
      var ok;
      if And(off, ps - 1) == 0 {
        ok := MapFromFile(file, ph, va, start, mapEnd, zeroTail);
      } else {
        ok := CopyFromFile(file, ph, va, start, mapEnd);
      }
      died := !ok;
    }

    /** `map_segment`: the file part, then the rest of the .bss. */
    method MapSegment(file: Bytes, ph: Phdr, bias: nat, ps: nat) returns (died: bool)
      requires IsPageSize(ps) && Add64(bias, ph.vaddr) + ph.memsz + ps <= TWO64
      requires ph.offset + ph.filesz <= |file| && ph.memsz > 0
      modifies this`mem, this`prot, this`fixed, this`refused, this`slack
      ensures !died ==> ph.filesz <= ph.memsz && Holds(mem, file, ph, Add64(bias, ph.vaddr))
      ensures !died ==> Protected(prot, PageStart(bias, ph, ps), PageEnd(bias, ph, ps), ph.flags, slack)
      ensures OnlyWithin(old(mem), mem, PageStart(bias, ph, ps), PageEnd(bias, ph, ps))
      ensures OnlyWithin(old(prot), prot, PageStart(bias, ph, ps), PageEnd(bias, ph, ps)) && (old(slack) ==> slack)
      ensures |fixed| >= |old(fixed)| && fixed[..|old(fixed)|] == old(fixed)
      ensures forall i :: |old(fixed)| <= i < |fixed| ==>
                PageStart(bias, ph, ps) <= fixed[i].lo <= fixed[i].hi <= PageEnd(bias, ph, ps)
      ensures ph.filesz > ph.memsz ==> died && mem == old(mem) && fixed == old(fixed)
      ensures BadPlace(ph, Add64(bias, ph.vaddr) - PageStart(bias, ph, ps)) ==> died
      ensures !died ==> refused == old(refused)
      ensures died && !old(refused) ==> refused || BadPlace(ph, Add64(bias, ph.vaddr) - PageStart(bias, ph, ps))
    {
      hide And, IsPageSize, Aligned, TruncPage, RoundPage, ElfProt, Holds, OnlyWithin, Protected;
      ghost var mem0, prot0 := mem, prot;
      PagePositive(ps);
      var va := Add64(bias, ph.vaddr);
      var start := TruncPage(va, ps);
      var fileEnd := Add64(va, ph.filesz);
      var memEnd := Add64(va, ph.memsz);
      OnlyWithinRefl(mem, start, RoundPage(memEnd, ps));
      OnlyWithinRefl(prot, start, RoundPage(memEnd, ps));
      if ph.filesz > ph.memsz {
        return true;
      }
      SegmentPages(va, ph.filesz, ph.memsz, ps);
      OnlyWithinRefl(mem, start, start);
      OnlyWithinRefl(prot, start, start);
      if ph.filesz > 0 {
        died := MapFilePart(file, ph, va, start, RoundPage(fileEnd, ps), ps);
        OnlyWithinWiden(mem0, mem, start, RoundPage(fileEnd, ps), RoundPage(memEnd, ps));
        OnlyWithinWiden(prot0, prot, start, RoundPage(fileEnd, ps), RoundPage(memEnd, ps));
        if died {
          return;
        }
      }
      ghost var mem1, prot1 := mem, prot;
      var anonStart := if ph.filesz > 0 then RoundPage(fileEnd, ps) else start;
      var anonEnd := RoundPage(memEnd, ps);
      if anonEnd > anonStart {
        var ok := MapAnon(anonStart, anonEnd - anonStart, ElfProt(ph.flags));
        if !ok {
          return true;
        }
      }
      HeldJoined(mem0, mem1, mem, file, ph, va, start, anonStart, anonEnd);
      ProtectedJoined(prot0, prot1, prot, ph.flags, slack, start, anonStart, anonEnd);
      return false;
    }

    /** The second loop of `load_image`: every segment at its place in the reserved span. */
    method MapAll(file: Bytes, elf: Elf, span: Region, base: nat, bias: nat, useTable: bool, ps: nat)
      returns (died: bool, phdrAddr: nat, ghost from: int)
      requires IsPageSize(ps) && ps > 0 && fixed == [] && !refused
      requires AllLoadable(file, elf, ps) && PagesDisjoint(elf, ps) && Spans(elf, span, ps)
      requires Aligned(base, ps) && base + (span.hi - span.lo) <= ADDRESS_LIMIT && bias == Sub64(base, span.lo)
      modifies this`mem, this`prot, this`fixed, this`refused, this`slack
      ensures !died ==>
                AllHeld(mem, file, elf, |elf.phdrs|, bias) &&
                AllProtected(prot, elf, |elf.phdrs|, bias, ps, slack)
      ensures !died ==> forall i :: 0 <= i < |fixed| ==>
                base <= fixed[i].lo <= fixed[i].hi <= base + (span.hi - span.lo)
      ensures !died ==> OnlyWithin(old(mem), mem, base, base + (span.hi - span.lo))
      ensures !died ==> OnlyWithin(old(prot), prot, base, base + (span.hi - span.lo)) && (old(slack) ==> slack)
      ensures !died ==> !refused && !AnyBadSegment(elf, |elf.phdrs|, ps)
      ensures died ==> refused || AnyBadSegment(elf, |elf.phdrs|, ps)
      ensures !died && useTable ==> LastCover(elf, |elf.phdrs|, from)
      ensures !died && useTable ==> phdrAddr == if from < 0 then 0 else TableAddress(elf, elf.phdrs[from], bias)
    {
      hide IsPageSize, TruncPage, RoundPage, Aligned, Holds, OnlyWithin, PageStart, PageEnd, PagesDisjoint,
           TableAddress,
           CoversTable, AllHeld, AllProtected, Protected, Add64, Sub64;
      OnlyWithinRefl(mem, base, base + (span.hi - span.lo));
      OnlyWithinRefl(prot, base, base + (span.hi - span.lo));
      NoneHeld(mem, file, elf, bias);
      NoneProtected(prot, elf, bias, ps, slack);
      phdrAddr, from := 0, -1;
      var i := 0;
      while i < |elf.phdrs|
        invariant 0 <= i <= |elf.phdrs|
        invariant AllProtected(prot, elf, i, bias, ps, slack)
        invariant AllHeld(mem, file, elf, i, bias) && !refused && !AnyBadSegment(elf, i, ps)
        invariant forall j :: 0 <= j < |fixed| ==> base <= fixed[j].lo <= fixed[j].hi <= base + (span.hi - span.lo)
        invariant OnlyWithin(old(mem), mem, base, base + (span.hi - span.lo))
        invariant OnlyWithin(old(prot), prot, base, base + (span.hi - span.lo)) && (old(slack) ==> slack)
        invariant useTable ==> LastCover(elf, i, from)
        invariant useTable ==> phdrAddr == if from < 0 then 0 else TableAddress(elf, elf.phdrs[from], bias)
      {
        var ph := elf.phdrs[i];
        ghost var before, guarded, lax := mem, prot, slack;
        if IsLoad(ph) {
          SegmentPlace(ph, span, base, bias, ps);
          died := MapSegment(file, ph, bias, ps);
          if died {
            return;
          }
          WithinWithin(old(mem), before, mem, PageStart(bias, ph, ps), PageEnd(bias, ph, ps), base,
                       base + (span.hi - span.lo));
          WithinWithin(old(prot), guarded, prot, PageStart(bias, ph, ps), PageEnd(bias, ph, ps), base,
                       base + (span.hi - span.lo));
          if useTable && CoversTable(elf, ph) {
            phdrAddr, from := TableAddress(elf, ph, bias), i;
          }
        }
        StillHeld(before, mem, file, elf, i, span, base, bias, ps);
        StillProtected(guarded, lax, prot, slack, elf, i, span, base, bias, ps);
        i := i + 1;
      }
      died := false;
    }

    /** A pread of the whole of a stretch into memory of the loader's own, as `read_full` does it. */
    method ReadAside(file: Bytes, len: nat, off: nat) returns (ok: bool, data: Bytes)
      requires len > 0
      modifies this`refused
      ensures refused == old(refused) || (refused && !ok)
      ensures !ok ==> refused || off + len > |file|
      ensures ok ==> off + len <= |file| && data == file[off..off + len]
    {
      data := [];
      while |data| < len
        invariant |data| <= len && refused == old(refused)
        invariant |data| > 0 ==> off + |data| <= |file| && data == file[off..off + |data|]
        decreases len - |data|
      {
        if * {
          refused := true;
          return false, data;
        }
        if off + |data| >= |file| {
          return false, data; // end of file
        }
        var n: nat :| 1 <= n <= len - |data| && n <= |file| - (off + |data|);
        data := data + file[off + |data|..off + |data| + n];
      }
      ok := true;
    }

    /** `load_image` from the decoded headers on: reserve the whole span, then map every segment at its
        place in it. */
    method MapImage(file: Bytes, elf: Elf, isInterp: bool, ps: nat) returns (died: bool, image: Image)
      requires IsPageSize(ps) && ps > 0 && fixed == [] && !refused
      requires elf.phdrs != [] && elf.phentsize >= PHDR_SIZE
      requires WordSized(elf) && SegmentsOk(file, elf, ps)
      modifies this
      ensures died <==> refused || BadImage(elf, isInterp, ps)
      ensures !died ==> Loaded(old(mem), old(prot), mem, prot, slack, fixed, file, elf, image, ps)
      ensures !died ==> Placed(old(taken), taken, image) && (old(slack) ==> slack)
    {
      hide IsPageSize, TruncPage, RoundPage, Aligned, Holds, OnlyWithin, PageStart, PageEnd, PagesDisjoint,
           TableAddress, CoversTable, Spans, Tight, AllLoadable, Add64, Sub64, TableSize, AllHeld, TableReadable,
           AnyBadSegment, AnyWraps, Plausible, AllProtected, Protected, InPlace, TableNamed, Free;
      image := Image(0, 0, 0, 0, 0, 0, 0, false);
      var span, tableSeg, hasInterp;
      died, span, tableSeg, hasInterp := Span(elf, ps);
      if died || (isInterp && hasInterp) {
        return true, image;
      }
      AllStayInside(file, elf, ps);
      var base, bias;
      died, base, bias := Reserve(elf, span, taken, ps);
      if died {
        refused := true;
        return true, image;
      }
      SpanOrder(elf, span, ps);
      taken := taken + [Region(base, base + (span.hi - span.lo))];
      var phdrAddr;
      ghost var from;
      died, phdrAddr, from := MapAll(file, elf, span, base, bias, tableSeg < 0, ps);
      if died {
        return true, image;
      }
      if tableSeg >= 0 {
        phdrAddr := Add64(bias, elf.phdrs[tableSeg].vaddr);
      }
      OnlyWithinMeans(old(mem), mem, base, base + (span.hi - span.lo));
      OnlyWithinMeans(old(prot), prot, base, base + (span.hi - span.lo));
      NamesTable(elf, bias, tableSeg, from, phdrAddr);
      image := Image(Add64(bias, elf.entry), base, bias, span.hi - span.lo, phdrAddr, |elf.phdrs|, elf.phentsize,
                     hasInterp);
      MadeImage(mem, prot, slack, file, elf, image, span, ps);
      return false, image;
    }

    /** `load_image`: the file header and the program headers are read and checked, then every segment is
        mapped. It dies exactly if the kernel refuses a call or the file is no image it can load; otherwise
        the image is the one the headers describe. */
    method LoadImage(file: Bytes, machine: nat, isInterp: bool, ps: nat) returns (died: bool, image: Image)
      requires IsPageSize(ps) && ps > 0 && fixed == [] && !refused && AreBytes(file)
      requires HeaderOk(file, machine, isInterp) ==> SegmentsOk(file, Headers(file), ps)
      modifies this
      ensures died <==> refused || !HeaderOk(file, machine, isInterp) || BadImage(Headers(file), isInterp, ps)
      ensures !died ==>
                HeaderOk(file, machine, isInterp) &&
                Loaded(old(mem), old(prot), mem, prot, slack, fixed, file, Headers(file), image, ps)
      ensures !died ==> Placed(old(taken), taken, image) && (old(slack) ==> slack)
    {
      hide IsPageSize, Field, Table, SegmentsOk, BadImage, IDENT, AreBytes, Loaded;
      image := Image(0, 0, 0, 0, 0, 0, 0, false);
      var ok, eh;
      ok, eh := ReadAside(file, EHDR_SIZE, 0);
      if !ok {
        return true, image;
      }
      HeaderSlice(file);
      if eh[..6] != IDENT {
        return true, image;
      }
      if Field(eh, 18, 2) != machine {
        return true, image;
      }
      var kind := TypeOf(Field(eh, 16, 2));
      if !kind.Dyn? && (isInterp || !kind.Exec?) {
        return true, image;
      }
      var phentsize, phnum, phoff := Field(eh, 54, 2), Field(eh, 56, 2), Field(eh, 32, 8);
      if phentsize < PHDR_SIZE || phnum == 0 || phnum > MAX_PHNUM {
        return true, image;
      }
      if * {
        refused := true; // mmap of room for the program headers
        return true, image;
      }
      TableIsNotEmpty(phnum, phentsize);
      var table;
      ok, table := ReadAside(file, phnum * phentsize, phoff);
      if !ok {
        return true, image;
      }
      TableSlice(file, phoff, phoff + phnum * phentsize, 0, phentsize, phnum);
      var elf := Elf(kind, Field(eh, 24, 8), phoff, phentsize, Table(table, 0, phentsize, phnum));
      assert elf == Headers(file);
      SegmentsAre(file);
      died, image := MapImage(file, elf, isInterp, ps);
    }
  }

  /** The segments stay inside the address space and the file, or visibly wrap, and share no pages. */
  ghost predicate SegmentsOk(file: Bytes, elf: Elf, ps: nat)
    requires ps > 0
  {
    Plausible(file, elf, ps) && (!AnyWraps(elf, |elf.phdrs|, ps) ==> PagesDisjoint(elf, ps))
  }

  /** The reserved span starts with the first page of a segment and ends with the last page of one. */
  ghost predicate Fits(elf: Elf, image: Image, ps: nat)
    requires ps > 0
  {
    (exists i :: 0 <= i < |elf.phdrs| && IsLoad(elf.phdrs[i]) &&
                 PageStart(image.bias, elf.phdrs[i], ps) == image.base) &&
    (exists i :: 0 <= i < |elf.phdrs| && IsLoad(elf.phdrs[i]) &&
                 PageEnd(image.bias, elf.phdrs[i], ps) == image.base + image.span)
  }

  /** No segment wraps or leaves the span. */
  ghost predicate AllInside(elf: Elf, image: Image, ps: nat)
    requires ps > 0
  {
    forall i :: 0 <= i < |elf.phdrs| && IsLoad(elf.phdrs[i]) ==>
      elf.phdrs[i].filesz <= elf.phdrs[i].memsz && image.base <= PageStart(image.bias, elf.phdrs[i], ps) &&
      PageEnd(image.bias, elf.phdrs[i], ps) <= image.base + image.span &&
      image.base <= Add64(image.bias, elf.phdrs[i].vaddr) &&
      Add64(image.bias, elf.phdrs[i].vaddr) + elf.phdrs[i].memsz <= image.base + image.span
  }

  /** `t` is the last PT_PHDR among the first `n` headers, -1 if there is none. */
  ghost predicate LastTable(elf: Elf, n: nat, t: int)
    requires n <= |elf.phdrs|
  {
    -1 <= t < n && (t >= 0 ==> elf.phdrs[t].kind.PhdrTable?) &&
    forall j :: t < j < n ==> !elf.phdrs[j].kind.PhdrTable?
  }

  /** `i` is the last PT_LOAD among the first `n` headers whose file bytes hold the program headers, -1 if
      none does. */
  ghost predicate LastCover(elf: Elf, n: nat, i: int)
    requires n <= |elf.phdrs|
  {
    -1 <= i < n && (i >= 0 ==> IsLoad(elf.phdrs[i]) && CoversTable(elf, elf.phdrs[i])) &&
    forall j :: i < j < n && IsLoad(elf.phdrs[j]) ==> !CoversTable(elf, elf.phdrs[j])
  }

  /** Where the program headers are said to be: where the last PT_PHDR says, else where the last segment that
      holds them puts them. */
  ghost predicate TableNamed(elf: Elf, bias: nat, phdr: nat) {
    (exists t :: LastTable(elf, |elf.phdrs|, t) && t >= 0 && phdr == Add64(bias, elf.phdrs[t].vaddr)) ||
    (LastTable(elf, |elf.phdrs|, -1) &&
     exists i :: LastCover(elf, |elf.phdrs|, i) &&
                 phdr == if i < 0 then 0 else TableAddress(elf, elf.phdrs[i], bias))
  }

  /** Without a PT_PHDR the program headers of the file are what memory holds at the image's `phdr`, and it is
      not 0, if and only if the last segment that holds them does not put them at address 0. */
  lemma TableIsFound(mem: Memory, prot: Protection, slack: bool, file: Bytes, elf: Elf, image: Image, ps: nat)
    requires ps > 0 && elf.phentsize > 0 && InPlace(mem, prot, slack, file, elf, image, ps)
    requires !HasPhdrTable(elf)
    ensures image.phdr != 0 ==> TableReadable(mem, file, elf, image.phdr)
    ensures image.phdr != 0 <==>
            exists i :: LastCover(elf, |elf.phdrs|, i) && i >= 0 &&
                        !(Add64(image.bias, elf.phdrs[i].vaddr) == 0 && elf.phoff == elf.phdrs[i].offset)
  {
    hide InPlace, TableReadable, TableAddress, CoversTable;
    ImageTable(mem, prot, slack, file, elf, image, ps);
    if t :| LastTable(elf, |elf.phdrs|, t) && t >= 0 {
      assert false;
    }
    var i :| LastCover(elf, |elf.phdrs|, i) &&
             image.phdr == if i < 0 then 0 else TableAddress(elf, elf.phdrs[i], image.bias);
    OneLastCover(elf, i);
    if i >= 0 {
      ImageSegment(mem, prot, slack, file, elf, image, ps, i);
      TableBytes(mem, file, elf, elf.phdrs[i], image.bias);
      TableOffset(elf, elf.phdrs[i], image.bias);
    }
  }

  lemma ImageTable(mem: Memory, prot: Protection, slack: bool, file: Bytes, elf: Elf, image: Image, ps: nat)
    requires ps > 0 && InPlace(mem, prot, slack, file, elf, image, ps)
    ensures TableNamed(elf, image.bias, image.phdr)
  {
    hide Protected, PageStart, PageEnd, Fits, TableNamed, Holds;
  }

  lemma ImageSegment(mem: Memory, prot: Protection, slack: bool, file: Bytes, elf: Elf, image: Image, ps: nat, i: nat)
    requires ps > 0 && InPlace(mem, prot, slack, file, elf, image, ps) && i < |elf.phdrs| && IsLoad(elf.phdrs[i])
    ensures var ph := elf.phdrs[i];
            Holds(mem, file, ph, Add64(image.bias, ph.vaddr)) && ph.filesz <= ph.memsz &&
            Add64(image.bias, ph.vaddr) + ph.memsz <= ADDRESS_LIMIT
  {
    hide Protected, PageStart, PageEnd, Fits, TableNamed, Holds, Add64;
  }

  /** With a PT_PHDR the image's `phdr` is where its last one says; the program headers of the file are there
      whenever a segment holds them at the offset that fits. */
  lemma TableIsWhereSaid(mem: Memory, prot: Protection, slack: bool, file: Bytes, elf: Elf, image: Image, ps: nat,
                         t: nat)
    requires ps > 0 && elf.phentsize > 0 && InPlace(mem, prot, slack, file, elf, image, ps)
    requires t < |elf.phdrs| && elf.phdrs[t].kind.PhdrTable?
    requires forall j :: t < j < |elf.phdrs| ==> !elf.phdrs[j].kind.PhdrTable?
    ensures image.phdr == (image.bias + elf.phdrs[t].vaddr) % TWO64
    ensures (exists i :: 0 <= i < |elf.phdrs| && IsLoad(elf.phdrs[i]) && CoversTable(elf, elf.phdrs[i]) &&
                         elf.phdrs[t].vaddr - elf.phdrs[i].vaddr == elf.phoff - elf.phdrs[i].offset) ==>
              TableReadable(mem, file, elf, image.phdr)
  {
    hide InPlace, TableReadable, CoversTable, IsLoad, TableAddress;
    ImageTable(mem, prot, slack, file, elf, image, ps);
    assert LastTable(elf, |elf.phdrs|, t);
    assert image.phdr == Add64(image.bias, elf.phdrs[t].vaddr);
    if i :| 0 <= i < |elf.phdrs| && IsLoad(elf.phdrs[i]) && CoversTable(elf, elf.phdrs[i]) &&
            elf.phdrs[t].vaddr - elf.phdrs[i].vaddr == elf.phoff - elf.phdrs[i].offset {
      ImageSegment(mem, prot, slack, file, elf, image, ps, i);
      TableBytes(mem, file, elf, elf.phdrs[i], image.bias);
      SaidAddress(elf, elf.phdrs[i], elf.phdrs[t].vaddr, image.bias);
    }
  }

  lemma SaidAddress(elf: Elf, ph: Phdr, said: nat, bias: nat)
    requires CoversTable(elf, ph) && said - ph.vaddr == elf.phoff - ph.offset
    ensures TableAddress(elf, ph, bias) == Add64(bias, said)
  {
    SumOfWords(bias, ph.vaddr, elf.phoff - ph.offset);
  }

  lemma OneLastCover(elf: Elf, i: int)
    requires LastCover(elf, |elf.phdrs|, i)
    ensures forall j :: LastCover(elf, |elf.phdrs|, j) ==> j == i
  {
  }

  /** An image in memory: every segment's bytes, zeros and permissions, a span no wider than the segments, the
      entry point, the load bias, and where the program headers are. */
  ghost predicate InPlace(mem: Memory, prot: Protection, slack: bool, file: Bytes, elf: Elf, image: Image, ps: nat)
    requires ps > 0
  {
    (forall i :: 0 <= i < |elf.phdrs| && IsLoad(elf.phdrs[i]) ==>
      Holds(mem, file, elf.phdrs[i], Add64(image.bias, elf.phdrs[i].vaddr))) &&
    (forall i :: 0 <= i < |elf.phdrs| && IsLoad(elf.phdrs[i]) ==>
      Protected(prot, PageStart(image.bias, elf.phdrs[i], ps), PageEnd(image.bias, elf.phdrs[i], ps),
                elf.phdrs[i].flags, slack)) &&
    image.base + image.span <= ADDRESS_LIMIT && image.entry == Add64(image.bias, elf.entry) &&
    (!elf.kind.Dyn? ==> image.bias == 0) && Fits(elf, image, ps) && AllInside(elf, image, ps) &&
    TableNamed(elf, image.bias, image.phdr) && image.phnum == |elf.phdrs| && image.phent == elf.phentsize &&
    (image.hasInterp <==> exists i :: 0 <= i < |elf.phdrs| && elf.phdrs[i].kind.Interp?)
  }

  /** What a load that succeeds leaves: the image in place, every fixed mapping inside the reserved span and
      nothing changed outside it. */
  ghost predicate Loaded(before: Memory, guarded: Protection, mem: Memory, prot: Protection, slack: bool,
                         fixed: seq<Region>, file: Bytes, elf: Elf, image: Image, ps: nat)
    requires ps > 0
  {
    InPlace(mem, prot, slack, file, elf, image, ps) &&
    (forall i :: 0 <= i < |fixed| ==> image.base <= fixed[i].lo <= fixed[i].hi <= image.base + image.span) &&
    (forall a: nat :: a < image.base || image.base + image.span <= a ==>
      mem(a) == before(a) && prot(a) == guarded(a))
  }

  lemma NamesTable(elf: Elf, bias: nat, table: int, from: int, phdr: nat)
    requires LastTable(elf, |elf.phdrs|, table) && (table < 0 ==> LastCover(elf, |elf.phdrs|, from))
    requires phdr == if table >= 0 then Add64(bias, elf.phdrs[table].vaddr)
                     else if from >= 0 then TableAddress(elf, elf.phdrs[from], bias) else 0
    ensures TableNamed(elf, bias, phdr)
  {
    hide CoversTable, TableAddress, LastTable, LastCover;
    assert table < 0 ==> table == -1 by { TableIndex(elf, table); }
  }

  lemma TableIndex(elf: Elf, table: int)
    requires LastTable(elf, |elf.phdrs|, table)
    ensures table >= -1
  {
  }

  /** The parts of a load make up the image. */
  lemma MadeImage(mem: Memory, prot: Protection, slack: bool, file: Bytes, elf: Elf, image: Image, span: Region,
                  ps: nat)
    requires IsPageSize(ps) && ps > 0 && AllLoadable(file, elf, ps) && Spans(elf, span, ps) && Tight(elf, span, ps)
    requires image.span == span.hi - span.lo && image.base + image.span <= ADDRESS_LIMIT
    requires Aligned(image.base, ps) && image.bias == Sub64(image.base, span.lo)
    requires AllHeld(mem, file, elf, |elf.phdrs|, image.bias)
    requires AllProtected(prot, elf, |elf.phdrs|, image.bias, ps, slack)
    requires image.entry == Add64(image.bias, elf.entry) && (!elf.kind.Dyn? ==> image.bias == 0)
    requires TableNamed(elf, image.bias, image.phdr) && image.phnum == |elf.phdrs| && image.phent == elf.phentsize
    requires image.hasInterp <==> exists i :: 0 <= i < |elf.phdrs| && elf.phdrs[i].kind.Interp?
    ensures InPlace(mem, prot, slack, file, elf, image, ps)
  {
    hide IsPageSize, TruncPage, RoundPage, Aligned, Holds, PageStart, PageEnd, Spans, Tight, AllLoadable, Add64, Sub64,
         AllHeld, AllProtected, Protected, TableNamed;
    AllHeldMeans(mem, file, elf, image.bias);
    AllProtectedMeans(prot, elf, image.bias, ps, slack);
    SpanInPlace(file, elf, span, image.base, image.bias, ps);
  }

  /** Changes elsewhere leave an image in place. */
  lemma StillInPlace(mem: Memory, prot: Protection, slack: bool, after: Memory, guarded: Protection, lax: bool,
                     file: Bytes, elf: Elf, image: Image, ps: nat)
    requires ps > 0 && InPlace(mem, prot, slack, file, elf, image, ps) && (slack ==> lax)
    requires forall a: nat :: image.base <= a < image.base + image.span ==> after(a) == mem(a) && guarded(a) == prot(a)
    ensures InPlace(after, guarded, lax, file, elf, image, ps)
  {
    hide PageStart, PageEnd, TableNamed, ElfProt, Add64, Fits;
  }

  predicate Overlap(a: Region, b: Region) {
    a.lo < b.hi && b.lo < a.hi
  }

  /** Address space that nothing uses. */
  predicate Free(r: Region, taken: seq<Region>) {
    forall t :: t in taken ==> !Overlap(r, t)
  }

  /** An image takes address space that was free. */
  predicate Placed(before: seq<Region>, after: seq<Region>, image: Image) {
    var own := Region(image.base, image.base + image.span);
    after == before + [own] && Free(own, before)
  }

  lemma HeaderSlice(file: Bytes)
    requires |file| >= EHDR_SIZE
    ensures var eh := file[0..EHDR_SIZE];
            eh[..6] == file[..6] && Field(eh, 16, 2) == Field(file, 16, 2) && Field(eh, 18, 2) == Field(file, 18, 2) &&
            Field(eh, 24, 8) == Field(file, 24, 8) && Field(eh, 32, 8) == Field(file, 32, 8) &&
            Field(eh, 54, 2) == Field(file, 54, 2) && Field(eh, 56, 2) == Field(file, 56, 2)
  {
    hide Field;
    FieldSlice(file, 0, EHDR_SIZE, 16, 2);
    FieldSlice(file, 0, EHDR_SIZE, 18, 2);
    FieldSlice(file, 0, EHDR_SIZE, 24, 8);
    FieldSlice(file, 0, EHDR_SIZE, 32, 8);
    FieldSlice(file, 0, EHDR_SIZE, 54, 2);
    FieldSlice(file, 0, EHDR_SIZE, 56, 2);
  }

  lemma TableIsNotEmpty(n: nat, size: nat)
    requires n > 0 && size > 0
    ensures n * size > 0
  {
  }

  /** The table of a file has addresses of 64 bits. */
  lemma SegmentsAre(file: Bytes)
    requires AreBytes(file) && HasTable(file)
    ensures WordSized(Headers(file)) && Headers(file).phdrs != [] && Headers(file).phentsize >= PHDR_SIZE
  {
    hide Field, Pow256, Table;
    WordSizes();
    TableWords(file, Field(file, 32, 8), Field(file, 54, 2), Field(file, 56, 2));
    var elf := Headers(file);
    forall i | 0 <= i < |elf.phdrs| ensures elf.phdrs[i].vaddr < TWO64 {
      assert PhdrFits(elf.phdrs[i]);
    }
  }

  /** A segment the loader refuses: more bytes in the file than in memory, or file bytes that would have
      to start before the file, `delta` bytes into their page. */
  predicate BadPlace(ph: Phdr, delta: int) {
    ph.filesz > ph.memsz || (ph.filesz > 0 && ph.offset < delta)
  }

  predicate AnyBadSegment(elf: Elf, n: nat, ps: nat)
    requires ps > 0 && n <= |elf.phdrs|
  {
    exists i :: 0 <= i < n && IsLoad(elf.phdrs[i]) &&
                BadPlace(elf.phdrs[i], elf.phdrs[i].vaddr - TruncPage(elf.phdrs[i].vaddr, ps))
  }

  /** Program headers the loader refuses, whatever the kernel does. */
  predicate BadImage(elf: Elf, isInterp: bool, ps: nat)
    requires ps > 0
  {
    (forall i :: 0 <= i < |elf.phdrs| ==> !IsLoad(elf.phdrs[i])) ||
    (isInterp && exists i :: 0 <= i < |elf.phdrs| && elf.phdrs[i].kind.Interp?) ||
    AnyWraps(elf, |elf.phdrs|, ps) || AnyBadSegment(elf, |elf.phdrs|, ps)
  }

  /** What the ELF format asks of a loadable segment: no more bytes in the file than in memory, an offset
      congruent to its address modulo the page size, and an end inside the address space. */
  predicate Conforms(ph: Phdr, ps: nat)
    requires ps > 0
  {
    ph.filesz <= ph.memsz && ph.vaddr % ps == ph.offset % ps && ph.vaddr + ph.memsz + ps <= TWO64
  }

  /** No image that conforms is refused, except a dynamic loader that asks for one itself. */
  lemma ConformingImageIsGood(elf: Elf, isInterp: bool, ps: nat)
    requires IsPageSize(ps) && ps > 0
    requires exists i :: 0 <= i < |elf.phdrs| && IsLoad(elf.phdrs[i])
    requires forall i :: 0 <= i < |elf.phdrs| && IsLoad(elf.phdrs[i]) ==> Conforms(elf.phdrs[i], ps)
    ensures BadImage(elf, isInterp, ps) <==> isInterp && exists i :: 0 <= i < |elf.phdrs| && elf.phdrs[i].kind.Interp?
  {
    hide Conforms, WrapSeen, BadPlace, TruncPage, IsPageSize;
    forall i | 0 <= i < |elf.phdrs| && IsLoad(elf.phdrs[i])
      ensures !WrapSeen(elf.phdrs[i], ps)
      ensures !BadPlace(elf.phdrs[i], elf.phdrs[i].vaddr - TruncPage(elf.phdrs[i].vaddr, ps))
    {
      ConformingSegment(elf.phdrs[i], ps);
    }
  }

  lemma ConformingSegment(ph: Phdr, ps: nat)
    requires IsPageSize(ps) && ps > 0 && Conforms(ph, ps)
    ensures !WrapSeen(ph, ps) && !BadPlace(ph, ph.vaddr - TruncPage(ph.vaddr, ps))
  {
    hide IsPageSize, TruncPage, RoundPage, Aligned;
    TruncBounds(ph.vaddr, ps);
    RoundFacts(ph.vaddr + ph.memsz, ps);
    TruncIsMod(ph.vaddr, ps);
    ModBelow(ph.offset, ps);
    SmallSum(ph.vaddr, ph.memsz);
  }

  lemma ModBelow(v: nat, ps: nat)
    requires ps > 0
    ensures v % ps <= v
  {
  }

  lemma TruncIsMod(v: nat, ps: nat)
    requires IsPageSize(ps) && ps > 0
    ensures v - TruncPage(v, ps) == v % ps
  {
    var k :| ps == Pow2(k);
    MaskIsMod(v, k);
  }

  /** The first `n` headers' segments are in memory. */
  ghost predicate AllHeld(mem: Memory, file: Bytes, elf: Elf, n: nat, bias: nat)
    requires n <= |elf.phdrs|
  {
    forall i :: 0 <= i < n && IsLoad(elf.phdrs[i]) ==>
      elf.phdrs[i].filesz <= elf.phdrs[i].memsz && Holds(mem, file, elf.phdrs[i], Add64(bias, elf.phdrs[i].vaddr))
  }

  lemma AllHeldMeans(mem: Memory, file: Bytes, elf: Elf, bias: nat)
    requires AllHeld(mem, file, elf, |elf.phdrs|, bias)
    ensures forall i :: 0 <= i < |elf.phdrs| && IsLoad(elf.phdrs[i]) ==>
              elf.phdrs[i].filesz <= elf.phdrs[i].memsz &&
              Holds(mem, file, elf.phdrs[i], Add64(bias, elf.phdrs[i].vaddr))
  {
  }

  lemma NoneHeld(mem: Memory, file: Bytes, elf: Elf, bias: nat)
    ensures AllHeld(mem, file, elf, 0, bias)
  {
  }

  /** Mapping one more segment leaves the others in place. */
  lemma StillHeld(before: Memory, after: Memory, file: Bytes, elf: Elf, i: nat, span: Region, base: nat, bias: nat,
                  ps: nat)
    requires IsPageSize(ps) && ps > 0 && i < |elf.phdrs|
    requires AllLoadable(file, elf, ps) && PagesDisjoint(elf, ps) && Spans(elf, span, ps)
    requires Aligned(base, ps) && base + (span.hi - span.lo) <= ADDRESS_LIMIT && bias == Sub64(base, span.lo)
    requires AllHeld(before, file, elf, i, bias)
    requires if IsLoad(elf.phdrs[i]) then
               elf.phdrs[i].filesz <= elf.phdrs[i].memsz &&
               Holds(after, file, elf.phdrs[i], Add64(bias, elf.phdrs[i].vaddr)) &&
               OnlyWithin(before, after, PageStart(bias, elf.phdrs[i], ps), PageEnd(bias, elf.phdrs[i], ps))
             else before == after
    ensures AllHeld(after, file, elf, i + 1, bias)
  {
    hide IsPageSize, TruncPage, RoundPage, Aligned, Holds, OnlyWithin, PageStart, PageEnd, PagesDisjoint, Add64, Sub64;
    if IsLoad(elf.phdrs[i]) {
      SegmentPlace(elf.phdrs[i], span, base, bias, ps);
      forall j | 0 <= j < i && IsLoad(elf.phdrs[j])
        ensures Holds(after, file, elf.phdrs[j], Add64(bias, elf.phdrs[j].vaddr))
      {
        SegmentPlace(elf.phdrs[j], span, base, bias, ps);
        SegmentsApart(elf, j, i, ps);
        HoldsFrame(before, after, file, elf.phdrs[j], Add64(bias, elf.phdrs[j].vaddr),
                   PageStart(bias, elf.phdrs[i], ps), PageEnd(bias, elf.phdrs[i], ps));
      }
    }
  }

  /** The pages of the first `n` headers' segments have the permissions asked for. */
  ghost predicate AllProtected(prot: Protection, elf: Elf, n: nat, bias: nat, ps: nat, slack: bool)
    requires n <= |elf.phdrs| && ps > 0
  {
    forall i :: 0 <= i < n && IsLoad(elf.phdrs[i]) ==>
      Protected(prot, PageStart(bias, elf.phdrs[i], ps), PageEnd(bias, elf.phdrs[i], ps), elf.phdrs[i].flags, slack)
  }

  lemma AllProtectedMeans(prot: Protection, elf: Elf, bias: nat, ps: nat, slack: bool)
    requires ps > 0 && AllProtected(prot, elf, |elf.phdrs|, bias, ps, slack)
    ensures forall i :: 0 <= i < |elf.phdrs| && IsLoad(elf.phdrs[i]) ==>
              Protected(prot, PageStart(bias, elf.phdrs[i], ps), PageEnd(bias, elf.phdrs[i], ps), elf.phdrs[i].flags,
                        slack)
  {
  }

  lemma NoneProtected(prot: Protection, elf: Elf, bias: nat, ps: nat, slack: bool)
    requires ps > 0
    ensures AllProtected(prot, elf, 0, bias, ps, slack)
  {
  }

  lemma ProtectedFrame(before: Protection, after: Protection, lo: nat, hi: nat, flags: nat, lax: bool, slack: bool,
                       from: nat, to: nat)
    requires Protected(before, lo, hi, flags, lax) && OnlyWithin(before, after, from, to) && (hi <= from || to <= lo)
    requires lax ==> slack
    ensures Protected(after, lo, hi, flags, slack)
  {
  }

  /** Mapping one more segment leaves the permissions of the others. */
  lemma StillProtected(before: Protection, lax: bool, after: Protection, slack: bool, elf: Elf, i: nat, span: Region,
                       base: nat,
                       bias: nat, ps: nat)
    requires IsPageSize(ps) && ps > 0 && i < |elf.phdrs| && (lax ==> slack)
    requires PagesDisjoint(elf, ps) && Spans(elf, span, ps)
    requires forall j :: 0 <= j < |elf.phdrs| && IsLoad(elf.phdrs[j]) ==>
               elf.phdrs[j].vaddr + elf.phdrs[j].memsz + ps <= TWO64
    requires Aligned(base, ps) && base + (span.hi - span.lo) <= ADDRESS_LIMIT && bias == Sub64(base, span.lo)
    requires AllProtected(before, elf, i, bias, ps, lax)
    requires if IsLoad(elf.phdrs[i]) then
               Protected(after, PageStart(bias, elf.phdrs[i], ps), PageEnd(bias, elf.phdrs[i], ps),
                         elf.phdrs[i].flags, slack) &&
               OnlyWithin(before, after, PageStart(bias, elf.phdrs[i], ps), PageEnd(bias, elf.phdrs[i], ps))
             else before == after && lax == slack
    ensures AllProtected(after, elf, i + 1, bias, ps, slack)
  {
    hide IsPageSize, TruncPage, RoundPage, Aligned, Protected, OnlyWithin, PageStart, PageEnd, PagesDisjoint, Add64,
         Sub64;
    if IsLoad(elf.phdrs[i]) {
      SegmentPlace(elf.phdrs[i], span, base, bias, ps);
      forall j | 0 <= j < i && IsLoad(elf.phdrs[j])
        ensures Protected(after, PageStart(bias, elf.phdrs[j], ps), PageEnd(bias, elf.phdrs[j], ps),
                          elf.phdrs[j].flags, slack)
      {
        SegmentPlace(elf.phdrs[j], span, base, bias, ps);
        SegmentsApart(elf, j, i, ps);
        ProtectedFrame(before, after, PageStart(bias, elf.phdrs[j], ps), PageEnd(bias, elf.phdrs[j], ps),
                       elf.phdrs[j].flags,
                       lax, slack, PageStart(bias, elf.phdrs[i], ps), PageEnd(bias, elf.phdrs[i], ps));
      }
    }
  }

  lemma SpanOrder(elf: Elf, span: Region, ps: nat)
    requires ps > 0 && Spans(elf, span, ps)
    ensures span.lo <= span.hi
  {
  }

  /** The segments lie in the reserved span as they lie in the span of the file. */
  lemma SpanInPlace(file: Bytes, elf: Elf, span: Region, base: nat, bias: nat, ps: nat)
    requires IsPageSize(ps) && ps > 0 && AllLoadable(file, elf, ps) && Spans(elf, span, ps) && Tight(elf, span, ps)
    requires Aligned(base, ps) && base + (span.hi - span.lo) <= ADDRESS_LIMIT && bias == Sub64(base, span.lo)
    ensures exists i :: 0 <= i < |elf.phdrs| && IsLoad(elf.phdrs[i]) && PageStart(bias, elf.phdrs[i], ps) == base
    ensures exists i :: 0 <= i < |elf.phdrs| && IsLoad(elf.phdrs[i]) &&
                        PageEnd(bias, elf.phdrs[i], ps) == base + (span.hi - span.lo)
    ensures forall i :: 0 <= i < |elf.phdrs| && IsLoad(elf.phdrs[i]) ==>
              base <= PageStart(bias, elf.phdrs[i], ps) &&
              PageEnd(bias, elf.phdrs[i], ps) <= base + (span.hi - span.lo) &&
              base <= Add64(bias, elf.phdrs[i].vaddr) &&
              Add64(bias, elf.phdrs[i].vaddr) + elf.phdrs[i].memsz <= base + (span.hi - span.lo)
  {
    hide IsPageSize, TruncPage, RoundPage, Aligned, Add64, Sub64, PageStart, PageEnd;
    var first :| 0 <= first < |elf.phdrs| && IsLoad(elf.phdrs[first]) &&
                 TruncPage(elf.phdrs[first].vaddr, ps) == span.lo;
    var last :| 0 <= last < |elf.phdrs| && IsLoad(elf.phdrs[last]) &&
                RoundPage(elf.phdrs[last].vaddr + elf.phdrs[last].memsz, ps) == span.hi;
    SegmentPlace(elf.phdrs[first], span, base, bias, ps);
    SegmentPlace(elf.phdrs[last], span, base, bias, ps);
    forall i | 0 <= i < |elf.phdrs| && IsLoad(elf.phdrs[i])
      ensures base <= PageStart(bias, elf.phdrs[i], ps) &&
              PageEnd(bias, elf.phdrs[i], ps) <= base + (span.hi - span.lo) &&
              base <= Add64(bias, elf.phdrs[i].vaddr) &&
              Add64(bias, elf.phdrs[i].vaddr) + elf.phdrs[i].memsz <= base + (span.hi - span.lo)
    {
      SegmentPlace(elf.phdrs[i], span, base, bias, ps);
    }
  }

  /** What a load hands on: entry point, lowest address, load bias, size of the reserved span, the program
      headers' address (0 when nothing says where they are), number and size. */
  datatype Image = Image(entry: nat, base: nat, bias: nat, span: nat, phdr: nat, phnum: nat, phent: nat,
                         hasInterp: bool)

  predicate IsLoad(ph: Phdr) {
    ph.kind.Load? && ph.memsz > 0
  }

  /** The end of the segment, rounded up, comes out below its start: the loader sees that it wraps. */
  predicate WrapSeen(ph: Phdr, ps: nat)
    requires ps > 0
  {
    RoundPage(Add64(ph.vaddr, ph.memsz), ps) < TruncPage(ph.vaddr, ps)
  }

  predicate AnyWraps(elf: Elf, n: nat, ps: nat)
    requires ps > 0 && n <= |elf.phdrs|
  {
    exists i :: 0 <= i < n && IsLoad(elf.phdrs[i]) && WrapSeen(elf.phdrs[i], ps)
  }

  /** Addresses are 64-bit words. */
  predicate WordSized(elf: Elf) {
    forall i :: 0 <= i < |elf.phdrs| ==> elf.phdrs[i].vaddr < TWO64
  }

  /** Every segment stays inside the address space and the file, or visibly wraps. */
  ghost predicate Plausible(file: Bytes, elf: Elf, ps: nat)
    requires ps > 0
  {
    forall i :: 0 <= i < |elf.phdrs| && IsLoad(elf.phdrs[i]) ==>
      Loadable(file, elf.phdrs[i], ps) || WrapSeen(elf.phdrs[i], ps)
  }

  lemma AllStayInside(file: Bytes, elf: Elf, ps: nat)
    requires ps > 0 && Plausible(file, elf, ps) && !AnyWraps(elf, |elf.phdrs|, ps)
    ensures AllLoadable(file, elf, ps)
  {
    hide WrapSeen, Loadable;
    forall i | 0 <= i < |elf.phdrs| && IsLoad(elf.phdrs[i]) ensures Loadable(file, elf.phdrs[i], ps) {
      if WrapSeen(elf.phdrs[i], ps) {
        assert false;
      }
    }
  }

  ghost predicate AllLoadable(file: Bytes, elf: Elf, ps: nat) {
    forall i :: 0 <= i < |elf.phdrs| && IsLoad(elf.phdrs[i]) ==> Loadable(file, elf.phdrs[i], ps)
  }

  /** The page-rounded spans of the segments do not overlap. */
  ghost predicate PagesDisjoint(elf: Elf, ps: nat)
    requires ps > 0
  {
    forall i, j :: 0 <= i < j < |elf.phdrs| && IsLoad(elf.phdrs[i]) && IsLoad(elf.phdrs[j]) ==>
      RoundPage(elf.phdrs[i].vaddr + elf.phdrs[i].memsz, ps) <= TruncPage(elf.phdrs[j].vaddr, ps) ||
      RoundPage(elf.phdrs[j].vaddr + elf.phdrs[j].memsz, ps) <= TruncPage(elf.phdrs[i].vaddr, ps)
  }

  predicate HasPhdrTable(elf: Elf) {
    exists i :: 0 <= i < |elf.phdrs| && elf.phdrs[i].kind.PhdrTable?
  }

  /** The span holds every segment's pages. */
  ghost predicate Spans(elf: Elf, span: Region, ps: nat)
    requires ps > 0
  {
    span.lo <= span.hi && Aligned(span.lo, ps) && Aligned(span.hi, ps) &&
    forall i :: 0 <= i < |elf.phdrs| && IsLoad(elf.phdrs[i]) ==>
      span.lo <= TruncPage(elf.phdrs[i].vaddr, ps) &&
      RoundPage(elf.phdrs[i].vaddr + elf.phdrs[i].memsz, ps) <= span.hi
  }

  /** The span starts and ends with a segment's pages. */
  ghost predicate Tight(elf: Elf, span: Region, ps: nat)
    requires ps > 0
  {
    (exists i :: 0 <= i < |elf.phdrs| && IsLoad(elf.phdrs[i]) && TruncPage(elf.phdrs[i].vaddr, ps) == span.lo) &&
    (exists i :: 0 <= i < |elf.phdrs| && IsLoad(elf.phdrs[i]) &&
                 RoundPage(elf.phdrs[i].vaddr + elf.phdrs[i].memsz, ps) == span.hi)
  }

  /** The first loop of `load_image`: the span of all segments and the headers of note. */
  method Span(elf: Elf, ps: nat) returns (died: bool, span: Region, tableSeg: int, hasInterp: bool)
    requires IsPageSize(ps) && ps > 0 && WordSized(elf)
    ensures died <==> AnyWraps(elf, |elf.phdrs|, ps) || forall i :: 0 <= i < |elf.phdrs| ==> !IsLoad(elf.phdrs[i])
    ensures !died ==> Spans(elf, span, ps) && Tight(elf, span, ps)
    ensures !died ==> LastTable(elf, |elf.phdrs|, tableSeg)
    ensures !died ==> (hasInterp <==> exists i :: 0 <= i < |elf.phdrs| && elf.phdrs[i].kind.Interp?)
  {
    hide IsPageSize, TruncPage, RoundPage, Aligned, SpanSoFar, AnyWraps, LastTable, Spans, Tight;
    var lo: nat, hi: nat := TWO64 - 1, 0;
    var loads := 0;
    ghost var first, last := 0, 0;
    tableSeg, hasInterp := -1, false;
    var i := 0;
    NothingSpanned(elf, ps);
    while i < |elf.phdrs|
      invariant 0 <= i <= |elf.phdrs| && 0 <= loads <= i && !AnyWraps(elf, i, ps)
      invariant SpanSoFar(elf, i, ps, loads > 0, lo, hi, first, last)
      invariant LastTable(elf, i, tableSeg)
      invariant hasInterp <==> exists j :: 0 <= j < i && elf.phdrs[j].kind.Interp?
    {
      var ph := elf.phdrs[i];
      TableNext(elf, i, tableSeg);
      WrapNext(elf, i, ps);
      SpanNext(elf, i, ps, loads > 0, lo, hi, first, last);
      if ph.kind.Load? {
        if ph.memsz > 0 {
          var s := TruncPage(ph.vaddr, ps);
          var e := RoundPage(Add64(ph.vaddr, ph.memsz), ps);
          if e < s {
            return true, Region(0, 0), tableSeg, hasInterp;
          }
          if s < lo || loads == 0 {
            first := i;
          }
          if e > hi || loads == 0 {
            last := i;
          }
          lo := if s < lo then s else lo;
          hi := if e > hi then e else hi;
          loads := loads + 1;
        }
      } else if ph.kind.Interp? {
        hasInterp := true;
      } else if ph.kind.PhdrTable? {
        tableSeg := i;
      }
      i := i + 1;
    }
    died := loads == 0;
    span := Region(lo, hi);
    SpanDone(elf, ps, loads > 0, lo, hi, first, last);
  }

  /** The pages of the segments among the first `n` headers, if there are `some`. */
  ghost predicate SpanSoFar(elf: Elf, n: nat, ps: nat, some: bool, lo: nat, hi: nat, first: nat, last: nat)
    requires ps > 0 && n <= |elf.phdrs|
  {
    (some <==> exists j :: 0 <= j < n && IsLoad(elf.phdrs[j])) && (!some ==> lo == TWO64 - 1 && hi == 0) &&
    (some ==> lo <= hi && Aligned(lo, ps) && Aligned(hi, ps) && first < n && IsLoad(elf.phdrs[first]) &&
              TruncPage(elf.phdrs[first].vaddr, ps) == lo && last < n && IsLoad(elf.phdrs[last]) &&
              RoundPage(elf.phdrs[last].vaddr + elf.phdrs[last].memsz, ps) == hi) &&
    forall j :: 0 <= j < n && IsLoad(elf.phdrs[j]) ==>
      lo <= TruncPage(elf.phdrs[j].vaddr, ps) && RoundPage(elf.phdrs[j].vaddr + elf.phdrs[j].memsz, ps) <= hi
  }

  lemma NothingSpanned(elf: Elf, ps: nat)
    requires ps > 0
    ensures SpanSoFar(elf, 0, ps, false, TWO64 - 1, 0, 0, 0) && !AnyWraps(elf, 0, ps) && LastTable(elf, 0, -1)
  {
  }

  lemma TableNext(elf: Elf, i: nat, table: int)
    requires i < |elf.phdrs| && LastTable(elf, i, table)
    ensures LastTable(elf, i + 1, if elf.phdrs[i].kind.PhdrTable? then i else table)
  {
  }

  lemma WrapNext(elf: Elf, i: nat, ps: nat)
    requires ps > 0 && i < |elf.phdrs| && !AnyWraps(elf, i, ps)
    ensures AnyWraps(elf, i + 1, ps) <==> IsLoad(elf.phdrs[i]) && WrapSeen(elf.phdrs[i], ps)
    ensures AnyWraps(elf, i + 1, ps) ==> AnyWraps(elf, |elf.phdrs|, ps)
  {
    hide WrapSeen;
  }

  lemma SpanNext(elf: Elf, i: nat, ps: nat, some: bool, lo: nat, hi: nat, first: nat, last: nat)
    requires IsPageSize(ps) && ps > 0 && i < |elf.phdrs| && SpanSoFar(elf, i, ps, some, lo, hi, first, last)
    requires elf.phdrs[i].vaddr < TWO64
    ensures !IsLoad(elf.phdrs[i]) ==> SpanSoFar(elf, i + 1, ps, some, lo, hi, first, last)
    ensures var ph := elf.phdrs[i];
            var s, e := TruncPage(ph.vaddr, ps), RoundPage(Add64(ph.vaddr, ph.memsz), ps);
            IsLoad(ph) && s <= e ==>
              SpanSoFar(elf, i + 1, ps, true, if s < lo then s else lo, if e > hi then e else hi,
                        if s < lo || !some then i else first, if e > hi || !some then i else last)
  {
    hide IsPageSize, TruncPage, RoundPage, Aligned, Add64;
    SegmentEnds(elf.phdrs[i], ps);
  }

  lemma SpanDone(elf: Elf, ps: nat, some: bool, lo: nat, hi: nat, first: nat, last: nat)
    requires ps > 0 && SpanSoFar(elf, |elf.phdrs|, ps, some, lo, hi, first, last)
    ensures some <==> exists j :: 0 <= j < |elf.phdrs| && IsLoad(elf.phdrs[j])
    ensures some ==> Spans(elf, Region(lo, hi), ps) && Tight(elf, Region(lo, hi), ps)
  {
    hide TruncPage, RoundPage, Aligned;
  }

  lemma SumOfWords(a: nat, b: nat, c: nat)
    ensures Add64(Add64(a, b), c) == Add64(a + b, c)
  {
  }

  /** A segment starts and ends on page boundaries, and its end is the same whether or not the sum is cut to a
      word first. */
  lemma SegmentEnds(ph: Phdr, ps: nat)
    requires IsPageSize(ps) && ps > 0
    ensures TruncPage(ph.vaddr, ps) <= ph.vaddr && Aligned(TruncPage(ph.vaddr, ps), ps)
    ensures Aligned(RoundPage(ph.vaddr + ph.memsz, ps), ps)
    ensures RoundPage(Add64(ph.vaddr, ph.memsz), ps) == RoundPage(ph.vaddr + ph.memsz, ps)
  {
    hide IsPageSize, Aligned, Add64, AndNot;
    TruncBounds(ph.vaddr, ps);
    TruncBounds(Add64(ph.vaddr + ph.memsz, ps - 1), ps);
    SumOfWords(ph.vaddr, ph.memsz, ps - 1);
  }

  /** Reserve the span, unless the kernel refuses: anywhere for a position-independent image, at its own
      address otherwise. What is in use already is never given out again. */
  method Reserve(elf: Elf, span: Region, taken: seq<Region>, ps: nat) returns (died: bool, base: nat, bias: nat)
    requires IsPageSize(ps) && ps > 0 && Spans(elf, span, ps)
    ensures !died ==> Aligned(base, ps) && base + (span.hi - span.lo) <= ADDRESS_LIMIT && bias == Sub64(base, span.lo)
    ensures !died && !elf.kind.Dyn? ==> bias == 0 && base == span.lo
    ensures !died ==> Free(Region(base, base + (span.hi - span.lo)), taken)
  {
    base, bias := 0, 0;
    if * {
      return true, 0, 0;
    }
    if elf.kind.Dyn? {
      if at: nat :| at <= ADDRESS_LIMIT && Aligned(at, ps) && at + (span.hi - span.lo) <= ADDRESS_LIMIT &&
                    Free(Region(at, at + (span.hi - span.lo)), taken) {
        base, bias := at, Sub64(at, span.lo);
      } else {
        return true, 0, 0;
      }
    } else {
      if span.hi > ADDRESS_LIMIT || !Free(span, taken) {
        return true, 0, 0;
      }
      base, bias := span.lo, 0;
    }
    return false, base, bias;
  }

  function TableSize(elf: Elf): nat {
    |elf.phdrs| * elf.phentsize
  }

  predicate CoversTable(elf: Elf, ph: Phdr) {
    elf.phoff >= ph.offset && elf.phoff + TableSize(elf) <= ph.offset + ph.filesz
  }

  /** The program headers of the file can be read at `t`. */
  ghost predicate TableReadable(mem: Memory, file: Bytes, elf: Elf, t: nat) {
    elf.phoff + TableSize(elf) <= |file| &&
    forall a: nat :: t <= a < t + TableSize(elf) ==> mem(a) == file[elf.phoff + (a - t)]
  }

  function TableAddress(elf: Elf, ph: Phdr, bias: nat): nat
    requires CoversTable(elf, ph)
  {
    Add64(Add64(bias, ph.vaddr), elf.phoff - ph.offset)
  }

  /** A segment lies in the reserved span where it lies in the span of the file. */
  lemma SegmentPlace(ph: Phdr, span: Region, base: nat, bias: nat, ps: nat)
    requires IsPageSize(ps) && ps > 0 && Aligned(span.lo, ps) && Aligned(base, ps)
    requires ph.vaddr + ph.memsz + ps <= TWO64
    requires span.lo <= TruncPage(ph.vaddr, ps) && RoundPage(ph.vaddr + ph.memsz, ps) <= span.hi
    requires base + (span.hi - span.lo) <= ADDRESS_LIMIT && bias == Sub64(base, span.lo)
    ensures var va := Add64(bias, ph.vaddr);
            va == base + (ph.vaddr - span.lo) && va + ph.memsz + ps <= TWO64 && va + ph.memsz <= ADDRESS_LIMIT &&
            PageStart(bias, ph, ps) == base + (TruncPage(ph.vaddr, ps) - span.lo) &&
            PageEnd(bias, ph, ps) == base + (RoundPage(ph.vaddr + ph.memsz, ps) - span.lo) &&
            base <= PageStart(bias, ph, ps) <= va &&
            va + ph.memsz <= PageEnd(bias, ph, ps) <= base + (span.hi - span.lo)
  {
    hide IsPageSize, TruncPage, RoundPage, Aligned, Add64, Sub64, PageStart, PageEnd, AndNot;
    PagePositive(ps);
    TruncBounds(ph.vaddr, ps);
    RoundFacts(ph.vaddr + ph.memsz, ps);
    var first, end := TruncPage(ph.vaddr, ps), RoundPage(ph.vaddr + ph.memsz, ps);
    assert span.lo <= first <= ph.vaddr && ph.vaddr + ph.memsz <= end <= span.hi;
    WrapSum(base, span.lo, ph.vaddr);
    assert Add64(bias, ph.vaddr) == base + (ph.vaddr - span.lo);
    PagesShift(ph, span.lo, base, bias, ps);
  }

  /** A segment's pages move with it. */
  lemma PagesShift(ph: Phdr, lo: nat, base: nat, bias: nat, ps: nat)
    requires IsPageSize(ps) && ps > 0 && Aligned(lo, ps) && Aligned(base, ps)
    requires ph.vaddr + ph.memsz + ps <= TWO64 && lo <= TruncPage(ph.vaddr, ps) && lo <= ph.vaddr
    requires Add64(bias, ph.vaddr) == base + (ph.vaddr - lo) && base + (ph.vaddr - lo) + ph.memsz + ps <= TWO64
    ensures PageStart(bias, ph, ps) == base + (TruncPage(ph.vaddr, ps) - lo)
    ensures PageEnd(bias, ph, ps) == base + (RoundPage(ph.vaddr + ph.memsz, ps) - lo)
  {
    hide IsPageSize, TruncPage, RoundPage, Aligned, Add64;
    TruncShift(ph.vaddr, lo, base, ps);
    RoundShift(ph.vaddr + ph.memsz, lo, base, ps);
    assert base + (ph.vaddr + ph.memsz - lo) == Add64(bias, ph.vaddr) + ph.memsz;
  }

  lemma WrapSum(base: nat, lo: nat, vaddr: nat)
    requires lo <= vaddr < TWO64 && base + (vaddr - lo) < TWO64
    ensures Add64(Sub64(base, lo), vaddr) == base + (vaddr - lo)
  {
    if base >= lo {
      assert Sub64(base, lo) == base - lo;
    } else {
      assert Sub64(base, lo) == base - lo + TWO64;
    }
  }

  lemma SegmentsApart(elf: Elf, j: nat, i: nat, ps: nat)
    requires ps > 0 && PagesDisjoint(elf, ps) && j < i < |elf.phdrs| && IsLoad(elf.phdrs[i]) && IsLoad(elf.phdrs[j])
    ensures RoundPage(elf.phdrs[j].vaddr + elf.phdrs[j].memsz, ps) <= TruncPage(elf.phdrs[i].vaddr, ps) ||
            RoundPage(elf.phdrs[i].vaddr + elf.phdrs[i].memsz, ps) <= TruncPage(elf.phdrs[j].vaddr, ps)
  {
  }

  lemma HoldsFrame(before: Memory, after: Memory, file: Bytes, ph: Phdr, va: nat, lo: nat, hi: nat)
    requires Holds(before, file, ph, va) && OnlyWithin(before, after, lo, hi)
    requires ph.filesz <= ph.memsz && (va + ph.memsz <= lo || hi <= va)
    ensures Holds(after, file, ph, va)
  {
  }

  lemma WithinWithin<T(!new)>(a: nat -> T, b: nat -> T, c: nat -> T, lo: nat, hi: nat, outerLo: nat, outerHi: nat)
    requires OnlyWithin(a, b, outerLo, outerHi) && OnlyWithin(b, c, lo, hi) && outerLo <= lo && hi <= outerHi
    ensures OnlyWithin(a, c, outerLo, outerHi)
  {
  }

  lemma OnlyWithinRefl<T(!new)>(a: nat -> T, lo: nat, hi: nat)
    ensures OnlyWithin(a, a, lo, hi)
  {
  }

  lemma OnlyWithinWiden<T(!new)>(a: nat -> T, b: nat -> T, lo: nat, hi: nat, further: nat)
    requires OnlyWithin(a, b, lo, hi) && hi <= further
    ensures OnlyWithin(a, b, lo, further)
  {
  }

  /** The file part of a segment and the anonymous part behind it make up the segment. */
  lemma HeldJoined(m0: Memory, m1: Memory, m2: Memory, file: Bytes, ph: Phdr, va: nat, start: nat, mid: nat, end: nat)
    requires start <= va && start <= mid <= end && va + ph.memsz <= end && ph.offset + ph.filesz <= |file|
    requires if ph.filesz > 0 then va + ph.filesz <= mid else mid == start
    requires OnlyWithin(m0, m1, start, mid) && m2 == if end > mid then ZeroRange(m1, mid, end) else m1
    requires ph.filesz > 0 ==> forall a: nat :: va <= a < va + ph.filesz ==> m1(a) == file[ph.offset + (a - va)]
    requires 0 < ph.filesz < ph.memsz ==> forall a: nat :: va + ph.filesz <= a < mid ==> m1(a) == 0
    ensures Holds(m2, file, ph, va) && OnlyWithin(m0, m2, start, end)
  {
  }

  lemma ProtectedJoined(p0: Protection, p1: Protection, p2: Protection, flags: nat, slack: bool, start: nat,
                        mid: nat, end: nat)
    requires start <= mid <= end && OnlyWithin(p0, p1, start, mid) &&
             (mid > start ==> Protected(p1, start, mid, flags, slack))
    requires p2 == if end > mid then Protect(p1, mid, end, ElfProt(flags)) else p1
    ensures Protected(p2, start, end, flags, slack) && OnlyWithin(p0, p2, start, end)
  {
    hide ElfProt;
  }

  lemma OnlyWithinMeans<T(!new)>(a: nat -> T, b: nat -> T, lo: nat, hi: nat)
    requires OnlyWithin(a, b, lo, hi)
    ensures forall x: nat :: x < lo || hi <= x ==> b(x) == a(x)
  {
  }

  lemma TableOffset(elf: Elf, ph: Phdr, bias: nat)
    requires CoversTable(elf, ph) && Add64(bias, ph.vaddr) + ph.memsz <= ADDRESS_LIMIT && ph.filesz <= ph.memsz
    ensures TableAddress(elf, ph, bias) == 0 <==> Add64(bias, ph.vaddr) == 0 && elf.phoff == ph.offset
  {
    hide Add64;
    assert Add64(Add64(bias, ph.vaddr), elf.phoff - ph.offset) == Add64(bias, ph.vaddr) + (elf.phoff - ph.offset)
      by { SmallSum(Add64(bias, ph.vaddr), elf.phoff - ph.offset); }
  }

  lemma SmallSum(a: nat, b: nat)
    requires a + b < TWO64
    ensures Add64(a, b) == a + b
  {
  }

  /** The program headers can be read where the image says they are. */
  lemma TableBytes(mem: Memory, file: Bytes, elf: Elf, ph: Phdr, bias: nat)
    requires CoversTable(elf, ph) && Holds(mem, file, ph, Add64(bias, ph.vaddr)) && elf.phdrs != [] && elf.phentsize > 0
    requires Add64(bias, ph.vaddr) + ph.memsz <= ADDRESS_LIMIT && ph.filesz <= ph.memsz
    ensures TableReadable(mem, file, elf, TableAddress(elf, ph, bias))
  {
    var va := Add64(bias, ph.vaddr);
    assert TableAddress(elf, ph, bias) == va + (elf.phoff - ph.offset);
  }

  /** The pages of a segment: [PageStart, PageEnd). */
  function PageStart(bias: nat, ph: Phdr, ps: nat): nat
    requires ps > 0
  {
    TruncPage(Add64(bias, ph.vaddr), ps)
  }

  function PageEnd(bias: nat, ph: Phdr, ps: nat): nat
    requires ps > 0
  {
    RoundPage(Add64(bias, ph.vaddr) + ph.memsz, ps)
  }

  lemma SegmentPages(va: nat, filesz: nat, memsz: nat, ps: nat)
    requires IsPageSize(ps) && filesz <= memsz && va + memsz + ps <= TWO64
    ensures Add64(va, filesz) == va + filesz && Add64(va, memsz) == va + memsz
    ensures var start, fileEnd, memEnd := TruncPage(va, ps), RoundPage(va + filesz, ps), RoundPage(va + memsz, ps);
            start <= va < start + ps && va + filesz <= fileEnd < va + filesz + ps && va + memsz <= memEnd &&
            fileEnd <= memEnd && (filesz > 0 ==> start < fileEnd) && (memsz > 0 ==> start < memEnd)
    ensures Aligned(va + filesz, ps) ==> RoundPage(va + filesz, ps) == va + filesz
  {
    hide TruncPage, RoundPage, IsPageSize;
    PagePositive(ps);
    TruncBounds(va, ps);
    RoundFacts(va + filesz, ps);
    RoundFacts(va + memsz, ps);
    var fileEnd, memEnd := RoundPage(va + filesz, ps), RoundPage(va + memsz, ps);
    if memEnd < fileEnd {
      AlignedSum(memEnd, fileEnd, ps);
    }
    if Aligned(va + filesz, ps) && va + filesz < fileEnd {
      AlignedSum(va + filesz, fileEnd, ps);
    }
  }
}
