/** The headers of an ELF file as the loader reads them (src/engines/rootless/loader/loader.c, load_image), in
    the layout of the ELF-64 object file format. */
module ElfHeaders {
  import opened Words

  datatype SegmentType = Load | Interp | PhdrTable | OtherType

  /** struct elf64_phdr, without the fields the loader ignores. */
  datatype Phdr = Phdr(kind: SegmentType, flags: nat, offset: nat, vaddr: nat, filesz: nat, memsz: nat)

  datatype ElfType = Exec | Dyn | OtherElf

  /** struct elf64_ehdr and its program header table, as read from the file. */
  datatype Elf = Elf(kind: ElfType, entry: nat, phoff: nat, phentsize: nat, phdrs: seq<Phdr>)

  type Bytes = seq<nat>

  const EHDR_SIZE: nat := 64
  const PHDR_SIZE: nat := 56
  const MAX_PHNUM: nat := 512

  predicate AreBytes(b: Bytes) {
    forall i :: 0 <= i < |b| ==> b[i] < 256
  }

  // ---- reading ----

  /** The little-endian number in `k` bytes. */
  function Field(b: Bytes, at: nat, k: nat): nat
    requires at + k <= |b|
    decreases k
  {
    if k == 0 then 0 else b[at] + 256 * Field(b, at + 1, k - 1)
  }

  /** 0x7f, "ELF", 64-bit, little-endian. */
  const IDENT: Bytes := [0x7f, 0x45, 0x4c, 0x46, 2, 1]

  function TypeOf(t: nat): ElfType {
    if t == 3 then Dyn else if t == 2 then Exec else OtherElf
  }

  function KindOf(t: nat): SegmentType {
    if t == 1 then Load else if t == 3 then Interp else if t == 6 then PhdrTable else OtherType
  }

  function PhdrAt(b: Bytes, at: nat): Phdr
    requires at + PHDR_SIZE <= |b|
  {
    Phdr(KindOf(Field(b, at, 4)), Field(b, at + 4, 4), Field(b, at + 8, 8), Field(b, at + 16, 8), Field(b, at + 32, 8),
         Field(b, at + 40, 8))
  }

  /** `n` program headers, `size` bytes apart. */
  function Table(b: Bytes, at: nat, size: nat, n: nat): (t: seq<Phdr>)
    requires size >= PHDR_SIZE && at + n * size <= |b|
    ensures |t| == n
    decreases n
  {
    if n == 0 then [] else [PhdrAt(b, at)] + Table(b, at + size, size, n - 1)
  }

  /** The file holds a header and the program header table it names. */
  predicate HasTable(file: Bytes) {
    |file| >= EHDR_SIZE && Field(file, 54, 2) >= PHDR_SIZE && 0 < Field(file, 56, 2) <= MAX_PHNUM &&
    Field(file, 32, 8) + Field(file, 56, 2) * Field(file, 54, 2) <= |file|
  }

  /** The header is one the loader goes on with. */
  predicate HeaderOk(file: Bytes, machine: nat, isInterp: bool) {
    HasTable(file) && file[..6] == IDENT && Field(file, 18, 2) == machine &&
    (TypeOf(Field(file, 16, 2)).Dyn? || (TypeOf(Field(file, 16, 2)).Exec? && !isInterp))
  }

  /** What it says. */
  function Headers(file: Bytes): Elf
    requires HasTable(file)
  {
    Elf(TypeOf(Field(file, 16, 2)), Field(file, 24, 8), Field(file, 32, 8), Field(file, 54, 2),
        Table(file, Field(file, 32, 8), Field(file, 54, 2), Field(file, 56, 2)))
  }

  lemma {:induction false} FieldBound(b: Bytes, at: nat, k: nat)
    requires AreBytes(b) && at + k <= |b|
    ensures Field(b, at, k) < Pow256(k)
    decreases k
  {
    if k > 0 {
      FieldBound(b, at + 1, k - 1);
    }
  }

  lemma {:induction false} FieldSlice(b: Bytes, lo: nat, hi: nat, at: nat, k: nat)
    requires lo <= hi <= |b| && lo + at + k <= hi
    ensures Field(b[lo..hi], at, k) == Field(b, lo + at, k)
    decreases k
  {
    if k > 0 {
      FieldSlice(b, lo, hi, at + 1, k - 1);
    }
  }

  /** The table of a file has 64-bit addresses, whatever the file holds. */
  lemma {:induction false} TableWords(b: Bytes, at: nat, size: nat, n: nat)
    requires AreBytes(b) && size >= PHDR_SIZE && at + n * size <= |b|
    ensures forall i :: 0 <= i < n ==> PhdrFits(Table(b, at, size, n)[i])
    decreases n
  {
    hide Field, Pow256;
    if n > 0 {
      assert (n - 1) * size >= 0;
      FieldBound(b, at + 4, 4);
      FieldBound(b, at + 8, 8);
      FieldBound(b, at + 16, 8);
      FieldBound(b, at + 32, 8);
      FieldBound(b, at + 40, 8);
      TableWords(b, at + size, size, n - 1);
    }
  }

  /** A table read from the part of the file it stands in. */
  lemma {:induction false} TableSlice(b: Bytes, lo: nat, hi: nat, at: nat, size: nat, n: nat)
    requires size >= PHDR_SIZE && lo <= hi <= |b| && lo + at + n * size <= hi
    ensures Table(b[lo..hi], at, size, n) == Table(b, lo + at, size, n)
    decreases n
  {
    hide Field;
    if n > 0 {
      assert (n - 1) * size >= 0;
      FieldSlice(b, lo, hi, at, 4);
      FieldSlice(b, lo, hi, at + 4, 4);
      FieldSlice(b, lo, hi, at + 8, 8);
      FieldSlice(b, lo, hi, at + 16, 8);
      FieldSlice(b, lo, hi, at + 32, 8);
      FieldSlice(b, lo, hi, at + 40, 8);
      TableSlice(b, lo, hi, at + size, size, n - 1);
    }
  }

  // ---- writing, to show what is read ----

  function Uint(n: nat, k: nat): (b: Bytes)
    ensures |b| == k && AreBytes(b)
  {
    if k == 0 then [] else [n % 256] + Uint(n / 256, k - 1)
  }

  /** Numbers with their widths, one after another. */
  function Packed(fields: seq<(nat, nat)>): Bytes {
    if fields == [] then [] else Uint(fields[0].0, fields[0].1) + Packed(fields[1..])
  }

  function Offset(fields: seq<(nat, nat)>, i: nat): nat
    requires i <= |fields|
  {
    if i == 0 then 0 else fields[0].1 + Offset(fields[1..], i - 1)
  }

  lemma {:induction false} UintIsRead(n: nat, k: nat, before: Bytes, after: Bytes)
    requires n < Pow256(k)
    ensures Field(before + Uint(n, k) + after, |before|, k) == n
    decreases k
  {
    if k > 0 {
      var b := before + Uint(n, k) + after;
      assert b == (before + [n % 256]) + Uint(n / 256, k - 1) + after;
      UintIsRead(n / 256, k - 1, before + [n % 256], after);
    }
  }

  /** Every number is read back at its offset. */
  lemma {:induction false} PackedIsRead(fields: seq<(nat, nat)>, i: nat, before: Bytes, after: Bytes)
    requires i < |fields| && fields[i].0 < Pow256(fields[i].1)
    ensures var b := before + Packed(fields) + after; var at := |before| + Offset(fields, i);
            at + fields[i].1 <= |b| && Field(b, at, fields[i].1) == fields[i].0
    decreases i
  {
    var first, rest := Uint(fields[0].0, fields[0].1), Packed(fields[1..]);
    var b := before + Packed(fields) + after;
    if i == 0 {
      assert b == before + first + (rest + after);
      UintIsRead(fields[0].0, fields[0].1, before, rest + after);
    } else {
      assert b == (before + first) + rest + after;
      PackedIsRead(fields[1..], i - 1, before + first, after);
    }
  }

  function TypeNumber(t: ElfType): nat {
    if t.Dyn? then 3 else if t.Exec? then 2 else 0
  }

  function KindNumber(k: SegmentType): nat {
    match k
    case Load => 1
    case Interp => 3
    case PhdrTable => 6
    case OtherType => 0
  }

  /** The header of a file for the machine, after its identification bytes. */
  function HeaderFields(elf: Elf, machine: nat): seq<(nat, nat)> {
    [(TypeNumber(elf.kind), 2), (machine, 2), (1, 4), (elf.entry, 8), (elf.phoff, 8), (0, 8), (0, 4), (64, 2),
     (elf.phentsize, 2), (|elf.phdrs|, 2), (0, 2), (0, 2), (0, 2)]
  }

  function HeaderText(elf: Elf, machine: nat): Bytes {
    IDENT + Uint(0, 10) + Packed(HeaderFields(elf, machine))
  }

  function PhdrFields(ph: Phdr): seq<(nat, nat)> {
    [(KindNumber(ph.kind), 4), (ph.flags, 4), (ph.offset, 8), (ph.vaddr, 8), (0, 8), (ph.filesz, 8), (ph.memsz, 8),
     (0, 8)]
  }

  function TableText(phdrs: seq<Phdr>, size: nat): Bytes
    requires size >= PHDR_SIZE
  {
    if phdrs == [] then [] else Packed(PhdrFields(phdrs[0])) + Uint(0, size - PHDR_SIZE) + TableText(phdrs[1..], size)
  }

  predicate PhdrFits(ph: Phdr) {
    ph.flags < Pow256(4) && ph.offset < Pow256(8) && ph.vaddr < Pow256(8) && ph.filesz < Pow256(8) &&
    ph.memsz < Pow256(8)
  }

  predicate ElfFits(elf: Elf) {
    elf.entry < Pow256(8) && elf.phoff < Pow256(8) && PHDR_SIZE <= elf.phentsize < Pow256(2) &&
    0 < |elf.phdrs| <= MAX_PHNUM &&
    forall i :: 0 <= i < |elf.phdrs| ==> PhdrFits(elf.phdrs[i])
  }

  lemma {:induction false} PackedLength(fields: seq<(nat, nat)>)
    ensures |Packed(fields)| == Offset(fields, |fields|)
  {
    if fields != [] {
      PackedLength(fields[1..]);
    }
  }

  lemma {:induction false} OffsetStep(fields: seq<(nat, nat)>, i: nat)
    requires i < |fields|
    ensures Offset(fields, i + 1) == Offset(fields, i) + fields[i].1
  {
    if i > 0 {
      OffsetStep(fields[1..], i - 1);
    }
  }

  lemma PhdrOffsets(ph: Phdr)
    ensures var f := PhdrFields(ph);
            Offset(f, 0) == 0 && Offset(f, 1) == 4 && Offset(f, 2) == 8 && Offset(f, 3) == 16 && Offset(f, 5) == 32 &&
            Offset(f, 6) == 40 && |Packed(f)| == PHDR_SIZE
  {
    hide Offset, Packed;
    var f := PhdrFields(ph);
    assert Offset(f, 0) == 0 by { NoOffset(f); }
    OffsetStep(f, 0);
    OffsetStep(f, 1);
    OffsetStep(f, 2);
    OffsetStep(f, 3);
    OffsetStep(f, 4);
    OffsetStep(f, 5);
    OffsetStep(f, 6);
    OffsetStep(f, 7);
    PackedLength(f);
  }

  lemma NoOffset(fields: seq<(nat, nat)>)
    ensures Offset(fields, 0) == 0
  {
  }

  lemma HeaderOffsets(elf: Elf, machine: nat)
    ensures var f := HeaderFields(elf, machine);
            Offset(f, 0) == 0 && Offset(f, 1) == 2 && Offset(f, 3) == 8 && Offset(f, 4) == 16 && Offset(f, 8) == 38 &&
            Offset(f, 9) == 40 && |HeaderText(elf, machine)| == EHDR_SIZE
  {
    hide Offset, Packed, Uint;
    var f := HeaderFields(elf, machine);
    assert Offset(f, 0) == 0 by { NoOffset(f); }
    OffsetStep(f, 0);
    OffsetStep(f, 1);
    OffsetStep(f, 2);
    OffsetStep(f, 3);
    OffsetStep(f, 4);
    OffsetStep(f, 5);
    OffsetStep(f, 6);
    OffsetStep(f, 7);
    OffsetStep(f, 8);
    OffsetStep(f, 9);
    OffsetStep(f, 10);
    OffsetStep(f, 11);
    OffsetStep(f, 12);
    PackedLength(f);
  }

  lemma PhdrIsRead(ph: Phdr, before: Bytes, after: Bytes)
    requires PhdrFits(ph)
    ensures var b := before + Packed(PhdrFields(ph)) + after;
            |before| + PHDR_SIZE <= |b| && PhdrAt(b, |before|) == ph
  {
    hide Offset, Packed, Field, Pow256;
    WordSizes();
    PhdrOffsets(ph);
    var f := PhdrFields(ph);
    PackedIsRead(f, 0, before, after);
    PackedIsRead(f, 1, before, after);
    PackedIsRead(f, 2, before, after);
    PackedIsRead(f, 3, before, after);
    PackedIsRead(f, 5, before, after);
    PackedIsRead(f, 6, before, after);
  }

  lemma Regroup(a: Bytes, b: Bytes, c: Bytes, d: Bytes, e: Bytes)
    ensures a + (b + c + d) + e == (a + b + c) + d + e
    ensures a + (b + c + d) + e == a + b + (c + d + e)
  {
  }

  lemma OneMore(n: nat, size: nat)
    requires n > 0
    ensures n * size == size + (n - 1) * size
  {
  }

  lemma {:induction false} TableLength(phdrs: seq<Phdr>, size: nat)
    requires size >= PHDR_SIZE
    ensures |TableText(phdrs, size)| == |phdrs| * size
  {
    hide Packed, PhdrFields, Uint;
    if phdrs != [] {
      TableLength(phdrs[1..], size);
      PhdrOffsets(phdrs[0]);
      OneMore(|phdrs|, size);
    }
  }

  lemma {:induction false} TableIsRead(phdrs: seq<Phdr>, size: nat, before: Bytes, after: Bytes)
    requires size >= PHDR_SIZE && forall i :: 0 <= i < |phdrs| ==> PhdrFits(phdrs[i])
    ensures |before| + |phdrs| * size <= |before + TableText(phdrs, size) + after|
    ensures Table(before + TableText(phdrs, size) + after, |before|, size, |phdrs|) == phdrs
    decreases |phdrs|
  {
    hide Packed, PhdrFields, PhdrFits, PhdrAt, Uint;
    TableLength(phdrs, size);
    if phdrs != [] {
      TableHead(phdrs, size, before, after);
      TableIsRead(phdrs[1..], size, before + Packed(PhdrFields(phdrs[0])) + Uint(0, size - PHDR_SIZE), after);
    }
  }

  /** The first entry of a table, and where the others stand. */
  lemma TableHead(phdrs: seq<Phdr>, size: nat, before: Bytes, after: Bytes)
    requires size >= PHDR_SIZE && phdrs != [] && PhdrFits(phdrs[0])
    ensures var head := before + Packed(PhdrFields(phdrs[0])) + Uint(0, size - PHDR_SIZE);
            var b := before + TableText(phdrs, size) + after;
            b == head + TableText(phdrs[1..], size) + after && |head| == |before| + size &&
            |before| + PHDR_SIZE <= |b| && PhdrAt(b, |before|) == phdrs[0]
  {
    hide Packed, PhdrFields, PhdrFits, PhdrAt, Uint;
    var first, gap, rest := Packed(PhdrFields(phdrs[0])), Uint(0, size - PHDR_SIZE), TableText(phdrs[1..], size);
    Regroup(before, first, gap, rest, after);
    PhdrOffsets(phdrs[0]);
    PhdrIsRead(phdrs[0], before, gap + rest + after);
  }

  lemma HeaderIsRead(elf: Elf, machine: nat, rest: Bytes)
    requires ElfFits(elf) && machine < Pow256(2)
    ensures |HeaderText(elf, machine)| == EHDR_SIZE
    ensures var file := HeaderText(elf, machine) + rest;
            Field(file, 16, 2) == TypeNumber(elf.kind) && Field(file, 18, 2) == machine &&
            Field(file, 24, 8) == elf.entry &&
            Field(file, 32, 8) == elf.phoff && Field(file, 54, 2) == elf.phentsize && Field(file, 56, 2) == |elf.phdrs|
    ensures (HeaderText(elf, machine) + rest)[..6] == IDENT
  {
    hide Packed, Offset, Field, Pow256, Uint, PhdrFits;
    WordSizes();
    HeaderOffsets(elf, machine);
    var f, ident := HeaderFields(elf, machine), IDENT + Uint(0, 10);
    PackedIsRead(f, 0, ident, rest);
    PackedIsRead(f, 1, ident, rest);
    PackedIsRead(f, 3, ident, rest);
    PackedIsRead(f, 4, ident, rest);
    PackedIsRead(f, 8, ident, rest);
    PackedIsRead(f, 9, ident, rest);
  }

  lemma Cut(b: Bytes, lo: nat, hi: nat)
    requires lo <= hi <= |b|
    ensures b == b[..lo] + b[lo..hi] + b[hi..] && (lo == 0 ==> b == b[..hi] + b[hi..])
  {
  }

  /** A file that starts with the header of an image and holds its table where the header says is read as
      that image, and refused exactly for its type. */
  lemma HeadersAreRead(file: Bytes, elf: Elf, machine: nat, isInterp: bool)
    requires ElfFits(elf) && machine < Pow256(2) && |file| >= EHDR_SIZE && file[..EHDR_SIZE] == HeaderText(elf, machine)
    requires elf.phoff + |elf.phdrs| * elf.phentsize <= |file|
    requires file[elf.phoff..elf.phoff + |elf.phdrs| * elf.phentsize] == TableText(elf.phdrs, elf.phentsize)
    ensures HasTable(file) && Headers(file) == elf
    ensures HeaderOk(file, machine, isInterp) <==> elf.kind.Dyn? || (elf.kind.Exec? && !isInterp)
  {
    hide Packed, Field, Pow256, Table, TableText, PhdrFits, HeaderText;
    var end := elf.phoff + |elf.phdrs| * elf.phentsize;
    Cut(file, 0, EHDR_SIZE);
    HeaderIsRead(elf, machine, file[EHDR_SIZE..]);
    Cut(file, elf.phoff, end);
    TableIsRead(elf.phdrs, elf.phentsize, file[..elf.phoff], file[end..]);
  }
}
