/** The compiler from a filter policy to classic BPF and its reference interpreter
    (src/engines/rootless/seccomp_filter.cpp). */
module SeccompFilter {
  import opened Bits

  type Word = n: nat | n < 0x1_0000_0000
  type Byte = n: nat | n < 0x100

  const RET_TRACE: Word := 0x7ff0_7648 // SECCOMP_RET_TRACE with the supervisor's marker
  const RET_ALLOW: Word := 0x7fff_0000
  const RET_EACCES: Word := 0x0005_000d // SECCOMP_RET_ERRNO with EACCES
  const OFF_NR: nat := 0
  const OFF_ARCH: nat := 4
  const OFF_ARGS: nat := 16
  const X32_BIT: Word := 0x4000_0000
  const CLONE_UNTRACED: Word := 0x0080_0000
  const AF_UNIX: Word := 1

  datatype Code = LoadWord | JumpEq | JumpGe | JumpGt | JumpSet | Return | Other(code: nat)

  /** struct sock_filter. */
  datatype Insn = Insn(code: Code, jt: Byte, jf: Byte, k: Word)

  function Stmt(code: Code, k: Word): Insn {
    Insn(code, 0, 0, k)
  }

  function Jump(code: Code, k: Word, jt: Byte, jf: Byte): Insn {
    Insn(code, jt, jf, k)
  }

  /** Numbers are C longs; -1 stands for a syscall the architecture lacks. */
  datatype Policy = Policy(arch: Word, checkX32: bool, allow: seq<int>, networkNone: bool,
                           nrSocket: int, nrClone: int, nrSendto: int)

  /** struct seccomp_data without the instruction pointer. */
  datatype Input = Input(nr: int, arch: Word, args: seq<nat>)

  predicate ValidInput(input: Input) {
    -0x8000_0000 <= input.nr < 0x8000_0000 && |input.args| == 6 &&
    forall i :: 0 <= i < 6 ==> input.args[i] < 0x1_0000_0000_0000_0000
  }

  predicate ValidPolicy(p: Policy) {
    p.nrSocket < 0x1_0000_0000 && p.nrClone < 0x1_0000_0000 && p.nrSendto < 0x1_0000_0000 &&
    forall n :: n in p.allow ==> n < 0x1_0000_0000
  }

  function Low(n: nat): Word {
    n % 0x1_0000_0000
  }

  function High(n: nat): Word
    requires n < 0x1_0000_0000_0000_0000
  {
    n / 0x1_0000_0000
  }

  /** The syscall number as the filter sees it: the low 32 bits. */
  function Number(input: Input): Word {
    input.nr % 0x1_0000_0000
  }

  predicate TestBits(a: Word, b: Word) {
    And(a, b) != 0
  }

  // ---- what the filter is for ----

  /** The decision the filter should take, rule by rule. */
  function Decide(p: Policy, input: Input): Word
    requires ValidInput(input)
  {
    var nr := Number(input);
    if input.arch != p.arch then RET_TRACE
    else if p.checkX32 && nr >= X32_BIT then RET_TRACE
    else if p.networkNone && p.nrSocket >= 0 && nr == p.nrSocket then
      (if Low(input.args[0]) == AF_UNIX then RET_ALLOW else RET_EACCES)
    else if p.nrClone >= 0 && nr == p.nrClone then
      (if TestBits(Low(input.args[0]), CLONE_UNTRACED) then RET_TRACE else RET_ALLOW)
    else if p.nrSendto >= 0 && nr == p.nrSendto then
      (if input.args[4] == 0 then RET_ALLOW else RET_TRACE)
    else if nr in p.allow then RET_ALLOW
    else RET_TRACE
  }

  // ---- the data a program reads ----

  /** Little-endian bytes. */
  function Bytes4(v: Word): (r: seq<Byte>)
    ensures |r| == 4
  {
    [v % 0x100, v / 0x100 % 0x100, v / 0x1_0000 % 0x100, v / 0x100_0000 % 0x100]
  }

  function Word4(b: seq<Byte>): Word
    requires |b| == 4
  {
    (b[0] as int) + 0x100 * (b[1] as int) + 0x1_0000 * (b[2] as int) + 0x100_0000 * (b[3] as int)
  }

  lemma WordBytes(v: Word)
    ensures Word4(Bytes4(v)) == v
  {
    var a, b, c := v / 0x100, v / 0x1_0000, v / 0x100_0000;
    assert b == a / 0x100 && c == b / 0x100;
    assert v == 0x100 * a + v % 0x100;
    assert a == 0x100 * b + a % 0x100;
    assert b == 0x100 * c + b % 0x100;
  }

  function ArgBytes(args: seq<nat>): (r: seq<Byte>)
    requires forall i :: 0 <= i < |args| ==> args[i] < 0x1_0000_0000_0000_0000
    ensures |r| == 8 * |args|
  {
    if args == [] then [] else Bytes4(Low(args[0])) + Bytes4(High(args[0])) + ArgBytes(args[1..])
  }

  /** The 64 bytes of seccomp_data, with an instruction pointer of zero. */
  function Data(input: Input): (r: seq<Byte>)
    requires ValidInput(input)
    ensures |r| == 64
  {
    Bytes4(Number(input)) + Bytes4(input.arch) + [0, 0, 0, 0, 0, 0, 0, 0] + ArgBytes(input.args)
  }

  lemma {:induction false} ArgSlices(args: seq<nat>, i: nat)
    requires forall j :: 0 <= j < |args| ==> args[j] < 0x1_0000_0000_0000_0000
    requires i < |args|
    ensures ArgBytes(args)[8 * i..8 * i + 4] == Bytes4(Low(args[i]))
    ensures ArgBytes(args)[8 * i + 4..8 * i + 8] == Bytes4(High(args[i]))
  {
    hide Bytes4, Low, High;
    var head := Bytes4(Low(args[0])) + Bytes4(High(args[0]));
    var tail := ArgBytes(args[1..]);
    assert ArgBytes(args) == head + tail;
    if i == 0 {
      assert (head + tail)[0..4] == Bytes4(Low(args[0]));
      assert (head + tail)[4..8] == Bytes4(High(args[0]));
    } else {
      ArgSlices(args[1..], i - 1);
      assert (head + tail)[8 * i..8 * i + 4] == tail[8 * (i - 1)..8 * (i - 1) + 4];
      assert (head + tail)[8 * i + 4..8 * i + 8] == tail[8 * (i - 1) + 4..8 * (i - 1) + 8];
    }
  }

  /** The words the filter loads are the fields they are named after. */
  lemma LoadedWords(input: Input)
    requires ValidInput(input)
    ensures var d := Data(input);
            Word4(d[OFF_NR..OFF_NR + 4]) == Number(input) &&
            Word4(d[OFF_ARCH..OFF_ARCH + 4]) == input.arch &&
            Word4(d[OFF_ARGS..OFF_ARGS + 4]) == Low(input.args[0]) &&
            Word4(d[OFF_ARGS + 32..OFF_ARGS + 36]) == Low(input.args[4]) &&
            Word4(d[OFF_ARGS + 36..OFF_ARGS + 40]) == High(input.args[4])
  {
    hide Bytes4, Word4, Low, High, ArgBytes;
    var d, a := Data(input), ArgBytes(input.args);
    WordBytes(Number(input));
    WordBytes(input.arch);
    WordBytes(Low(input.args[0]));
    WordBytes(Low(input.args[4]));
    WordBytes(High(input.args[4]));
    ArgSlices(input.args, 0);
    ArgSlices(input.args, 4);
    assert d[0..4] == Bytes4(Number(input));
    assert d[4..8] == Bytes4(input.arch);
    assert d[16..20] == a[0..4];
    assert d[48..52] == a[32..36];
    assert d[52..56] == a[36..40];
  }

  lemma ZeroHalves(n: nat)
    requires n < 0x1_0000_0000_0000_0000
    ensures n == 0 <==> Low(n) == 0 && High(n) == 0
  {
  }

  // ---- the interpreter ----

  predicate Taken(code: Code, acc: Word, k: Word) {
    match code
    case JumpEq => acc == k
    case JumpGe => acc >= k
    case JumpGt => acc > k
    case JumpSet => TestBits(acc, k)
    case _ => false
  }

  /** The action a program returns from `pc` on; 0 for a malformed program. */
  function Run(prog: seq<Insn>, data: seq<Byte>, pc: nat, acc: Word): Word
    requires |data| == 64
    decreases |prog| - pc
  {
    if pc >= |prog| then 0
    else
      var ins := prog[pc];
      match ins.code
      case LoadWord => if ins.k > 60 then 0 else Run(prog, data, pc + 1, Word4(data[ins.k..ins.k + 4]))
      case Return => ins.k
      case Other(_) => 0
      case _ => Run(prog, data, pc + 1 + (if Taken(ins.code, acc, ins.k) then ins.jt else ins.jf), acc)
  }

  /** The interpreter loop; its step limit is never what stops it. */
  /** One instruction. */
  lemma RunStep(prog: seq<Insn>, data: seq<Byte>, pc: nat, acc: Word)
    requires |data| == 64 && pc < |prog|
    ensures var ins := prog[pc];
            Run(prog, data, pc, acc) ==
            match ins.code
            case LoadWord => if ins.k > 60 then 0 else Run(prog, data, pc + 1, Word4(data[ins.k..ins.k + 4]))
            case Return => ins.k
            case Other(_) => 0
            case _ => Run(prog, data, pc + 1 + (if Taken(ins.code, acc, ins.k) then ins.jt else ins.jf), acc)
  {
    hide Word4, Taken;
  }

  lemma RunEnd(prog: seq<Insn>, data: seq<Byte>, pc: nat, acc: Word)
    requires |data| == 64 && pc >= |prog|
    ensures Run(prog, data, pc, acc) == 0
  {
  }

  method Evaluate(prog: seq<Insn>, input: Input) returns (action: Word)
    requires ValidInput(input)
    ensures action == Run(prog, Data(input), 0, 0)
  {
    hide Run, Data, Word4, TestBits;
    var data := Data(input);
    var acc: Word := 0;
    var pc := 0;
    var steps := 0;
    while pc < |prog| && steps < |prog| + 1
      invariant steps <= pc && (pc >= |prog| || steps < |prog| + 1)
      invariant Run(prog, data, pc, acc) == Run(prog, data, 0, 0)
      decreases |prog| + 1 - steps
    {
      steps := steps + 1;
      var ins := prog[pc];
      RunStep(prog, data, pc, acc);
      match ins.code {
        case LoadWord =>
          if ins.k > 60 {
            return 0;
          }
          acc := Word4(data[ins.k..ins.k + 4]);
          pc := pc + 1;
        case JumpEq =>
          pc := pc + 1 + (if acc == ins.k then ins.jt else ins.jf);
        case JumpGe =>
          pc := pc + 1 + (if acc >= ins.k then ins.jt else ins.jf);
        case JumpGt =>
          pc := pc + 1 + (if acc > ins.k then ins.jt else ins.jf);
        case JumpSet =>
          pc := pc + 1 + (if TestBits(acc, ins.k) then ins.jt else ins.jf);
        case Return =>
          return ins.k;
        case Other(_) =>
          return 0;
      }
    }
    RunEnd(prog, data, pc, acc);
    return 0;
  }

  // ---- programs by block ----

  function Head(p: Policy): seq<Insn> {
    [Stmt(LoadWord, OFF_ARCH), Jump(JumpEq, p.arch, 1, 0), Stmt(Return, RET_TRACE), Stmt(LoadWord, OFF_NR)]
  }

  function X32Block(p: Policy): seq<Insn> {
    if p.checkX32 then [Jump(JumpGe, X32_BIT, 0, 1), Stmt(Return, RET_TRACE)] else []
  }

  function SocketBlock(p: Policy): seq<Insn>
    requires ValidPolicy(p)
  {
    if p.networkNone && p.nrSocket >= 0 then
      [Jump(JumpEq, p.nrSocket, 0, 4), Stmt(LoadWord, OFF_ARGS), Jump(JumpEq, AF_UNIX, 0, 1),
       Stmt(Return, RET_ALLOW), Stmt(Return, RET_EACCES)]
    else []
  }

  function CloneBlock(p: Policy): seq<Insn>
    requires ValidPolicy(p)
  {
    if p.nrClone >= 0 then
      [Jump(JumpEq, p.nrClone, 0, 4), Stmt(LoadWord, OFF_ARGS), Jump(JumpSet, CLONE_UNTRACED, 0, 1),
       Stmt(Return, RET_TRACE), Stmt(Return, RET_ALLOW)]
    else []
  }

  function SendtoBlock(p: Policy): seq<Insn>
    requires ValidPolicy(p)
  {
    if p.nrSendto >= 0 then
      [Jump(JumpEq, p.nrSendto, 0, 6), Stmt(LoadWord, OFF_ARGS + 32), Jump(JumpEq, 0, 0, 3),
       Stmt(LoadWord, OFF_ARGS + 36), Jump(JumpEq, 0, 0, 1), Stmt(Return, RET_ALLOW), Stmt(Return, RET_TRACE)]
    else []
  }

  datatype Range = Range(lo: Word, hi: Word)

  function RangeBlock(r: Range): seq<Insn> {
    [Jump(JumpGe, r.lo, 0, 2), Jump(JumpGt, r.hi, 1, 0), Stmt(Return, RET_ALLOW)]
  }

  function RangeBlocks(ranges: seq<Range>): seq<Insn> {
    if ranges == [] then [] else RangeBlock(ranges[0]) + RangeBlocks(ranges[1..])
  }

  predicate InRanges(ranges: seq<Range>, n: int) {
    exists i :: 0 <= i < |ranges| && ranges[i].lo <= n <= ranges[i].hi
  }

  predicate Placed(prog: seq<Insn>, at: nat, block: seq<Insn>) {
    at + |block| <= |prog| && forall i :: 0 <= i < |block| ==> prog[at + i] == block[i]
  }

  /** A program holding each of its parts in turn. */
  lemma PlacedConcat(a: seq<Insn>, b: seq<Insn>, c: seq<Insn>)
    ensures Placed(a + b + c, |a|, b)
  {
  }

  lemma JumpStep(prog: seq<Insn>, data: seq<Byte>, pc: nat, acc: Word)
    requires |data| == 64 && pc < |prog|
    requires prog[pc].code.JumpEq? || prog[pc].code.JumpGe? || prog[pc].code.JumpGt? || prog[pc].code.JumpSet?
    ensures Run(prog, data, pc, acc) ==
            Run(prog, data, pc + 1 + (if Taken(prog[pc].code, acc, prog[pc].k) then prog[pc].jt else prog[pc].jf), acc)
  {
  }

  lemma LoadStep(prog: seq<Insn>, data: seq<Byte>, pc: nat, acc: Word)
    requires |data| == 64 && pc < |prog| && prog[pc].code.LoadWord? && prog[pc].k <= 60
    ensures Run(prog, data, pc, acc) == Run(prog, data, pc + 1, Word4(data[prog[pc].k..prog[pc].k + 4]))
  {
  }

  lemma ReturnStep(prog: seq<Insn>, data: seq<Byte>, pc: nat, acc: Word)
    requires |data| == 64 && pc < |prog| && prog[pc].code.Return?
    ensures Run(prog, data, pc, acc) == prog[pc].k
  {
  }

  lemma HeadRuns(prog: seq<Insn>, p: Policy, input: Input)
    requires ValidInput(input) && Placed(prog, 0, Head(p))
    ensures Run(prog, Data(input), 0, 0) ==
            if input.arch != p.arch then RET_TRACE else Run(prog, Data(input), 4, Number(input))
  {
    hide Run, Word4, Data;
    var d := Data(input);
    LoadedWords(input);
    assert prog[0] == Head(p)[0] && prog[1] == Head(p)[1] && prog[2] == Head(p)[2] && prog[3] == Head(p)[3];
    LoadStep(prog, d, 0, 0);
    JumpStep(prog, d, 1, input.arch);
    ReturnStep(prog, d, 2, input.arch);
    LoadStep(prog, d, 3, input.arch);
  }

  lemma X32Runs(prog: seq<Insn>, p: Policy, input: Input, at: nat)
    requires ValidInput(input) && Placed(prog, at, X32Block(p))
    ensures Run(prog, Data(input), at, Number(input)) ==
            if p.checkX32 && Number(input) >= X32_BIT then RET_TRACE
            else Run(prog, Data(input), at + |X32Block(p)|, Number(input))
  {
    hide Run, Word4, Data;
    var d, nr := Data(input), Number(input);
    if p.checkX32 {
      assert prog[at + 0] == X32Block(p)[0] && prog[at + 1] == X32Block(p)[1];
      JumpStep(prog, d, at, nr);
      ReturnStep(prog, d, at + 1, nr);
    }
  }

  lemma SocketRuns(prog: seq<Insn>, p: Policy, input: Input, at: nat)
    requires ValidInput(input) && ValidPolicy(p) && Placed(prog, at, SocketBlock(p))
    ensures Run(prog, Data(input), at, Number(input)) ==
            if p.networkNone && p.nrSocket >= 0 && Number(input) == p.nrSocket then
              (if Low(input.args[0]) == AF_UNIX then RET_ALLOW else RET_EACCES)
            else Run(prog, Data(input), at + |SocketBlock(p)|, Number(input))
  {
    hide Run, Word4, Data, Number, Low;
    var d, nr, b := Data(input), Number(input), SocketBlock(p);
    if p.networkNone && p.nrSocket >= 0 {
      LoadedWords(input);
      var arg := Low(input.args[0]);
      assert prog[at + 0] == b[0] && prog[at + 1] == b[1] && prog[at + 2] == b[2] && prog[at + 3] == b[3] &&
             prog[at + 4] == b[4];
      JumpStep(prog, d, at, nr);
      LoadStep(prog, d, at + 1, nr);
      JumpStep(prog, d, at + 2, arg);
      ReturnStep(prog, d, at + 3, arg);
      ReturnStep(prog, d, at + 4, arg);
    }
  }

  lemma CloneRuns(prog: seq<Insn>, p: Policy, input: Input, at: nat)
    requires ValidInput(input) && ValidPolicy(p) && Placed(prog, at, CloneBlock(p))
    ensures Run(prog, Data(input), at, Number(input)) ==
            if p.nrClone >= 0 && Number(input) == p.nrClone then
              (if TestBits(Low(input.args[0]), CLONE_UNTRACED) then RET_TRACE else RET_ALLOW)
            else Run(prog, Data(input), at + |CloneBlock(p)|, Number(input))
  {
    hide Run, Word4, Data, Number, Low, TestBits;
    var d, nr, b := Data(input), Number(input), CloneBlock(p);
    if p.nrClone >= 0 {
      LoadedWords(input);
      var arg := Low(input.args[0]);
      assert prog[at + 0] == b[0] && prog[at + 1] == b[1] && prog[at + 2] == b[2] && prog[at + 3] == b[3] &&
             prog[at + 4] == b[4];
      JumpStep(prog, d, at, nr);
      LoadStep(prog, d, at + 1, nr);
      JumpStep(prog, d, at + 2, arg);
      ReturnStep(prog, d, at + 3, arg);
      ReturnStep(prog, d, at + 4, arg);
    }
  }

  lemma SendtoRuns(prog: seq<Insn>, p: Policy, input: Input, at: nat)
    requires ValidInput(input) && ValidPolicy(p) && Placed(prog, at, SendtoBlock(p))
    ensures Run(prog, Data(input), at, Number(input)) ==
            if p.nrSendto >= 0 && Number(input) == p.nrSendto then
              (if input.args[4] == 0 then RET_ALLOW else RET_TRACE)
            else Run(prog, Data(input), at + |SendtoBlock(p)|, Number(input))
  {
    hide Run, Word4, Data, Number, Low, High;
    var d, nr, b := Data(input), Number(input), SendtoBlock(p);
    if p.nrSendto >= 0 {
      LoadedWords(input);
      ZeroHalves(input.args[4]);
      var lo, hi := Low(input.args[4]), High(input.args[4]);
      assert prog[at + 0] == b[0] && prog[at + 1] == b[1] && prog[at + 2] == b[2] && prog[at + 3] == b[3];
      assert prog[at + 4] == b[4] && prog[at + 5] == b[5] && prog[at + 6] == b[6];
      JumpStep(prog, d, at, nr);
      LoadStep(prog, d, at + 1, nr);
      JumpStep(prog, d, at + 2, lo);
      LoadStep(prog, d, at + 3, lo);
      JumpStep(prog, d, at + 4, hi);
      ReturnStep(prog, d, at + 5, hi);
      ReturnStep(prog, d, at + 6, hi);
      ReturnStep(prog, d, at + 6, lo);
    }
  }

  lemma RangeRuns(prog: seq<Insn>, r: Range, data: seq<Byte>, at: nat, nr: Word)
    requires |data| == 64 && Placed(prog, at, RangeBlock(r)) && at + 3 < |prog|
    ensures Run(prog, data, at, nr) == if r.lo <= nr <= r.hi then RET_ALLOW else Run(prog, data, at + 3, nr)
  {
    hide Run, Word4;
    var b := RangeBlock(r);
    assert prog[at + 0] == b[0] && prog[at + 1] == b[1] && prog[at + 2] == b[2];
    JumpStep(prog, data, at, nr);
    JumpStep(prog, data, at + 1, nr);
    ReturnStep(prog, data, at + 2, nr);
  }

  lemma RangeBlocksLength(ranges: seq<Range>)
    ensures |RangeBlocks(ranges)| == 3 * |ranges|
  {
  }

  lemma {:induction false} RangesRun(prog: seq<Insn>, ranges: seq<Range>, data: seq<Byte>, at: nat, nr: Word)
    requires |data| == 64 && Placed(prog, at, RangeBlocks(ranges)) && at + |RangeBlocks(ranges)| < |prog|
    ensures Run(prog, data, at, nr) ==
            if InRanges(ranges, nr) then RET_ALLOW else Run(prog, data, at + |RangeBlocks(ranges)|, nr)
    decreases |ranges|
  {
    hide Run;
    if ranges != [] {
      var rest := RangeBlocks(ranges[1..]);
      var all := RangeBlocks(ranges);
      assert all == RangeBlock(ranges[0]) + rest;
      forall i | 0 <= i < 3 ensures prog[at + i] == RangeBlock(ranges[0])[i] {
        assert all[i] == RangeBlock(ranges[0])[i];
      }
      forall i | 0 <= i < |rest| ensures prog[at + 3 + i] == rest[i] {
        assert all[3 + i] == rest[i];
        assert prog[at + (3 + i)] == all[3 + i];
      }
      RangeRuns(prog, ranges[0], data, at, nr);
      RangesRun(prog, ranges[1..], data, at + 3, nr);
      assert InRanges(ranges, nr) <==> (ranges[0].lo <= nr <= ranges[0].hi) || InRanges(ranges[1..], nr) by {
        InRangesHead(ranges, nr);
      }
    }
  }

  lemma InRangesHead(ranges: seq<Range>, n: int)
    requires ranges != []
    ensures InRanges(ranges, n) <==> (ranges[0].lo <= n <= ranges[0].hi) || InRanges(ranges[1..], n)
  {
    if InRanges(ranges, n) {
      var i :| 0 <= i < |ranges| && ranges[i].lo <= n <= ranges[i].hi;
      if i > 0 {
        assert ranges[1..][i - 1] == ranges[i];
      }
    }
    if InRanges(ranges[1..], n) {
      var i :| 0 <= i < |ranges[1..]| && ranges[1..][i].lo <= n <= ranges[1..][i].hi;
      assert ranges[i + 1] == ranges[1..][i];
    }
  }

  /** The blocks in front of the ranges. */
  function Front(p: Policy): seq<Insn>
    requires ValidPolicy(p)
  {
    Head(p) + X32Block(p) + SocketBlock(p) + CloneBlock(p) + SendtoBlock(p)
  }

  function Program(p: Policy, ranges: seq<Range>): seq<Insn>
    requires ValidPolicy(p)
  {
    Front(p) + RangeBlocks(ranges) + [Stmt(Return, RET_TRACE)]
  }

  /** Ranges that hold exactly the non-negative allowed numbers. */
  ghost predicate Cover(ranges: seq<Range>, allow: seq<int>) {
    forall n: nat :: InRanges(ranges, n) <==> n in allow
  }

  lemma Regrouped(h: seq<Insn>, x: seq<Insn>, s: seq<Insn>, c: seq<Insn>, t: seq<Insn>, r: seq<Insn>, z: seq<Insn>)
    ensures var prog := h + x + s + c + t + r + z;
            prog == [] + h + (x + s + c + t + r + z) && prog == h + x + (s + c + t + r + z) &&
            prog == (h + x) + s + (c + t + r + z) && prog == (h + x + s) + c + (t + r + z) &&
            prog == (h + x + s + c) + t + (r + z) && prog == (h + x + s + c + t) + r + z
  {
  }

  lemma PlacedParts(p: Policy, ranges: seq<Range>)
    requires ValidPolicy(p)
    ensures var prog := Program(p, ranges);
            var a := 4;
            var b := a + |X32Block(p)|;
            var c := b + |SocketBlock(p)|;
            var d := c + |CloneBlock(p)|;
            var e := d + |SendtoBlock(p)|;
            Placed(prog, 0, Head(p)) && Placed(prog, a, X32Block(p)) && Placed(prog, b, SocketBlock(p)) &&
            Placed(prog, c, CloneBlock(p)) && Placed(prog, d, SendtoBlock(p)) && Placed(prog, e, RangeBlocks(ranges)) &&
            |prog| == e + |RangeBlocks(ranges)| + 1 && prog[|prog| - 1] == Stmt(Return, RET_TRACE)
  {
    hide X32Block, SocketBlock, CloneBlock, SendtoBlock, RangeBlocks, Placed;
    var h, x, s, c, t, r := Head(p), X32Block(p), SocketBlock(p), CloneBlock(p), SendtoBlock(p), RangeBlocks(ranges);
    var z := [Stmt(Return, RET_TRACE)];
    Regrouped(h, x, s, c, t, r, z);
    PlacedConcat([], h, x + s + c + t + r + z);
    PlacedConcat(h, x, s + c + t + r + z);
    PlacedConcat(h + x, s, c + t + r + z);
    PlacedConcat(h + x + s, c, t + r + z);
    PlacedConcat(h + x + s + c, t, r + z);
    PlacedConcat(h + x + s + c + t, r, z);
  }

  /** Interpreting the compiled program takes the decision the policy asks for. */
  lemma ProgramDecides(p: Policy, ranges: seq<Range>, input: Input)
    requires ValidPolicy(p) && ValidInput(input) && Cover(ranges, p.allow)
    ensures Run(Program(p, ranges), Data(input), 0, 0) == Decide(p, input)
  {
    hide Run, Data, Program, Placed, Number, Low, High, TestBits, InRanges, RangeBlocks, X32Block, SocketBlock,
         CloneBlock, SendtoBlock;
    PlacedParts(p, ranges);
    var prog := Program(p, ranges);
    var a := 4;
    var b := a + |X32Block(p)|;
    var c := b + |SocketBlock(p)|;
    var d := c + |CloneBlock(p)|;
    var e := d + |SendtoBlock(p)|;
    HeadRuns(prog, p, input);
    X32Runs(prog, p, input, a);
    SocketRuns(prog, p, input, b);
    CloneRuns(prog, p, input, c);
    SendtoRuns(prog, p, input, d);
    RangesRun(prog, ranges, Data(input), e, Number(input));
    ReturnStep(prog, Data(input), e + |RangeBlocks(ranges)|, Number(input));
    assert InRanges(ranges, Number(input)) <==> Number(input) in p.allow;
  }

  // ---- no jump leaves the program ----

  /** Every jump lands on an instruction, every load is inside the data, every code is known, and
      control cannot run off the end. */
  predicate Safe(prog: seq<Insn>) {
    prog != [] && prog[|prog| - 1].code.Return? &&
    forall i :: 0 <= i < |prog| ==>
      !prog[i].code.Other? && (prog[i].code.LoadWord? ==> prog[i].k <= 60) &&
      i + 1 + prog[i].jt < |prog| + (if prog[i].code.Return? then 1 else 0) &&
      i + 1 + prog[i].jf < |prog| + (if prog[i].code.Return? then 1 else 0)
  }

  /** Inside a block a jump goes no further than just behind it. */
  predicate Contained(block: seq<Insn>) {
    forall i :: 0 <= i < |block| ==>
      !block[i].code.Other? && (block[i].code.LoadWord? ==> block[i].k <= 60) &&
      i + 1 + block[i].jt <= |block| && i + 1 + block[i].jf <= |block|
  }

  lemma ContainedConcat(a: seq<Insn>, b: seq<Insn>)
    requires Contained(a) && Contained(b)
    ensures Contained(a + b)
  {
    var c := a + b;
    forall i | 0 <= i < |c|
      ensures !c[i].code.Other? && (c[i].code.LoadWord? ==> c[i].k <= 60)
      ensures i + 1 + c[i].jt <= |c| && i + 1 + c[i].jf <= |c|
    {
      if i < |a| {
        assert c[i] == a[i];
      } else {
        assert c[i] == b[i - |a|];
      }
    }
  }

  lemma {:induction false} RangesContained(ranges: seq<Range>)
    ensures Contained(RangeBlocks(ranges))
  {
    if ranges != [] {
      RangesContained(ranges[1..]);
      ContainedConcat(RangeBlock(ranges[0]), RangeBlocks(ranges[1..]));
    }
  }

  lemma ProgramSafe(p: Policy, ranges: seq<Range>)
    requires ValidPolicy(p)
    ensures Safe(Program(p, ranges))
  {
    hide RangeBlocks, Contained;
    BlocksContained(p);
    RangesContained(ranges);
    ContainedConcat(Head(p), X32Block(p));
    ContainedConcat(Head(p) + X32Block(p), SocketBlock(p));
    ContainedConcat(Head(p) + X32Block(p) + SocketBlock(p), CloneBlock(p));
    ContainedConcat(Head(p) + X32Block(p) + SocketBlock(p) + CloneBlock(p), SendtoBlock(p));
    ContainedConcat(Front(p), RangeBlocks(ranges));
    ClosedIsSafe(Front(p) + RangeBlocks(ranges), Stmt(Return, RET_TRACE));
  }

  lemma BlocksContained(p: Policy)
    requires ValidPolicy(p)
    ensures Contained(Head(p)) && Contained(X32Block(p)) && Contained(SocketBlock(p)) && Contained(CloneBlock(p)) &&
            Contained(SendtoBlock(p))
  {
  }

  lemma ClosedIsSafe(block: seq<Insn>, last: Insn)
    requires Contained(block) && last.code.Return? && last.jt == 0 && last.jf == 0
    ensures Safe(block + [last])
  {
    var c := block + [last];
    forall i | 0 <= i < |c|
      ensures !c[i].code.Other? && (c[i].code.LoadWord? ==> c[i].k <= 60)
      ensures i + 1 + c[i].jt < |c| + (if c[i].code.Return? then 1 else 0)
      ensures i + 1 + c[i].jf < |c| + (if c[i].code.Return? then 1 else 0)
    {
      if i < |block| {
        assert c[i] == block[i];
      }
    }
  }

  /** A safe program ends with one of its own return values: the value for malformed programs is never
      reached. */
  lemma {:induction false} SafeReturns(prog: seq<Insn>, data: seq<Byte>, pc: nat, acc: Word)
    requires Safe(prog) && |data| == 64 && pc < |prog|
    ensures exists i :: pc <= i < |prog| && prog[i].code.Return? && Run(prog, data, pc, acc) == prog[i].k
    decreases |prog| - pc
  {
    var ins := prog[pc];
    if ins.code.LoadWord? {
      SafeReturns(prog, data, pc + 1, Word4(data[ins.k..ins.k + 4]));
    } else if !ins.code.Return? {
      SafeReturns(prog, data, pc + 1 + (if Taken(ins.code, acc, ins.k) then ins.jt else ins.jf), acc);
    }
  }

  // ---- the compiler ----

  /** std::sort and std::unique: strictly increasing, with the same members. */
  function Insert(s: seq<int>, n: int): (r: seq<int>)
    requires forall i, j :: 0 <= i < j < |s| ==> s[i] < s[j]
    ensures forall i, j :: 0 <= i < j < |r| ==> r[i] < r[j]
    ensures forall x :: x in r <==> x in s || x == n
  {
    if s == [] then [n]
    else if n < s[0] then [n] + s
    else if n == s[0] then s
    else
      var t := Insert(s[1..], n);
      assert forall x :: x in s <==> x == s[0] || x in s[1..];
      assert forall j :: 0 <= j < |t| ==> t[j] in t && s[0] < t[j];
      [s[0]] + t
  }

  function SortedUnique(s: seq<int>): (r: seq<int>)
    ensures forall i, j :: 0 <= i < j < |r| ==> r[i] < r[j]
    ensures forall x :: x in r <==> x in s
  {
    if s == [] then [] else Insert(SortedUnique(s[1..]), s[0])
  }

  lemma RangeBlocksSnoc(ranges: seq<Range>, r: Range)
    ensures RangeBlocks(ranges + [r]) == RangeBlocks(ranges) + RangeBlock(r)
  {
    if ranges == [] {
      assert ranges + [r] == [r];
      assert [r][1..] == [];
    } else {
      RangeBlocksSnoc(ranges[1..], r);
      assert (ranges + [r])[1..] == ranges[1..] + [r];
    }
  }

  lemma InRangesSnoc(ranges: seq<Range>, r: Range, n: int)
    ensures InRanges(ranges + [r], n) <==> InRanges(ranges, n) || r.lo <= n <= r.hi
  {
    var all := ranges + [r];
    if InRanges(ranges, n) {
      var i :| 0 <= i < |ranges| && ranges[i].lo <= n <= ranges[i].hi;
      assert all[i] == ranges[i];
    }
    if r.lo <= n <= r.hi {
      assert all[|ranges|] == r;
    }
  }

  /** The compression loop: contiguous runs of the sorted allow list become range tests. */
  method CompressRanges(nrs: seq<int>, front: seq<Insn>) returns (f: seq<Insn>)
    requires forall i, j :: 0 <= i < j < |nrs| ==> nrs[i] < nrs[j]
    requires forall n :: n in nrs ==> n < 0x1_0000_0000
    ensures exists ranges :: f == front + RangeBlocks(ranges) && Cover(ranges, nrs)
  {
    hide RangeBlock, RangeBlocks, InRanges;
    f := front;
    ghost var ranges: seq<Range> := [];
    var i := 0;
    assert RangeBlocks([]) == [] by { RangeBlocksLength([]); }
    assert front + [] == front;
    assert forall n: nat :: !InRanges([], n) by { NoRanges(); }
    while i < |nrs|
      invariant 0 <= i <= |nrs|
      invariant f == front + RangeBlocks(ranges)
      invariant forall n: nat :: InRanges(ranges, n) <==> n in nrs[..i]
    {
      ghost var i0 := i;
      if nrs[i] < 0 {
        assert nrs[..i + 1] == nrs[..i] + [nrs[i]];
        i := i + 1;
        continue;
      }
      var lo := nrs[i];
      var hi := lo;
      while i + 1 < |nrs| && nrs[i + 1] == hi + 1
        invariant i0 <= i < |nrs| && lo <= hi == nrs[i] == lo + (i - i0)
        invariant forall k :: i0 <= k <= i ==> nrs[k] == lo + (k - i0)
      {
        i := i + 1;
        hi := hi + 1;
      }
      i := i + 1;
      assert nrs[i0] in nrs && nrs[i - 1] in nrs;
      var r := Range(lo, hi);
      forall n: nat ensures InRanges(ranges + [r], n) <==> n in nrs[..i] {
        InRangesSnoc(ranges, r, n);
        RunMembers(nrs, i0, i, lo, n);
      }
      RangeBlocksSnoc(ranges, r);
      f := f + RangeBlock(r);
      ranges := ranges + [r];
    }
    assert nrs[..i] == nrs;
    assert Cover(ranges, nrs);
  }

  lemma RunMembers(nrs: seq<int>, i0: nat, i: nat, lo: int, n: int)
    requires i0 < i <= |nrs| && forall k :: i0 <= k < i ==> nrs[k] == lo + (k - i0)
    ensures n in nrs[..i] <==> n in nrs[..i0] || lo <= n <= lo + (i - 1 - i0)
  {
    assert nrs[..i] == nrs[..i0] + nrs[i0..i];
    if lo <= n <= lo + (i - 1 - i0) {
      assert nrs[i0..i][n - lo] == n;
    }
  }

  lemma NoRanges()
    ensures forall n: nat :: !InRanges([], n)
  {
  }

  /** The instructions in front of the ranges, pushed one by one. */
  method BuildFront(p: Policy) returns (f: seq<Insn>)
    requires ValidPolicy(p)
    ensures f == Front(p)
  {
    f := Head(p);
    ghost var x, s, c, t := X32Block(p), SocketBlock(p), CloneBlock(p), SendtoBlock(p);
    if p.checkX32 {
      f := f + [Jump(JumpGe, X32_BIT, 0, 1), Stmt(Return, RET_TRACE)];
    }
    assert f == Head(p) + x;
    if p.networkNone && p.nrSocket >= 0 {
      f := f + [Jump(JumpEq, p.nrSocket, 0, 4), Stmt(LoadWord, OFF_ARGS), Jump(JumpEq, AF_UNIX, 0, 1),
                Stmt(Return, RET_ALLOW), Stmt(Return, RET_EACCES)];
    }
    assert f == Head(p) + x + s;
    if p.nrClone >= 0 {
      f := f + [Jump(JumpEq, p.nrClone, 0, 4), Stmt(LoadWord, OFF_ARGS), Jump(JumpSet, CLONE_UNTRACED, 0, 1),
                Stmt(Return, RET_TRACE), Stmt(Return, RET_ALLOW)];
    }
    assert f == Head(p) + x + s + c;
    if p.nrSendto >= 0 {
      f := f + [Jump(JumpEq, p.nrSendto, 0, 6), Stmt(LoadWord, OFF_ARGS + 32), Jump(JumpEq, 0, 0, 3),
                Stmt(LoadWord, OFF_ARGS + 36), Jump(JumpEq, 0, 0, 1), Stmt(Return, RET_ALLOW), Stmt(Return, RET_TRACE)];
    }
    assert f == Head(p) + x + s + c + t;
  }

  /** A program that takes the policy's decision on every input. */
  ghost predicate Compiled(f: seq<Insn>, p: Policy) {
    forall input :: ValidInput(input) ==> Run(f, Data(input), 0, 0) == Decide(p, input)
  }

  /** `build_seccomp_filter`: for every input, interpreting the program gives the policy's decision;
      no jump leaves it, and it always ends in one of its own returns. */
  method Build(p: Policy) returns (f: seq<Insn>)
    requires ValidPolicy(p)
    ensures Compiled(f, p) && Safe(f)
    ensures forall data: seq<Byte> :: |data| == 64 ==>
              exists i :: 0 <= i < |f| && f[i].code.Return? && Run(f, data, 0, 0) == f[i].k
  {
    hide Run, RangeBlocks, InRanges, Decide, Data, Safe, Front;
    f := BuildFront(p);
    var nrs := SortedUnique(p.allow);
    f := CompressRanges(nrs, f);
    ghost var ranges :| f == Front(p) + RangeBlocks(ranges) && Cover(ranges, nrs);
    f := f + [Stmt(Return, RET_TRACE)];
    assert f == Program(p, ranges);
    assert Cover(ranges, p.allow);
    forall input | ValidInput(input) ensures Run(f, Data(input), 0, 0) == Decide(p, input) {
      ProgramDecides(p, ranges, input);
    }
    ProgramSafe(p, ranges);
    SafeNonEmpty(f);
    forall data: seq<Byte> | |data| == 64
      ensures exists i :: 0 <= i < |f| && f[i].code.Return? && Run(f, data, 0, 0) == f[i].k
    {
      SafeReturns(f, data, 0, 0);
    }
  }

  lemma SafeNonEmpty(prog: seq<Insn>)
    requires Safe(prog)
    ensures prog != []
  {
  }
}
