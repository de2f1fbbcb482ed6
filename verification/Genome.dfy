/**
 A member of the population (lgp.c, lgp.h): a byte buffer, a signed boundary table and two
 lengths, all rewritten in place.  `Represents` ties them to a sequence of instructions, and
 every operation is proved to do to the bytes what its specification does to the sequence.
 */
module Genome {
  import opened FastRand
  import opened Opcodes
  import opened Layouts

  /** Compile-time limits and per-trial settings. */
  datatype Config = Config(
    frame: Frame, minInstrs: int, maxInstrs: int, nregisters: int,
    nconstants: int, ninputs: int, constantBase: int, inputBase: int)
  {
    /**
     A header and footer that fit, enough room between the limits for `init_programs`, and 1 to 8
     registers.
     */
    ghost predicate Valid() {
      && frame.Fits()
      && 1 <= minInstrs && 10 * minInstrs <= maxInstrs
      && 1 <= nregisters <= 8
      && Placed()
    }

    /** Two disjoint arrays of doubles at addresses that are not negative as a 32-bit long. */
    ghost predicate Placed() {
      && 0 < nconstants && 0 < ninputs
      && 0 <= constantBase && constantBase + 8 * nconstants <= 0x8000_0000
      && 0 <= inputBase && inputBase + 8 * ninputs <= 0x8000_0000
      && (constantBase + 8 * nconstants <= inputBase || inputBase + 8 * ninputs <= constantBase)
    }

    /** No element is at address 0, which a disassembler that drops zero displacements cannot print. */
    ghost predicate Printable() {
      constantBase != 0 && inputBase != 0
    }

    /** `&constant[k]` and `&input[k]`. */
    function ConstantAddress(k: int): int {
      constantBase + 8 * k
    }

    function InputAddress(k: int): int {
      inputBase + 8 * k
    }

    ghost predicate IsConstant(a: int) {
      exists k :: 0 <= k < nconstants && a == ConstantAddress(k)
    }

    ghost predicate IsInput(a: int) {
      exists k :: 0 <= k < ninputs && a == InputAddress(k)
    }

    /** What the generator can produce: registers below the trial's limit, real addresses. */
    ghost predicate Generates(ins: Instr) {
      || (exists i: NoArgOp :: ins == NoArg(i))
      || (exists i: RegOp, r: Register :: r < nregisters && ins == RegArg(i, r))
      || (exists i: MemOp, a: Address :: (IsConstant(a) || IsInput(a)) && ins == MemArg(i, a))
    }

    /** A program the system may hold. */
    ghost predicate WellFormed(p: seq<Instr>) {
      && minInstrs <= |p| <= maxInstrs
      && forall i :: 0 <= i < |p| ==> Generates(p[i])
    }
  }

  function Abs(x: int): int {
    if x >= 0 then x else -x
  }

  function Min2(x: int, y: int): int {
    if x < y then x else y
  }

  class Pop {
    const indices: array<int>
    const code: array<byte>
    var ninstr: int
    var codelen: int
    var error: real

    /** The program the buffers hold, once there is one. */
    ghost var prog: seq<Instr>

    /** Buffers of the declared sizes. */
    ghost predicate Storage(cfg: Config) {
      && 0 <= cfg.maxInstrs
      && indices.Length == cfg.maxInstrs + 1
      && code.Length == 6 * cfg.maxInstrs + MAXHEADERLEN + MAXFOOTERLEN
      && cfg.frame.Fits()
    }

    /** A slot of the population: storage with the header in place. */
    ghost predicate Slot(cfg: Config)
      reads this, code
    {
      && Storage(cfg)
      && code[..|cfg.frame.header|] == cfg.frame.header
    }

    ghost predicate HasIndices(fr: Frame, p: seq<Instr>)
      reads this, indices
    {
      && ninstr == |p| < indices.Length
      && forall i :: 0 <= i <= |p| ==> indices[i] == SignedIndex(fr, p, i)
    }

    /** The buffers hold exactly this program. */
    ghost predicate Represents(fr: Frame, p: seq<Instr>)
      reads this, indices, code
    {
      && HasIndices(fr, p)
      && codelen == |Layout(fr, p)| <= code.Length
      && code[..codelen] == Layout(fr, p)
    }

    /** An individual the system may hold at any time between two calls. */
    ghost predicate Holds(cfg: Config, p: seq<Instr>)
      reads this, indices, code
    {
      Slot(cfg) && cfg.WellFormed(p) && Represents(cfg.frame, p)
    }

    /** Fresh, uninitialised storage. */
    constructor (cfg: Config)
      requires cfg.Valid()
      ensures Storage(cfg) && fresh(indices) && fresh(code)
    {
      indices := new int[cfg.maxInstrs + 1];
      code := new byte[6 * cfg.maxInstrs + MAXHEADERLEN + MAXFOOTERLEN];
    }
  }

  /** The two individuals share no storage. */
  ghost predicate Apart(a: Pop, b: Pop) {
    a != b && a.indices != b.indices && a.code != b.code
  }

  // ---- one random instruction ---------------------------------------------------

  lemma GeneratesNoArg(cfg: Config, i: NoArgOp)
    ensures cfg.Generates(NoArg(i))
  {
  }

  lemma GeneratesRegArg(cfg: Config, i: RegOp, r: Register)
    requires r < cfg.nregisters
    ensures cfg.Generates(RegArg(i, r))
  {
  }

  lemma GeneratesMemArg(cfg: Config, i: MemOp, a: Address)
    requires cfg.IsConstant(a) || cfg.IsInput(a)
    ensures cfg.Generates(MemArg(i, a))
  {
  }

  /** The operand address two draws give. */
  function AddressDrawn(cfg: Config, d: seq<real>): (a: Address)
    requires cfg.Valid() && |d| == 2
    ensures cfg.IsConstant(a) || cfg.IsInput(a)
  {
    if d[0] > FREQCONST then cfg.ConstantAddress(Index(cfg.nconstants, d[1]))
    else cfg.InputAddress(Index(cfg.ninputs, d[1]))
  }

  /** The instruction up to four draws give: each of the three kinds gets a third of the first one. */
  function Generated(cfg: Config, d: seq<real>): Instr
    requires cfg.Valid() && |d| == 4
  {
    if d[0] < 0.333 then NoArg(Index(NNOARG, d[1]))
    else if d[0] < 0.666 then RegArg(Index(NREGARG, d[1]), Index(cfg.nregisters, d[2]))
    else MemArg(Index(NSIXBYTE, d[1]), AddressDrawn(cfg, d[2..4]))
  }

  /** How many of the draws it takes. */
  function GeneratingDraws(d: seq<real>): nat
    requires |d| == 4
  {
    if d[0] < 0.333 then 2 else if d[0] < 0.666 then 3 else 4
  }

  lemma GeneratedIsGenerated(cfg: Config, d: seq<real>)
    requires cfg.Valid() && |d| == 4
    ensures cfg.Generates(Generated(cfg, d))
  {
    hide Config.Generates, Config.IsConstant, Config.IsInput, NoArg, RegArg, MemArg;
    if d[0] < 0.333 {
      GeneratesNoArg(cfg, Index(NNOARG, d[1]));
    } else if d[0] < 0.666 {
      GeneratesRegArg(cfg, Index(NREGARG, d[1]), Index(cfg.nregisters, d[2]));
    } else {
      GeneratesMemArg(cfg, Index(NSIXBYTE, d[1]), AddressDrawn(cfg, d[2..4]));
    }
  }

  /** Every address of an element can be drawn. */
  lemma EveryAddressIsDrawn(cfg: Config, a: Address) returns (d: seq<real>)
    requires cfg.Valid() && (cfg.IsConstant(a) || cfg.IsInput(a))
    ensures |d| == 2 && UnitDraws(d) && AddressDrawn(cfg, d) == a
  {
    if k :| 0 <= k < cfg.nconstants && a == cfg.ConstantAddress(k) {
      var r := EveryIndexIsDrawn(cfg.nconstants, k);
      d := [0.75, r];
    } else {
      var k :| 0 <= k < cfg.ninputs && a == cfg.InputAddress(k);
      var r := EveryIndexIsDrawn(cfg.ninputs, k);
      d := [0.25, r];
    }
  }

  /** Every instruction of the language, every register of the trial and every element can be drawn. */
  lemma EveryInstructionIsDrawn(cfg: Config, x: Instr) returns (d: seq<real>)
    requires cfg.Valid() && cfg.Generates(x)
    ensures |d| == 4 && UnitDraws(d) && Generated(cfg, d) == x
  {
    hide NoArg, RegArg, MemArg, Index, Config.IsConstant, Config.IsInput, AddressDrawn;
    if i: NoArgOp :| x == NoArg(i) {
      var r := EveryIndexIsDrawn(NNOARG, i);
      d := [0.0, r, 0.0, 0.0];
    } else if i: RegOp, n: Register :| n < cfg.nregisters && x == RegArg(i, n) {
      var r := EveryIndexIsDrawn(NREGARG, i);
      var t := EveryIndexIsDrawn(cfg.nregisters, n);
      d := [0.5, r, t, 0.0];
    } else {
      var i: MemOp, a: Address :| (cfg.IsConstant(a) || cfg.IsInput(a)) && x == MemArg(i, a);
      var r := EveryIndexIsDrawn(NSIXBYTE, i);
      var e := EveryAddressIsDrawn(cfg, a);
      d := [0.75, r] + e;
      assert d[2..4] == e;
    }
  }

  /** The instruction with this encoding; the sign of the length tells register opcodes apart. */
  method RandomInstruction(cfg: Config, rng: Generator) returns (code: seq<byte>, len: int, ghost ins: Instr)
    requires cfg.Valid() && rng.Valid()
    modifies rng
    ensures rng.Valid()
    ensures cfg.Generates(ins) && code == ins.bytes && (|code| == 2 || |code| == 6)
    ensures len == if ins.register then -|code| else |code|
    ensures var s := old(rng.State());
            ins == Generated(cfg, Draws(s, 4)) && rng.State() == Run(s, GeneratingDraws(Draws(s, 4)))
  {
    hide Config.Generates, Config.IsConstant, Config.IsInput, Index, Draw, Step;
    ghost var s := rng.State();
    FirstCalls(s);
    FirstDraws(s);
    GeneratedIsGenerated(cfg, Draws(s, 4));
    var rand := rng.Fastrand();
    if rand < 0.333 {
      var inst := rng.Below(NNOARG);
      code := [TWOBYTE_NOARG[2 * inst], TWOBYTE_NOARG[2 * inst + 1]];
      len := 2;
      ins := NoArg(inst);
    } else if rand < 0.666 {
      var inst := rng.Below(NREGARG);
      var r := rng.Below(cfg.nregisters);
      code := [TWOBYTE_REGARG[2 * inst], RegByte(inst, r)];
      len := -2;
      ins := RegArg(inst, r);
    } else {
      var inst := rng.Below(NSIXBYTE);
      var arg := RandomAddress(cfg, rng);
      code := [SIXBYTE[2 * inst], SIXBYTE[2 * inst + 1]] + LittleEndian(arg);
      len := 6;
      ins := MemArg(inst, arg);
    }
  }

  const FREQCONST := 0.5

  /** `&constant[k]` or `&input[k]` for a random `k`. */
  method RandomAddress(cfg: Config, rng: Generator) returns (arg: Address)
    requires cfg.Valid() && rng.Valid()
    modifies rng
    ensures rng.Valid() && rng.State() == Run(old(rng.State()), 2)
    ensures arg == AddressDrawn(cfg, Draws(old(rng.State()), 2))
    ensures cfg.IsConstant(arg) || cfg.IsInput(arg)
  {
    hide Draw, Step;
    FirstCalls(rng.State());
    FirstDraws(rng.State());
    var which := rng.Fastrand();
    if which > FREQCONST {
      var k := rng.Below(cfg.nconstants);
      arg := cfg.ConstantAddress(k);
    } else {
      var k := rng.Below(cfg.ninputs);
      arg := cfg.InputAddress(k);
    }
  }

  // ---- a whole random program -----------------------------------------------------

  /** Writes `bytes` at `at`, leaving every other byte alone. */
  method Append(buf: array<byte>, at: nat, bytes: seq<byte>)
    requires at + |bytes| <= buf.Length
    modifies buf
    ensures buf[..at + |bytes|] == old(buf[..at]) + bytes
  {
    for k := 0 to |bytes|
      invariant buf[..at + k] == old(buf[..at]) + bytes[..k]
    {
      buf[at + k] := bytes[k];
      assert buf[..at + k + 1] == buf[..at + k] + [bytes[k]];
    }
  }

  /** An unfinished program: its bytes end at `end`, and everything but the footer is in place. */
  ghost predicate Partial(cfg: Config, q: Pop, p: seq<Instr>, end: int)
    reads q, q.indices, q.code
  {
    && q.Storage(cfg)
    && q.HasIndices(cfg.frame, p)
    && end == |cfg.frame.header| + |Flat(p)| <= |cfg.frame.header| + 6 * |p|
    && q.code[..end] == cfg.frame.header + Flat(p)
  }

  /** Generates one instruction and copies it onto the end of the program. */
  method AppendInstruction(cfg: Config, rng: Generator, q: Pop, ghost p: seq<Instr>) returns (ghost ins: Instr)
    requires cfg.Valid() && rng.Valid() && Partial(cfg, q, p, q.codelen) && |p| < cfg.maxInstrs
    modifies rng, q`ninstr, q`codelen, q.indices, q.code
    ensures rng.Valid() && cfg.Generates(ins) && Partial(cfg, q, p + [ins], q.codelen)
    ensures var s := old(rng.State());
            ins == Generated(cfg, Draws(s, 4)) && rng.State() == Run(s, GeneratingDraws(Draws(s, 4)))
  {
    hide Flat, Config.Generates, Generated, GeneratingDraws, Run, Partial;
    var code, len;
    code, len, ins := RandomInstruction(cfg, rng);
    AppendEncoded(cfg, q, code, len, p, ins);
  }

  method AppendEncoded(cfg: Config, q: Pop, code: seq<byte>, len: int, ghost p: seq<Instr>, ghost ins: Instr)
    requires Partial(cfg, q, p, q.codelen) && |p| < cfg.maxInstrs
    requires code == ins.bytes && (|code| == 2 || |code| == 6) && len == if ins.register then -|code| else |code|
    modifies q`ninstr, q`codelen, q.indices, q.code
    ensures Partial(cfg, q, p + [ins], q.codelen)
  {
    hide Flat;
    ghost var fr, longer := cfg.frame, p + [ins];
    ExtendOffset(fr, p, ins);
    ExtendIndices(fr, p, [ins]);
    SignedIndexMagnitude(fr, p, |p|);
    Append(q.code, q.codelen, code);
    assert q.code[..q.codelen + |code|] == fr.header + Flat(longer);
    q.codelen := q.codelen + |code|;
    q.indices[q.ninstr + 1] := Abs(len) + Abs(q.indices[q.ninstr]);
    if len < 0 {
      q.indices[q.ninstr + 1] := -q.indices[q.ninstr + 1];
    }
    assert longer[|p|] == ins;
    assert q.indices[|p| + 1] == SignedIndex(fr, longer, |p| + 1);
    q.ninstr := q.ninstr + 1;
  }

  /** The header alone. */
  method BeginProgram(cfg: Config, q: Pop)
    requires cfg.Valid()
    requires q.Storage(cfg)
    modifies q`ninstr, q`codelen, q`error, q.indices, q.code
    ensures Partial(cfg, q, [], q.codelen)
  {
    Append(q.code, 0, cfg.frame.header);
    q.codelen := |cfg.frame.header|;
    q.ninstr := 0;
    q.indices[0] := |cfg.frame.header|;
    q.error := 0.0;
  }

  /** The footer closes the program. */
  method CloseProgram(cfg: Config, q: Pop, ghost p: seq<Instr>)
    requires Partial(cfg, q, p, q.codelen) && cfg.WellFormed(p)
    modifies q`codelen, q.code
    ensures q.Holds(cfg, p)
  {
    hide Flat, Config.WellFormed;
    Append(q.code, q.codelen, cfg.frame.footer);
    assert q.code[..|cfg.frame.header|] == q.code[..q.codelen][..|cfg.frame.header|];
    q.codelen := q.codelen + |cfg.frame.footer|;
  }

  /** The number of instructions a draw gives an initial program. */
  function SizeDrawn(cfg: Config, r: real): (n: nat)
    requires cfg.Valid()
    ensures cfg.minInstrs <= n && 10 * n <= cfg.maxInstrs
  {
    if UnitInterval(r) then
      var span := 0.1 * cfg.maxInstrs as real - cfg.minInstrs as real;
      SpanFloor(span, r);
      cfg.minInstrs + (span * r).Floor
    else cfg.minInstrs
  }

  /** `MININSTRS + (long)((0.1*MAXINSTRS-MININSTRS)*fastrand())`. */
  method InitialSize(cfg: Config, rng: Generator) returns (n: int)
    requires cfg.Valid() && rng.Valid()
    modifies rng
    ensures rng.Valid() && cfg.minInstrs <= n && 10 * n <= cfg.maxInstrs
    ensures n == SizeDrawn(cfg, Draw(old(rng.State()))) && rng.State() == Step(old(rng.State()))
  {
    hide Draw, Step;
    var r := rng.Fastrand();
    var span := 0.1 * cfg.maxInstrs as real - cfg.minInstrs as real;
    SpanFloor(span, r);
    n := cfg.minInstrs + (span * r).Floor;
  }

  /** Every size from MININSTRS up to, but not including, a tenth of MAXINSTRS can be drawn. */
  lemma EverySizeIsDrawn(cfg: Config, n: int) returns (r: real)
    requires cfg.Valid() && cfg.minInstrs <= n && (10 * n < cfg.maxInstrs || n == cfg.minInstrs)
    ensures UnitInterval(r) && SizeDrawn(cfg, r) == n
  {
    var span, k := 0.1 * cfg.maxInstrs as real - cfg.minInstrs as real, (n - cfg.minInstrs) as real;
    if n == cfg.minInstrs {
      r := 0.0;
    } else {
      Ratio(k, span);
      r := k / span;
    }
  }

  lemma Ratio(k: real, span: real)
    requires 0.0 <= k < span
    ensures 0.0 <= k / span < 1.0 && span * (k / span) == k
  {
  }

  lemma SpanFloor(span: real, r: real)
    requires 0.0 <= span && 0.0 <= r < 1.0
    ensures 0 <= (span * r).Floor && (span * r).Floor as real <= span
  {
    NonNegative(span, r);
    NonNegative(span, 1.0 - r);
    assert span * (1.0 - r) == span - span * r;
    FloorWithin(span * r, span);
  }

  lemma NonNegative(x: real, y: real)
    requires 0.0 <= x && 0.0 <= y
    ensures 0.0 <= x * y
  {
  }

  lemma FloorWithin(x: real, span: real)
    requires 0.0 <= x <= span
    ensures 0 <= x.Floor && x.Floor as real <= span
  {
  }

  /** The generator after it has given one instruction. */
  function AfterOne(s: Seeds): Seeds {
    Run(s, GeneratingDraws(Draws(s, 4)))
  }

  /** The generator after it has given `n`. */
  function AfterProgram(s: Seeds, n: nat): Seeds {
    if n == 0 then s else AfterOne(AfterProgram(s, n - 1))
  }

  /** The first `n` instructions generated from a state. */
  function Program(cfg: Config, s: Seeds, n: nat): (p: seq<Instr>)
    requires cfg.Valid()
    ensures |p| == n
  {
    if n == 0 then [] else Program(cfg, s, n - 1) + [Generated(cfg, Draws(AfterProgram(s, n - 1), 4))]
  }

  lemma OneMoreInstruction(cfg: Config, s: Seeds, n: nat)
    requires cfg.Valid()
    ensures Program(cfg, s, 0) == [] && AfterProgram(s, 0) == s
    ensures var t := AfterProgram(s, n);
            && Program(cfg, s, n + 1) == Program(cfg, s, n) + [Generated(cfg, Draws(t, 4))]
            && AfterProgram(s, n + 1) == Run(t, GeneratingDraws(Draws(t, 4)))
  {
    hide Run, Draws, Generated, GeneratingDraws;
  }

  /** What `init_programs` makes of the generator's state: a size, then that many instructions. */
  function InitialProgram(cfg: Config, s: Seeds): seq<Instr>
    requires cfg.Valid()
  {
    Program(cfg, Step(s), SizeDrawn(cfg, Draw(s)))
  }

  function AfterInitialProgram(cfg: Config, s: Seeds): Seeds
    requires cfg.Valid()
  {
    AfterProgram(Step(s), SizeDrawn(cfg, Draw(s)))
  }

  /** The body of the loop of `init_programs`: a program of random length and content. */
  method InitProgram(cfg: Config, rng: Generator, q: Pop) returns (ghost p: seq<Instr>)
    requires cfg.Valid() && rng.Valid()
    requires q.Storage(cfg)
    modifies rng, q`ninstr, q`codelen, q`error, q.indices, q.code
    ensures rng.Valid() && q.Holds(cfg, p)
    ensures 10 * |p| <= cfg.maxInstrs
    ensures p == InitialProgram(cfg, old(rng.State())) && rng.State() == AfterInitialProgram(cfg, old(rng.State()))
  {
    hide Config.Generates, Flat, Generated, GeneratingDraws, Draw, Draws, Step, SizeDrawn;
    hide Run, Partial, Program, AfterProgram;
    p := [];
    BeginProgram(cfg, q);
    var ninstr := InitialSize(cfg, rng);
    ghost var s := rng.State();
    OneMoreInstruction(cfg, s, 0);
    for j := 0 to ninstr
      invariant rng.Valid()
      invariant j == |p| && Partial(cfg, q, p, q.codelen)
      invariant forall i :: 0 <= i < j ==> cfg.Generates(p[i])
      invariant p == Program(cfg, s, j) && rng.State() == AfterProgram(s, j)
    {
      OneMoreInstruction(cfg, s, j);
      var ins := AppendInstruction(cfg, rng, q, p);
      p := p + [ins];
    }
    CloseProgram(cfg, q, p);
  }

  /** Adding an instruction appends its bytes and keeps the earlier boundaries. */
  lemma ExtendOffset(fr: Frame, p: seq<Instr>, ins: Instr)
    ensures Flat(p + [ins]) == Flat(p) + ins.bytes
    ensures Offset(fr, p + [ins], |p| + 1) == Offset(fr, p, |p|) + |ins.bytes|
  {
    hide Flat;
    FlatExtend(p, ins);
    assert (p + [ins])[..|p| + 1] == p + [ins] && p[..|p|] == p;
  }

  /** The sign of a boundary carries the kind, its magnitude the position. */
  lemma SignedIndexMagnitude(fr: Frame, p: seq<Instr>, i: nat)
    requires i <= |p|
    ensures Abs(SignedIndex(fr, p, i)) == Offset(fr, p, i)
  {
  }

  lemma ExtendIndices(fr: Frame, p: seq<Instr>, q: seq<Instr>)
    ensures forall i :: 0 <= i <= |p| ==> SignedIndex(fr, p + q, i) == SignedIndex(fr, p, i)
  {
    forall i | 0 <= i <= |p|
      ensures SignedIndex(fr, p + q, i) == SignedIndex(fr, p, i)
    {
      assert (p + q)[..i] == p[..i];
      OffsetPrefix(fr, p + q, p, i);
    }
  }

  // ---- crossover ------------------------------------------------------------------

  /** The first `i-1` instructions of `a`, then `b` from its `j`-th on. */
  function Splice(a: seq<Instr>, b: seq<Instr>, i: int, j: int): seq<Instr>
    requires 1 <= i <= |a| && 1 <= j <= |b|
  {
    a[..i - 1] + b[j - 1..]
  }

  /** Copies the head of the parent, up to but not including instruction `point-1`, into the child. */
  method CopyHead(cfg: Config, parent: Pop, child: Pop, point: int, ghost p: seq<Instr>) returns (codeend: int)
    requires parent.Holds(cfg, p) && child.Slot(cfg) && Apart(parent, child)
    requires 1 <= point <= |p|
    modifies child`ninstr, child.indices, child.code
    ensures Partial(cfg, child, p[..point - 1], codeend)
  {
    hide Flat, Config.WellFormed;
    CopyBoundaries(parent.indices, child.indices, point);
    HeadIndices(cfg.frame, p, point - 1);
    codeend := Abs(parent.indices[point - 1]);
    SignedIndexMagnitude(cfg.frame, p, point - 1);
    HeadSize(cfg, p, point - 1);
    CopyHeadBytes(cfg, parent, child, point, codeend, p);
    child.ninstr := point - 1;
  }

  method CopyHeadBytes(cfg: Config, parent: Pop, child: Pop, point: int, codeend: int, ghost p: seq<Instr>)
    requires parent.Holds(cfg, p) && child.Slot(cfg) && Apart(parent, child)
    requires 1 <= point <= |p| && codeend == Offset(cfg.frame, p, point - 1)
    modifies child.code
    ensures codeend <= child.code.Length && child.code[..codeend] == cfg.frame.header + Flat(p[..point - 1])
  {
    hide Flat, Config.WellFormed, SignedIndex;
    var header := cfg.frame.header;
    HeadOfLayout(cfg.frame, p, point - 1);
    hide Layout;
    for i := |header| to codeend
      invariant child.code[..|header|] == header
      invariant forall k :: |header| <= k < i ==> child.code[k] == parent.code[k]
    {
      child.code[i] := parent.code[i];
    }
    SamePrefix(child.code[..], parent.code[..], header, codeend);
    assert child.code[..codeend] == parent.code[..parent.codelen][..codeend];
  }

  lemma SamePrefix(a: seq<byte>, b: seq<byte>, h: seq<byte>, n: int)
    requires |h| <= n <= |a| && n <= |b| && a[..|h|] == h == b[..|h|]
    requires forall k :: |h| <= k < n ==> a[k] == b[k]
    ensures a[..n] == b[..n]
  {
    forall k | 0 <= k < n ensures a[k] == b[k] {
      if k < |h| {
        assert a[k] == h[k] == b[k];
      }
    }
  }

  lemma HeadOfLayout(fr: Frame, p: seq<Instr>, i: nat)
    requires i <= |p|
    ensures |fr.header| <= Offset(fr, p, i) <= |Layout(fr, p)| - |fr.footer|
    ensures Layout(fr, p)[..Offset(fr, p, i)] == fr.header + Flat(p[..i])
    ensures Layout(fr, p)[Offset(fr, p, i)..] == Flat(p[i..]) + fr.footer
    ensures Layout(fr, p)[..|fr.header|] == fr.header
  {
    hide Flat;
    FlatSplit(p, i);
  }

  lemma HeadSize(cfg: Config, p: seq<Instr>, i: nat)
    requires i <= |p| && cfg.WellFormed(p)
    ensures |Flat(p[..i])| <= 6 * i
    ensures |Flat(p[i..])| <= 6 * (|p| - i)
  {
    GeneratedSized(cfg, p);
    var q, r := p[..i], p[i..];
    OffsetMonotone(cfg.frame, q, 0, i);
    OffsetMonotone(cfg.frame, r, 0, |r|);
    assert q[..i] == q && r[..|r|] == r;
  }

  lemma HeadIndices(fr: Frame, p: seq<Instr>, i: nat)
    requires i <= |p|
    ensures forall k :: 0 <= k <= i ==> SignedIndex(fr, p[..i], k) == SignedIndex(fr, p, k)
  {
    ExtendIndices(fr, p[..i], p[i..]);
    assert p[..i] + p[i..] == p;
  }

  /** Every instruction the generator makes has 2 or 6 bytes. */
  lemma GeneratedSized(cfg: Config, p: seq<Instr>)
    requires forall i :: 0 <= i < |p| ==> cfg.Generates(p[i])
    ensures Sized(p)
  {
  }

  lemma WellFormedSized(cfg: Config, p: seq<Instr>)
    requires cfg.WellFormed(p)
    ensures Sized(p)
  {
    GeneratedSized(cfg, p);
  }

  /** Copies the boundaries of the parent's tail behind those of the child's head, re-based. */
  method CopyTailIndices(cfg: Config, parent: Pop, child: Pop, point: int, ghost p: seq<Instr>, ghost h: seq<Instr>)
    requires parent.Holds(cfg, p) && Apart(parent, child)
    requires 1 <= point <= |p|
    requires child.Storage(cfg) && child.HasIndices(cfg.frame, h)
    requires |h| + |p| - point + 1 <= cfg.maxInstrs
    modifies child`ninstr, child.indices
    ensures child.HasIndices(cfg.frame, h + p[point - 1..])
  {
    hide Flat, Config.WellFormed;
    ghost var fr, tail := cfg.frame, p[point - 1..];
    ghost var sp := h + tail;
    ExtendIndices(fr, h, tail);
    WellFormedSized(cfg, p);
    var dest := child.ninstr + 1;
    var i := point;
    while i <= parent.ninstr
      modifies child`ninstr, child.indices
      invariant point <= i <= |p| + 1 && dest == |h| + 1 + (i - point)
      invariant child.ninstr == dest - 1
      invariant forall k :: 0 <= k < dest ==> child.indices[k] == SignedIndex(fr, sp, k)
    {
      assert sp[dest - 1] == tail[i - point] == p[i - 1];
      Rebase(fr, p, sp, i, dest);
      child.indices[dest] := Abs(child.indices[dest - 1])
        + (Abs(parent.indices[i]) - Abs(parent.indices[i - 1]));
      if parent.indices[i] < 0 {
        child.indices[dest] := -child.indices[dest];
      }
      dest := dest + 1;
      child.ninstr := child.ninstr + 1;
      i := i + 1;
    }
  }

  /** One instruction at two places: its length is the difference of boundaries at either. */
  lemma Rebase(fr: Frame, p: seq<Instr>, q: seq<Instr>, i: int, j: int)
    requires 1 <= i <= |p| && 1 <= j <= |q| && p[i - 1] == q[j - 1]
    ensures Offset(fr, q, j) == Abs(SignedIndex(fr, q, j - 1))
              + (Abs(SignedIndex(fr, p, i)) - Abs(SignedIndex(fr, p, i - 1)))
    ensures p[i - 1].bytes != [] ==>
              SignedIndex(fr, q, j) == if SignedIndex(fr, p, i) < 0 then -Offset(fr, q, j) else Offset(fr, q, j)
  {
    hide Flat;
    OffsetStep(fr, p, i - 1);
    OffsetStep(fr, q, j - 1);
  }

  /** Copies the bytes of the parent's tail, footer included, behind those of the child's head. */
  method CopyTailBytes(cfg: Config, parent: Pop, child: Pop, point: int, codeend: int,
                       ghost p: seq<Instr>, ghost h: seq<Instr>)
    requires parent.Holds(cfg, p) && Apart(parent, child)
    requires 1 <= point <= |p|
    requires child.Storage(cfg)
    requires 0 <= codeend <= |cfg.frame.header| + 6 * |h|
    requires codeend <= child.code.Length && child.code[..codeend] == cfg.frame.header + Flat(h)
    requires |h| + |p| - point + 1 <= cfg.maxInstrs
    modifies child.code
    ensures |Layout(cfg.frame, h + p[point - 1..])| <= child.code.Length
    ensures child.code[..|Layout(cfg.frame, h + p[point - 1..])|] == Layout(cfg.frame, h + p[point - 1..])
  {
    hide Flat, Config.WellFormed;
    ghost var fr, tail := cfg.frame, p[point - 1..];
    var start := Abs(parent.indices[point - 1]);
    SignedIndexMagnitude(fr, p, point - 1);
    HeadOfLayout(fr, p, point - 1);
    HeadSize(cfg, p, point - 1);
    Rejoin(fr, h, tail);
    assert parent.code[start..parent.codelen] == Flat(tail) + fr.footer by {
      assert parent.code[start..parent.codelen] == parent.code[..parent.codelen][start..];
    }
    hide Layout;
    CopyRange(parent.code, start, parent.codelen, child.code, codeend);
  }

  lemma Rejoin(fr: Frame, h: seq<Instr>, tail: seq<Instr>)
    ensures fr.header + Flat(h) + (Flat(tail) + fr.footer) == Layout(fr, h + tail)
  {
    hide Flat;
    FlatAppend(h, tail);
  }

  /** Copies `src[from..to]` to position `at` of `dst`. */
  method CopyRange(src: array<byte>, from: int, to: int, dst: array<byte>, at: int)
    requires src != dst
    requires 0 <= from <= to <= src.Length && 0 <= at && at + (to - from) <= dst.Length
    modifies dst
    ensures dst[..at + (to - from)] == old(dst[..at]) + src[from..to]
  {
    var dest := at;
    for i := from to to
      invariant dest == at + (i - from)
      invariant dst[..dest] == old(dst[..at]) + src[from..i]
    {
      dst[dest] := src[i];
      dest := dest + 1;
      assert dst[..dest] == dst[..dest - 1] + [src[i]];
    }
  }

  const HXO_PROB := 0.95
  const MAXCROSSOVERTRIALS := 10

  /** The two points of one draw. */
  datatype Points = Points(point1: int, point2: int) {
    /** Both points lie in front of an instruction of their parent, and never the last one if there are two. */
    predicate Inside(n1: int, n2: int) {
      && 1 <= point1 && (point1 == 1 || point1 < n1)
      && 1 <= point2 && (point2 == 1 || point2 < n2)
    }
  }

  /** Neither child is too short or too long. */
  predicate Admissible(cfg: Config, n1: int, n2: int, d: Points) {
    && cfg.minInstrs <= d.point1 + n2 - d.point2 <= cfg.maxInstrs
    && cfg.minInstrs <= d.point2 + n1 - d.point1 <= cfg.maxInstrs
  }

  /** What a 2 point crossover draws: it stops at an admissible draw, or after one draw more than it will accept. */
  predicate Drawn(cfg: Config, n1: int, n2: int, draws: seq<Points>) {
    && 1 <= |draws| <= MAXCROSSOVERTRIALS + 1
    && (forall k :: 0 <= k < |draws| ==> draws[k].Inside(n1, n2))
    && (forall k :: 0 <= k < |draws| - 1 ==> !Admissible(cfg, n1, n2, draws[k]))
    && (|draws| <= MAXCROSSOVERTRIALS ==> Admissible(cfg, n1, n2, draws[|draws| - 1]))
  }

  predicate Accepted(draws: seq<Points>) {
    |draws| <= MAXCROSSOVERTRIALS
  }

  /** Draws so far, none of them admissible, with another one to come. */
  predicate Undecided(cfg: Config, n1: int, n2: int, draws: seq<Points>) {
    && |draws| <= MAXCROSSOVERTRIALS
    && forall k :: 0 <= k < |draws| ==> draws[k].Inside(n1, n2) && !Admissible(cfg, n1, n2, draws[k])
  }

  lemma OneMoreDraw(cfg: Config, n1: int, n2: int, draws: seq<Points>, d: Points)
    requires Undecided(cfg, n1, n2, draws) && d.Inside(n1, n2)
    ensures if Admissible(cfg, n1, n2, d) || |draws| == MAXCROSSOVERTRIALS then Drawn(cfg, n1, n2, draws + [d])
            else Undecided(cfg, n1, n2, draws + [d])
  {
    hide Points.Inside, Admissible;
    var more := draws + [d];
    assert forall k :: 0 <= k < |draws| ==> more[k] == draws[k];
  }

  /** A 2 point crossover succeeds exactly when one of its first ten draws is admissible. */
  lemma AcceptedExactly(cfg: Config, n1: int, n2: int, draws: seq<Points>)
    requires Drawn(cfg, n1, n2, draws)
    ensures Accepted(draws) <==>
              exists k :: 0 <= k < |draws| && k < MAXCROSSOVERTRIALS && Admissible(cfg, n1, n2, draws[k])
  {
    if Accepted(draws) {
      assert Admissible(cfg, n1, n2, draws[|draws| - 1]);
    }
  }

  /** Two programs of the largest size, ten draws with one oversized child each, and an admissible eleventh. */
  function LuckyEleventh(cfg: Config): seq<Points> {
    seq(MAXCROSSOVERTRIALS, k => Points(cfg.maxInstrs - 1, 1)) + [Points(1, 1)]
  }

  /** The eleventh draw is discarded, admissible or not. */
  lemma EleventhDrawDiscarded(cfg: Config)
    requires cfg.Valid()
    ensures var n, draws := cfg.maxInstrs, LuckyEleventh(cfg);
            && Drawn(cfg, n, n, draws) && !Accepted(draws)
            && Admissible(cfg, n, n, draws[|draws| - 1])
  {
  }

  /** The two points two draws give a 2 point crossover. */
  function TwoPoints(n1: int, n2: int, r1: real, r2: real): (d: Points)
    requires 1 <= n1 && 1 <= n2
    ensures d.Inside(n1, n2)
  {
    Points(1 + Index(n1 - 1, r1), 1 + Index(n2 - 1, r2))
  }

  /** Any two points in front of instructions, the last one of a parent excepted, can be drawn. */
  lemma EveryPairIsDrawn(n1: int, n2: int, d: Points) returns (r1: real, r2: real)
    requires 2 <= n1 && 2 <= n2 && 1 <= d.point1 < n1 && 1 <= d.point2 < n2
    ensures UnitInterval(r1) && UnitInterval(r2) && TwoPoints(n1, n2, r1, r2) == d
  {
    r1 := EveryIndexIsDrawn(n1 - 1, d.point1 - 1);
    r2 := EveryIndexIsDrawn(n2 - 1, d.point2 - 1);
  }

  /** The pairs of points drawn from a state on, up to an admissible one, and at most `left` after the first. */
  function PairsDrawn(cfg: Config, n1: int, n2: int, s: Seeds, left: nat): (draws: seq<Points>)
    requires 1 <= n1 && 1 <= n2
    ensures 1 <= |draws| <= left + 1
    decreases left
  {
    var d := TwoPoints(n1, n2, Draw(s), Draw(Step(s)));
    if left == 0 || Admissible(cfg, n1, n2, d) then [d]
    else [d] + PairsDrawn(cfg, n1, n2, Step(Step(s)), left - 1)
  }

  /** What a crossover makes of the generator's state: whether it succeeds, where, and the state it leaves. */
  datatype Crossing = Crossing(ok: bool, points: Points, after: Seeds)

  function Crossed(cfg: Config, n1: int, n2: int, s: Seeds): (x: Crossing)
    requires 1 <= n1 && 1 <= n2
    ensures 1 <= x.points.point1 <= n1 && 1 <= x.points.point2 <= n2
  {
    var t := Step(s);
    if Draw(s) > HXO_PROB then CrossedAnywhere(cfg, n1, n2, t)
    else Crossing(true, OnePoint(n1, n2, Draw(t)), Step(t))
  }

  /** Two points of the same number. */
  function OnePoint(n1: int, n2: int, r: real): (d: Points)
    requires 1 <= n1 && 1 <= n2
    ensures d.Inside(n1, n2) && d.point1 == d.point2
  {
    var k := 1 + Index(Min2(n1 - 1, n2 - 1), r);
    Points(k, k)
  }

  lemma {:induction false} PairsInside(cfg: Config, n1: int, n2: int, s: Seeds, left: nat)
    requires 1 <= n1 && 1 <= n2
    ensures var draws := PairsDrawn(cfg, n1, n2, s, left);
            draws[|draws| - 1].Inside(n1, n2)
    decreases left
  {
    hide Admissible, Draw, Step, Points.Inside;
    var d := TwoPoints(n1, n2, Draw(s), Draw(Step(s)));
    if left == 0 || Admissible(cfg, n1, n2, d) {
    } else {
      PairsInside(cfg, n1, n2, Step(Step(s)), left - 1);
    }
  }

  function CrossedAnywhere(cfg: Config, n1: int, n2: int, s: Seeds): (x: Crossing)
    requires 1 <= n1 && 1 <= n2
    ensures x.points.Inside(n1, n2)
  {
    hide PairsDrawn;
    var draws := PairsDrawn(cfg, n1, n2, s, MAXCROSSOVERTRIALS);
    PairsInside(cfg, n1, n2, s, MAXCROSSOVERTRIALS);
    Crossing(Accepted(draws), draws[|draws| - 1], Run(s, 2 * |draws|))
  }

  /** The `k`-th pair of points drawn from a state on. */
  function PairAt(n1: int, n2: int, s: Seeds, k: nat): Points
    requires 1 <= n1 && 1 <= n2
  {
    TwoPoints(n1, n2, Draw(Run(s, 2 * k)), Draw(Run(s, 2 * k + 1)))
  }

  /** The pairs drawn are those of consecutive calls, and only the last one may be admissible. */
  lemma {:induction false} PairsAt(cfg: Config, n1: int, n2: int, s: Seeds, left: nat)
    requires 1 <= n1 && 1 <= n2
    ensures var draws := PairsDrawn(cfg, n1, n2, s, left);
            && (forall k :: 0 <= k < |draws| ==> draws[k] == PairAt(n1, n2, s, k))
            && (forall k :: 0 <= k < |draws| - 1 ==> !Admissible(cfg, n1, n2, draws[k]))
            && (|draws| <= left ==> Admissible(cfg, n1, n2, draws[|draws| - 1]))
    decreases left
  {
    hide Step, Draw, TwoPoints, Points.Inside, Admissible;
    var draws, t := PairsDrawn(cfg, n1, n2, s, left), Step(Step(s));
    FirstCalls(s);
    var d := TwoPoints(n1, n2, Draw(s), Draw(Step(s)));
    if left == 0 || Admissible(cfg, n1, n2, d) {
    } else {
      PairsAt(cfg, n1, n2, t, left - 1);
      var rest := PairsDrawn(cfg, n1, n2, t, left - 1);
      assert draws == [d] + rest;
      forall k | 0 <= k < |draws|
        ensures draws[k] == PairAt(n1, n2, s, k)
      {
        if k > 0 {
          RunRun(s, 2, 2 * (k - 1));
          RunRun(s, 2, 2 * (k - 1) + 1);
          assert draws[k] == rest[k - 1] == PairAt(n1, n2, t, k - 1);
        }
      }
    }
  }

  /** A crossover of parents of admissible sizes that succeeds has children of admissible sizes. */
  lemma CrossedSizes(cfg: Config, n1: int, n2: int, s: Seeds)
    requires 1 <= cfg.minInstrs <= n1 <= cfg.maxInstrs && cfg.minInstrs <= n2 <= cfg.maxInstrs
    ensures Crossed(cfg, n1, n2, s).ok ==> Admissible(cfg, n1, n2, Crossed(cfg, n1, n2, s).points)
  {
    hide Step, Draw, PairsDrawn, Run;
    PairsAt(cfg, n1, n2, Step(s), MAXCROSSOVERTRIALS);
  }

  /** A crossover fails exactly when it is a 2 point one and none of the first ten pairs drawn is admissible. */
  lemma CrossoverFails(cfg: Config, n1: int, n2: int, s: Seeds)
    requires 1 <= n1 && 1 <= n2
    ensures !Crossed(cfg, n1, n2, s).ok <==>
              && Draw(s) > HXO_PROB
              && forall k :: 0 <= k < MAXCROSSOVERTRIALS ==> !Admissible(cfg, n1, n2, PairAt(n1, n2, Step(s), k))
  {
    hide Step, Draw, PairAt, PairsDrawn, Admissible, Run;
    PairsAt(cfg, n1, n2, Step(s), MAXCROSSOVERTRIALS);
  }

  lemma MorePairs(cfg: Config, n1: int, n2: int, s: Seeds, left: nat, before: seq<Points>)
    requires 1 <= n1 && 1 <= n2
    ensures var d := TwoPoints(n1, n2, Draw(s), Draw(Step(s)));
            (before + PairsDrawn(cfg, n1, n2, s, left)
             == if left == 0 || Admissible(cfg, n1, n2, d) then before + [d]
                else before + [d] + PairsDrawn(cfg, n1, n2, Step(Step(s)), left - 1))
  {
    hide Admissible, Draw, Step, TwoPoints;
  }

  /**
   Draws the crossover points.  A 2 point crossover is retried while a child would be too short
   or too long; a homogeneous one always succeeds.
   */
  method ChoosePoints(cfg: Config, rng: Generator, n1: int, n2: int)
    returns (ok: bool, point1: int, point2: int, ghost twoPoint: bool, ghost draws: seq<Points>)
    requires cfg.Valid() && rng.Valid()
    requires cfg.minInstrs <= n1 <= cfg.maxInstrs && cfg.minInstrs <= n2 <= cfg.maxInstrs
    modifies rng
    ensures rng.Valid()
    ensures 1 <= point1 <= n1 && 1 <= point2 <= n2
    ensures twoPoint <==> Draw(old(rng.State())) > HXO_PROB
    ensures if twoPoint then Drawn(cfg, n1, n2, draws) && draws[|draws| - 1] == Points(point1, point2)
            else point1 == point2
    ensures ok <==> !twoPoint || Accepted(draws)
    ensures ok ==> Admissible(cfg, n1, n2, Points(point1, point2))
    ensures Crossing(ok, Points(point1, point2), rng.State()) == Crossed(cfg, n1, n2, old(rng.State()))
  {
    hide Drawn, Accepted, Draw, Step, PairsDrawn, Run;
    var h := rng.Fastrand();
    twoPoint, draws := h > HXO_PROB, [];
    if h > HXO_PROB {
      ok, point1, point2, draws := DrawUntilAdmissible(cfg, rng, n1, n2);
      LastDraw(cfg, n1, n2, draws);
    } else {
      var k := rng.Below(Min2(n1 - 1, n2 - 1));
      point1, point2, ok := 1 + k, 1 + k, true;
    }
  }

  /** The draws of a 2 point crossover that has not found an admissible pair yet. */
  ghost predicate Searching(cfg: Config, n1: int, n2: int, s: Seeds, draws: seq<Points>, t: Seeds)
    requires 1 <= n1 && 1 <= n2
  {
    && Undecided(cfg, n1, n2, draws)
    && t == Run(s, 2 * |draws|)
    && PairsDrawn(cfg, n1, n2, s, MAXCROSSOVERTRIALS)
    == draws + PairsDrawn(cfg, n1, n2, t, MAXCROSSOVERTRIALS - |draws|)
  }

  /** The draws it ends with, and the state it leaves. */
  ghost predicate Decided(cfg: Config, n1: int, n2: int, s: Seeds, draws: seq<Points>, t: Seeds)
    requires 1 <= n1 && 1 <= n2
  {
    && Drawn(cfg, n1, n2, draws)
    && t == Run(s, 2 * |draws|)
    && draws == PairsDrawn(cfg, n1, n2, s, MAXCROSSOVERTRIALS)
  }

  lemma NoDrawYet(cfg: Config, n1: int, n2: int, s: Seeds)
    requires 1 <= n1 && 1 <= n2
    ensures Searching(cfg, n1, n2, s, [], s)
  {
    hide PairsDrawn, Step;
    var rest := PairsDrawn(cfg, n1, n2, s, MAXCROSSOVERTRIALS);
    assert [] + rest == rest;
  }

  lemma AnotherDraw(cfg: Config, n1: int, n2: int, s: Seeds, draws: seq<Points>, t: Seeds, d: Points)
    requires 1 <= n1 && 1 <= n2 && Searching(cfg, n1, n2, s, draws, t)
    requires d == TwoPoints(n1, n2, Draw(t), Draw(Step(t)))
    ensures if Admissible(cfg, n1, n2, d) || |draws| == MAXCROSSOVERTRIALS
            then Decided(cfg, n1, n2, s, draws + [d], Step(Step(t)))
            else Searching(cfg, n1, n2, s, draws + [d], Step(Step(t)))
  {
    hide PairsDrawn, Step, Draw, TwoPoints, Points.Inside, Admissible, Run, Drawn, Undecided;
    MorePairs(cfg, n1, n2, t, MAXCROSSOVERTRIALS - |draws|, draws);
    OneMoreDraw(cfg, n1, n2, draws, d);
    TwoCallsOn(s, 2 * |draws|);
    assert 2 * |draws + [d]| == 2 * |draws| + 2;
  }

  /** The loop of a 2 point crossover; the verdict is read off its counter. */
  method DrawUntilAdmissible(cfg: Config, rng: Generator, n1: int, n2: int)
    returns (ok: bool, point1: int, point2: int, ghost draws: seq<Points>)
    requires rng.Valid() && 1 <= n1 && 1 <= n2
    modifies rng
    ensures rng.Valid() && 1 <= point1 <= n1 && 1 <= point2 <= n2
    ensures draws != [] && draws[|draws| - 1] == Points(point1, point2)
    ensures Decided(cfg, n1, n2, old(rng.State()), draws, rng.State())
    ensures ok <==> Accepted(draws)
  {
    hide Searching, Decided, TwoPoints, Draw, Step, Admissible;
    var crossovertrials := 0;
    var again := true;
    point1, point2, draws := 1, 1, [];
    ghost var s := rng.State();
    NoDrawYet(cfg, n1, n2, s);
    while again
      invariant rng.Valid()
      invariant 1 <= point1 <= n1 && 1 <= point2 <= n2
      invariant again ==> crossovertrials == |draws| <= MAXCROSSOVERTRIALS
      invariant again ==> Searching(cfg, n1, n2, s, draws, rng.State())
      invariant !again ==> Decided(cfg, n1, n2, s, draws, rng.State())
      invariant !again ==> draws != [] && draws[|draws| - 1] == Points(point1, point2)
      invariant !again ==> (crossovertrials < MAXCROSSOVERTRIALS <==> |draws| <= MAXCROSSOVERTRIALS)
      decreases MAXCROSSOVERTRIALS + 1 - crossovertrials, again
    {
      ghost var t := rng.State();
      point1, point2 := DrawPair(rng, n1, n2);
      AnotherDraw(cfg, n1, n2, s, draws, t, Points(point1, point2));
      draws := draws + [Points(point1, point2)];
      again := TooShortOrLong(cfg, n1, n2, point1, point2);
      if again {
        again := crossovertrials < MAXCROSSOVERTRIALS;
        crossovertrials := crossovertrials + 1;
      }
    }
    ok := crossovertrials < MAXCROSSOVERTRIALS;
  }

  method DrawPair(rng: Generator, n1: int, n2: int) returns (point1: int, point2: int)
    requires rng.Valid() && 1 <= n1 && 1 <= n2
    modifies rng
    ensures rng.Valid() && rng.State() == Step(Step(old(rng.State())))
    ensures var s := old(rng.State()); Points(point1, point2) == TwoPoints(n1, n2, Draw(s), Draw(Step(s)))
    ensures 1 <= point1 <= n1 && 1 <= point2 <= n2
  {
    hide Draw, Step, Index;
    var k1 := rng.Below(n1 - 1);
    var k2 := rng.Below(n2 - 1);
    point1, point2 := 1 + k1, 1 + k2;
  }

  /** The size of either child at these points is out of bounds. */
  method TooShortOrLong(cfg: Config, n1: int, n2: int, point1: int, point2: int) returns (again: bool)
    ensures again <==> !Admissible(cfg, n1, n2, Points(point1, point2))
  {
    var ninstr1 := point1 + n2 - point2;
    var ninstr2 := point2 + n1 - point1;
    again := ninstr1 < cfg.minInstrs || ninstr1 > cfg.maxInstrs
          || ninstr2 < cfg.minInstrs || ninstr2 > cfg.maxInstrs;
  }

  lemma LastDraw(cfg: Config, n1: int, n2: int, draws: seq<Points>)
    requires Drawn(cfg, n1, n2, draws)
    ensures draws != [] && (Accepted(draws) ==> Admissible(cfg, n1, n2, draws[|draws| - 1]))
  {
  }

  /**
   Crossover of two parents into the slots of two losers.  On success the children hold exactly
   the two splices of the parents' programs; on failure nothing has been written.  It fails exactly
   when it is a 2 point crossover and none of its first ten draws is admissible.
   */
  method Crossover(cfg: Config, rng: Generator, parent1: Pop, parent2: Pop, child1: Pop, child2: Pop,
                   ghost p1: seq<Instr>, ghost p2: seq<Instr>)
    returns (ok: bool, ghost point1: int, ghost point2: int, ghost twoPoint: bool, ghost draws: seq<Points>)
    requires cfg.Valid() && rng.Valid()
    requires parent1.Holds(cfg, p1) && parent2.Holds(cfg, p2) && child1.Slot(cfg) && child2.Slot(cfg)
    requires Apart(parent1, child1) && Apart(parent1, child2)
    requires Apart(parent2, child1) && Apart(parent2, child2) && Apart(child1, child2)
    modifies rng, child1`ninstr, child1`codelen, child1.indices, child1.code
    modifies child2`ninstr, child2`codelen, child2.indices, child2.code
    ensures rng.Valid()
    ensures 1 <= point1 <= |p1| && 1 <= point2 <= |p2|
    ensures if twoPoint then Drawn(cfg, |p1|, |p2|, draws) && draws[|draws| - 1] == Points(point1, point2)
            else point1 == point2
    ensures twoPoint <==> Draw(old(rng.State())) > HXO_PROB
    ensures ok <==> !twoPoint || Accepted(draws)
    ensures Crossing(ok, Points(point1, point2), rng.State()) == Crossed(cfg, |p1|, |p2|, old(rng.State()))
    ensures ok ==> child1.Holds(cfg, Splice(p1, p2, point1, point2))
    ensures ok ==> child2.Holds(cfg, Splice(p2, p1, point2, point1))
    ensures !ok ==> unchanged(child1, child1.indices, child1.code, child2, child2.indices, child2.code)
  {
    hide Flat, Config.Generates, Drawn, Accepted, Crossed, Draw;
    var pt1, pt2;
    ok, pt1, pt2, twoPoint, draws := ChoosePoints(cfg, rng, parent1.ninstr, parent2.ninstr);
    point1, point2 := pt1, pt2;
    if ok {
      BuildChild(cfg, parent1, parent2, child1, pt1, pt2, p1, p2);
      BuildChild(cfg, parent2, parent1, child2, pt2, pt1, p2, p1);
    }
  }

  /**
   Everything `crossover` writes into one child: head, tail, lengths.  The source interleaves
   the loops for the two children, which share no storage.
   */
  method BuildChild(cfg: Config, a: Pop, b: Pop, child: Pop, i: int, j: int,
                    ghost p: seq<Instr>, ghost q: seq<Instr>)
    requires cfg.Valid() && a.Holds(cfg, p) && b.Holds(cfg, q) && child.Slot(cfg)
    requires Apart(a, child) && Apart(b, child)
    requires 1 <= i <= |p| && 1 <= j <= |q|
    requires cfg.minInstrs <= i - 1 + |q| - (j - 1) <= cfg.maxInstrs
    modifies child`ninstr, child`codelen, child.indices, child.code
    ensures child.Holds(cfg, Splice(p, q, i, j))
  {
    hide Flat, Config.WellFormed;
    ghost var h := p[..i - 1];
    var codeend := CopyHead(cfg, a, child, i, p);
    CopyTailIndices(cfg, b, child, j, q, h);
    CopyTailBytes(cfg, b, child, j, codeend, q, h);
    child.codelen := Abs(child.indices[child.ninstr]) + |cfg.frame.footer|;
    Spliced(cfg, child, p, q, i, j);
  }

  /** The finished child is an individual the system may hold. */
  lemma Spliced(cfg: Config, child: Pop, a: seq<Instr>, b: seq<Instr>, i: int, j: int)
    requires cfg.WellFormed(a) && cfg.WellFormed(b) && cfg.frame.Fits()
    requires 1 <= i <= |a| && 1 <= j <= |b|
    requires cfg.minInstrs <= i - 1 + |b| - (j - 1) <= cfg.maxInstrs
    requires child.Storage(cfg)
    requires child.HasIndices(cfg.frame, Splice(a, b, i, j))
    requires child.codelen == Abs(child.indices[child.ninstr]) + |cfg.frame.footer|
    requires |Layout(cfg.frame, Splice(a, b, i, j))| <= child.code.Length
    requires child.code[..|Layout(cfg.frame, Splice(a, b, i, j))|] == Layout(cfg.frame, Splice(a, b, i, j))
    ensures child.Holds(cfg, Splice(a, b, i, j))
  {
    hide Flat, Config.Generates;
    var sp := Splice(a, b, i, j);
    SignedIndexMagnitude(cfg.frame, sp, |sp|);
    LayoutLength(cfg.frame, sp);
    HeadOfLayout(cfg.frame, sp, 0);
    assert child.code[..|cfg.frame.header|] == child.code[..child.codelen][..|cfg.frame.header|];
  }

  // ---- mutation -------------------------------------------------------------------

  /** Overwrites `bytes` at `at`, leaving every other byte alone. */
  method Overwrite(buf: array<byte>, at: int, bytes: seq<byte>, ghost n: int)
    requires 0 <= at && at + |bytes| <= n <= buf.Length
    modifies buf
    ensures buf[..n] == old(buf[..n])[..at] + bytes + old(buf[..n])[at + |bytes|..]
  {
    for k := 0 to |bytes|
      invariant forall j :: 0 <= j < n ==> buf[j] == if at <= j < at + k then bytes[j - at] else old(buf[j])
    {
      buf[at + k] := bytes[k];
    }
  }

  /** Replacing an instruction by one of the same length and kind replaces just its bytes. */
  lemma ReplaceInstruction(fr: Frame, p: seq<Instr>, i: nat, x: Instr)
    requires i < |p| && |x.bytes| == |p[i].bytes| && x.register == p[i].register
    ensures var at := Offset(fr, p, i);
            && 0 <= at && at + |x.bytes| <= |Layout(fr, p)|
            && Layout(fr, p[i := x]) == Layout(fr, p)[..at] + x.bytes + Layout(fr, p)[at + |x.bytes|..]
    ensures forall k :: 0 <= k <= |p| ==> SignedIndex(fr, p[i := x], k) == SignedIndex(fr, p, k)
  {
    hide Flat;
    var q := p[i := x];
    SplitAround(p, i);
    SplitAround(q, i);
    assert q[..i] == p[..i] && q[i + 1..] == p[i + 1..];
    forall k | 0 <= k <= |p|
      ensures SignedIndex(fr, q, k) == SignedIndex(fr, p, k)
    {
      if k <= i {
        assert q[..k] == p[..k];
      } else {
        SplitAround(p[..k], i);
        SplitAround(q[..k], i);
        assert p[..k][..i] == q[..k][..i] && p[..k][i + 1..] == q[..k][i + 1..];
      }
    }
  }

  lemma SplitAround(p: seq<Instr>, i: nat)
    requires i < |p|
    ensures Flat(p) == Flat(p[..i]) + p[i].bytes + Flat(p[i + 1..])
  {
    hide Flat;
    FlatSplit(p, i + 1);
    OffsetStep(Frame([], []), p, i);
  }

  /** What the bytes and the sign say about an instruction the generator made. */
  lemma Kinds(cfg: Config, ins: Instr)
    requires cfg.Generates(ins)
    ensures |ins.bytes| == 2 || |ins.bytes| == 6
    ensures |ins.bytes| == 6 ==>
              exists i: MemOp, a: Address :: (cfg.IsConstant(a) || cfg.IsInput(a)) && ins == MemArg(i, a)
    ensures ins.register ==>
              |ins.bytes| == 2 && exists i: RegOp, r: Register :: r < cfg.nregisters && ins == RegArg(i, r)
    ensures |ins.bytes| == 2 && !ins.register ==> exists i: NoArgOp :: ins == NoArg(i)
  {
  }

  /** `x` is `ins` with `bytes` written over it from position `skip` on. */
  ghost predicate Patched(ins: Instr, skip: int, bytes: seq<byte>, x: Instr) {
    && 0 <= skip && skip + |bytes| <= |ins.bytes|
    && x == Instr(ins.bytes[..skip] + bytes + ins.bytes[skip + |bytes|..], ins.register)
  }

  /** Another opcode on the same operand (a register operand is reset to 0), or another operand of the same opcode. */
  ghost predicate Variant(cfg: Config, ins: Instr, x: Instr) {
    || (exists i: NoArgOp, i': NoArgOp :: ins == NoArg(i) && x == NoArg(i'))
    || (exists i: RegOp, r: Register :: ins == RegArg(i, r) && RegVariant(cfg, i, x))
    || (exists i: MemOp, a: Address :: ins == MemArg(i, a) && MemVariant(cfg, i, a, x))
  }

  ghost predicate RegVariant(cfg: Config, i: RegOp, x: Instr) {
    || (exists i': RegOp :: x == RegArg(i', 0))
    || (exists r': Register :: r' < cfg.nregisters && x == RegArg(i, r'))
  }

  ghost predicate MemVariant(cfg: Config, i: MemOp, a: Address, x: Instr) {
    || (exists i': MemOp :: x == MemArg(i', a))
    || (exists a': Address :: (cfg.IsConstant(a') || cfg.IsInput(a')) && x == MemArg(i, a'))
  }

  lemma OtherRegOp(cfg: Config, i: RegOp, r: Register, i': RegOp)
    ensures Patched(RegArg(i, r), 0, [TWOBYTE_REGARG[2 * i'], TWOBYTE_REGARG[2 * i' + 1]], RegArg(i', 0))
  {
  }

  lemma OtherRegister(cfg: Config, i: RegOp, r: Register, r': Register)
    requires r' < cfg.nregisters
    ensures Patched(RegArg(i, r), 1, [RegByte(i, r')], RegArg(i, r'))
  {
  }

  lemma OtherMemOp(cfg: Config, i: MemOp, a: Address, i': MemOp)
    ensures Patched(MemArg(i, a), 0, [SIXBYTE[2 * i'], SIXBYTE[2 * i' + 1]], MemArg(i', a))
  {
  }

  lemma OtherAddress(cfg: Config, i: MemOp, a: Address, a': Address)
    requires cfg.IsConstant(a') || cfg.IsInput(a')
    ensures Patched(MemArg(i, a), 2, LittleEndian(a'), MemArg(i, a'))
  {
  }

  /** The second byte of a register instruction, its operand replaced: `hinib | lonib`. */
  function WithRegister(b: byte, r: Register): byte {
    b - b % 16 + if b % 16 >= 8 then 8 + r else r
  }

  /** What up to three draws make of an instruction; it has 2 or 6 bytes, or the source gives up. */
  function Replacement(cfg: Config, ins: Instr, e: seq<real>): Instr
    requires cfg.Valid() && |e| == 3
  {
    if |ins.bytes| == 6 then
      if e[0] > 0.5 then
        var i := Index(NSIXBYTE, e[1]);
        Instr([SIXBYTE[2 * i], SIXBYTE[2 * i + 1]] + ins.bytes[2..], ins.register)
      else Instr(ins.bytes[..2] + LittleEndian(AddressDrawn(cfg, e[1..3])), ins.register)
    else if |ins.bytes| != 2 then ins
    else if !ins.register then NoArg(Index(NNOARG, e[0]))
    else if e[0] > 0.5 then RegArg(Index(NREGARG, e[1]), 0)
    else Instr([ins.bytes[0], WithRegister(ins.bytes[1], Index(cfg.nregisters, e[1]))], true)
  }

  /** How many of them it takes. */
  function ReplacementDraws(ins: Instr, e: seq<real>): nat
    requires |e| == 3
  {
    if |ins.bytes| == 6 then (if e[0] > 0.5 then 2 else 3) else if ins.register then 2 else 1
  }

  /** Mutation: one draw decides whether, one where, and up to three more by what. */
  function Mutated(cfg: Config, probability: real, p: seq<Instr>, d: seq<real>): (p': seq<Instr>)
    requires cfg.Valid() && |d| == 5
    ensures |p'| == |p|
  {
    if d[0] > probability || p == [] then p
    else
      var i := Index(|p|, d[1]);
      p[i := Replacement(cfg, p[i], d[2..])]
  }

  function MutationDraws(probability: real, p: seq<Instr>, d: seq<real>): nat
    requires |d| == 5
  {
    if d[0] > probability || p == [] then 1 else 2 + ReplacementDraws(p[Index(|p|, d[1])], d[2..])
  }

  /** The replacement in terms of instructions: an operand-less one. */
  lemma NoArgReplacement(cfg: Config, i: NoArgOp, e: seq<real>)
    requires cfg.Valid() && |e| == 3
    ensures Replacement(cfg, NoArg(i), e) == NoArg(Index(NNOARG, e[0]))
  {
  }

  /** A register instruction: another opcode on register 0, or another register of the trial. */
  lemma RegReplacement(cfg: Config, i: RegOp, r: Register, e: seq<real>)
    requires cfg.Valid() && |e| == 3
    ensures Replacement(cfg, RegArg(i, r), e)
         == if e[0] > 0.5 then RegArg(Index(NREGARG, e[1]), 0) else RegArg(i, Index(cfg.nregisters, e[1]))
  {
    hide Index, LittleEndian, AddressDrawn;
    RegisterReplaced(i, r, Index(cfg.nregisters, e[1]));
    hide RegByte, WithRegister;
  }

  /** Masking the nibbles and or-ing a register in leaves the opcode with that register. */
  lemma RegisterReplaced(i: RegOp, r: Register, r': Register)
    ensures WithRegister(RegByte(i, r), r') == RegByte(i, r')
  {
    RegOpcodeNibble(i);
  }

  /** A memory instruction: another opcode on the same address, or the same opcode on another one. */
  lemma MemReplacement(cfg: Config, i: MemOp, a: Address, e: seq<real>)
    requires cfg.Valid() && |e| == 3
    ensures Replacement(cfg, MemArg(i, a), e)
         == if e[0] > 0.5 then MemArg(Index(NSIXBYTE, e[1]), a) else MemArg(i, AddressDrawn(cfg, e[1..3]))
  {
    hide Index, LittleEndian, AddressDrawn, RegArg, NoArg;
    assert MemArg(i, a).bytes[2..] == LittleEndian(a);
    assert MemArg(i, a).bytes[..2] == [SIXBYTE[2 * i], SIXBYTE[2 * i + 1]];
  }

  /** Whatever is drawn, an instruction the generator makes is replaced by a variant of it that it makes, too. */
  lemma ReplacementVaries(cfg: Config, ins: Instr, e: seq<real>)
    requires cfg.Valid() && cfg.Generates(ins) && |e| == 3
    ensures var x := Replacement(cfg, ins, e);
            && cfg.Generates(x) && Variant(cfg, ins, x)
            && x.register == ins.register && |x.bytes| == |ins.bytes|
  {
    hide Config.IsConstant, Config.IsInput, Index, Replacement, AddressDrawn, LittleEndian;
    if i: NoArgOp :| ins == NoArg(i) {
      NoArgReplacement(cfg, i, e);
    } else if i: RegOp, r: Register :| r < cfg.nregisters && ins == RegArg(i, r) {
      RegReplacement(cfg, i, r, e);
    } else {
      var i: MemOp, a: Address :| (cfg.IsConstant(a) || cfg.IsInput(a)) && ins == MemArg(i, a);
      MemReplacement(cfg, i, a, e);
    }
  }

  /** Every variant of an instruction is what some draws replace it by. */
  lemma EveryVariantIsDrawn(cfg: Config, ins: Instr, x: Instr) returns (e: seq<real>)
    requires cfg.Valid() && cfg.Generates(ins) && Variant(cfg, ins, x)
    ensures |e| == 3 && UnitDraws(e) && Replacement(cfg, ins, e) == x
  {
    hide Config.IsConstant, Config.IsInput, Index, Replacement, AddressDrawn, NoArg, RegArg, MemArg;
    Kinds(cfg, ins);
    if i: NoArgOp, i': NoArgOp :| ins == NoArg(i) && x == NoArg(i') {
      var t := EveryIndexIsDrawn(NNOARG, i');
      e := [t, 0.0, 0.0];
      NoArgReplacement(cfg, i, e);
    } else if i: RegOp, r: Register :| ins == RegArg(i, r) && RegVariant(cfg, i, x) {
      e := DrawsOfRegVariant(cfg, i, r, x);
    } else {
      var i: MemOp, a: Address :| ins == MemArg(i, a) && MemVariant(cfg, i, a, x);
      e := DrawsOfMemVariant(cfg, i, a, x);
    }
  }

  lemma DrawsOfRegVariant(cfg: Config, i: RegOp, r: Register, x: Instr) returns (e: seq<real>)
    requires cfg.Valid() && RegVariant(cfg, i, x)
    ensures |e| == 3 && UnitDraws(e) && Replacement(cfg, RegArg(i, r), e) == x
  {
    hide Index, Replacement, RegArg;
    if i': RegOp :| x == RegArg(i', 0) {
      var t := EveryIndexIsDrawn(NREGARG, i');
      e := [0.75, t, 0.0];
    } else {
      var r': Register :| r' < cfg.nregisters && x == RegArg(i, r');
      var t := EveryIndexIsDrawn(cfg.nregisters, r');
      e := [0.25, t, 0.0];
    }
    RegReplacement(cfg, i, r, e);
  }

  lemma DrawsOfMemVariant(cfg: Config, i: MemOp, a: Address, x: Instr) returns (e: seq<real>)
    requires cfg.Valid() && MemVariant(cfg, i, a, x)
    ensures |e| == 3 && UnitDraws(e) && Replacement(cfg, MemArg(i, a), e) == x
  {
    hide Config.IsConstant, Config.IsInput, Index, Replacement, AddressDrawn, MemArg;
    if i': MemOp :| x == MemArg(i', a) {
      var t := EveryIndexIsDrawn(NSIXBYTE, i');
      e := [0.75, t, 0.0];
    } else {
      var a': Address :| (cfg.IsConstant(a') || cfg.IsInput(a')) && x == MemArg(i, a');
      var t := EveryAddressIsDrawn(cfg, a');
      e := [0.25] + t;
      assert e[1..3] == t;
    }
    MemReplacement(cfg, i, a, e);
  }

  /** At most one instruction differs; it kept its kind and length, and either its opcode or its operand. */
  ghost predicate Mutant(cfg: Config, p: seq<Instr>, p': seq<Instr>) {
    && |p| == |p'|
    && exists i :: 0 <= i < |p| && OneChange(cfg, p, p', i)
  }

  ghost predicate OneChange(cfg: Config, p: seq<Instr>, p': seq<Instr>, i: int)
    requires 0 <= i < |p| == |p'|
  {
    && p' == p[i := p'[i]] && p'[i].register == p[i].register && |p'[i].bytes| == |p[i].bytes|
    && (p'[i] == p[i] || Variant(cfg, p[i], p'[i]))
  }

  /** Whatever is drawn, a program mutates into a program the system may hold, one instruction replaced at most. */
  lemma MutatedIsMutant(cfg: Config, probability: real, p: seq<Instr>, d: seq<real>)
    requires cfg.Valid() && cfg.WellFormed(p) && |d| == 5
    ensures var p' := Mutated(cfg, probability, p, d);
            && cfg.WellFormed(p') && Mutant(cfg, p, p')
            && (d[0] > probability ==> p' == p)
  {
    hide Config.Generates, Variant, Replacement;
    var i := Index(|p|, d[1]);
    ReplacementVaries(cfg, p[i], d[2..]);
    assert OneChange(cfg, p, Mutated(cfg, probability, p, d), i);
  }

  /**
   Mutation reaches everything it may reach: whatever the program and the place in it, and whatever variant of
   the instruction there, some draws lead to just that change - provided the probability is not negative.
   */
  lemma EveryMutantIsDrawn(cfg: Config, probability: real, p: seq<Instr>, i: nat, x: Instr) returns (d: seq<real>)
    requires cfg.Valid() && cfg.WellFormed(p) && 0.0 <= probability
    requires i < |p| && Variant(cfg, p[i], x)
    ensures |d| == 5 && UnitDraws(d) && Mutated(cfg, probability, p, d) == p[i := x]
  {
    hide Config.Generates, Variant, Index, Replacement;
    var t := EveryIndexIsDrawn(|p|, i);
    var e := EveryVariantIsDrawn(cfg, p[i], x);
    d := [0.0, t] + e;
    assert d[2..] == e;
  }

  /** A 6 byte instruction gets another opcode or another address. */
  method MutateMemory(cfg: Config, rng: Generator, ghost i: MemOp, ghost a: Address)
    returns (skip: int, bytes: seq<byte>, ghost x: Instr)
    requires cfg.Valid() && rng.Valid() && (cfg.IsConstant(a) || cfg.IsInput(a))
    modifies rng
    ensures rng.Valid() && cfg.Generates(x) && Patched(MemArg(i, a), skip, bytes, x)
    ensures var s, e := old(rng.State()), Draws(old(rng.State()), 3);
            && x == Replacement(cfg, MemArg(i, a), e)
            && rng.State() == Run(s, ReplacementDraws(MemArg(i, a), e))
  {
    hide Config.Generates, Config.IsConstant, Config.IsInput, MemVariant, Patched, MemArg, LittleEndian;
    hide Draw, Step, Index, AddressDrawn, Replacement;
    ghost var s := rng.State();
    FirstCalls(s);
    FirstDraws(s);
    SixBytes(i, a);
    MemReplacement(cfg, i, a, Draws(s, 3));
    var coin := rng.Fastrand();
    if coin > 0.5 {
      var inst := rng.Below(NSIXBYTE);
      skip, bytes, x := 0, [SIXBYTE[2 * inst], SIXBYTE[2 * inst + 1]], MemArg(inst, a);
      GeneratesMemArg(cfg, inst, a);
      OtherMemOp(cfg, i, a, inst);
    } else {
      var arg := RandomAddress(cfg, rng);
      skip, bytes, x := 2, LittleEndian(arg), MemArg(i, arg);
      GeneratesMemArg(cfg, i, arg);
      OtherAddress(cfg, i, a, arg);
      assert Draws(s, 3)[1..3] == Draws(Step(s), 2);
    }
  }

  lemma SixBytes(i: MemOp, a: Address)
    ensures |MemArg(i, a).bytes| == 6
  {
  }

  /**
   A 2 byte register instruction gets another opcode, with register 0, or another register.
   The new register is or-ed into the nibble the opcode leaves free.
   */
  method MutateRegister(cfg: Config, rng: Generator, second: byte, ghost i: RegOp, ghost r: Register)
    returns (skip: int, bytes: seq<byte>, ghost x: Instr)
    requires cfg.Valid() && rng.Valid() && r < cfg.nregisters && second == RegByte(i, r)
    modifies rng
    ensures rng.Valid() && cfg.Generates(x) && Patched(RegArg(i, r), skip, bytes, x)
    ensures x == Replacement(cfg, RegArg(i, r), Draws(old(rng.State()), 3))
    ensures rng.State() == Run(old(rng.State()), 2)
  {
    hide Config.Generates, RegVariant, Patched, RegArg, Draw, Step, Index, Replacement;
    ghost var s := rng.State();
    FirstCalls(s);
    FirstDraws(s);
    RegReplacement(cfg, i, r, Draws(s, 3));
    var coin := rng.Fastrand();
    if coin > 0.5 {
      var inst := rng.Below(NREGARG);
      skip, bytes, x := 0, [TWOBYTE_REGARG[2 * inst], TWOBYTE_REGARG[2 * inst + 1]], RegArg(inst, 0);
      GeneratesRegArg(cfg, inst, 0);
      OtherRegOp(cfg, i, r, inst);
    } else {
      var r1 := rng.Below(cfg.nregisters);
      var b := NewRegister(second, r1, i, r);
      skip, bytes, x := 1, [b], RegArg(i, r1);
      GeneratesRegArg(cfg, i, r1);
      OtherRegister(cfg, i, r, r1);
    }
  }

  /** `hinib | lonib`, where the nibbles come from masking with 0xf0 and 0x0f. */
  method NewRegister(second: byte, r1: Register, ghost i: RegOp, ghost r: Register) returns (b: byte)
    requires second == RegByte(i, r)
    ensures b == RegByte(i, r1)
  {
    RegOpcodeNibble(i);
    var hinib, lonib := second - second % 16, second % 16;
    if lonib >= 8 {
      lonib := 8 + r1;
    } else {
      lonib := r1;
    }
    b := hinib + lonib;
  }

  /** Draws the bytes to write over one instruction; its kind stays the same. */
  method MutateInstruction(cfg: Config, rng: Generator, diff: int, sign: int, second: byte, ghost ins: Instr)
    returns (skip: int, bytes: seq<byte>, ghost x: Instr)
    requires cfg.Valid() && rng.Valid() && cfg.Generates(ins)
    requires diff == |ins.bytes| && |ins.bytes| >= 2 && second == ins.bytes[1]
    requires sign != 0 && (sign < 0 <==> ins.register)
    modifies rng
    ensures rng.Valid() && cfg.Generates(x) && Patched(ins, skip, bytes, x)
    ensures var s, e := old(rng.State()), Draws(old(rng.State()), 3);
            x == Replacement(cfg, ins, e) && rng.State() == Run(s, ReplacementDraws(ins, e))
  {
    hide Config.Generates, MemArg, Replacement, Draws, Draw, Step, Index, Run;
    Kinds(cfg, ins);
    ghost var e := Draws(rng.State(), 3);
    if diff == 6 {
      ghost var i: MemOp, a: Address :| (cfg.IsConstant(a) || cfg.IsInput(a)) && ins == MemArg(i, a);
      skip, bytes, x := MutateMemory(cfg, rng, i, a);
    } else if diff == 2 && sign > 0 {
      ghost var i: NoArgOp :| ins == NoArg(i);
      NoArgReplacement(cfg, i, e);
      FirstReplacementDraw(rng.State());
      var inst := rng.Below(NNOARG);
      skip, bytes, x := 0, [TWOBYTE_NOARG[2 * inst], TWOBYTE_NOARG[2 * inst + 1]], NoArg(inst);
      GeneratesNoArg(cfg, inst);
    } else if diff == 2 {
      ghost var i: RegOp, r: Register :| r < cfg.nregisters && ins == RegArg(i, r);
      skip, bytes, x := MutateRegister(cfg, rng, second, i, r);
    } else {
      assert false;
    }
  }

  lemma FirstReplacementDraw(s: Seeds)
    ensures Draws(s, 3)[0] == Draw(s) && Run(s, 1) == Step(s)
  {
    hide Draw, Step;
    FirstDraws(s);
    FirstCalls(s);
  }

  /**
   Mutation of an individual: with the given probability one instruction, chosen at random, is
   replaced by another of the same kind and length.  Everything else, the boundary table
   included, stays as it is.
   */
  method Mutate(cfg: Config, rng: Generator, q: Pop, probability: real, ghost p: seq<Instr>)
    returns (ghost p': seq<Instr>)
    requires cfg.Valid() && rng.Valid() && q.Holds(cfg, p)
    modifies rng, q.code
    ensures rng.Valid() && q.Holds(cfg, p')
    ensures var s, d := old(rng.State()), Draws(old(rng.State()), 5);
            p' == Mutated(cfg, probability, p, d) && rng.State() == Run(s, MutationDraws(probability, p, d))
  {
    hide Flat, Config.Generates, Pop.Holds, Draw, Step, Index, Replacement, ReplacementDraws, Run;
    p' := p;
    InstructionCount(cfg, q, p);
    ghost var s := rng.State();
    MutationSplit(s);
    var coin := rng.Fastrand();
    if coin > probability {
      return;
    }
    var k := rng.Below(q.ninstr);
    ghost var x := MutateAt(cfg, rng, q, k, p);
    p' := p[k := x];
    RunRun(s, 2, ReplacementDraws(p[k], Draws(Step(Step(s)), 3)));
  }

  lemma MutationSplit(s: Seeds)
    ensures Draws(s, 5) == [Draw(s), Draw(Step(s))] + Draws(Step(Step(s)), 3)
    ensures Draws(s, 5)[2..] == Draws(Step(Step(s)), 3)
    ensures Run(s, 1) == Step(s) && Run(s, 2) == Step(Step(s))
  {
    hide Draw, Draws, Step, Run;
    FirstCalls(s);
    NextDraw(s, 5);
    NextDraw(Step(s), 4);
  }

  lemma InstructionCount(cfg: Config, q: Pop, p: seq<Instr>)
    requires cfg.Valid() && q.Holds(cfg, p)
    ensures 1 <= q.ninstr == |p|
  {
    hide Flat, Config.Generates;
  }

  /** Overwrites instruction `k` by a variant. */
  method MutateAt(cfg: Config, rng: Generator, q: Pop, k: int, ghost p: seq<Instr>) returns (ghost x: Instr)
    requires cfg.Valid() && rng.Valid() && q.Holds(cfg, p) && 0 <= k < |p|
    modifies rng, q.code
    ensures rng.Valid() && q.Holds(cfg, p[k := x])
    ensures var s, e := old(rng.State()), Draws(old(rng.State()), 3);
            x == Replacement(cfg, p[k], e) && rng.State() == Run(s, ReplacementDraws(p[k], e))
  {
    hide Flat, Layout, SignedIndex, Config.Generates, Replacement, ReplacementDraws, Draws, Run;
    var at, diff, second := Inspect(cfg, q, k, p);
    var skip, bytes;
    skip, bytes, x := MutateInstruction(cfg, rng, diff, q.indices[k + 1], second, p[k]);
    ApplyPatch(cfg, q, at, skip, bytes, p, k, x);
  }

  /** Where instruction `k` starts, its length, its second byte and the sign of its boundary. */
  method Inspect(cfg: Config, q: Pop, k: int, ghost p: seq<Instr>) returns (at: int, diff: int, second: byte)
    requires q.Holds(cfg, p) && 0 <= k < |p|
    ensures at == Offset(cfg.frame, p, k)
    ensures diff == |p[k].bytes| && 2 <= diff && second == p[k].bytes[1]
    ensures q.indices[k + 1] != 0 && (q.indices[k + 1] < 0 <==> p[k].register)
  {
    hide Flat, Config.Generates;
    ghost var fr := cfg.frame;
    SignedIndexMagnitude(fr, p, k);
    SignedIndexMagnitude(fr, p, k + 1);
    OffsetStep(fr, p, k);
    LayoutSlice(fr, p, k);
    Kinds(cfg, p[k]);
    at := Abs(q.indices[k]);
    diff := Abs(q.indices[k + 1]) - at;
    assert q.code[..q.codelen][at..at + diff][1] == q.code[at + 1];
    second := q.code[at + 1];
  }

  /** Writes the drawn bytes over instruction `i`. */
  method ApplyPatch(cfg: Config, q: Pop, at: int, skip: int, bytes: seq<byte>,
                    ghost p: seq<Instr>, ghost i: nat, ghost x: Instr)
    requires q.Holds(cfg, p) && i < |p| && at == Offset(cfg.frame, p, i)
    requires cfg.Generates(x) && Patched(p[i], skip, bytes, x)
    modifies q.code
    ensures q.Holds(cfg, p[i := x])
  {
    hide Flat, Config.Generates;
    PatchedLayout(cfg.frame, p, i, skip, bytes, x);
    HeadOfLayout(cfg.frame, p[i := x], 0);
    Overwrite(q.code, at + skip, bytes, q.codelen);
    assert q.code[..|cfg.frame.header|] == q.code[..q.codelen][..|cfg.frame.header|];
  }

  lemma PatchedLayout(fr: Frame, p: seq<Instr>, i: nat, skip: int, bytes: seq<byte>, x: Instr)
    requires i < |p| && Patched(p[i], skip, bytes, x)
    ensures var s := Offset(fr, p, i) + skip;
            && 0 <= s && s + |bytes| <= |Layout(fr, p)|
            && Layout(fr, p[i := x]) == Layout(fr, p)[..s] + bytes + Layout(fr, p)[s + |bytes|..]
    ensures forall k :: 0 <= k <= |p| ==> SignedIndex(fr, p[i := x], k) == SignedIndex(fr, p, k)
  {
    hide Flat, Layout;
    LayoutSlice(fr, p, i);
    PatchLayout(Layout(fr, p), Offset(fr, p, i), p[i], skip, bytes, x);
    ReplaceInstruction(fr, p, i, x);
  }

  lemma PatchLayout(layout: seq<byte>, at: int, ins: Instr, skip: int, bytes: seq<byte>, x: Instr)
    requires 0 <= at && at + |ins.bytes| <= |layout| && layout[at..at + |ins.bytes|] == ins.bytes
    requires Patched(ins, skip, bytes, x)
    ensures |x.bytes| == |ins.bytes|
    ensures layout[..at + skip] + bytes + layout[at + skip + |bytes|..]
         == layout[..at] + x.bytes + layout[at + |x.bytes|..]
  {
    var s, e, end := at + skip, at + skip + |bytes|, at + |ins.bytes|;
    var a, b, c, d := layout[..at], layout[at..s], layout[e..end], layout[end..];
    assert ins.bytes[..skip] == b && ins.bytes[skip + |bytes|..] == c;
    assert layout[..s] == a + b && layout[e..] == c + d;
    assert a + b + bytes + (c + d) == a + (b + bytes + c) + d;
  }

  // ---- what the operations mean for programs ------------------------------------------

  /** The buffers determine the program: the bytes give the instructions, the signs their kinds. */
  lemma {:induction false} OneProgram(fr: Frame, q: Pop, a: seq<Instr>, b: seq<Instr>, n: nat)
    requires q.Represents(fr, a) && q.Represents(fr, b) && Sized(a) && Sized(b)
    requires n <= q.ninstr
    ensures a[..n] == b[..n]
    decreases n
  {
    if n == 0 {
    } else {
      OneProgram(fr, q, a, b, n - 1);
      var i := n - 1;
      LayoutSlice(fr, a, i);
      LayoutSlice(fr, b, i);
      SignedIndexMagnitude(fr, a, i);
      SignedIndexMagnitude(fr, b, i);
      SignedIndexMagnitude(fr, a, n);
      SignedIndexMagnitude(fr, b, n);
      assert q.indices[i] == SignedIndex(fr, a, i) && q.indices[n] == SignedIndex(fr, a, n);
      assert a[i].bytes == b[i].bytes;
      assert a[i] == b[i];
      assert a[..n] == a[..i] + [a[i]] && b[..n] == b[..i] + [b[i]];
    }
  }

  /** The boundary table of an individual, as the rest of the program relies on it. */
  lemma Boundaries(cfg: Config, q: Pop, p: seq<Instr>, i: nat)
    requires q.Holds(cfg, p) && i < |p|
    ensures q.indices[0] == |cfg.frame.header|
    ensures var len := Abs(q.indices[i + 1]) - Abs(q.indices[i]);
            && (len == 2 || len == 6)
            && (q.indices[i + 1] < 0 ==> len == 2)
            && 0 <= Abs(q.indices[i]) && Abs(q.indices[i + 1]) <= q.codelen - |cfg.frame.footer|
            && cfg.Generates(Instr(q.code[Abs(q.indices[i])..Abs(q.indices[i + 1])], q.indices[i + 1] < 0))
    ensures q.codelen == Abs(q.indices[q.ninstr]) + |cfg.frame.footer| <= q.code.Length
  {
    hide Flat, Config.Generates;
    var fr := cfg.frame;
    SignedIndexMagnitude(fr, p, i);
    SignedIndexMagnitude(fr, p, i + 1);
    SignedIndexMagnitude(fr, p, |p|);
    LayoutLength(fr, p);
    LayoutSlice(fr, p, i);
    Kinds(cfg, p[i]);
    FlatEmpty(p);
    assert q.indices[0] == SignedIndex(fr, p, 0);
    var s, e := Abs(q.indices[i]), Abs(q.indices[i + 1]);
    SliceOfHead(q.code[..], q.codelen, s, e);
    assert q.code[s..e] == Layout(fr, p)[s..e] == p[i].bytes;
    assert Instr(q.code[s..e], q.indices[i + 1] < 0) == p[i];
  }

  lemma SliceOfHead(c: seq<byte>, n: int, s: int, e: int)
    requires 0 <= s <= e <= n <= |c|
    ensures c[..n][s..e] == c[s..e]
  {
  }

  lemma FlatEmpty(p: seq<Instr>)
    ensures Flat(p[..0]) == []
  {
  }

  /** Crossover conserves instructions, instruction counts and code lengths. */
  lemma SpliceConserves(fr: Frame, a: seq<Instr>, b: seq<Instr>, i: int, j: int)
    requires 1 <= i <= |a| && 1 <= j <= |b|
    ensures var c1, c2 := Splice(a, b, i, j), Splice(b, a, j, i);
            && multiset(c1) + multiset(c2) == multiset(a) + multiset(b)
            && |c1| + |c2| == |a| + |b|
            && |Layout(fr, c1)| + |Layout(fr, c2)| == |Layout(fr, a)| + |Layout(fr, b)|
  {
    hide Flat;
    var h1, t1, h2, t2 := a[..i - 1], a[i - 1..], b[..j - 1], b[j - 1..];
    assert a == h1 + t1 && b == h2 + t2;
    FlatAppend(h1, t1);
    FlatAppend(h2, t2);
    FlatAppend(h1, t2);
    FlatAppend(h2, t1);
  }

  /** Crossing the children again at the same two points gives both parents back. */
  lemma SpliceInvolution(a: seq<Instr>, b: seq<Instr>, i: int, j: int)
    requires 1 <= i <= |a| && 1 <= j <= |b|
    ensures var c1, c2 := Splice(a, b, i, j), Splice(b, a, j, i);
            && i <= |c1| && j <= |c2|
            && Splice(c1, c2, i, j) == a && Splice(c2, c1, j, i) == b
  {
    var c1, c2 := Splice(a, b, i, j), Splice(b, a, j, i);
    assert c1[..i - 1] == a[..i - 1] && c1[i - 1..] == b[j - 1..];
    assert c2[..j - 1] == b[..j - 1] && c2[j - 1..] == a[i - 1..];
    assert a[..i - 1] + a[i - 1..] == a && b[..j - 1] + b[j - 1..] == b;
  }

  // ---- copying --------------------------------------------------------------------

  /** Copies the first `n` boundaries. */
  method CopyBoundaries(src: array<int>, dst: array<int>, n: int)
    requires src != dst && 0 <= n <= src.Length && n <= dst.Length
    modifies dst
    ensures forall k :: 0 <= k < n ==> dst[k] == src[k]
  {
    for i := 0 to n
      invariant forall k :: 0 <= k < i ==> dst[k] == src[k]
    {
      dst[i] := src[i];
    }
  }

  /** Copies the used part of one individual into another slot. */
  method Copy(cfg: Config, from: Pop, to: Pop, ghost p: seq<Instr>)
    requires from.Holds(cfg, p) && to.Storage(cfg) && Apart(from, to)
    modifies to`ninstr, to`codelen, to`error, to.indices, to.code
    ensures to.Holds(cfg, p) && to.error == from.error
  {
    hide Flat, Layout, SignedIndex, Offset, Config.WellFormed;
    CopyBoundaries(from.indices, to.indices, from.ninstr + 1);
    to.ninstr := from.ninstr;
    to.codelen := from.codelen;
    to.error := from.error;
    CopyRange(from.code, 0, from.codelen, to.code, 0);
    HeadOfLayout(cfg.frame, p, 0);
    assert to.code[..to.codelen] == from.code[0..from.codelen] == from.code[..from.codelen];
    assert to.code[..|cfg.frame.header|] == to.code[..to.codelen][..|cfg.frame.header|];
  }
}
