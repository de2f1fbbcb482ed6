/**
 Decompilation preserves meaning.  The bytes run on the rotating stack machine, the emitted
 statements run on an array, and the two are kept in step: wherever a stack register is not
 empty, it holds what the array holds at its number.
 */
module Simulation {
  import opened Opcodes
  import opened Layouts
  import opened Genome
  import opened OpcodeTables
  import opened Parsing
  import opened Wrappers
  import D = Disassembler
  import X = X87
  import C = Decompiler

  /** Everything a run depends on besides the program. */
  datatype World = World(isa: D.Isa, env: C.Env, alu: X.Alu, mem: X.Mem, inputs: int -> real)

  /** Memory holds the constants and the inputs where the configuration says. */
  ghost predicate Consistent(cfg: Config, w: World) {
    && cfg.Valid() && cfg.Printable() && cfg.frame == Frame(X.HEADER, X.FOOTER)
    && Ready(w.isa)
    && w.env.constantBase == cfg.constantBase && w.env.inputBase == cfg.inputBase
    && |w.env.constants| == cfg.nconstants
    && (forall k :: 0 <= k < cfg.nconstants ==> w.mem(cfg.ConstantAddress(k)) == Some(w.env.constants[k]))
    && (forall k :: 0 <= k < cfg.ninputs ==> w.mem(cfg.InputAddress(k)) == Some(w.inputs(k)))
  }

  /** The world in which memory holds these constants and inputs. */
  function Holding(cfg: Config, isa: D.Isa, alu: X.Alu, constants: seq<real>, inputs: int -> real): World
    requires |constants| == cfg.nconstants
  {
    var mem: X.Mem := a =>
      if cfg.constantBase <= a < cfg.constantBase + 8 * cfg.nconstants
      then Some(constants[(a - cfg.constantBase) / 8]) else Some(inputs((a - cfg.inputBase) / 8));
    World(isa, C.Env(cfg.constantBase, constants, cfg.inputBase), alu, mem, inputs)
  }

  /** Whatever the constants and the inputs are, there is a memory that holds them. */
  lemma MemoryExists(cfg: Config, isa: D.Isa, alu: X.Alu, constants: seq<real>, inputs: int -> real)
    requires cfg.Valid() && cfg.Printable() && cfg.frame == Frame(X.HEADER, X.FOOTER)
    requires Ready(isa) && |constants| == cfg.nconstants
    ensures Consistent(cfg, Holding(cfg, isa, alu, constants, inputs))
  {
    hide HasFpuRows, WellFormed;
    var w := Holding(cfg, isa, alu, constants, inputs);
    forall k | 0 <= k < cfg.nconstants ensures w.mem(cfg.ConstantAddress(k)) == Some(constants[k]) {
      assert 8 * k / 8 == k;
    }
    forall k | 0 <= k < cfg.ninputs ensures w.mem(cfg.InputAddress(k)) == Some(inputs(k)) {
      assert 8 * k / 8 == k;
    }
  }

  // ---- one address ------------------------------------------------------------------

  /**
   The nearest-base rule finds the element an address was made from, in the array it was made
   from, for every placement of two disjoint arrays.
   */
  lemma ConstantResolves(cfg: Config, env: C.Env, k: int)
    requires cfg.Placed() && 0 <= k < cfg.nconstants
    requires env.constantBase == cfg.constantBase && env.inputBase == cfg.inputBase
    ensures C.Resolve(env, cfg.ConstantAddress(k)) == C.Constant(k)
  {
  }

  lemma InputResolves(cfg: Config, env: C.Env, k: int)
    requires cfg.Placed() && 0 <= k < cfg.ninputs
    requires env.constantBase == cfg.constantBase && env.inputBase == cfg.inputBase
    ensures C.Resolve(env, cfg.InputAddress(k)) == C.Variable(k)
  {
  }

  /**
   Printing drops a zero displacement, so an instruction on an element at address 0 does not decompile;
   on every other element it does, and refers to that element.
   */
  lemma AddressSurvives(cfg: Config, env: C.Env, i: MemOp, a: Address)
    requires cfg.Placed() && (cfg.IsConstant(a) || cfg.IsInput(a))
    requires env.constantBase == cfg.constantBase && env.inputBase == cfg.inputBase
    requires |env.constants| == cfg.nconstants
    ensures C.Decompile1(env, MemInsn(i, a)).Ok? <==> a != 0
    ensures a != 0 ==> C.OperandsOf(MemInsn(i, a)) == C.AddressText(a)
  {
    if k :| 0 <= k < cfg.nconstants && a == cfg.ConstantAddress(k) {
      ConstantResolves(cfg, env, k);
    } else {
      var k :| 0 <= k < cfg.ninputs && a == cfg.InputAddress(k);
      InputResolves(cfg, env, k);
    }
  }

  // ---- one instruction ----------------------------------------------------------------

  /** The statement does to the array what the instruction does to the stack. */
  ghost predicate Matches(w: World, hw: X.Hw, s: C.Stmt) {
    match hw
    case Arith(op, d, r) => s == C.UpdateReg(op, d, r)
    case ArithMem(op, a) =>
      || (s.UpdateVar? && s.op == op && w.mem(a) == Some(w.inputs(s.index)))
      || (s.UpdateConst? && s.op == op && w.mem(a) == Some(s.value))
    case St0ToReg(d) => s == C.Assign(d)
    case Exchange(r) => s == C.Swap(r)
    case ChangeSign => s == C.Negate
    case Scale => s == C.ScaleBy
    case SquareRoot => s == C.Root
    case Sine => s == C.SinIfSmall
    case Cosine => s == C.CosIfSmall
    case _ => false
  }

  /** What the processor fetches at `off`, next to what the decompiler emits for it. */
  ghost predicate InStep(w: World, buf: seq<byte>, off: nat, ins: Instr)
    requires Ready(w.isa)
  {
    var insn := D.Disasm(w.isa, buf, off);
    && insn.Some? && insn.value.size == |ins.bytes| > 0
    && C.Decompile1(w.env, insn.value).Ok?
    && X.Fetch(buf, off).Good? && X.Fetch(buf, off).size == |ins.bytes|
    && Matches(w, X.Fetch(buf, off).hw, C.Decompile1(w.env, insn.value).value)
  }

  function NoArgHw(i: NoArgOp): X.Hw {
    match i
    case 0 => X.Arith(X.Sub, 0, 1)
    case 1 => X.ChangeSign
    case 2 => X.Scale
    case 3 => X.SquareRoot
    case 4 => X.Cosine
    case _ => X.Sine
  }

  function RegHw(i: RegOp, r: Register): X.Hw {
    match i
    case 0 => X.Arith(X.Add, 0, r)
    case 1 => X.Arith(X.Add, r, 0)
    case 2 => X.St0ToReg(r)
    case 3 => X.Exchange(r)
    case 4 => X.Arith(X.Div, 0, r)
    case 5 => X.Arith(X.Mul, 0, r)
    case 6 => X.Arith(X.Mul, r, 0)
    case 7 => X.Arith(X.Sub, 0, r)
    case _ => X.Arith(X.Sub, r, 0)
  }

  function MemHw(i: MemOp, a: Address): X.Hw {
    X.ArithMem(match i case 0 => X.Add case 1 => X.Div case 2 => X.Mul case _ => X.Sub, a)
  }

  lemma FetchNoArg(buf: seq<byte>, off: nat, i: NoArgOp)
    requires off + 2 <= |buf| && buf[off..off + 2] == NoArg(i).bytes
    ensures X.Fetch(buf, off) == X.Good(NoArgHw(i), 2)
  {
    var bs := buf[off..off + 2];
    assert bs[0] == buf[off] && bs[1] == buf[off + 1];
    assert i == 0 || i == 1 || i == 2 || i == 3 || i == 4 || i == 5;
  }

  lemma FetchRegArg(buf: seq<byte>, off: nat, i: RegOp, r: Register)
    requires off + 2 <= |buf| && buf[off..off + 2] == RegArg(i, r).bytes
    ensures X.Fetch(buf, off) == X.Good(RegHw(i, r), 2)
  {
    hide RegArg;
    RegArgBytes(i, r);
    var bs := buf[off..off + 2];
    assert bs[0] == buf[off] && bs[1] == buf[off + 1];
  }

  lemma FetchMemArg(buf: seq<byte>, off: nat, i: MemOp, a: Address)
    requires off + 6 <= |buf| && buf[off..off + 6] == MemArg(i, a).bytes
    ensures X.Fetch(buf, off) == X.Good(MemHw(i, a), 6)
  {
    var bs := buf[off..off + 6];
    assert bs[0] == buf[off] && bs[1] == buf[off + 1] && bs[2..6] == buf[off + 2..off + 6];
    assert bs[2..6] == LittleEndian(a);
    LittleEndianRoundTrip(a);
    MemArgBytes(i, a);
  }

  lemma NoArgInStep(w: World, buf: seq<byte>, off: nat, i: NoArgOp)
    requires Ready(w.isa) && off + 2 <= |buf| && buf[off..off + 2] == NoArg(i).bytes
    ensures InStep(w, buf, off, NoArg(i))
  {
    hide HasFpuRows, WellFormed, D.Disasm, X.Fetch;
    FetchNoArg(buf, off, i);
    NoArgParses(w.isa, buf, off, i);
  }

  lemma RegArgInStep(w: World, buf: seq<byte>, off: nat, i: RegOp, r: Register)
    requires Ready(w.isa) && off + 2 <= |buf| && buf[off..off + 2] == RegArg(i, r).bytes
    ensures InStep(w, buf, off, RegArg(i, r))
  {
    hide HasFpuRows, WellFormed, D.Disasm, X.Fetch;
    FetchRegArg(buf, off, i, r);
    RegArgParses(w.isa, buf, off, i, r);
  }

  lemma MemArgInStep(cfg: Config, w: World, buf: seq<byte>, off: nat, i: MemOp, a: Address)
    requires Consistent(cfg, w) && (cfg.IsConstant(a) || cfg.IsInput(a))
    requires off + 6 <= |buf| && buf[off..off + 6] == MemArg(i, a).bytes
    ensures InStep(w, buf, off, MemArg(i, a))
  {
    hide HasFpuRows, WellFormed, D.Disasm, X.Fetch, MemArg;
    MemArgSize(i, a);
    FetchMemArg(buf, off, i, a);
    MemArgParses(w.isa, buf, off, i, a);
    if k :| 0 <= k < cfg.nconstants && a == cfg.ConstantAddress(k) {
      ConstantResolves(cfg, w.env, k);
    } else {
      var k :| 0 <= k < cfg.ninputs && a == cfg.InputAddress(k);
      InputResolves(cfg, w.env, k);
    }
  }

  lemma GeneratedInStep(cfg: Config, w: World, buf: seq<byte>, off: nat, ins: Instr)
    requires Consistent(cfg, w) && cfg.Generates(ins)
    requires off + |ins.bytes| <= |buf| && buf[off..off + |ins.bytes|] == ins.bytes
    ensures InStep(w, buf, off, ins)
  {
    hide HasFpuRows, WellFormed, InStep, NoArg, RegArg, MemArg, Config.IsConstant, Config.IsInput;
    if i: NoArgOp :| ins == NoArg(i) {
      NoArgSize(i);
      NoArgInStep(w, buf, off, i);
    } else if i: RegOp, r: Register :| ins == RegArg(i, r) {
      RegArgSize(i, r);
      RegArgInStep(w, buf, off, i, r);
    } else {
      var i: MemOp, a: Address :| (cfg.IsConstant(a) || cfg.IsInput(a)) && ins == MemArg(i, a);
      MemArgSize(i, a);
      MemArgInStep(cfg, w, buf, off, i, a);
    }
  }

  // ---- one step ---------------------------------------------------------------------

  /** Registers that are not empty hold what the array holds; ST(0) is one of them. */
  ghost predicate Sim(s: X.State, f: C.Registers8) {
    && s.Has(0)
    && forall i: Register :: s.Has(i) ==> f[i] == s.St(i)
  }

  lemma SetKeeps(s: X.State, f: C.Registers8, d: Register, x: real)
    requires Sim(s, f)
    ensures Sim(s.Set(d, x), f[d := x]) && s.Set(d, x).top == s.top
    ensures s.Set(d, x).Has(d) && s.Set(d, x).St(d) == x
    ensures forall i: Register :: s.Has(i) ==> s.Set(d, x).Has(i)
  {
  }

  /** Truncation toward zero, written the way the decompiler writes it. */
  lemma TruncBySign(y: real)
    ensures X.Trunc(y) as real == (if y > 0.0 then 1.0 else -1.0) * (C.FabsL(y).Floor as real)
  {
  }

  /** A step keeps the simulation, or ends the run with an exception. */
  ghost predicate Keeps(w: World, s: X.State, f: C.Registers8, hw: X.Hw, stmt: C.Stmt) {
    var o := X.Exec(w.alu, w.mem, s, hw);
    && (o.Running? || o.StackFault? || o.ArithFault?)
    && (o.Running? ==> Sim(o.state, C.ExecStmt(w.alu, w.inputs, f, stmt)) && o.state.top == s.top)
  }

  lemma StepArith(w: World, s: X.State, f: C.Registers8, op: X.ArithOp, d: Register, r: Register)
    requires Sim(s, f)
    ensures Keeps(w, s, f, X.Arith(op, d, r), C.UpdateReg(op, d, r))
  {
    SetKeeps(s, f, d, w.alu.arith(op, f[d], f[r]));
  }

  lemma StepMemory(w: World, s: X.State, f: C.Registers8, op: X.ArithOp, a: Address, stmt: C.Stmt)
    requires Sim(s, f) && Matches(w, X.ArithMem(op, a), stmt)
    ensures Keeps(w, s, f, X.ArithMem(op, a), stmt)
  {
    SetKeeps(s, f, 0, w.alu.arith(op, f[0], w.mem(a).value));
  }

  lemma StepMoves(w: World, s: X.State, f: C.Registers8, r: Register)
    requires Sim(s, f)
    ensures Keeps(w, s, f, X.St0ToReg(r), C.Assign(r))
    ensures Keeps(w, s, f, X.Exchange(r), C.Swap(r))
  {
    SetKeeps(s, f, r, f[0]);
    if s.Has(r) {
      SetKeeps(s, f, 0, f[r]);
      SetKeeps(s.Set(0, s.St(r)), f[0 := f[r]], r, f[0]);
    }
  }

  lemma StepScale(w: World, s: X.State, f: C.Registers8)
    requires Sim(s, f)
    ensures Keeps(w, s, f, X.Scale, C.ScaleBy)
  {
    if s.Has(1) {
      TruncBySign(s.St(1));
      SetKeeps(s, f, 0, C.ExecStmt(w.alu, w.inputs, f, C.ScaleBy)[0]);
    }
  }

  lemma StepUnary(w: World, s: X.State, f: C.Registers8)
    requires Sim(s, f)
    ensures Keeps(w, s, f, X.ChangeSign, C.Negate)
    ensures Keeps(w, s, f, X.SquareRoot, C.Root)
  {
    SetKeeps(s, f, 0, -f[0]);
    SetKeeps(s, f, 0, w.alu.sqrt(f[0]));
  }

  lemma StepTrig(w: World, s: X.State, f: C.Registers8)
    requires Sim(s, f)
    ensures Keeps(w, s, f, X.Sine, C.SinIfSmall)
    ensures Keeps(w, s, f, X.Cosine, C.CosIfSmall)
  {
    SetKeeps(s, f, 0, w.alu.sin(f[0]));
    SetKeeps(s, f, 0, w.alu.cos(f[0]));
  }

  lemma StepSimulates(w: World, s: X.State, f: C.Registers8, hw: X.Hw, stmt: C.Stmt)
    requires Sim(s, f) && Matches(w, hw, stmt)
    ensures Keeps(w, s, f, hw, stmt)
  {
    hide Sim, Keeps;
    match hw
    case Arith(op, d, r) => StepArith(w, s, f, op, d, r);
    case ArithMem(op, a) => StepMemory(w, s, f, op, a, stmt);
    case St0ToReg(d) => StepMoves(w, s, f, d);
    case Exchange(r) => StepMoves(w, s, f, r);
    case Scale => StepScale(w, s, f);
    case _ =>
      StepUnary(w, s, f);
      StepTrig(w, s, f);
  }

  // ---- whole runs -------------------------------------------------------------------

  /** The footer returns ST(0). */
  lemma FooterReturns(cfg: Config, w: World, p: seq<Instr>, s: X.State)
    requires cfg.frame == Frame(X.HEADER, X.FOOTER) && s.Has(0)
    ensures X.Execute(w.alu, w.mem, Layout(cfg.frame, p), Offset(cfg.frame, p, |p|), s) == X.Returned(s.St(0))
  {
    hide Flat, X.Execute;
    HeadOfLayout(cfg.frame, p, |p|);
    assert p[|p|..] == [];
    FlatNil();
    assert [] + X.FOOTER == X.FOOTER;
    PopReturn(w, Layout(cfg.frame, p), Offset(cfg.frame, p, |p|), s);
  }

  lemma PopReturn(w: World, code: seq<byte>, at: nat, s: X.State)
    requires at <= |code| && code[at..] == [0x5d, 0xc3] && s.Has(0)
    ensures X.Execute(w.alu, w.mem, code, at, s) == X.Returned(s.St(0))
  {
    assert |code| == at + 2;
    assert code[at] == code[at..][0] && code[at + 1] == code[at..][1];
    assert X.Fetch(code, at) == X.Good(X.Integer, 1);
    assert X.Fetch(code, at + 1) == X.Good(X.Return, 1);
    assert X.Execute(w.alu, w.mem, code, at, s) == X.Execute(w.alu, w.mem, code, at + 1, s);
  }

  lemma FlatNil()
    ensures Flat([]) == []
  {
  }

  /** From instruction `i` on, the stack machine and the emitted statements stay in step. */
  lemma {:induction false} BodySimulates(cfg: Config, w: World, p: seq<Instr>, i: nat, s: X.State, f: C.Registers8)
    requires Consistent(cfg, w) && i <= |p| && forall k :: 0 <= k < |p| ==> cfg.Generates(p[k])
    requires Sim(s, f)
    ensures var code, at := Layout(cfg.frame, p), Offset(cfg.frame, p, i);
            var ss := C.Sweep(w.isa, w.env, code, |X.FOOTER|, at);
            var o := X.Execute(w.alu, w.mem, code, at, s);
            && ss.Ok? && |ss.value| == |p| - i
            && (o.Returned? || o.StackFault? || o.ArithFault?)
            && (o.Returned? ==> o.value == C.ExecStmts(w.alu, w.inputs, f, ss.value)[0])
    decreases |p| - i
  {
    hide HasFpuRows, WellFormed, Flat, Matches, Sim, D.Disasm, X.Fetch, X.Exec;
    hide C.ExecStmt, C.Decompile1, Config.Generates;
    var fr := cfg.frame;
    var code, at := Layout(fr, p), Offset(fr, p, i);
    LayoutLength(fr, p);
    if i == |p| {
      SimTop(s, f);
      FooterReturns(cfg, w, p, s);
    } else {
      LayoutSlice(fr, p, i);
      GeneratedInStep(cfg, w, code, at, p[i]);
      var insn := D.Disasm(w.isa, code, at).value;
      var stmt := C.Decompile1(w.env, insn).value;
      var hw := X.Fetch(code, at).hw;
      StepSimulates(w, s, f, hw, stmt);
      var o := X.Exec(w.alu, w.mem, s, hw);
      var rest := C.Sweep(w.isa, w.env, code, |X.FOOTER|, at + insn.size);
      var f' := C.ExecStmt(w.alu, w.inputs, f, stmt);
      var s' := if o.Running? then o.state else s;
      var g := if o.Running? then f' else f;
      BodySimulates(cfg, w, p, i + 1, s', g);
      assert ([stmt] + rest.value)[1..] == rest.value;
    }
  }

  lemma SimTop(s: X.State, f: C.Registers8)
    requires Sim(s, f)
    ensures s.Has(0) && f[0] == s.St(0)
  {
  }

  /**
   Decompilation preserves meaning.  For every program the system can generate, every input and
   constant vector and every arithmetic, the decompiler succeeds; and if the machine code, run
   from FINIT through header, body and footer, returns without an exception, it returns what the
   emitted function returns.
   */
  lemma DecompilationPreservesMeaning(cfg: Config, w: World, p: seq<Instr>)
    requires Consistent(cfg, w) && forall k :: 0 <= k < |p| ==> cfg.Generates(p[k])
    ensures var code := Layout(cfg.frame, p);
            var ss := C.Sweep(w.isa, w.env, code, |X.FOOTER|, |X.HEADER|);
            var o := X.Execute(w.alu, w.mem, code, 0, X.Initial());
            && ss.Ok? && |ss.value| == |p|
            && (o.Returned? || o.StackFault? || o.ArithFault?)
            && (o.Returned? ==> o.value == C.RunC(w.alu, w.inputs, ss.value))
  {
    hide HasFpuRows, WellFormed, Flat, D.Disasm, X.Fetch, X.Exec, X.Execute;
    hide C.ExecStmt, C.Decompile1, C.Sweep, Config.Generates;
    var code := Layout(cfg.frame, p);
    HeadOfLayout(cfg.frame, p, 0);
    FlatEmpty(p);
    var s := X.HeaderRun(w.alu, w.mem, code);
    BodySimulates(cfg, w, p, 0, s, seq(8, i => 0.0));
  }

  /** The same for an individual of the population, whose bytes are what both sides read. */
  lemma IndividualDecompiles(cfg: Config, w: World, q: Pop, p: seq<Instr>)
    requires Consistent(cfg, w) && q.Holds(cfg, p)
    ensures var code := q.code[..q.codelen];
            var ss := C.Sweep(w.isa, w.env, code, |X.FOOTER|, |X.HEADER|);
            var o := X.Execute(w.alu, w.mem, code, 0, X.Initial());
            && ss.Ok? && |ss.value| == q.ninstr
            && (o.Returned? ==> o.value == C.RunC(w.alu, w.inputs, ss.value))
  {
    hide HasFpuRows, WellFormed, Flat, Config.Generates, C.Sweep, X.Execute;
    DecompilationPreservesMeaning(cfg, w, p);
  }
}
