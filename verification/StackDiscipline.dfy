/**
 What the register stack goes through while a generated program runs: the top never moves, the
 registers above the trial's limit are never written, and a program can read an empty register
 only through ST(7).
 */
module StackDiscipline {
  import opened Opcodes
  import opened Layouts
  import opened Genome
  import opened OpcodeTables
  import opened Simulation
  import opened Wrappers
  import D = Disassembler
  import Parsing
  import X = X87

  /** What the processor runs for a generated instruction. */
  ghost predicate RunsAs(cfg: Config, ins: Instr, hw: X.Hw) {
    || (exists i: NoArgOp :: ins == NoArg(i) && hw == NoArgHw(i))
    || (exists i: RegOp, r: Register :: r < cfg.nregisters && ins == RegArg(i, r) && hw == RegHw(i, r))
    || (exists i: MemOp, a: Address ::
          (cfg.IsConstant(a) || cfg.IsInput(a)) && ins == MemArg(i, a) && hw == MemHw(i, a))
  }

  /** Wherever its bytes stand, a generated instruction is fetched whole, and the same each time. */
  lemma InstructionFetches(cfg: Config, buf: seq<byte>, off: nat, ins: Instr)
    requires cfg.Generates(ins)
    requires off + |ins.bytes| <= |buf| && buf[off..off + |ins.bytes|] == ins.bytes
    ensures X.Fetch(buf, off).Good? && X.Fetch(buf, off).size == |ins.bytes|
    ensures RunsAs(cfg, ins, X.Fetch(buf, off).hw)
  {
    hide X.Fetch, NoArg, RegArg, MemArg, Config.IsConstant, Config.IsInput;
    if i: NoArgOp :| ins == NoArg(i) {
      Parsing.NoArgSize(i);
      FetchNoArg(buf, off, i);
    } else if i: RegOp, r: Register :| r < cfg.nregisters && ins == RegArg(i, r) {
      Parsing.RegArgSize(i, r);
      FetchRegArg(buf, off, i, r);
    } else {
      var i: MemOp, a: Address :| (cfg.IsConstant(a) || cfg.IsInput(a)) && ins == MemArg(i, a);
      Parsing.MemArgSize(i, a);
      FetchMemArg(buf, off, i, a);
    }
  }

  /** The registers an instruction reads, and the one it may write. */
  function Reads(hw: X.Hw): set<Register> {
    match hw
    case Arith(_, d, r) => {d, r}
    case Exchange(r) => {0, r}
    case Scale => {0, 1}
    case LoadZero => {}
    case Integer => {}
    case _ => {0}
  }

  function Writes(hw: X.Hw): set<Register> {
    match hw
    case Arith(_, d, _) => {d}
    case St0ToReg(d) => {d}
    case Exchange(r) => {0, r}
    case _ => {0}
  }

  /** The instructions a body is made of: none moves the top. */
  predicate InBody(hw: X.Hw) {
    !hw.St0ToRegPop? && !hw.LoadZero? && !hw.Integer? && !hw.Return?
  }

  /** An instruction that names ST(7), told by its bytes, and the one that fills it: DD D7. */
  predicate NamesSt7(ins: Instr) {
    ins.register && |ins.bytes| == 2 && ins.bytes[1] % 8 == 7
  }

  predicate FillsSt7(ins: Instr) {
    ins.register && ins.bytes == [0xdd, 0xd7]
  }

  /** Which registers a generated instruction touches. */
  lemma GeneratedRegisters(cfg: Config, ins: Instr, hw: X.Hw)
    requires cfg.Valid() && RunsAs(cfg, ins, hw)
    ensures InBody(hw)
    ensures forall r :: r in Writes(hw) ==> r < cfg.nregisters
    ensures forall r :: r in Reads(hw) ==> r < cfg.nregisters || r == 1
    ensures NamesSt7(ins) && !FillsSt7(ins) <==> 7 in Reads(hw)
    ensures FillsSt7(ins) <==> hw == X.St0ToReg(7)
  {
    hide NoArg, RegArg, MemArg, Config.IsConstant, Config.IsInput;
    if i: RegOp, r: Register :| r < cfg.nregisters && ins == RegArg(i, r) && hw == RegHw(i, r) {
      RegArgKind(i, r);
      Parsing.RegArgBytes(i, r);
    } else if i: NoArgOp :| ins == NoArg(i) && hw == NoArgHw(i) {
      NoArgKind(i);
    } else {
      var i: MemOp, a: Address :| (cfg.IsConstant(a) || cfg.IsInput(a)) && ins == MemArg(i, a) && hw == MemHw(i, a);
      MemArgKind(i, a);
    }
  }

  lemma RegArgKind(i: RegOp, r: Register)
    ensures RegArg(i, r).register && |RegArg(i, r).bytes| == 2
    ensures RegArg(i, r).bytes == [0xdd, 0xd7] <==> i == 2 && r == 7
  {
    assert i == 0 || i == 1 || i == 2 || i == 3 || i == 4 || i == 5 || i == 6 || i == 7 || i == 8;
  }

  lemma NoArgKind(i: NoArgOp)
    ensures !NoArg(i).register
  {
  }

  lemma MemArgKind(i: MemOp, a: Address)
    ensures !MemArg(i, a).register
  {
  }

  // ---- one step ---------------------------------------------------------------------

  /** The top stays; registers outside `ws` keep value and tag; no register is emptied. */
  ghost predicate Framed(s: X.State, t: X.State, ws: set<Register>) {
    && t.top == s.top
    && (forall i: Register :: i !in ws ==> t.St(i) == s.St(i) && t.Has(i) == s.Has(i))
    && (forall i: Register :: s.Has(i) ==> t.Has(i))
  }

  lemma SetFrame(s: X.State, d: Register, x: real, ws: set<Register>)
    requires d in ws
    ensures Framed(s, s.Set(d, x), ws) && s.Set(d, x).Has(d)
  {
    var t := s.Set(d, x);
    forall i: Register | i != d ensures t.St(i) == s.St(i) && t.Has(i) == s.Has(i) {
      assert s.Slot(i) != s.Slot(d);
    }
  }

  lemma FrameTrans(s: X.State, t: X.State, u: X.State, ws: set<Register>)
    requires Framed(s, t, ws) && Framed(t, u, ws)
    ensures Framed(s, u, ws)
  {
  }

  /** Every register an instruction reads holds a value. */
  ghost predicate Readable(s: X.State, hw: X.Hw) {
    forall r :: r in Reads(hw) ==> s.Has(r)
  }

  /**
   A body instruction faults on the stack exactly when it reads an empty register; otherwise it
   moves neither the top nor any register it does not write.
   */
  ghost predicate Disciplined(alu: X.Alu, mem: X.Mem, s: X.State, hw: X.Hw) {
    var o := X.Exec(alu, mem, s, hw);
    && (o.StackFault? <==> !Readable(s, hw))
    && (o.Running? ==> Framed(s, o.state, Writes(hw)))
    && (o.Running? && hw.St0ToReg? ==> o.state.Has(hw.dst))
  }

  lemma ArithDiscipline(alu: X.Alu, mem: X.Mem, s: X.State, op: X.ArithOp, d: Register, r: Register)
    ensures Disciplined(alu, mem, s, X.Arith(op, d, r))
  {
    hide Framed;
    var hw := X.Arith(op, d, r);
    assert d in Reads(hw) && r in Reads(hw);
    SetFrame(s, d, alu.arith(op, s.St(d), s.St(r)), Writes(hw));
  }

  lemma ExchangeDiscipline(alu: X.Alu, mem: X.Mem, s: X.State, r: Register)
    ensures Disciplined(alu, mem, s, X.Exchange(r))
  {
    hide Framed;
    var hw := X.Exchange(r);
    assert 0 in Reads(hw) && r in Reads(hw);
    var t := s.Set(0, s.St(r));
    SetFrame(s, 0, s.St(r), Writes(hw));
    SetFrame(t, r, s.St(0), Writes(hw));
    FrameTrans(s, t, t.Set(r, s.St(0)), Writes(hw));
  }

  lemma ScaleDiscipline(alu: X.Alu, mem: X.Mem, s: X.State)
    ensures Disciplined(alu, mem, s, X.Scale)
  {
    hide Framed;
    assert 0 in Reads(X.Scale) && 1 in Reads(X.Scale);
    SetFrame(s, 0, alu.arith(X.Mul, s.St(0), alu.pow2(X.Trunc(s.St(1)) as real)), Writes(X.Scale));
  }

  lemma TopDiscipline(alu: X.Alu, mem: X.Mem, s: X.State, hw: X.Hw)
    requires InBody(hw) && !hw.Arith? && !hw.Exchange? && !hw.Scale?
    ensures Disciplined(alu, mem, s, hw)
  {
    hide Framed;
    assert 0 in Reads(hw);
    var o := X.Exec(alu, mem, s, hw);
    var d := if hw.St0ToReg? then hw.dst else 0;
    SameFrame(s, Writes(hw));
    if o.Running? && o.state != s {
      var x := o.state.St(d);
      assert o.state == s.Set(d, x);
      SetFrame(s, d, x, Writes(hw));
    }
  }

  lemma SameFrame(s: X.State, ws: set<Register>)
    ensures Framed(s, s, ws)
  {
  }

  lemma StepDiscipline(alu: X.Alu, mem: X.Mem, s: X.State, hw: X.Hw)
    requires InBody(hw)
    ensures Disciplined(alu, mem, s, hw)
  {
    hide Disciplined;
    match hw
    case Arith(op, d, r) => ArithDiscipline(alu, mem, s, op, d, r);
    case Exchange(r) => ExchangeDiscipline(alu, mem, s, r);
    case Scale => ScaleDiscipline(alu, mem, s);
    case _ => TopDiscipline(alu, mem, s, hw);
  }

  // ---- whole bodies -------------------------------------------------------------------

  /** What became of the run after the first `k` instructions of the body. */
  function After(alu: X.Alu, mem: X.Mem, fr: Frame, p: seq<Instr>, s: X.State, k: nat): X.Outcome
    requires k <= |p|
  {
    if k == 0 then X.Running(s)
    else
      var o := After(alu, mem, fr, p, s, k - 1);
      var d := X.Fetch(Layout(fr, p), Offset(fr, p, k - 1));
      if o.Running? && d.Good? then X.Exec(alu, mem, o.state, d.hw)
      else if o.Running? then X.BadOpcode
      else o
  }

  /** Executing from the header's end is executing `k` instructions and going on from there. */
  lemma {:induction false} AfterIsExecute(cfg: Config, alu: X.Alu, mem: X.Mem, p: seq<Instr>, s: X.State, k: nat)
    requires k <= |p| && forall j :: 0 <= j < |p| ==> cfg.Generates(p[j])
    ensures var code := Layout(cfg.frame, p);
            var o := After(alu, mem, cfg.frame, p, s, k);
            X.Execute(alu, mem, code, Offset(cfg.frame, p, 0), s) ==
              if o.Running? then X.Execute(alu, mem, code, Offset(cfg.frame, p, k), o.state) else o
    decreases k
  {
    hide Flat, X.Fetch, X.Exec, Config.Generates, RunsAs;
    if k == 0 {
    } else {
      AfterIsExecute(cfg, alu, mem, p, s, k - 1);
      LayoutSlice(cfg.frame, p, k - 1);
      InstructionFetches(cfg, Layout(cfg.frame, p), Offset(cfg.frame, p, k - 1), p[k - 1]);
    }
  }

  /**
   As long as the run goes on, the top is where the header left it, and the registers numbered
   `nregisters` and above hold what the header left in them.
   */
  lemma {:induction false} BodyDiscipline(cfg: Config, alu: X.Alu, mem: X.Mem, p: seq<Instr>, s: X.State, k: nat)
    requires cfg.Valid() && k <= |p| && forall j :: 0 <= j < |p| ==> cfg.Generates(p[j])
    ensures var o := After(alu, mem, cfg.frame, p, s, k);
            o.Running? ==>
              && o.state.top == s.top
              && (forall i: Register :: cfg.nregisters <= i ==> o.state.St(i) == s.St(i) && o.state.Has(i) == s.Has(i))
              && (forall i: Register :: s.Has(i) ==> o.state.Has(i))
    decreases k
  {
    hide Flat, X.Fetch, X.Exec, Config.Generates, RunsAs;
    if k == 0 {
    } else {
      BodyDiscipline(cfg, alu, mem, p, s, k - 1);
      LayoutSlice(cfg.frame, p, k - 1);
      InstructionFetches(cfg, Layout(cfg.frame, p), Offset(cfg.frame, p, k - 1), p[k - 1]);
      var hw := X.Fetch(Layout(cfg.frame, p), Offset(cfg.frame, p, k - 1)).hw;
      GeneratedRegisters(cfg, p[k - 1], hw);
      var o := After(alu, mem, cfg.frame, p, s, k - 1);
      if o.Running? {
        StepDiscipline(alu, mem, o.state, hw);
      }
    }
  }

  /** No instruction names ST(7) before one has filled it. */
  predicate Safe(p: seq<Instr>, filled: bool) {
    p != [] ==>
      && (NamesSt7(p[0]) && !FillsSt7(p[0]) ==> filled)
      && Safe(p[1..], filled || FillsSt7(p[0]))
  }

  /** One instruction on a stack whose registers 0 to 6 hold values. */
  lemma SevenFull(cfg: Config, alu: X.Alu, mem: X.Mem, s: X.State, ins: Instr, hw: X.Hw)
    requires cfg.Valid() && RunsAs(cfg, ins, hw)
    requires forall i: Register :: i < 7 ==> s.Has(i)
    ensures var o := X.Exec(alu, mem, s, hw);
            && (o.StackFault? <==> NamesSt7(ins) && !FillsSt7(ins) && !s.Has(7))
            && (o.Running? ==>
                  && (forall i: Register :: i < 7 ==> o.state.Has(i))
                  && (o.state.Has(7) <==> s.Has(7) || FillsSt7(ins)))
  {
    hide X.Exec, RunsAs;
    GeneratedRegisters(cfg, ins, hw);
    StepDiscipline(alu, mem, s, hw);
    WritesSeven(hw);
    assert 7 in Reads(hw) && !s.Has(7) ==> !Readable(s, hw);
  }

  /** Whoever writes ST(7) without filling it has read it. */
  lemma WritesSeven(hw: X.Hw)
    requires InBody(hw)
    ensures 7 in Writes(hw) ==> 7 in Reads(hw) || hw == X.St0ToReg(7)
  {
  }

  /**
   From a stack with only ST(7) empty, a program that does not name ST(7) before filling it never
   faults on the stack.  Every other program ends in a fault, whatever the arithmetic: on the stack, if
   arithmetic has not faulted before.
   */
  lemma {:induction false} BodyStackSafety(cfg: Config, w: World, p: seq<Instr>, i: nat, s: X.State)
    requires Consistent(cfg, w) && i <= |p| && forall j :: 0 <= j < |p| ==> cfg.Generates(p[j])
    requires forall r: Register :: r < 7 ==> s.Has(r)
    ensures var o := X.Execute(w.alu, w.mem, Layout(cfg.frame, p), Offset(cfg.frame, p, i), s);
            && (Safe(p[i..], s.Has(7)) ==> !o.StackFault?)
            && (!Safe(p[i..], s.Has(7)) ==> o.StackFault? || o.ArithFault?)
            && (!Safe(p[i..], s.Has(7)) && (forall k, x, y :: !w.alu.faults(k, x, y)) ==> o.StackFault?)
    decreases |p| - i
  {
    hide Flat, X.Fetch, X.Exec, Config.Generates, RunsAs, HasFpuRows, WellFormed, Matches, D.Disasm;
    var fr := cfg.frame;
    if i == |p| {
      FooterReturns(cfg, w, p, s);
    } else {
      var code, at := Layout(fr, p), Offset(fr, p, i);
      LayoutSlice(fr, p, i);
      InstructionFetches(cfg, code, at, p[i]);
      var hw := X.Fetch(code, at).hw;
      SevenFull(cfg, w.alu, w.mem, s, p[i], hw);
      var o := X.Exec(w.alu, w.mem, s, hw);
      assert p[i..][0] == p[i] && p[i..][1..] == p[i + 1..];
      if o.Running? {
        BodyStackSafety(cfg, w, p, i + 1, o.state);
      } else {
        OnlyTheseFaults(cfg, w, s, p[i], hw);
      }
    }
  }

  /** With consistent memory a body instruction goes on, or faults on the stack or in arithmetic. */
  lemma OnlyTheseFaults(cfg: Config, w: World, s: X.State, ins: Instr, hw: X.Hw)
    requires Consistent(cfg, w) && RunsAs(cfg, ins, hw)
    ensures var o := X.Exec(w.alu, w.mem, s, hw);
            && (o.Running? || o.StackFault? || o.ArithFault?)
            && (o.ArithFault? ==> exists k, x, y :: w.alu.faults(k, x, y))
  {
    hide HasFpuRows, WellFormed, Layout, Flat, NoArg, RegArg, MemArg, Config.Valid, Matches, D.Disasm;
  }

  lemma AfterHeaderFull(s: X.State)
    requires X.AfterHeader(s)
    ensures (forall r: Register :: r < 7 ==> s.Has(r)) && !s.Has(7)
  {
  }

  /**
   The whole run, from FINIT through the header.  An unsafe program never returns a value; a safe one
   never faults on the stack.
   */
  lemma StackSafety(cfg: Config, w: World, p: seq<Instr>)
    requires Consistent(cfg, w) && forall j :: 0 <= j < |p| ==> cfg.Generates(p[j])
    ensures var o := X.Execute(w.alu, w.mem, Layout(cfg.frame, p), 0, X.Initial());
            && (Safe(p, false) ==> !o.StackFault?)
            && (!Safe(p, false) ==> o.StackFault? || o.ArithFault?)
            && (!Safe(p, false) && (forall k, x, y :: !w.alu.faults(k, x, y)) ==> o.StackFault?)
  {
    hide Flat, X.Execute, Config.Generates, HasFpuRows, WellFormed, Safe, X.AfterHeader, Matches, D.Disasm;
    var code := Layout(cfg.frame, p);
    HeadOfLayout(cfg.frame, p, 0);
    FlatEmpty(p);
    var s := X.HeaderRun(w.alu, w.mem, code);
    AfterHeaderFull(s);
    assert Offset(cfg.frame, p, 0) == |X.HEADER| && p[0..] == p;
    hide Layout, Offset;
    BodyStackSafety(cfg, w, p, 0, s);
  }

  /** With at most seven registers in use no generated program ever reads an empty register. */
  lemma {:induction false} SevenRegistersAreSafe(cfg: Config, p: seq<Instr>, filled: bool)
    requires cfg.Valid() && cfg.nregisters <= 7 && forall j :: 0 <= j < |p| ==> cfg.Generates(p[j])
    ensures Safe(p, filled)
    decreases |p|
  {
    if p == [] {
    } else {
      NeverNamesSt7(cfg, p[0]);
      SevenRegistersAreSafe(cfg, p[1..], filled || FillsSt7(p[0]));
    }
  }

  lemma NeverNamesSt7(cfg: Config, ins: Instr)
    requires cfg.nregisters <= 7 && cfg.Generates(ins)
    ensures !NamesSt7(ins)
  {
    if i: RegOp, r: Register :| r < cfg.nregisters && ins == RegArg(i, r) {
      Parsing.RegArgBytes(i, r);
    }
  }

  /** FADD ST(0),ST(7), as often as a program must have instructions. */
  function Eighth(cfg: Config): seq<Instr>
    requires cfg.Valid()
  {
    seq(cfg.minInstrs, i => RegArg(0, 7))
  }

  /**
   With eight registers the property fails: here is an individual the system may hold whose run is
   a stack fault in every world, at its very first instruction.
   */
  lemma EighthRegisterUnsafe(cfg: Config, w: World)
    requires Consistent(cfg, w) && cfg.nregisters == 8
    ensures cfg.WellFormed(Eighth(cfg))
    ensures X.Execute(w.alu, w.mem, Layout(cfg.frame, Eighth(cfg)), 0, X.Initial()) == X.StackFault
  {
    hide Flat, X.Fetch, X.AfterHeader, HasFpuRows, WellFormed, Matches, D.Disasm, RegArg, Config.Generates;
    var p := Eighth(cfg);
    var code := Layout(cfg.frame, p);
    GeneratesRegArg(cfg, 0, 7);
    HeadOfLayout(cfg.frame, p, 0);
    FlatEmpty(p);
    LayoutSlice(cfg.frame, p, 0);
    Parsing.RegArgSize(0, 7);
    FetchRegArg(code, |X.HEADER|, 0, 7);
    var s := X.HeaderRun(w.alu, w.mem, code);
    AfterHeaderFull(s);
    assert RegHw(0, 7) == X.Arith(X.Add, 0, 7);
  }
}
