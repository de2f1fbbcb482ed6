/**
 What the bytes of a program do when they run: an 8-register rotating stack with a top-of-stack
 pointer and empty tags (section 8.1.2 of volume 1 of the Intel 64 and IA-32 Architectures
 Software Developer's Manual), restricted to the instructions of this language, its header and
 its footer.  Arithmetic is uninterpreted, so the results hold for any rounding; an unmasked
 floating-point exception ends the run.
 */
module X87 {
  import opened Opcodes
  import opened Wrappers

  /** Seven times FLDZ; FSTP ST(k), then push ebp; mov ebp,esp. */
  const HEADER: seq<byte> := [
    0xd9, 0xee, 0xdd, 0xd9, 0xd9, 0xee, 0xdd, 0xda, 0xd9, 0xee, 0xdd, 0xdb, 0xd9, 0xee, 0xdd, 0xdc,
    0xd9, 0xee, 0xdd, 0xdd, 0xd9, 0xee, 0xdd, 0xde, 0xd9, 0xee, 0xdd, 0xdf, 0x55, 0x89, 0xe5]

  /** pop ebp; ret. */
  const FOOTER: seq<byte> := [0x5d, 0xc3]

  datatype ArithOp = Add | Sub | Mul | Div

  /** Operations that can raise an arithmetic exception. */
  datatype Faulting = OfArith(op: ArithOp) | OfSqrt | OfScale | OfSin | OfCos

  /**
   The floating-point unit and the C mathematics library: uninterpreted functions on values,
   and the arguments on which the unit raises an exception.
   */
  datatype Alu = Alu(
    arith: (ArithOp, real, real) -> real,
    sqrt: real -> real, sin: real -> real, cos: real -> real, pow2: real -> real,
    faults: (Faulting, real, real) -> bool)

  /** Trigonometric instructions leave their operand alone from 2^63 on. */
  const TRIG_LIMIT: real := 9223372036854775808.0

  datatype Hw =
    | Arith(op: ArithOp, dst: Register, src: Register)
    | ArithMem(op: ArithOp, addr: Address)
    | St0ToReg(dst: Register)
    | St0ToRegPop(dst: Register)
    | Exchange(reg: Register)
    | LoadZero
    | ChangeSign | Scale | SquareRoot | Sine | Cosine
    | Integer
    | Return

  datatype Decoded = Bad | Good(hw: Hw, size: nat)

  /** The opcode map of the instructions at hand. */
  function Fetch(code: seq<byte>, pc: nat): (d: Decoded)
    ensures d.Good? ==> 1 <= d.size && pc + d.size <= |code|
  {
    if pc >= |code| then Bad
    else if code[pc] == 0x55 || code[pc] == 0x5d then Good(Integer, 1)
    else if code[pc] == 0xc3 then Good(Return, 1)
    else if pc + 1 >= |code| then Bad
    else if code[pc] == 0x89 && code[pc + 1] == 0xe5 then Good(Integer, 2)
    else if code[pc + 1] < 0xc0 then
      if code[pc] == 0xdc && code[pc + 1] % 8 == 5 && code[pc + 1] < 0x40 && pc + 6 <= |code| then
        var op := MemoryGroup(code[pc + 1] / 8 % 8);
        if op.None? then Bad else Good(ArithMem(op.value, FromLittleEndian(code[pc + 2..pc + 6])), 6)
      else Bad
    else
      var hw := RegisterForm(code[pc], code[pc + 1]);
      if hw.None? then Bad else Good(hw.value, 2)
  }

  /** DC /r with a memory operand: the reg field selects the operation. */
  function MemoryGroup(reg: int): Option<ArithOp> {
    if reg == 0 then Some(Add) else if reg == 1 then Some(Mul)
    else if reg == 4 then Some(Sub) else if reg == 6 then Some(Div) else None
  }

  /** Two-byte forms: the second byte is at least C0, and its low three bits are a register. */
  function RegisterForm(b0: byte, b1: byte): Option<Hw>
    requires b1 >= 0xc0
  {
    var group, i := (b1 - 0xc0) / 8, b1 % 8;
    if b0 == 0xd8 then
      if group == 0 then Some(Arith(Add, 0, i)) else if group == 1 then Some(Arith(Mul, 0, i))
      else if group == 4 then Some(Arith(Sub, 0, i)) else if group == 6 then Some(Arith(Div, 0, i))
      else None
    else if b0 == 0xdc then
      if group == 0 then Some(Arith(Add, i, 0)) else if group == 1 then Some(Arith(Mul, i, 0))
      else if group == 5 then Some(Arith(Sub, i, 0)) else if group == 7 then Some(Arith(Div, i, 0))
      else None
    else if b0 == 0xdd then
      if group == 2 then Some(St0ToReg(i)) else if group == 3 then Some(St0ToRegPop(i)) else None
    else if b0 == 0xd9 then
      if group == 1 then Some(Exchange(i))
      else if b1 == 0xe0 then Some(ChangeSign)
      else if b1 == 0xee then Some(LoadZero)
      else if b1 == 0xfa then Some(SquareRoot)
      else if b1 == 0xfd then Some(Scale)
      else if b1 == 0xfe then Some(Sine)
      else if b1 == 0xff then Some(Cosine)
      else None
    else None
  }

  // ---- the machine ------------------------------------------------------------------

  type EightReals = s: seq<real> | |s| == 8 witness seq(8, i => 0.0)
  type EightTags = s: seq<bool> | |s| == 8 witness seq(8, i => false)

  /** Physical registers, their tags, and the number of the one that is ST(0). */
  datatype State = State(top: Register, regs: EightReals, valid: EightTags) {
    function Slot(i: Register): Register {
      (top + i) % 8
    }

    function St(i: Register): real {
      regs[Slot(i)]
    }

    predicate Has(i: Register) {
      valid[Slot(i)]
    }

    function Set(i: Register, x: real): State {
      this.(regs := regs[Slot(i) := x], valid := valid[Slot(i) := true])
    }

    function Pop(): State {
      State((top + 1) % 8, regs, valid[top := false])
    }

    function Push(x: real): State {
      var t := (top + 7) % 8;
      State(t, regs[t := x], valid[t := true])
    }
  }

  /** FINIT: every register is empty and register 0 is the top. */
  function Initial(): State {
    State(0, seq(8, i => 0.0), seq(8, i => false))
  }

  datatype Outcome =
    | Running(state: State)
    | Returned(value: real)
    | StackFault
    | ArithFault
    | MemoryFault
    | BadOpcode

  /** Truncation toward zero. */
  function Trunc(x: real): int {
    if x >= 0.0 then x.Floor else -((-x).Floor)
  }

  /** Memory holds the doubles the program may read; other addresses fault. */
  type Mem = Address -> Option<real>

  function Exec(alu: Alu, mem: Mem, s: State, hw: Hw): Outcome {
    match hw
    case Integer => Running(s)
    case Return => if s.Has(0) then Returned(s.St(0)) else StackFault
    case LoadZero => if s.Has(7) then StackFault else Running(s.Push(0.0))
    case ArithMem(op, a) =>
      if !s.Has(0) then StackFault
      else if mem(a).None? then MemoryFault
      else ExecArith(alu, s, op, 0, s.St(0), mem(a).value)
    case Arith(op, d, r) =>
      if !s.Has(d) || !s.Has(r) then StackFault
      else ExecArith(alu, s, op, d, s.St(d), s.St(r))
    case St0ToReg(d) => if s.Has(0) then Running(s.Set(d, s.St(0))) else StackFault
    case St0ToRegPop(d) => if s.Has(0) then Running(s.Set(d, s.St(0)).Pop()) else StackFault
    case Exchange(r) =>
      if !s.Has(0) || !s.Has(r) then StackFault
      else Running(s.Set(0, s.St(r)).Set(r, s.St(0)))
    case ChangeSign => if s.Has(0) then Running(s.Set(0, -s.St(0))) else StackFault
    case Scale =>
      if !s.Has(0) || !s.Has(1) then StackFault
      else if alu.faults(OfScale, s.St(0), s.St(1)) then ArithFault
      else Running(s.Set(0, alu.arith(Mul, s.St(0), alu.pow2(Trunc(s.St(1)) as real))))
    case SquareRoot => ExecUnary(alu, s, OfSqrt, alu.sqrt, false)
    case Sine => ExecUnary(alu, s, OfSin, alu.sin, true)
    case Cosine => ExecUnary(alu, s, OfCos, alu.cos, true)
  }

  function ExecArith(alu: Alu, s: State, op: ArithOp, d: Register, x: real, y: real): Outcome {
    if alu.faults(OfArith(op), x, y) then ArithFault else Running(s.Set(d, alu.arith(op, x, y)))
  }

  function ExecUnary(alu: Alu, s: State, kind: Faulting, f: real -> real, trig: bool): Outcome {
    if !s.Has(0) then StackFault
    else if alu.faults(kind, s.St(0), 0.0) then ArithFault
    else if trig && !(-TRIG_LIMIT < s.St(0) < TRIG_LIMIT) then Running(s)
    else Running(s.Set(0, f(s.St(0))))
  }

  /** Runs from `pc` to the return or the first exception. */
  function Execute(alu: Alu, mem: Mem, code: seq<byte>, pc: nat, s: State): Outcome
    decreases |code| - pc
  {
    var d := Fetch(code, pc);
    if d.Bad? then BadOpcode
    else
      var o := Exec(alu, mem, s, d.hw);
      if o.Running? then Execute(alu, mem, code, pc + d.size, o.state) else o
  }

  // ---- the header -------------------------------------------------------------------

  /** ST(0) to ST(k-1) hold zero; from there on, the registers are empty. */
  predicate ZerosUpTo(s: State, k: nat)
    requires k <= 8
  {
    && s.top == 0
    && (forall i: Register :: i < k ==> s.valid[i] && s.regs[i] == 0.0)
    && (forall i: Register :: k <= i ==> !s.valid[i])
  }

  /** The state the header leaves behind. */
  predicate AfterHeader(s: State) {
    ZerosUpTo(s, 7)
  }

  /** One FLDZ; FSTP ST(k+1): a zero goes into ST(k) and the scratch slot is empty again. */
  lemma HeaderPair(alu: Alu, mem: Mem, code: seq<byte>, pc: nat, s: State, k: nat) returns (s': State)
    requires k < 7 && ZerosUpTo(s, k) && pc + 4 <= |code|
    requires code[pc] == 0xd9 && code[pc + 1] == 0xee && code[pc + 2] == 0xdd && code[pc + 3] == 0xd9 + k
    ensures ZerosUpTo(s', k + 1)
    ensures Execute(alu, mem, code, pc, s) == Execute(alu, mem, code, pc + 4, s')
  {
    assert Fetch(code, pc) == Good(LoadZero, 2);
    assert RegisterForm(0xdd, 0xd9 + k) == Some(St0ToRegPop(k + 1));
    assert Fetch(code, pc + 2) == Good(St0ToRegPop(k + 1), 2);
    var s1 := s.Push(0.0);
    assert s1.top == 7 && s1.Slot(0) == 7 && s1.Slot(k + 1) == k;
    assert Exec(alu, mem, s, LoadZero) == Running(s1);
    s' := s1.Set(k + 1, s1.St(0)).Pop();
    assert Exec(alu, mem, s1, St0ToRegPop(k + 1)) == Running(s');
    assert Execute(alu, mem, code, pc, s) == Execute(alu, mem, code, pc + 2, s1);
  }

  /** The bytes of the `k`-th pair. */
  lemma HeaderBytes(k: nat)
    requires k < 7
    ensures HEADER[4 * k] == 0xd9 && HEADER[4 * k + 1] == 0xee
    ensures HEADER[4 * k + 2] == 0xdd && HEADER[4 * k + 3] == 0xd9 + k
  {
    assert k == 0 || k == 1 || k == 2 || k == 3 || k == 4 || k == 5 || k == 6;
  }

  /** The pairs from the `k`-th on, and the two integer instructions. */
  lemma {:induction false} HeaderFrom(alu: Alu, mem: Mem, code: seq<byte>, s: State, k: nat) returns (s': State)
    requires k <= 7 && ZerosUpTo(s, k) && |HEADER| <= |code| && code[..|HEADER|] == HEADER
    ensures AfterHeader(s')
    ensures Execute(alu, mem, code, 4 * k, s) == Execute(alu, mem, code, |HEADER|, s')
    decreases 7 - k
  {
    if k == 7 {
      HeaderTail(alu, mem, code, s);
      s' := s;
    } else {
      HeaderBytes(k);
      var h := code[..|HEADER|];
      assert code[4 * k] == h[4 * k] && code[4 * k + 1] == h[4 * k + 1];
      assert code[4 * k + 2] == h[4 * k + 2] && code[4 * k + 3] == h[4 * k + 3];
      var s1 := HeaderPair(alu, mem, code, 4 * k, s, k);
      s' := HeaderFrom(alu, mem, code, s1, k + 1);
    }
  }

  lemma HeaderTail(alu: Alu, mem: Mem, code: seq<byte>, s: State)
    requires |HEADER| <= |code| && code[..|HEADER|] == HEADER
    ensures Execute(alu, mem, code, 28, s) == Execute(alu, mem, code, |HEADER|, s)
  {
    var tail := code[..|HEADER|][28..];
    assert tail == [code[28], code[29], code[30]] && tail == [0x55, 0x89, 0xe5];
    assert Fetch(code, 28) == Good(Integer, 1);
    assert Fetch(code, 29) == Good(Integer, 2);
    assert Execute(alu, mem, code, 28, s) == Execute(alu, mem, code, 29, s);
  }

  /**
   From FINIT the header never faults; it leaves the top where it was, zeros in ST(0) to ST(6),
   and ST(7) empty, because each of its stores pops the slot it used as scratch.
   */
  lemma HeaderRun(alu: Alu, mem: Mem, code: seq<byte>) returns (s: State)
    requires |HEADER| <= |code| && code[..|HEADER|] == HEADER
    ensures AfterHeader(s)
    ensures Execute(alu, mem, code, 0, Initial()) == Execute(alu, mem, code, |HEADER|, s)
  {
    s := HeaderFrom(alu, mem, code, Initial(), 0);
  }
}
