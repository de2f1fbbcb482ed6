/**
 The decompiler (decompile.c): a sweep over the body of a program that turns each disassembled
 instruction into an assignment over `f[0..7]`.  Mnemonics and operands are passed as data, not
 as text, and a printed constant stands for its exact value.
 */
module Decompiler {
  import opened Opcodes
  import opened OpcodeTables
  import opened Wrappers
  import D = Disassembler
  import X = X87

  /** The C statements the decompiler emits. */
  datatype Stmt =
    | Negate                                                // f[0] = -f[0]
    | AbsoluteValue                                         // f[0] = fabsl(f[0])
    | ScaleBy                                               // f[0] *= powl(2,(f[1]>0?1:-1)*floorl(fabsl(f[1])))
    | Root                                                  // f[0] = sqrtl(f[0])
    | CosIfSmall                                            // if ( fabsl(f[0]) < 2^63 ) f[0] = cosl(f[0])
    | SinIfSmall
    | Assign(dst: Register)                                 // f[dst] = f[0]
    | Swap(reg: Register)                                   // tmp = f[0]; f[0] = f[reg]; f[reg] = tmp
    | UpdateReg(op: X.ArithOp, dst: Register, src: Register)  // f[dst] op= f[src]
    | UpdateVar(op: X.ArithOp, index: int)                  // f[0] op= v[index]
    | UpdateConst(op: X.ArithOp, value: real)               // f[0] op= value

  /** What the original reports before it exits, and the two operand shapes it cannot name. */
  datatype Error = InvalidInstruction | UnknownOpcode | MissingOperand | NoSuchConstant | UnmodelledOpcode

  /** The arrays the machine code refers to. */
  datatype Env = Env(constantBase: int, constants: seq<real>, inputBase: int)

  const LONG_MAX := 0x7fff_ffff

  /** The operand as `decompile1` finds it in the text: an address, or up to two registers. */
  datatype Operands = Registers(r1: int, r2: int) | AddressText(addr: int) | Neither

  function OperandsOf(insn: D.Insn): Operands {
    match insn.dest
    case St(n) => Registers(n, if insn.src.St? then insn.src.n else -1)
    case Address(ea) =>
      if ea.Memory? && ea.base == -1 && ea.index == -1
      // a zero displacement is not printed, so the address stays at -1
      then AddressText(if ea.disp == 0 then -1 else ea.disp)
      else Neither
    case _ => Neither
  }

  /** Which array an address belongs to: the one with the nearest base at or below it. */
  datatype Place = Variable(index: int) | Constant(index: int)

  function Resolve(env: Env, addr: int): Place {
    var v := if addr - env.inputBase < 0 then LONG_MAX else addr - env.inputBase;
    var c := if addr - env.constantBase < 0 then LONG_MAX else addr - env.constantBase;
    if v < c then Variable((addr - env.inputBase) / 8) else Constant((addr - env.constantBase) / 8)
  }

  /** `f[a] op= f[b]`, or the memory form of it. */
  function ArithStmt(env: Env, op: X.ArithOp, o: Operands): Result<Stmt, Error> {
    match o
    case Registers(a, b) =>
      if 0 <= a < 8 && 0 <= b < 8 then Ok(UpdateReg(op, a, b)) else Err(MissingOperand)
    case AddressText(addr) =>
      (match Resolve(env, addr)
       case Variable(k) => Ok(UpdateVar(op, k))
       case Constant(k) =>
         if 0 <= k < |env.constants| then Ok(UpdateConst(op, env.constants[k])) else Err(NoSuchConstant))
    case Neither => Err(MissingOperand)
  }

  /** One opcode and operand to one statement. */
  function Decompile1(env: Env, insn: D.Insn): Result<Stmt, Error> {
    var o := OperandsOf(insn);
    match insn.mnemonic
    case Fabs => Ok(AbsoluteValue)
    case Fchs => Ok(Negate)
    case Fscale => Ok(ScaleBy)
    case Fsqrt => Ok(Root)
    case Fcos => Ok(CosIfSmall)
    case Fsin => Ok(SinIfSmall)
    case Fst => if o.Registers? && 0 <= o.r1 < 8 then Ok(Assign(o.r1)) else Err(MissingOperand)
    case Fxch => if o.Registers? && 0 <= o.r2 < 8 then Ok(Swap(o.r2)) else Err(MissingOperand)
    case Fadd => ArithStmt(env, X.Add, o)
    case Fsub => ArithStmt(env, X.Sub, o)
    case Fmul => ArithStmt(env, X.Mul, o)
    case Fdiv => ArithStmt(env, X.Div, o)
    case Fld1 | Fldz | F2xm1 | Fyl2x | Fyl2xp1 | Fdecstp | Fincstp | Fld => Err(UnmodelledOpcode)
    case _ => Err(UnknownOpcode)
  }

  /** The sweep from `pos` on: the statements in order, or the first error. */
  function Sweep(isa: D.Isa, env: Env, buf: seq<byte>, footerlen: nat, pos: nat): Result<seq<Stmt>, Error>
    requires isa.Valid()
    decreases |buf| - pos
  {
    if pos >= |buf| - footerlen then Ok([])
    else
      var insn := D.Disasm(isa, buf, pos);
      if insn.None? then Err(InvalidInstruction)
      else
        var stmt := Decompile1(env, insn.value);
        if stmt.Err? then Err(stmt.error)
        else Glue([stmt.value], Sweep(isa, env, buf, footerlen, pos + insn.value.size))
  }

  function Glue(done: seq<Stmt>, rest: Result<seq<Stmt>, Error>): Result<seq<Stmt>, Error> {
    if rest.Err? then rest else Ok(done + rest.value)
  }

  lemma GlueUnits(done: seq<Stmt>, rest: Result<seq<Stmt>, Error>)
    ensures Glue([], rest) == rest && Glue(done, Ok([])) == Ok(done)
  {
    assert done + [] == done;
    if rest.Ok? {
      assert [] + rest.value == rest.value;
    }
  }

  lemma GlueStep(done: seq<Stmt>, s: Stmt, rest: Result<seq<Stmt>, Error>)
    ensures Glue(done, Glue([s], rest)) == Glue(done + [s], rest)
  {
    if rest.Ok? {
      assert done + ([s] + rest.value) == (done + [s]) + rest.value;
    }
  }

  /** The sweep as it runs, statement by statement from behind the header. */
  method Decompile(isa: D.Isa, env: Env, buf: seq<byte>, headerlen: nat, footerlen: nat)
    returns (r: Result<seq<Stmt>, Error>)
    requires isa.Valid()
    ensures r == Sweep(isa, env, buf, footerlen, headerlen)
  {
    hide D.Disasm, Decompile1;
    var out: seq<Stmt> := [];
    var pos := headerlen;
    GlueUnits([], Sweep(isa, env, buf, footerlen, pos));
    while pos < |buf| - footerlen
      invariant Glue(out, Sweep(isa, env, buf, footerlen, pos)) == Sweep(isa, env, buf, footerlen, headerlen)
      decreases |buf| - pos
    {
      var insn := D.Disasm(isa, buf, pos);
      if insn.None? {
        return Err(InvalidInstruction);
      }
      var stmt := Decompile1(env, insn.value);
      if stmt.Err? {
        return Err(stmt.error);
      }
      GlueStep(out, stmt.value, Sweep(isa, env, buf, footerlen, pos + insn.value.size));
      pos := pos + insn.value.size;
      out := out + [stmt.value];
    }
    GlueUnits(out, Ok([]));
    return Ok(out);
  }

  // ---- what the emitted program computes -------------------------------------------------

  type Registers8 = f: seq<real> | |f| == 8 witness seq(8, i => 0.0)

  function FabsL(x: real): real {
    if x < 0.0 then -x else x
  }

  function ExecStmt(alu: X.Alu, v: int -> real, f: Registers8, s: Stmt): Registers8 {
    match s
    case Negate => f[0 := -f[0]]
    case AbsoluteValue => f[0 := FabsL(f[0])]
    case ScaleBy =>
      var sign := if f[1] > 0.0 then 1.0 else -1.0;
      f[0 := alu.arith(X.Mul, f[0], alu.pow2(sign * (FabsL(f[1]).Floor as real)))]
    case Root => f[0 := alu.sqrt(f[0])]
    case CosIfSmall => if FabsL(f[0]) < X.TRIG_LIMIT then f[0 := alu.cos(f[0])] else f
    case SinIfSmall => if FabsL(f[0]) < X.TRIG_LIMIT then f[0 := alu.sin(f[0])] else f
    case Assign(d) => f[d := f[0]]
    case Swap(r) => f[0 := f[r]][r := f[0]]
    case UpdateReg(op, d, r) => f[d := alu.arith(op, f[d], f[r])]
    case UpdateVar(op, k) => f[0 := alu.arith(op, f[0], v(k))]
    case UpdateConst(op, c) => f[0 := alu.arith(op, f[0], c)]
  }

  function ExecStmts(alu: X.Alu, v: int -> real, f: Registers8, ss: seq<Stmt>): Registers8
    decreases |ss|
  {
    if ss == [] then f else ExecStmts(alu, v, ExecStmt(alu, v, f, ss[0]), ss[1..])
  }

  /** The emitted function: eight zeros, the statements, `return f[0]`. */
  function RunC(alu: X.Alu, v: int -> real, ss: seq<Stmt>): real {
    ExecStmts(alu, v, seq(8, i => 0.0), ss)[0]
  }
}
