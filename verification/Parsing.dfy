/**
 Parsing undoes layout: at the start of a generated instruction, whatever surrounds it, the
 disassembler finds exactly that instruction, and the sweep over a laid-out program visits
 exactly the boundaries of its instructions.
 */
module Parsing {
  import opened Opcodes
  import opened Layouts
  import opened Genome
  import opened OpcodeTables
  import opened Wrappers
  import D = Disassembler

  /** What the disassembler makes of each table entry: mnemonic, destination, source. */
  function NoArgInsn(i: NoArgOp): D.Insn {
    match i
    case 0 => D.Insn(2, Fsub, D.St(0), D.St(1), D.NoOperand)
    case 1 => D.Insn(2, Fchs, D.NoOperand, D.NoOperand, D.NoOperand)
    case 2 => D.Insn(2, Fscale, D.NoOperand, D.NoOperand, D.NoOperand)
    case 3 => D.Insn(2, Fsqrt, D.NoOperand, D.NoOperand, D.NoOperand)
    case 4 => D.Insn(2, Fcos, D.NoOperand, D.NoOperand, D.NoOperand)
    case _ => D.Insn(2, Fsin, D.NoOperand, D.NoOperand, D.NoOperand)
  }

  function RegInsn(i: RegOp, r: Register): D.Insn {
    match i
    case 0 => D.Insn(2, Fadd, D.St(0), D.St(r), D.NoOperand)
    case 1 => D.Insn(2, Fadd, D.St(r), D.St(0), D.NoOperand)
    case 2 => D.Insn(2, Fst, D.St(r), D.NoOperand, D.NoOperand)
    case 3 => D.Insn(2, Fxch, D.St(0), D.St(r), D.NoOperand)
    case 4 => D.Insn(2, Fdiv, D.St(0), D.St(r), D.NoOperand)
    case 5 => D.Insn(2, Fmul, D.St(0), D.St(r), D.NoOperand)
    case 6 => D.Insn(2, Fmul, D.St(r), D.St(0), D.NoOperand)
    case 7 => D.Insn(2, Fsub, D.St(0), D.St(r), D.NoOperand)
    case _ => D.Insn(2, Fsub, D.St(r), D.St(0), D.NoOperand)
  }

  function MemMnemonic(i: MemOp): Mnemonic {
    match i
    case 0 => Fadd
    case 1 => Fdiv
    case 2 => Fmul
    case _ => Fsub
  }

  function MemInsn(i: MemOp, a: Address): D.Insn {
    var disp := if a < 0x8000_0000 then a else a - 0x1_0000_0000;
    D.Insn(6, MemMnemonic(i), D.Address(D.Memory(-1, -1, 0, disp)), D.NoOperand, D.NoOperand)
  }

  ghost predicate Ready(isa: D.Isa) {
    isa.Valid() && HasFpuRows(isa.tables)
  }

  function OperandOf(slot: Slot): D.Operand
    requires slot.Unused? || slot.FpuRegister?
  {
    if slot.Unused? then D.NoOperand else D.St(slot.n)
  }

  /** A two-byte FPU instruction is decided by its row. */
  lemma TwoBytes(isa: D.Isa, buf: seq<byte>, off: nat, row: Row)
    requires Ready(isa) && off + 2 <= |buf|
    requires buf[off] in [0xD8, 0xD9, 0xDC, 0xDD] && buf[off + 1] >= 0xC0
    requires FpuPair(isa.tables, EscapeTable(buf[off]))
    requires row == isa.tables[EscapeTable(buf[off]) + 1].rows[buf[off + 1] - 0xC0]
    requires !row.Invalid() && !row.suffix && row.aux.Unused?
    requires (row.dest.Unused? || row.dest.FpuRegister?) && (row.src.Unused? || row.src.FpuRegister?)
    ensures D.Disasm(isa, buf, off) ==
            Some(D.Insn(2, row.mnemonic, OperandOf(row.dest), OperandOf(row.src), D.NoOperand))
  {
    hide HasFpuRows, WellFormed, Lookup, D.DecodeModRM, EscapeTable;
    FpuLookup(isa.tables, buf[off..]);
  }

  /** The row behind the second byte of a register form. */
  lemma RegisterRow(isa: D.Isa, b0: byte, b1: byte) returns (row: Row)
    requires Ready(isa) && b0 in [0xD8, 0xD9, 0xDC, 0xDD] && b1 >= 0xC0
    ensures FpuPair(isa.tables, EscapeTable(b0))
    ensures row == isa.tables[EscapeTable(b0) + 1].rows[b1 - 0xC0]
    ensures row == (if b0 == 0xD8 then D8C0Row(b1 - 0xC0) else if b0 == 0xD9 then D9C0Row(b1 - 0xC0)
                    else if b0 == 0xDC then DCC0Row(b1 - 0xC0) else DDC0Row(b1 - 0xC0))
  {
    FpuLeaves(isa.tables, b0);
    row := isa.tables[EscapeTable(b0) + 1].rows[b1 - 0xC0];
  }

  lemma NoArgParses(isa: D.Isa, buf: seq<byte>, off: nat, i: NoArgOp)
    requires Ready(isa) && off + 2 <= |buf| && buf[off..off + 2] == NoArg(i).bytes
    ensures D.Disasm(isa, buf, off) == Some(NoArgInsn(i))
  {
    hide HasFpuRows, D.Disasm;
    var b0, b1 := buf[off..off + 2][0], buf[off..off + 2][1];
    NoArgBytes(i);
    var row := RegisterRow(isa, b0, b1);
    TwoBytes(isa, buf, off, row);
  }

  lemma NoArgBytes(i: NoArgOp)
    ensures var b0, b1 := NoArg(i).bytes[0], NoArg(i).bytes[1];
            && b1 >= 0xC0
            && (if i == 0 then b0 == 0xD8 && D8C0Row(b1 - 0xC0) == FpuRow(Fsub, FpuRegister(0), FpuRegister(1))
                else b0 == 0xD9 && D9C0Row(b1 - 0xC0) == FpuRow(NoArgInsn(i).mnemonic, Unused, Unused))
  {
    assert i == 0 || i == 1 || i == 2 || i == 3 || i == 4 || i == 5;
  }

  lemma RegArgParses(isa: D.Isa, buf: seq<byte>, off: nat, i: RegOp, r: Register)
    requires Ready(isa) && off + 2 <= |buf| && buf[off..off + 2] == RegArg(i, r).bytes
    ensures D.Disasm(isa, buf, off) == Some(RegInsn(i, r))
  {
    hide HasFpuRows, D.Disasm;
    var b0, b1 := buf[off..off + 2][0], buf[off..off + 2][1];
    RegArgBytes(i, r);
    var row := RegisterRow(isa, b0, b1);
    TwoBytes(isa, buf, off, row);
  }

  lemma RegArgBytes(i: RegOp, r: Register)
    ensures var b0, b1 := RegArg(i, r).bytes[0], RegArg(i, r).bytes[1];
            && b1 >= 0xC0 && b1 % 8 == r
            && match i
               case 0 => b0 == 0xD8 && (b1 - 0xC0) / 8 == 0
               case 1 => b0 == 0xDC && (b1 - 0xC0) / 8 == 0
               case 2 => b0 == 0xDD && (b1 - 0xC0) / 8 == 2
               case 3 => b0 == 0xD9 && (b1 - 0xC0) / 8 == 1
               case 4 => b0 == 0xD8 && (b1 - 0xC0) / 8 == 6
               case 5 => b0 == 0xD8 && (b1 - 0xC0) / 8 == 1
               case 6 => b0 == 0xDC && (b1 - 0xC0) / 8 == 1
               case 7 => b0 == 0xD8 && (b1 - 0xC0) / 8 == 4
               case 8 => b0 == 0xDC && (b1 - 0xC0) / 8 == 5
  {
    assert i == 0 || i == 1 || i == 2 || i == 3 || i == 4 || i == 5 || i == 6 || i == 7 || i == 8;
  }

  /** Mod 00, rm 101: a ModR/M byte and a bare 32-bit address. */
  lemma BareAddress(buf: seq<byte>, a: Address)
    requires 5 <= |buf| && D.Mod(buf[0]) == 0 && D.Rm(buf[0]) == 5
    requires buf[1..5] == LittleEndian(a)
    ensures D.DecodeModRM(buf) ==
            (5, D.Memory(-1, -1, 0, if a < 0x8000_0000 then a else a - 0x1_0000_0000))
  {
    var bs := buf[1..5];
    assert bs == [bs[0], bs[1], bs[2], bs[3]];
    assert bs[0] == buf[1] && bs[1] == buf[2] && bs[2] == buf[3] && bs[3] == buf[4];
    LittleEndianRoundTrip(a);
    assert D.Dword(buf, 1) == if a < 0x8000_0000 then a else a - 0x1_0000_0000;
  }

  lemma SixBytes(isa: D.Isa, buf: seq<byte>, off: nat, a: Address)
    requires Ready(isa) && off + 6 <= |buf|
    requires buf[off] == 0xDC && D.Mod(buf[off + 1]) == 0 && D.Rm(buf[off + 1]) == 5
    requires buf[off + 2..off + 6] == LittleEndian(a)
    ensures D.Disasm(isa, buf, off) ==
            Some(D.Insn(6, ArithMnemonic(D.Reg(buf[off + 1])),
                        D.Address(D.Memory(-1, -1, 0, if a < 0x8000_0000 then a else a - 0x1_0000_0000)),
                        D.NoOperand, D.NoOperand))
  {
    hide WellFormed;
    var b := buf[off..];
    FpuLookup(isa.tables, b);
    assert b[1..][1..5] == buf[off + 2..off + 6];
    BareAddress(b[1..], a);
    var row := SelectedRow(isa.tables, IDX_DC, b[1]);
    assert row == ArithMemoryRow(D.Reg(b[1]));
    MemoryOperands(isa, b, row);
  }

  /** Only the destination of a memory row takes bytes. */
  lemma MemoryOperands(isa: D.Isa, b: seq<byte>, row: Row)
    requires Ready(isa) && 6 <= |b| && Lookup(isa.tables, b, 0, []) == Found(1, row, [])
    requires row.dest.FromModRM? && row.src.Unused? && row.aux.Unused? && !row.suffix && !row.Invalid()
    requires D.DecodeModRM(b[1..]).0 == 5
    ensures D.DisasmAddr(isa, b) ==
            Some(D.Insn(6, row.mnemonic, D.Address(D.DecodeModRM(b[1..]).1), D.NoOperand, D.NoOperand))
  {
    hide HasFpuRows, WellFormed, D.DecodeModRM, Lookup;
  }

  lemma MemArgParses(isa: D.Isa, buf: seq<byte>, off: nat, i: MemOp, a: Address)
    requires Ready(isa) && off + 6 <= |buf| && buf[off..off + 6] == MemArg(i, a).bytes
    ensures D.Disasm(isa, buf, off) == Some(MemInsn(i, a))
  {
    hide HasFpuRows, D.Disasm;
    var bs := buf[off..off + 6];
    assert bs[0] == buf[off] && bs[1] == buf[off + 1] && bs[2..6] == buf[off + 2..off + 6];
    assert bs[2..6] == LittleEndian(a);
    MemArgBytes(i, a);
    SixBytes(isa, buf, off, a);
  }

  lemma MemArgBytes(i: MemOp, a: Address)
    ensures var b0, b1 := MemArg(i, a).bytes[0], MemArg(i, a).bytes[1];
            && b0 == 0xDC && D.Mod(b1) == 0 && D.Rm(b1) == 5
            && ArithMnemonic(D.Reg(b1)) == MemMnemonic(i)
            && D.Reg(b1) == match i case 0 => 0 case 1 => 6 case 2 => 1 case 3 => 4
  {
    assert i == 0 || i == 1 || i == 2 || i == 3;
  }

  /** The instruction the disassembler reports for a generated instruction. */
  ghost predicate ParsesAs(ins: Instr, insn: D.Insn) {
    || (exists i: NoArgOp :: ins == NoArg(i) && insn == NoArgInsn(i))
    || (exists i: RegOp, r: Register :: ins == RegArg(i, r) && insn == RegInsn(i, r))
    || (exists i: MemOp, a: Address :: ins == MemArg(i, a) && insn == MemInsn(i, a))
  }

  /** Wherever its bytes stand, a generated instruction is found whole, and the same each time. */
  lemma InstructionParses(cfg: Config, isa: D.Isa, buf: seq<byte>, off: nat, ins: Instr)
    requires Ready(isa) && cfg.Generates(ins)
    requires off + |ins.bytes| <= |buf| && buf[off..off + |ins.bytes|] == ins.bytes
    ensures D.Disasm(isa, buf, off).Some?
    ensures D.Disasm(isa, buf, off).value.size == |ins.bytes|
    ensures ParsesAs(ins, D.Disasm(isa, buf, off).value)
  {
    hide HasFpuRows, WellFormed, D.Disasm, NoArg, RegArg, MemArg;
    if i: NoArgOp :| ins == NoArg(i) {
      assert |NoArg(i).bytes| == 2 by { NoArgSize(i); }
      NoArgParses(isa, buf, off, i);
    } else if i: RegOp, r: Register :| ins == RegArg(i, r) {
      assert |RegArg(i, r).bytes| == 2 by { RegArgSize(i, r); }
      RegArgParses(isa, buf, off, i, r);
    } else {
      var i: MemOp, a: Address :| ins == MemArg(i, a);
      assert |MemArg(i, a).bytes| == 6 by { MemArgSize(i, a); }
      MemArgParses(isa, buf, off, i, a);
    }
  }

  lemma NoArgSize(i: NoArgOp)
    ensures |NoArg(i).bytes| == 2
  {
  }

  lemma RegArgSize(i: RegOp, r: Register)
    ensures |RegArg(i, r).bytes| == 2
  {
  }

  lemma MemArgSize(i: MemOp, a: Address)
    ensures |MemArg(i, a).bytes| == 6
  {
  }

  /** The positions a sweep visits from `pos` on, and where it stops. */
  function Positions(isa: D.Isa, buf: seq<byte>, footerlen: nat, pos: nat): seq<nat>
    requires isa.Valid()
    decreases |buf| - pos
  {
    if pos >= |buf| - footerlen then [pos]
    else
      var insn := D.Disasm(isa, buf, pos);
      if insn.None? then [pos] else [pos] + Positions(isa, buf, footerlen, pos + insn.value.size)
  }

  /**
   A sweep over a laid-out program visits the boundaries of its instructions, all of them and no
   other position, and stops at the footer.
   */
  lemma {:induction false} SweepVisitsBoundaries(cfg: Config, isa: D.Isa, p: seq<Instr>, i: nat)
    requires Ready(isa) && i <= |p| && forall k :: 0 <= k < |p| ==> cfg.Generates(p[k])
    ensures var visited := Positions(isa, Layout(cfg.frame, p), |cfg.frame.footer|, Offset(cfg.frame, p, i));
            && |visited| == |p| - i + 1
            && forall k :: i <= k <= |p| ==> visited[k - i] == Offset(cfg.frame, p, k)
    decreases |p| - i
  {
    hide HasFpuRows, WellFormed, D.Disasm, Flat, Config.Generates;
    var fr := cfg.frame;
    LayoutLength(fr, p);
    if i == |p| {
    } else {
      LayoutSlice(fr, p, i);
      InstructionParses(cfg, isa, Layout(fr, p), Offset(fr, p, i), p[i]);
      SweepVisitsBoundaries(cfg, isa, p, i + 1);
    }
  }

  /** The same for an individual: the sweep visits exactly the magnitudes of its boundary table. */
  lemma SweepVisitsTable(cfg: Config, isa: D.Isa, q: Pop, p: seq<Instr>)
    requires Ready(isa) && q.Holds(cfg, p)
    ensures var visited := Positions(isa, q.code[..q.codelen], |cfg.frame.footer|, |cfg.frame.header|);
            && |visited| == q.ninstr + 1
            && forall k :: 0 <= k <= q.ninstr ==> visited[k] == Abs(q.indices[k])
  {
    hide HasFpuRows, WellFormed, D.Disasm, Flat, Config.Generates, Positions;
    SweepVisitsBoundaries(cfg, isa, p, 0);
    FlatEmpty(p);
    forall k | 0 <= k <= q.ninstr
      ensures Offset(cfg.frame, p, k) == Abs(q.indices[k])
    {
      SignedIndexMagnitude(cfg.frame, p, k);
    }
  }

  // ---- what bytes say about a program ----------------------------------------------------

  /** The one pair of bytes that is both an operand-less instruction and a register form. */
  const AMBIGUOUS: seq<byte> := [0xd8, 0xe1]

  lemma AmbiguousBytes()
    ensures NoArg(0).bytes == AMBIGUOUS == RegArg(7, 1).bytes && NoArg(0) != RegArg(7, 1)
  {
  }

  lemma SameBytesSameOp(cfg: Config, x: Instr, y: Instr)
    requires cfg.Generates(x) && cfg.Generates(y) && x.bytes == y.bytes && x != y
    ensures x.bytes == AMBIGUOUS && 2 <= cfg.nregisters
  {
    hide MemArg, Config.IsConstant, Config.IsInput;
    var r, n := if x.register then x else y, if x.register then y else x;
    RegisterForms(cfg, r);
    OtherForms(cfg, n);
  }

  lemma RegisterForms(cfg: Config, x: Instr)
    requires cfg.Generates(x) && x.register
    ensures |x.bytes| == 2
    ensures x.bytes[0] == 0xd9 ==> x.bytes[1] < 0xe0
    ensures x.bytes == AMBIGUOUS ==> 2 <= cfg.nregisters
  {
    hide MemArg, Config.IsConstant, Config.IsInput;
    Kinds(cfg, x);
    var i: RegOp, r: Register :| r < cfg.nregisters && x == RegArg(i, r);
    RegArgBytes(i, r);
  }

  lemma OtherForms(cfg: Config, x: Instr)
    requires cfg.Generates(x) && !x.register && |x.bytes| == 2
    ensures x.bytes == AMBIGUOUS || (x.bytes[0] == 0xd9 && 0xe0 <= x.bytes[1])
  {
    Kinds(cfg, x);
    var i: NoArgOp :| x == NoArg(i);
    assert i == 0 || i == 1 || i == 2 || i == 3 || i == 4 || i == 5;
  }

  lemma {:induction false} SameFlat(a: seq<Instr>, b: seq<Instr>)
    requires |a| == |b| && forall k :: 0 <= k < |a| ==> a[k].bytes == b[k].bytes
    ensures Flat(a) == Flat(b)
  {
    if a == [] {
    } else {
      SameFlat(a[1..], b[1..]);
    }
  }

  /** One sweep over common bytes visits the boundaries of both programs. */
  lemma SameLayout(cfg: Config, a: seq<Instr>, b: seq<Instr>)
    requires forall k :: 0 <= k < |a| ==> cfg.Generates(a[k])
    requires forall k :: 0 <= k < |b| ==> cfg.Generates(b[k])
    requires Layout(cfg.frame, a) == Layout(cfg.frame, b)
    ensures |a| == |b| && forall k :: 0 <= k < |a| ==> a[k].bytes == b[k].bytes
  {
    hide Flat, Layout, Positions, HasFpuRows, WellFormed, Config.Generates;
    var isa := D.Isa(FpuTables(), (slot, prefixes, buf) => 0);
    TablesExist();
    FlatEmpty(a);
    FlatEmpty(b);
    SweepVisitsBoundaries(cfg, isa, a, 0);
    SweepVisitsBoundaries(cfg, isa, b, 0);
    var visited := Positions(isa, Layout(cfg.frame, a), |cfg.frame.footer|, |cfg.frame.header|);
    forall k | 0 <= k < |a| ensures a[k].bytes == b[k].bytes {
      assert visited[k] == Offset(cfg.frame, a, k) == Offset(cfg.frame, b, k);
      assert visited[k + 1] == Offset(cfg.frame, a, k + 1) == Offset(cfg.frame, b, k + 1);
      LayoutSlice(cfg.frame, a, k);
      LayoutSlice(cfg.frame, b, k);
    }
  }

  /** Two programs have the same bytes exactly when their instructions have, and then differ only in kinds of D8 E1. */
  lemma SameBytes(cfg: Config, a: seq<Instr>, b: seq<Instr>)
    requires forall k :: 0 <= k < |a| ==> cfg.Generates(a[k])
    requires forall k :: 0 <= k < |b| ==> cfg.Generates(b[k])
    ensures Layout(cfg.frame, a) == Layout(cfg.frame, b) <==>
              |a| == |b| && forall k :: 0 <= k < |a| ==>
                a[k] == b[k] || (a[k].bytes == b[k].bytes == AMBIGUOUS)
  {
    if Layout(cfg.frame, a) == Layout(cfg.frame, b) {
      SameLayout(cfg, a, b);
      forall k | 0 <= k < |a| && a[k] != b[k] ensures a[k].bytes == AMBIGUOUS {
        SameBytesSameOp(cfg, a[k], b[k]);
      }
    } else if |a| == |b| && forall k :: 0 <= k < |a| ==> a[k].bytes == b[k].bytes {
      SameFlat(a, b);
    }
  }

  /** Bytes alone tell which program an individual is exactly when D8 E1 is not in it, or has one meaning only. */
  lemma BytesDetermine(cfg: Config, p: seq<Instr>)
    requires cfg.Valid() && cfg.WellFormed(p)
    ensures (forall q :: cfg.WellFormed(q) && Layout(cfg.frame, q) == Layout(cfg.frame, p) ==> q == p) <==>
              cfg.nregisters < 2 || forall k :: 0 <= k < |p| ==> p[k].bytes != AMBIGUOUS
  {
    hide Flat, Layout, Config.Generates, NoArg, RegArg;
    if 2 <= cfg.nregisters {
      if k :| 0 <= k < |p| && p[k].bytes == AMBIGUOUS {
        OtherKind(cfg, p, k);
      }
    }
    forall q | cfg.WellFormed(q) && Layout(cfg.frame, q) == Layout(cfg.frame, p) && q != p
      ensures 2 <= cfg.nregisters && exists k :: 0 <= k < |p| && p[k].bytes == AMBIGUOUS
    {
      SameLayout(cfg, p, q);
      var k :| 0 <= k < |p| && p[k] != q[k];
      SameBytesSameOp(cfg, p[k], q[k]);
    }
  }

  /** Reading a D8 E1 the other way gives another program with the same bytes. */
  lemma OtherKind(cfg: Config, p: seq<Instr>, k: nat)
    requires cfg.WellFormed(p) && 2 <= cfg.nregisters && k < |p| && p[k].bytes == AMBIGUOUS
    ensures exists q :: cfg.WellFormed(q) && Layout(cfg.frame, q) == Layout(cfg.frame, p) && q != p
  {
    hide Flat, Config.Generates, NoArg, RegArg;
    var x := if p[k] == NoArg(0) then RegArg(7, 1) else NoArg(0);
    var q := p[k := x];
    AmbiguousBytes();
    GeneratesNoArg(cfg, 0);
    GeneratesRegArg(cfg, 7, 1);
    SameFlat(p, q);
    assert forall j :: 0 <= j < |q| && j != k ==> q[j] == p[j];
    assert q[k] == x != p[k];
    assert cfg.WellFormed(q) && Layout(cfg.frame, q) == Layout(cfg.frame, p) && q != p;
  }
}
