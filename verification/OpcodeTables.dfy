/**
 The opcode lookup of libdisasm (ia32_insn.c, ia32_opcode_tables.c).  The contents of the
 tables are a parameter, constrained by `WellFormed`; the rows for the FPU escapes D8, D9, DC
 and DD are spelled out in `HasFpuRows`.
 */
module OpcodeTables {
  import opened Opcodes

  datatype TableType =
    | PlainTable | PrefixTable | SuffixTable | ExtensionTable | ExtExtTable | FpuTable | FpuExtTable

  datatype Mnemonic =
    | Fadd | Fmul | Fcom | Fcomp | Fsub | Fsubr | Fdiv | Fdivr
    | Fld | Fxch | Fnop | Fst | Fstp | Ffree | Fucom | Fucomp
    | Fchs | Fabs | Ftst | Fxam | Fld1 | Fldl2t | Fldl2e | Fldpi | Fldlg2 | Fldln2 | Fldz
    | F2xm1 | Fyl2x | Fptan | Fpatan | Fxtract | Fprem1 | Fdecstp | Fincstp
    | Fprem | Fyl2xp1 | Fsqrt | Fsincos | Frndint | Fscale | Fsin | Fcos
    | Fldenv | Fldcw | Fnstenv | Fnstcw | Fisttp | Frstor | Fnsave | Fnstsw
    | OtherMnemonic(id: int)

  /** The size of an operand: a byte, a word, or what the operand size attribute says. */
  datatype Width = OneByte | OneWord | BySize

  /**
   An operand slot of a row: unused, decoded from a ModR/M byte, a register named by its reg field, a fixed FPU
   register, another register or number the row itself names, an immediate, a distance to branch, an offset in
   memory, a far pointer, or another kind.
   */
  datatype Slot =
    | Unused | FromModRM | RegField | FpuRegister(n: Register) | Hardcoded(value: int)
    | ImmediateValue(width: Width, signed: bool) | BranchDistance(width: Width) | MemoryOffset | FarPointer
    | OtherSlot(kind: int)

  /** `insType` is the low half of the mnemonic flags, `flagged` and `suffix` the two high bits of interest. */
  datatype Row = Row(
    table: nat, insType: nat, flagged: bool, suffix: bool, mnemonic: Mnemonic, dest: Slot, src: Slot, aux: Slot)
  {
    /** All mnemonic flags are zero. */
    predicate Invalid() {
      insType == 0 && !flagged && !suffix
    }

    /** The prefix bits, or 0 when the row is not a prefix. */
    function Prefix(): nat {
      if flagged then insType else 0
    }

    predicate UsesModRM() {
      dest.FromModRM? || src.FromModRM?
    }
  }

  /**
   `divisor` is two to the table's shift and `modulus` one more than its mask; every mask in the
   table of tables is a run of low bits, so shifting and masking are division and remainder.
   */
  datatype Table = Table(rows: seq<Row>, kind: TableType, divisor: int, modulus: int, minlim: int, maxlim: int) {
    function Reduce(b: byte): int
      requires divisor > 0 && modulus > 0
    {
      b / divisor % modulus
    }

    predicate Covers(b: byte)
      requires divisor > 0 && modulus > 0
    {
      minlim <= Reduce(b) <= maxlim
    }
  }

  /** The table a byte is looked up in: FPU tables hand bytes above their limit to the next table. */
  function Effective(ts: seq<Table>, t: nat, b: byte): nat {
    if t < |ts| && ts[t].kind == FpuTable && b > ts[t].maxlim then t + 1 else t
  }

  ghost predicate WellFormedTable(ts: seq<Table>, t: nat)
    requires t < |ts|
  {
    var d := ts[t];
    && d.divisor > 0 && d.modulus > 0
    && (d.kind == FpuTable ==> t + 1 < |ts| && ts[t + 1].kind == FpuExtTable)
    // limits and row count agree
    && (forall b: byte :: d.Covers(b) ==> d.Reduce(b) - d.minlim < |d.rows|)
    // subtables lie later, except suffix tables, which are not part of the recursion
    && (forall k :: 0 <= k < |d.rows| ==> WellFormedRow(ts, t, d.rows[k]))
    // a missing byte reads as zero, and zero is not a prefix
    && (d.Covers(0) && d.Reduce(0) - d.minlim < |d.rows| ==> !d.rows[d.Reduce(0) - d.minlim].flagged)
    // tables that re-use their byte are leaves
    && (d.kind == ExtExtTable || d.kind == FpuExtTable ==>
          forall k :: 0 <= k < |d.rows| ==> d.rows[k].table == 0 && !d.rows[k].flagged)
  }

  ghost predicate WellFormedRow(ts: seq<Table>, t: nat, r: Row) {
    && r.table < |ts|
    && (r.table != 0 && ts[r.table].kind != SuffixTable ==> t < r.table && ts[r.table].kind != FpuExtTable)
    && (r.suffix ==> ts[r.table].kind == SuffixTable)
  }

  ghost predicate WellFormed(ts: seq<Table>) {
    && 0 < |ts| && ts[0].kind == PlainTable
    && forall t :: 0 <= t < |ts| ==> WellFormedTable(ts, t)
  }

  /** What a lookup of `b` in table `t` may rely on. */
  lemma RowFacts(ts: seq<Table>, t: nat, b: byte)
    requires WellFormed(ts) && t < |ts|
    ensures ts[t].divisor > 0 && ts[t].modulus > 0
    ensures ts[t].kind == FpuTable ==> t + 1 < |ts| && ts[t + 1].kind == FpuExtTable
    ensures ts[t].Covers(b) ==>
              var k := ts[t].Reduce(b) - ts[t].minlim;
              && k < |ts[t].rows|
              && WellFormedRow(ts, t, ts[t].rows[k])
              && (b == 0 ==> !ts[t].rows[k].flagged)
              && (ts[t].kind == ExtExtTable || ts[t].kind == FpuExtTable ==>
                    ts[t].rows[k].table == 0 && !ts[t].rows[k].flagged)
  {
    assert WellFormedTable(ts, t);
  }

  /** `GET_BYTE`: a missing byte reads as zero. */
  function FirstByte(buf: seq<byte>): byte {
    if buf == [] then 0 else buf[0]
  }

  datatype Found = NotFound | Found(size: nat, row: Row, prefixes: seq<nat>)

  /** The value or-ed together from these prefixes is not zero. */
  predicate AnyPrefix(prefixes: seq<nat>) {
    exists k :: 0 <= k < |prefixes| && prefixes[k] != 0
  }

  /** Prefixes count from the first one that has any bits on. */
  lemma PrefixCounts(prefixes: seq<nat>, prefix: nat)
    ensures AnyPrefix(prefixes + [prefix]) <==> AnyPrefix(prefixes) || prefix != 0
    ensures !AnyPrefix([])
  {
    var more := prefixes + [prefix];
    assert more[|prefixes|] == prefix;
    if k :| 0 <= k < |prefixes| && prefixes[k] != 0 {
      assert more[k] != 0;
    }
  }

  /** Segment bits 0x0F00 go for branch instructions, branch hints 0x3000 for all others. */
  function AdjustHint(prefix: nat, row: Row): nat {
    if prefix / 0x1000 % 4 != 0 then
      if row.insType / 0x1000 % 0x10 == 1 then prefix - prefix / 0x100 % 0x10 * 0x100
      else prefix - prefix / 0x1000 % 4 * 0x1000
    else prefix
  }

  /** Bytes the row itself consumes, next to what its subtable consumed. */
  function OwnSize(kind: TableType, row: Row): nat {
    if kind == ExtExtTable then 0
    else if (kind == ExtensionTable || kind == FpuTable || kind == FpuExtTable) && row.UsesModRM() then 0
    else 1
  }

  datatype Selection = NoRow | Selected(kind: TableType, row: Row)

  /** The row a byte selects, and what the tables promise about it. */
  function Select(ts: seq<Table>, table: nat, b: byte): (r: Selection)
    requires WellFormed(ts) && table < |ts|
    ensures r.Selected? ==>
              && WellFormedRow(ts, table, r.row)
              && (b == 0 ==> !r.row.flagged)
              && (r.kind == ExtExtTable || r.kind == FpuExtTable ==> r.row.table == 0 && !r.row.flagged)
              && (ts[table].kind != FpuTable ==> r.kind == ts[table].kind)
  {
    var t := Effective(ts, table, b);
    RowFacts(ts, table, b);
    RowFacts(ts, t, b);
    if ts[t].Covers(b) then Selected(ts[t].kind, ts[t].rows[ts[t].Reduce(b) - ts[t].minlim]) else NoRow
  }

  /** The byte-by-byte lookup, with `prefixes` the ones seen so far. */
  function Lookup(ts: seq<Table>, buf: seq<byte>, table: nat, prefixes: seq<nat>): (f: Found)
    requires WellFormed(ts) && table < |ts|
    decreases |buf|, |ts| - table, 1
  {
    var sel := Select(ts, table, FirstByte(buf));
    if sel.NoRow? then NotFound else FromRow(ts, buf, table, prefixes, sel.kind, sel.row)
  }

  /** The row leads to a subtable that belongs to the lookup. */
  predicate HasSubtable(ts: seq<Table>, row: Row) {
    row.table < |ts| && row.table != 0 && ts[row.table].kind != SuffixTable
  }

  predicate ReusesByte(ts: seq<Table>, row: Row)
    requires row.table < |ts|
  {
    ts[row.table].kind == ExtExtTable || ts[row.table].kind == FpuExtTable
  }

  /** Subtables lie later, and a prefix is a byte that is there. */
  predicate Continues(ts: seq<Table>, buf: seq<byte>, table: nat, row: Row) {
    && row.table < |ts|
    && (HasSubtable(ts, row) ==> table < row.table && ts[row.table].kind != FpuExtTable)
    && (row.Prefix() != 0 ==> buf != [])
  }

  /** The rest of the lookup once a row is selected: a subtable, a prefix, or the row itself. */
  function FromRow(ts: seq<Table>, buf: seq<byte>, table: nat, prefixes: seq<nat>, kind: TableType, row: Row): Found
    requires WellFormed(ts) && table < |ts|
    requires Continues(ts, buf, table, row)
    decreases |buf|, |ts| - table, 0
  {
    var prefix := row.Prefix();
    if HasSubtable(ts, row) && (prefix == 0 || !AnyPrefix(prefixes)) then
      if !ReusesByte(ts, row) && |buf| <= 1 then NotFound
      else
        var sub := Lookup(ts, if ReusesByte(ts, row) then buf else buf[1..], row.table, prefixes);
        if prefix != 0 && (sub.NotFound? || sub.row.insType == 0) then AsPrefix(ts, buf, table, prefixes, prefix, kind)
        else if sub.NotFound? then NotFound
        else Found(OwnSize(kind, sub.row) + sub.size, sub.row, sub.prefixes)
    else if prefix != 0 then AsPrefix(ts, buf, table, prefixes, prefix, kind)
    else Found(OwnSize(kind, row), row, prefixes)
  }

  /** The byte was a prefix: look the next byte up in the same table. */
  function AsPrefix(ts: seq<Table>, buf: seq<byte>, table: nat, prefixes: seq<nat>, prefix: nat, kind: TableType): Found
    requires WellFormed(ts) && table < |ts| && buf != []
    decreases |buf|, 0, 0
  {
    var sub := Lookup(ts, buf[1..], table, prefixes);
    if sub.NotFound? then NotFound
    else Found(OwnSize(kind, sub.row) + sub.size, sub.row, sub.prefixes + [AdjustHint(prefix, sub.row)])
  }

  /** Leaf tables that re-use their byte add nothing. */
  lemma LeafSize(ts: seq<Table>, buf: seq<byte>, table: nat, prefixes: seq<nat>)
    requires WellFormed(ts) && table < |ts| && ts[table].kind == ExtExtTable
    ensures var f := Lookup(ts, buf, table, prefixes);
            f.Found? ==> f.size == 0 && f.row.table == 0
  {
    hide Select, WellFormed;
  }

  /**
   The lookup consumes at most one byte more than there are: the one extra byte is the zero read
   past the end after a run of prefixes.  An opcode in the main table consumes at least one.
   A suffix table named by the row exists.
   */
  lemma {:induction false} LookupSize(ts: seq<Table>, buf: seq<byte>, table: nat, prefixes: seq<nat>)
    requires WellFormed(ts) && table < |ts|
    ensures var f := Lookup(ts, buf, table, prefixes);
            f.Found? ==>
              && f.size <= |buf| + 1 && f.row.table < |ts|
              && (ts[table].kind == PlainTable ==> 1 <= f.size)
    decreases |buf|, |ts| - table, 1
  {
    hide Select, FromRow, WellFormed;
    var sel := Select(ts, table, FirstByte(buf));
    if sel.NoRow? {
    } else {
      FromRowSize(ts, buf, table, prefixes, sel.kind, sel.row);
    }
  }

  lemma {:induction false} FromRowSize(ts: seq<Table>, buf: seq<byte>, table: nat, prefixes: seq<nat>,
                                       kind: TableType, row: Row)
    requires WellFormed(ts) && table < |ts| && Continues(ts, buf, table, row)
    ensures var f := FromRow(ts, buf, table, prefixes, kind, row);
            f.Found? ==> f.size <= |buf| + 1 && f.row.table < |ts| && (kind == PlainTable ==> 1 <= f.size)
    decreases |buf|, |ts| - table, 0
  {
    hide Select, Lookup, WellFormed, AnyPrefix, AdjustHint, Row.UsesModRM;
    if HasSubtable(ts, row) && ReusesByte(ts, row) {
      LeafSize(ts, buf, row.table, prefixes);
    } else if HasSubtable(ts, row) && |buf| > 1 {
      LookupSize(ts, buf[1..], row.table, prefixes);
    }
    if row.Prefix() != 0 {
      LookupSize(ts, buf[1..], table, prefixes);
    }
  }

  /** The size a failed lookup returns, `(size_t)-1`. */
  const INVALID_INSN := 0xFFFF_FFFF

  /** The three results of a lookup that ran are those of this one; the marker stands for none. */
  predicate Reports(f: Found, size: nat, rawInsn: Row, prefixes: seq<nat>) {
    if size == INVALID_INSN then f == NotFound else f == Found(size, rawInsn, prefixes)
  }

  /**
   The lookup as it runs, with the size in a machine word whose largest value marks failure.
   The marker is never added to: sizes stay far below it.
   */
  method TableLookup(ts: seq<Table>, buf: seq<byte>, table: nat, seen: seq<nat>)
    returns (size: nat, rawInsn: Row, prefixes: seq<nat>)
    requires WellFormed(ts) && table < |ts| && |buf| + 1 < INVALID_INSN
    ensures size == INVALID_INSN || size <= |buf| + 1
    ensures Reports(Lookup(ts, buf, table, seen), size, rawInsn, prefixes)
    decreases |buf|, |ts| - table, 1
  {
    LookupSize(ts, buf, table, seen);
    prefixes := seen;
    rawInsn := Row(0, 0, false, false, OtherMnemonic(0), Unused, Unused, Unused);
    var op := FirstByte(buf);
    var desc := table;
    RowFacts(ts, table, op);
    if ts[desc].kind == FpuTable && op > ts[desc].maxlim {
      desc := desc + 1;
    }
    RowFacts(ts, desc, op);
    var d := ts[desc];
    var index := op / d.divisor % d.modulus;
    if index > d.maxlim || d.minlim > index {
      return INVALID_INSN, rawInsn, prefixes;
    }
    rawInsn := d.rows[index - d.minlim];
    assert Select(ts, table, op) == Selected(d.kind, rawInsn);
    hide WellFormed, Select, FromRow;
    size, rawInsn, prefixes := FinishLookup(ts, buf, table, seen, d.kind, rawInsn);
  }

  /** The subtable, or the prefix, or the row alone. */
  method FinishLookup(ts: seq<Table>, buf: seq<byte>, table: nat, seen: seq<nat>, kind: TableType, row: Row)
    returns (size: nat, rawInsn: Row, prefixes: seq<nat>)
    requires WellFormed(ts) && table < |ts| && |buf| + 1 < INVALID_INSN && Continues(ts, buf, table, row)
    ensures Reports(FromRow(ts, buf, table, seen, kind, row), size, rawInsn, prefixes)
    decreases |buf|, |ts| - table, 0
  {
    hide WellFormed, Lookup, AnyPrefix, AdjustHint, OwnSize, AsPrefix;
    FromRowSize(ts, buf, table, seen, kind, row);
    rawInsn, prefixes := row, seen;
    var subSize, prefix, recurseTable := 0, 0, false;
    if rawInsn.flagged {
      prefix := rawInsn.insType;
    }
    var subtable := rawInsn.table;
    if subtable != 0 && ts[subtable].kind != SuffixTable && (prefix == 0 || !AnyPrefix(prefixes)) {
      var next := buf;
      if ts[subtable].kind != ExtExtTable && ts[subtable].kind != FpuExtTable {
        if |buf| <= 1 {
          return INVALID_INSN, rawInsn, prefixes;
        }
        next := buf[1..];
      }
      subSize, rawInsn, prefixes := TableLookup(ts, next, subtable, prefixes);
      if prefix != 0 && (subSize == INVALID_INSN || rawInsn.insType == 0) {
        recurseTable := true;
      } else if subSize == INVALID_INSN {
        return INVALID_INSN, rawInsn, prefixes;
      }
    } else if prefix != 0 {
      recurseTable := true;
    }
    if recurseTable {
      size, rawInsn, prefixes := PrefixLookup(ts, buf, table, seen, prefix, kind);
    } else {
      size := OwnBytes(kind, rawInsn);
      size := size + subSize;
    }
  }

  /** The byte was a prefix: the next one is looked up in the same table, and the prefix applied. */
  method PrefixLookup(ts: seq<Table>, buf: seq<byte>, table: nat, seen: seq<nat>, prefix: nat, kind: TableType)
    returns (size: nat, rawInsn: Row, prefixes: seq<nat>)
    requires WellFormed(ts) && table < |ts| && |buf| + 1 < INVALID_INSN && buf != []
    ensures Reports(AsPrefix(ts, buf, table, seen, prefix, kind), size, rawInsn, prefixes)
    decreases |buf|, 0, 0
  {
    hide WellFormed, Lookup, AdjustHint, OwnSize;
    LookupSize(ts, buf[1..], table, seen);
    var subSize;
    subSize, rawInsn, prefixes := TableLookup(ts, buf[1..], table, seen);
    if subSize == INVALID_INSN {
      return INVALID_INSN, rawInsn, prefixes;
    }
    var applied := ApplyHint(prefix, rawInsn);
    prefixes := prefixes + [applied];
    size := OwnBytes(kind, rawInsn);
    size := size + subSize;
  }

  /** Masks out the segment bits or the branch hints of a prefix that has hints. */
  method ApplyHint(prefix: nat, rawInsn: Row) returns (applied: nat)
    ensures applied == AdjustHint(prefix, rawInsn)
  {
    applied := prefix;
    if applied / 0x1000 % 4 != 0 {
      if rawInsn.insType / 0x1000 % 0x10 == 1 {
        applied := applied - applied / 0x100 % 0x10 * 0x100;
      } else {
        applied := applied - applied / 0x1000 % 4 * 0x1000;
      }
    }
  }

  /**
   A prefix with branch hints loses its segment override in front of a branch, and its hints in front of
   anything else; all its other bits stay, and a prefix without hints stays as it is.
   */
  lemma HintFields(high: nat, hint: nat, segment: nat, low: nat, row: Row)
    requires hint < 4 && segment < 0x10 && low < 0x100
    ensures AdjustHint(0x4000 * high + 0x1000 * hint + 0x100 * segment + low, row) ==
              if hint == 0 then 0x4000 * high + 0x100 * segment + low
              else if row.insType / 0x1000 % 0x10 == 1 then 0x4000 * high + 0x1000 * hint + low
              else 0x4000 * high + 0x100 * segment + low
  {
    var prefix := 0x4000 * high + 0x1000 * hint + 0x100 * segment + low;
    assert prefix / 0x100 == 0x40 * high + 0x10 * hint + segment;
    assert prefix / 0x1000 == 4 * high + hint;
  }

  /** A lookup in a ModR/M table leaves its byte to the operands, if one of them is decoded from it. */
  method OwnBytes(kind: TableType, rawInsn: Row) returns (size: nat)
    ensures size == OwnSize(kind, rawInsn) <= 1
  {
    size := 1;
    if kind == ExtExtTable {
      size := size - 1;
    } else if (kind == ExtensionTable || kind == FpuTable || kind == FpuExtTable)
           && (rawInsn.dest.FromModRM? || rawInsn.src.FromModRM?) {
      size := size - 1;
    }
  }

  // ---- the FPU rows -----------------------------------------------------------------

  const IDX_D8 := 40
  const IDX_D8C0 := 41
  const IDX_D9 := 42
  const IDX_D9C0 := 43
  const IDX_DC := 48
  const IDX_DCC0 := 49
  const IDX_DD := 50
  const IDX_DDC0 := 51

  function InvalidRow(): Row {
    Row(0, 0, false, false, OtherMnemonic(0), Unused, Unused, Unused)
  }

  function FpuRow(m: Mnemonic, dest: Slot, src: Slot): Row {
    Row(0, 0xA000, false, false, m, dest, src, Unused)
  }

  function ArithMnemonic(k: int): Mnemonic {
    match k
    case 0 => Fadd case 1 => Fmul case 2 => Fcom case 3 => Fcomp
    case 4 => Fsub case 5 => Fsubr case 6 => Fdiv case _ => Fdivr
  }

  /** tbl_D8 and tbl_DC: arithmetic with a memory operand. */
  function ArithMemoryRow(k: int): Row {
    FpuRow(ArithMnemonic(k), FromModRM, Unused)
  }

  /** tbl_D8C0: st(0) is the destination. */
  function D8C0Row(k: int): Row
    requires 0 <= k < 64
  {
    FpuRow(ArithMnemonic(k / 8), FpuRegister(0), FpuRegister(k % 8))
  }

  /** tbl_DCC0: st(k) is the destination, and the reversed forms sit one group earlier. */
  function DCC0Row(k: int): Row
    requires 0 <= k < 64
  {
    var d, s := FpuRegister(k % 8), FpuRegister(0);
    match k / 8
    case 0 => FpuRow(Fadd, d, s)
    case 1 => FpuRow(Fmul, d, s)
    case 4 => FpuRow(Fsubr, d, s)
    case 5 => FpuRow(Fsub, d, s)
    case 6 => FpuRow(Fdivr, d, s)
    case 7 => FpuRow(Fdiv, d, s)
    case _ => InvalidRow()
  }

  /** tbl_D9. */
  function D9Row(k: int): Row {
    match k
    case 0 => FpuRow(Fld, FromModRM, Unused)
    case 2 => FpuRow(Fst, FromModRM, Unused)
    case 3 => FpuRow(Fstp, FromModRM, Unused)
    case 4 => FpuRow(Fldenv, FromModRM, Unused)
    case 5 => FpuRow(Fldcw, FromModRM, Unused)
    case 6 => FpuRow(Fnstenv, FromModRM, Unused)
    case 7 => FpuRow(Fnstcw, FromModRM, Unused)
    case _ => InvalidRow()
  }

  /** The operand-less half of tbl_D9C0, from D9 E0 on. */
  function D9E0Mnemonic(k: int): Mnemonic {
    match k
    case 0 => Fchs case 1 => Fabs case 4 => Ftst case 5 => Fxam
    case 8 => Fld1 case 9 => Fldl2t case 10 => Fldl2e case 11 => Fldpi
    case 12 => Fldlg2 case 13 => Fldln2 case 14 => Fldz
    case 16 => F2xm1 case 17 => Fyl2x case 18 => Fptan case 19 => Fpatan
    case 20 => Fxtract case 21 => Fprem1 case 22 => Fdecstp case 23 => Fincstp
    case 24 => Fprem case 25 => Fyl2xp1 case 26 => Fsqrt case 27 => Fsincos
    case 28 => Frndint case 29 => Fscale case 30 => Fsin case 31 => Fcos
    case _ => OtherMnemonic(0)
  }

  /** tbl_D9C0. */
  function D9C0Row(k: int): Row
    requires 0 <= k < 64
  {
    if k < 8 then FpuRow(Fld, FpuRegister(0), FpuRegister(k))
    else if k < 16 then FpuRow(Fxch, FpuRegister(0), FpuRegister(k - 8))
    else if k == 16 then FpuRow(Fnop, Unused, Unused)
    else if k < 32 || D9E0Mnemonic(k - 32).OtherMnemonic? then InvalidRow()
    else FpuRow(D9E0Mnemonic(k - 32), Unused, Unused)
  }

  /** tbl_DD. */
  function DDRow(k: int): Row {
    match k
    case 0 => FpuRow(Fld, FromModRM, Unused)
    case 1 => FpuRow(Fisttp, FromModRM, Unused)
    case 2 => FpuRow(Fst, FromModRM, Unused)
    case 3 => FpuRow(Fstp, FromModRM, Unused)
    case 4 => FpuRow(Frstor, FromModRM, Unused)
    case 6 => FpuRow(Fnsave, FromModRM, Unused)
    case 7 => FpuRow(Fnstsw, FromModRM, Unused)
    case _ => InvalidRow()
  }

  /** tbl_DDC0. */
  function DDC0Row(k: int): Row
    requires 0 <= k < 64
  {
    var d := FpuRegister(k % 8);
    match k / 8
    case 0 => FpuRow(Ffree, d, Unused)
    case 2 => FpuRow(Fst, d, Unused)
    case 3 => FpuRow(Fstp, d, Unused)
    case 4 => FpuRow(Fucom, d, FpuRegister(0))
    case 5 => FpuRow(Fucomp, d, FpuRegister(0))
    case _ => InvalidRow()
  }

  /** An escape byte leads to its FPU table. */
  predicate Escapes(ts: seq<Table>, b: byte, t: nat) {
    && 0 < |ts| && |ts[0].rows| == 256
    && ts[0].rows[b].table == t && !ts[0].rows[b].flagged && !ts[0].rows[b].suffix
  }

  /** A pair of FPU tables: memory forms by the middle bits of the byte, register forms from 0xC0 on. */
  predicate FpuPair(ts: seq<Table>, t: nat) {
    && t + 1 < |ts|
    && ts[t].kind == FpuTable && ts[t].divisor == 8 && ts[t].modulus == 8
    && ts[t].minlim == 0 && ts[t].maxlim == 0xBF && |ts[t].rows| == 8
    && ts[t + 1].kind == FpuExtTable && ts[t + 1].divisor == 1 && ts[t + 1].modulus == 256
    && ts[t + 1].minlim == 0xC0 && ts[t + 1].maxlim == 0xFF && |ts[t + 1].rows| == 64
  }

  ghost predicate HasFpuRows(ts: seq<Table>) {
    && 52 <= |ts|
    && ts[0].kind == PlainTable && ts[0].divisor == 1 && ts[0].modulus == 256
    && ts[0].minlim == 0 && ts[0].maxlim == 255
    && Escapes(ts, 0xD8, IDX_D8) && Escapes(ts, 0xD9, IDX_D9)
    && Escapes(ts, 0xDC, IDX_DC) && Escapes(ts, 0xDD, IDX_DD)
    && FpuPair(ts, IDX_D8) && FpuPair(ts, IDX_D9) && FpuPair(ts, IDX_DC) && FpuPair(ts, IDX_DD)
    && (forall k :: 0 <= k < 8 ==> ts[IDX_D8].rows[k] == ArithMemoryRow(k))
    && (forall k :: 0 <= k < 8 ==> ts[IDX_DC].rows[k] == ArithMemoryRow(k))
    && (forall k :: 0 <= k < 8 ==> ts[IDX_D9].rows[k] == D9Row(k))
    && (forall k :: 0 <= k < 8 ==> ts[IDX_DD].rows[k] == DDRow(k))
    && (forall k :: 0 <= k < 64 ==> ts[IDX_D8C0].rows[k] == D8C0Row(k))
    && (forall k :: 0 <= k < 64 ==> ts[IDX_D9C0].rows[k] == D9C0Row(k))
    && (forall k :: 0 <= k < 64 ==> ts[IDX_DCC0].rows[k] == DCC0Row(k))
    && (forall k :: 0 <= k < 64 ==> ts[IDX_DDC0].rows[k] == DDC0Row(k))
  }

  /** The table an FPU escape byte leads to. */
  function EscapeTable(b: byte): nat
    requires b in [0xD8, 0xD9, 0xDC, 0xDD]
  {
    if b == 0xD8 then IDX_D8 else if b == 0xD9 then IDX_D9 else if b == 0xDC then IDX_DC else IDX_DD
  }

  /** The row ends the lookup: no subtable, no prefix, no suffix. */
  predicate LeafRow(r: Row) {
    r.table == 0 && !r.flagged && !r.suffix
  }

  predicate Leaves(rows: seq<Row>) {
    forall k :: 0 <= k < |rows| ==> LeafRow(rows[k])
  }

  /** What `HasFpuRows` says about one escape byte: its table is a pair, and every FPU row is a leaf. */
  lemma FpuLeaves(ts: seq<Table>, b: byte)
    requires HasFpuRows(ts) && b in [0xD8, 0xD9, 0xDC, 0xDD]
    ensures var t := EscapeTable(b);
            && FpuPair(ts, t) && Escapes(ts, b, t)
            && Leaves(ts[t].rows) && Leaves(ts[t + 1].rows)
  {
    assert Leaves(ts[IDX_D8C0].rows) && Leaves(ts[IDX_D9C0].rows);
    assert Leaves(ts[IDX_DCC0].rows) && Leaves(ts[IDX_DDC0].rows);
  }

  /** The row the second byte of an FPU instruction selects. */
  function SelectedRow(ts: seq<Table>, t: nat, b: byte): Row
    requires FpuPair(ts, t)
  {
    if b >= 0xC0 then ts[t + 1].rows[b - 0xC0] else ts[t].rows[b / 8 % 8]
  }

  lemma FpuSecondByte(ts: seq<Table>, t: nat, buf: seq<byte>)
    requires WellFormed(ts) && FpuPair(ts, t) && buf != []
    requires Leaves(ts[t].rows) && Leaves(ts[t + 1].rows)
    ensures var row := SelectedRow(ts, t, buf[0]);
            Lookup(ts, buf, t, []) == Found(if row.UsesModRM() then 0 else 1, row, [])
  {
    hide WellFormed, AnyPrefix;
    RowFacts(ts, t, buf[0]);
    RowFacts(ts, t + 1, buf[0]);
  }

  /**
   Two bytes settle an FPU instruction: a second byte from 0xC0 on selects a register row and is
   part of the opcode; below, its middle bits select a memory row, and the byte is left to be
   decoded as ModR/M.
   */
  lemma FpuLookup(ts: seq<Table>, buf: seq<byte>)
    requires WellFormed(ts) && HasFpuRows(ts)
    requires 2 <= |buf| && buf[0] in [0xD8, 0xD9, 0xDC, 0xDD]
    ensures FpuPair(ts, EscapeTable(buf[0]))
    ensures var row := SelectedRow(ts, EscapeTable(buf[0]), buf[1]);
            Lookup(ts, buf, 0, []) == Found(if row.UsesModRM() then 1 else 2, row, [])
  {
    var t := EscapeTable(buf[0]);
    FpuLeaves(ts, buf[0]);
    FpuSecondByte(ts, t, buf[1..]);
    FirstByteEscapes(ts, buf, t);
  }

  lemma FirstByteEscapes(ts: seq<Table>, buf: seq<byte>, t: nat)
    requires WellFormed(ts) && 2 <= |buf| && t < |ts| && t != 0
    requires ts[0].kind == PlainTable && ts[0].divisor == 1 && ts[0].modulus == 256
    requires ts[0].minlim == 0 && ts[0].maxlim == 255
    requires Escapes(ts, buf[0], t) && ts[t].kind == FpuTable
    ensures var sub := Lookup(ts, buf[1..], t, []);
            Lookup(ts, buf, 0, []) ==
              if sub.NotFound? then NotFound else Found(1 + sub.size, sub.row, sub.prefixes)
  {
    hide WellFormed, AnyPrefix;
    RowFacts(ts, 0, buf[0]);
  }

  // ---- the conditions can be met ------------------------------------------------------

  function FpuTables(): seq<Table> {
    seq(52, t requires 0 <= t < 52 => ExampleTable(t))
  }

  function ExampleTable(t: nat): Table {
    if t == 0 then Table(seq(256, b requires 0 <= b < 256 => MainRow(b)), PlainTable, 1, 256, 0, 255)
    else if t == IDX_D8 || t == IDX_DC then Table(seq(8, k => ArithMemoryRow(k)), FpuTable, 8, 8, 0, 0xBF)
    else if t == IDX_D9 then Table(seq(8, k => D9Row(k)), FpuTable, 8, 8, 0, 0xBF)
    else if t == IDX_DD then Table(seq(8, k => DDRow(k)), FpuTable, 8, 8, 0, 0xBF)
    else if t == IDX_D8C0 then Table(seq(64, k requires 0 <= k < 64 => D8C0Row(k)), FpuExtTable, 1, 256, 0xC0, 0xFF)
    else if t == IDX_D9C0 then Table(seq(64, k requires 0 <= k < 64 => D9C0Row(k)), FpuExtTable, 1, 256, 0xC0, 0xFF)
    else if t == IDX_DCC0 then Table(seq(64, k requires 0 <= k < 64 => DCC0Row(k)), FpuExtTable, 1, 256, 0xC0, 0xFF)
    else if t == IDX_DDC0 then Table(seq(64, k requires 0 <= k < 64 => DDC0Row(k)), FpuExtTable, 1, 256, 0xC0, 0xFF)
    else Table([InvalidRow()], ExtensionTable, 8, 8, 0, 0)
  }

  function MainRow(b: byte): Row {
    if b in [0xD8, 0xD9, 0xDC, 0xDD]
    then Row(EscapeTable(b), 0, false, false, OtherMnemonic(0), Unused, Unused, Unused)
    else InvalidRow()
  }

  lemma FpuPairWellFormed(ts: seq<Table>, t: nat)
    requires FpuPair(ts, t) && Leaves(ts[t].rows) && Leaves(ts[t + 1].rows)
    ensures WellFormedTable(ts, t) && WellFormedTable(ts, t + 1)
  {
  }

  lemma ExamplePair(t: nat)
    requires t in [IDX_D8, IDX_D9, IDX_DC, IDX_DD]
    ensures WellFormedTable(FpuTables(), t) && WellFormedTable(FpuTables(), t + 1)
  {
    var ts := FpuTables();
    assert ts[t] == ExampleTable(t) && ts[t + 1] == ExampleTable(t + 1);
    assert Leaves(ts[t].rows) && Leaves(ts[t + 1].rows);
    FpuPairWellFormed(ts, t);
  }

  lemma ExampleMain()
    ensures WellFormedTable(FpuTables(), 0)
  {
    var ts := FpuTables();
    assert ts[0] == ExampleTable(0);
    forall b | 0 <= b < 256
      ensures WellFormedRow(ts, 0, ts[0].rows[b])
    {
      assert ts[0].rows[b] == MainRow(b);
    }
    assert ts[0].rows[0] == MainRow(0);
  }

  lemma ExampleRows()
    ensures HasFpuRows(FpuTables())
  {
    var ts := FpuTables();
    assert ts[0] == ExampleTable(0);
    assert ts[0].rows[0xD8] == MainRow(0xD8) && ts[0].rows[0xD9] == MainRow(0xD9);
    assert ts[0].rows[0xDC] == MainRow(0xDC) && ts[0].rows[0xDD] == MainRow(0xDD);
  }

  /** Tables with just the FPU escapes satisfy everything the lookup theorems ask for. */
  lemma TablesExist()
    ensures WellFormed(FpuTables()) && HasFpuRows(FpuTables())
  {
    hide HasFpuRows, WellFormedTable;
    ExampleRows();
    ExampleMain();
    forall t | 0 < t < 52
      ensures WellFormedTable(FpuTables(), t)
    {
      if t in [IDX_D8, IDX_D9, IDX_DC, IDX_DD] {
        ExamplePair(t);
      } else if t - 1 in [IDX_D8, IDX_D9, IDX_DC, IDX_DD] {
        ExamplePair(t - 1);
      } else {
        ExampleFiller(t);
      }
    }
  }

  lemma ExampleFiller(t: nat)
    requires 0 < t < 52 && t !in [40, 41, 42, 43, 48, 49, 50, 51]
    ensures WellFormedTable(FpuTables(), t)
  {
    assert FpuTables()[t] == ExampleTable(t);
  }
}
