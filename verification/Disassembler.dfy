/**
 One instruction at a time (ia32_insn.c, ia32_modrm.c, ia32_operand.c, x86_disasm.c).  The values of
 16-bit addresses are not modelled, and rows of kinds the operand decoder does not know have operands
 of an uninterpreted size.
 */
module Disassembler {
  import opened Opcodes
  import opened OpcodeTables
  import opened Wrappers

  /** `base` and `index` are -1 when absent. */
  datatype EffectiveAddress = Direct(rm: int) | Memory(base: int, index: int, scale: int, disp: int)

  datatype Operand =
    | NoOperand | St(n: Register) | Address(ea: EffectiveAddress) | Field(reg: int) | Known(value: int)
    | Value(v: int) | Distance(d: int) | Offset(addr: int) | Far(segment: int, offset: int) | Unmodelled

  datatype Insn = Insn(size: int, mnemonic: Mnemonic, dest: Operand, src: Operand, aux: Operand)

  /** The opcode tables, and the sizes of the operands this model does not decode. */
  datatype Isa = Isa(tables: seq<Table>, other: (Slot, seq<nat>, seq<byte>) -> nat) {
    ghost predicate Valid() {
      WellFormed(tables)
    }
  }

  /** Buffers are padded with zeros. */
  function ByteAt(buf: seq<byte>, i: nat): byte {
    if i < |buf| then buf[i] else 0
  }

  function SignedByte(b: byte): int {
    if b < 128 then b else b - 256
  }

  function Dword(buf: seq<byte>, i: nat): int {
    var v := FromLittleEndian([ByteAt(buf, i), ByteAt(buf, i + 1), ByteAt(buf, i + 2), ByteAt(buf, i + 3)]);
    if v < 0x8000_0000 then v else v - 0x1_0000_0000
  }

  function Drop(buf: seq<byte>, n: nat): seq<byte> {
    if n <= |buf| then buf[n..] else []
  }

  // ---- ModR/M -----------------------------------------------------------------------

  function Mod(b: byte): int { b / 64 }

  function Reg(b: byte): int { b / 8 % 8 }

  function Rm(b: byte): int { b % 8 }

  /**
   The length of a ModR/M operand as the manual has it (section 2.1.5 of volume 2A of the Intel
   64 and IA-32 Architectures Software Developer's Manual): the byte itself, a SIB byte when
   rm = 100 names one, and the displacement.
   */
  function ManualLength(buf: seq<byte>): int {
    var m, sib := ByteAt(buf, 0), ByteAt(buf, 1);
    if Mod(m) == 3 then 1
    else
      1
      + (if Rm(m) == 4 then 1 else 0)
      + (if Mod(m) == 2 then 4
         else if Mod(m) == 1 then 1
         else if Rm(m) == 5 || (Rm(m) == 4 && Rm(sib) == 5) then 4
         else 0)
  }

  /** An immediate of 1 or 4 bytes; nothing is stored when the buffer is too short. */
  function Immediate(buf: seq<byte>, i: nat, size: nat, have: int): int
    requires size == 1 || size == 4
  {
    if size > have then 0
    else if size == 1 then SignedByte(ByteAt(buf, i))
    else Dword(buf, i)
  }

  /** The SIB byte at `buf[1]`: bytes used, and the address so far. */
  function DecodeSib(buf: seq<byte>): (nat, EffectiveAddress) {
    if |buf| < 2 then (0, Memory(-1, -1, 0, 0))
    else
      var sib := buf[1];
      var index := if Reg(sib) == 4 then -1 else Reg(sib);
      var scale := if Mod(sib) == 0 then 1 else if Mod(sib) == 1 then 2 else if Mod(sib) == 2 then 4 else 8;
      if Rm(sib) == 5 && Mod(ByteAt(buf, 0)) == 0
      then (5, Memory(-1, index, scale, Immediate(buf, 2, 4, |buf| - 1)))
      else (1, Memory(Rm(sib), index, scale, 0))
  }

  /** Size and value of the operand a ModR/M byte describes. */
  function DecodeModRM(buf: seq<byte>): (nat, EffectiveAddress) {
    var m := ByteAt(buf, 0);
    var have := |buf| - 1;
    if Mod(m) == 3 then (1, Direct(Rm(m)))
    else if Mod(m) == 0 then
      if Rm(m) == 5 then (5, Memory(-1, -1, 0, Immediate(buf, 1, 4, have)))
      else if Rm(m) == 4 then
        var (used, ea) := DecodeSib(buf);
        (1 + used, ea)
      else (1, Memory(Rm(m), -1, 0, 0))
    else
      var (used, ea) := if Rm(m) == 4 then DecodeSib(buf) else (0, Memory(Rm(m), -1, 0, 0));
      var at := if Rm(m) == 4 then 2 else 1;
      var size := if Mod(m) == 1 then 1 else 4;
      (1 + used + size, ea.(disp := Immediate(buf, at, size, |buf| - at)))
  }

  // ---- effective addresses, encoded --------------------------------------------------------

  /** What a mod field can say about displacements: none, a signed byte, or 32 bits. */
  predicate DispFits(mod: int, disp: int) {
    if mod == 0 then disp == 0
    else if mod == 1 then -128 <= disp < 128
    else -0x8000_0000 <= disp < 0x8000_0000
  }

  function DispEncode(mod: int, disp: int): seq<byte>
    requires DispFits(mod, disp)
  {
    if mod == 0 then []
    else if mod == 1 then [if disp >= 0 then disp else disp + 256]
    else LittleEndian(if disp >= 0 then disp else disp + 0x1_0000_0000)
  }

  /** A scale, any index but ESP or none, and a base or none. */
  predicate SibFields(ea: EffectiveAddress) {
    && ea.Memory?
    && (ea.scale == 1 || ea.scale == 2 || ea.scale == 4 || ea.scale == 8)
    && (ea.index == -1 || (0 <= ea.index < 8 && ea.index != 4))
    && -1 <= ea.base < 8
  }

  /** The SIB byte: ESP stands for no index, EBP for no base. */
  function SibEncode(ea: EffectiveAddress): (b: byte)
    requires SibFields(ea)
  {
    64 * (if ea.scale == 1 then 0 else if ea.scale == 2 then 1 else if ea.scale == 4 then 2 else 3)
    + 8 * (if ea.index == -1 then 4 else ea.index)
    + (if ea.base == -1 then 5 else ea.base)
  }

  /**
   The addresses a mod field can express.  A base of ESP, an index or a scale needs an SIB byte; mod 00
   has no displacement, and there the place of EBP is taken by "no base, 32-bit displacement".
   */
  predicate Encodable(mod: int, ea: EffectiveAddress) {
    match ea
    case Direct(rm) => mod == 3 && 0 <= rm < 8
    case Memory(base, index, scale, disp) =>
      && 0 <= mod < 3
      && (if scale == 0 then index == -1 && -1 <= base < 8 && base != 4 else SibFields(ea))
      && (if base == -1 then mod == 0 && DispFits(2, disp) else DispFits(mod, disp) && (mod == 0 ==> base != 5))
  }

  /** The bytes of an operand (section 2.1.5 of volume 2A of the same manual), next to a reg field. */
  function Encode(reg: int, mod: int, ea: EffectiveAddress): seq<byte>
    requires 0 <= reg < 8 && Encodable(mod, ea)
  {
    match ea
    case Direct(rm) => [192 + 8 * reg + rm]
    case Memory(base, index, scale, disp) =>
      (if scale == 0 then [64 * mod + 8 * reg + if base == -1 then 5 else base]
       else [64 * mod + 8 * reg + 4, SibEncode(ea)])
      + DispEncode(if base == -1 then 2 else mod, disp)
  }

  /** A displacement read back. */
  lemma DispDecodes(buf: seq<byte>, i: nat, mod: int, disp: int, have: int)
    requires 1 <= mod < 3 && DispFits(mod, disp) && |DispEncode(mod, disp)| <= have
    requires i + |DispEncode(mod, disp)| <= |buf| && buf[i..i + |DispEncode(mod, disp)|] == DispEncode(mod, disp)
    ensures Immediate(buf, i, if mod == 1 then 1 else 4, have) == disp
  {
    var d := buf[i..i + |DispEncode(mod, disp)|];
    if mod == 1 {
      assert buf[i] == d[0];
    } else {
      assert d == [buf[i], buf[i + 1], buf[i + 2], buf[i + 3]];
      LittleEndianRoundTrip(if disp >= 0 then disp else disp + 0x1_0000_0000);
    }
  }

  /** Every displacement that is there is one that can be written, and was written like this. */
  lemma DispEncodes(buf: seq<byte>, i: nat, mod: int, have: int)
    requires 1 <= mod < 3
    ensures var size := if mod == 1 then 1 else 4;
            i + size <= |buf| && size <= have ==>
              DispFits(mod, Immediate(buf, i, size, have))
              && buf[i..i + size] == DispEncode(mod, Immediate(buf, i, size, have))
  {
    if mod == 2 && i + 4 <= |buf| && 4 <= have {
      var d := [buf[i], buf[i + 1], buf[i + 2], buf[i + 3]];
      assert buf[i..i + 4] == d;
      FromLittleEndianRoundTrip(d);
    }
  }

  lemma DispSize(mod: int, disp: int)
    requires 0 <= mod < 3 && DispFits(mod, disp)
    ensures |DispEncode(mod, disp)| == if mod == 0 then 0 else if mod == 1 then 1 else 4
    ensures mod == 0 ==> disp == 0
  {
  }

  /** The three fields of a byte, put together and taken apart. */
  lemma Fields(high: int, mid: int, low: int)
    requires 0 <= high < 4 && 0 <= mid < 8 && 0 <= low < 8
    ensures var b := 64 * high + 8 * mid + low;
            0 <= b < 256 && Mod(b) == high && Reg(b) == mid && Rm(b) == low
  {
    hide Mod, Reg, Rm;
    HighField(high, mid, low);
    MidField(high, mid, low);
    LowField(high, mid, low);
  }

  lemma HighField(high: int, mid: int, low: int)
    requires 0 <= high < 4 && 0 <= mid < 8 && 0 <= low < 8
    ensures Mod(64 * high + 8 * mid + low) == high
  {
  }

  lemma MidField(high: int, mid: int, low: int)
    requires 0 <= high < 4 && 0 <= mid < 8 && 0 <= low < 8
    ensures Reg(64 * high + 8 * mid + low) == mid
  {
    var q := 8 * high + mid;
    assert (64 * high + 8 * mid + low) / 8 == q;
    assert q % 8 == mid;
  }

  lemma LowField(high: int, mid: int, low: int)
    requires 0 <= high < 4 && 0 <= mid < 8 && 0 <= low < 8
    ensures Rm(64 * high + 8 * mid + low) == low
  {
    assert 64 * high + 8 * mid + low == 8 * (8 * high + mid) + low;
  }

  lemma FieldsBack(b: byte)
    ensures 0 <= Mod(b) < 4 && 0 <= Reg(b) < 8 && 0 <= Rm(b) < 8
    ensures b == 64 * Mod(b) + 8 * Reg(b) + Rm(b)
  {
  }

  /** An address without SIB byte. */
  lemma PlainDecodes(reg: int, mod: int, ea: EffectiveAddress, rest: seq<byte>)
    requires 0 <= reg < 8 && Encodable(mod, ea) && ea.Memory? && ea.scale == 0
    ensures DecodeModRM(Encode(reg, mod, ea) + rest) == (|Encode(reg, mod, ea)|, ea)
  {
    hide Immediate, DispEncode, Mod, Reg, Rm, DispFits;
    var buf := Encode(reg, mod, ea) + rest;
    var m := if ea.base == -1 then 2 else mod;
    var d := DispEncode(m, ea.disp);
    Fields(mod, reg, if ea.base == -1 then 5 else ea.base);
    DispSize(m, ea.disp);
    assert buf[1..1 + |d|] == d;
    if m > 0 {
      DispDecodes(buf, 1, m, ea.disp, |buf| - 1);
    }
  }

  /** The fields of an SIB byte come back. */
  lemma SibBits(ea: EffectiveAddress)
    requires SibFields(ea)
    ensures var b := SibEncode(ea);
            && Mod(b) == (if ea.scale == 1 then 0 else if ea.scale == 2 then 1 else if ea.scale == 4 then 2 else 3)
            && Reg(b) == (if ea.index == -1 then 4 else ea.index)
            && Rm(b) == (if ea.base == -1 then 5 else ea.base)
  {
    hide Mod, Reg, Rm;
    Fields(if ea.scale == 1 then 0 else if ea.scale == 2 then 1 else if ea.scale == 4 then 2 else 3,
           if ea.index == -1 then 4 else ea.index, if ea.base == -1 then 5 else ea.base);
  }

  /** An address with SIB byte. */
  lemma SibDecodes(reg: int, mod: int, ea: EffectiveAddress, rest: seq<byte>)
    requires 0 <= reg < 8 && Encodable(mod, ea) && ea.Memory? && ea.scale != 0
    ensures DecodeModRM(Encode(reg, mod, ea) + rest) == (|Encode(reg, mod, ea)|, ea)
  {
    hide Immediate, DispEncode, Mod, Reg, Rm, DispFits, SibEncode;
    var buf := Encode(reg, mod, ea) + rest;
    var m := if ea.base == -1 then 2 else mod;
    var d := DispEncode(m, ea.disp);
    Fields(mod, reg, 4);
    SibBits(ea);
    DispSize(m, ea.disp);
    assert buf[2..2 + |d|] == d;
    if m > 0 {
      DispDecodes(buf, 2, m, ea.disp, |buf| - 2);
      DispDecodes(buf, 2, m, ea.disp, |buf| - 1);
    }
  }

  /** Decoding undoes encoding, whatever follows. */
  lemma EncodeDecode(reg: int, mod: int, ea: EffectiveAddress, rest: seq<byte>)
    requires 0 <= reg < 8 && Encodable(mod, ea)
    ensures DecodeModRM(Encode(reg, mod, ea) + rest) == (|Encode(reg, mod, ea)|, ea)
  {
    if ea.Memory? {
      hide DecodeModRM, Encode, Encodable;
      if ea.scale == 0 {
        PlainDecodes(reg, mod, ea, rest);
      } else {
        SibDecodes(reg, mod, ea, rest);
      }
    }
  }

  /** The SIB byte is that of the fields found; with no base, a 32-bit displacement follows it. */
  lemma SibMeans(buf: seq<byte>)
    requires 2 <= |buf|
    ensures var (size, ea) := DecodeSib(buf);
            && SibFields(ea) && buf[1] == SibEncode(ea)
            && (ea.base == -1 <==> Rm(buf[1]) == 5 && Mod(buf[0]) == 0)
            && (ea.base != -1 ==> size == 1 && ea.disp == 0)
            && (ea.base == -1 ==> size == 5)
            && (6 <= |buf| && ea.base == -1 ==> DispFits(2, ea.disp) && buf[2..6] == DispEncode(2, ea.disp))
  {
    hide Immediate, DispEncode, DispFits, Mod, Reg, Rm;
    FieldsBack(buf[1]);
    DispEncodes(buf, 2, 2, |buf| - 1);
  }

  /** Encoding undoes decoding: the bytes of an operand that fits are those of the address found. */
  lemma DecodeEncode(buf: seq<byte>)
    requires buf != [] && ManualLength(buf) <= |buf|
    ensures 0 <= Reg(buf[0]) < 8
    ensures var (size, ea) := DecodeModRM(buf);
            && size <= |buf| && Encodable(Mod(buf[0]), ea)
            && buf[..size] == Encode(Reg(buf[0]), Mod(buf[0]), ea)
  {
    hide Immediate, DispEncode, DispFits, Mod, Reg, Rm, DecodeSib;
    FieldsBack(buf[0]);
    NoDisp();
    var m := Mod(buf[0]);
    if m != 3 {
      var at := if Rm(buf[0]) == 4 then 2 else 1;
      if at == 2 {
        SibMeans(buf);
        FieldsBack(buf[1]);
      }
      if m > 0 {
        DispEncodes(buf, at, m, |buf| - at);
      } else if at == 1 {
        DispEncodes(buf, 1, 2, |buf| - 1);
      }
    }
  }

  lemma NoDisp()
    ensures DispFits(0, 0) && DispEncode(0, 0) == []
  {
  }

  /**
   The decoder as it runs: the size is stepped while the address is filled in.  The bytes it takes for
   an operand that fits the buffer are the encoding of the address it fills in.
   */
  method ModRMDecode(buf: seq<byte>) returns (size: nat, ea: EffectiveAddress)
    ensures (size, ea) == DecodeModRM(buf)
    ensures buf != [] && ManualLength(buf) <= |buf| ==>
              && size <= |buf| && Encodable(Mod(buf[0]), ea)
              && buf[..size] == Encode(Reg(buf[0]), Mod(buf[0]), ea)
  {
    if buf != [] && ManualLength(buf) <= |buf| {
      DecodeEncode(buf);
    }
    hide ManualLength, Encode, Encodable, DecodeSib, Immediate;
    size := 1;
    var m := ByteAt(buf, 0);
    var mod, rm := m / 64, m % 8;
    if mod == 3 {
      return 1, Direct(rm);
    }
    ea := Memory(-1, -1, 0, 0);
    var at := 1;
    if mod == 0 {
      if rm == 5 {
        ea := ea.(disp := Immediate(buf, at, 4, |buf| - at));
        size := size + 4;
      } else if rm == 4 {
        var used;
        used, ea := SibDecode(buf);
        size := size + used;
      } else {
        ea := ea.(base := rm);
      }
    } else {
      if rm == 4 {
        var used;
        used, ea := SibDecode(buf);
        size := size + used;
        at := at + 1;
      } else {
        ea := ea.(base := rm);
      }
      if mod == 1 {
        ea := ea.(disp := Immediate(buf, at, 1, |buf| - at));
        size := size + 1;
      } else {
        ea := ea.(disp := Immediate(buf, at, 4, |buf| - at));
        size := size + 4;
      }
    }
  }

  /** The SIB byte names the fields found; with no base, a 32-bit displacement follows it. */
  method SibDecode(buf: seq<byte>) returns (size: nat, ea: EffectiveAddress)
    ensures (size, ea) == DecodeSib(buf)
    ensures 2 <= |buf| ==> SibFields(ea) && buf[1] == SibEncode(ea)
    ensures 2 <= |buf| ==> (ea.base == -1 <==> Rm(buf[1]) == 5 && Mod(buf[0]) == 0)
    ensures 2 <= |buf| && ea.base != -1 ==> size == 1 && ea.disp == 0
    ensures 6 <= |buf| && ea.base == -1 ==>
              size == 5 && DispFits(2, ea.disp) && buf[2..6] == DispEncode(2, ea.disp)
  {
    if 2 <= |buf| {
      SibMeans(buf);
    }
    hide SibEncode, SibFields, DispEncode, DispFits, Immediate;
    ea := Memory(-1, -1, 0, 0);
    size := 1;
    if |buf| < 2 {
      return 0, ea;
    }
    var sib := buf[1];
    var scale, index, base := sib / 64, sib / 8 % 8, sib % 8;
    if base == 5 && buf[0] / 64 == 0 {
      ea := ea.(disp := Immediate(buf, 2, 4, |buf| - 1));
      size := size + 4;
    } else {
      ea := ea.(base := base);
    }
    ea := ea.(scale := if scale == 0 then 1 else if scale == 1 then 2 else if scale == 2 then 4 else 8);
    if index != 4 {
      ea := ea.(index := index);
    }
  }

  /** The one operand shape that is accepted although its SIB byte is missing. */
  predicate MissingSib(buf: seq<byte>) {
    |buf| == 1 && Mod(buf[0]) == 0 && Rm(buf[0]) == 4
  }

  /**
   The decoder agrees with the manual on every operand that fits the buffer, and accepts an
   operand that does not fit exactly when it is a lone ModR/M byte asking for a SIB byte without
   a displacement.
   */
  lemma ModRMLength(buf: seq<byte>)
    requires buf != []
    ensures ManualLength(buf) <= |buf| ==> DecodeModRM(buf).0 == ManualLength(buf)
    ensures DecodeModRM(buf).0 <= |buf| < ManualLength(buf) <==> MissingSib(buf)
  {
  }

  // ---- numbers in the instruction stream ---------------------------------------------------

  /** The number some bytes spell, least significant byte first. */
  function Little(bs: seq<byte>): nat {
    if bs == [] then 0 else bs[0] + 256 * Little(bs[1..])
  }

  /** The lowest `n` bytes of a number. */
  function Digits(x: nat, n: nat): (bs: seq<byte>)
    ensures |bs| == n
    decreases n
  {
    if n == 0 then [] else [x % 256] + Digits(x / 256, n - 1)
  }

  function Pow256(n: nat): (p: nat)
    ensures 1 <= p
  {
    if n == 0 then 1 else 256 * Pow256(n - 1)
  }

  lemma {:induction false} DigitsSpell(x: nat, n: nat)
    ensures x < Pow256(n) ==> Little(Digits(x, n)) == x
    decreases n
  {
    if n == 0 {
    } else {
      DigitsSpell(x / 256, n - 1);
      if x < Pow256(n) {
        assert x / 256 < Pow256(n - 1);
        assert Digits(x, n)[1..] == Digits(x / 256, n - 1);
      }
    }
  }

  lemma {:induction false} SpelledDigits(bs: seq<byte>)
    ensures Little(bs) < Pow256(|bs|) && Digits(Little(bs), |bs|) == bs
  {
    if bs == [] {
    } else {
      SpelledDigits(bs[1..]);
      assert Little(bs) % 256 == bs[0] && Little(bs) / 256 == Little(bs[1..]);
    }
  }

  /** The signed number with the same low bytes. */
  function Wrapped(x: nat, n: nat): int {
    if 2 * x < Pow256(n) then x else x - Pow256(n)
  }

  /** `x86_imm_sized` and `x86_imm_signsized`: nothing is stored when the buffer is too short. */
  function Number(buf: seq<byte>, n: nat, signed: bool): int {
    if n > |buf| then 0 else if signed then Wrapped(Little(buf[..n]), n) else Little(buf[..n])
  }

  /** The numbers `n` bytes can hold. */
  predicate NumberFits(v: int, n: nat, signed: bool) {
    if signed then 0 <= 2 * v + Pow256(n) < 2 * Pow256(n) else 0 <= v < Pow256(n)
  }

  function NumberEncode(v: int, n: nat, signed: bool): (bs: seq<byte>)
    requires NumberFits(v, n, signed)
    ensures |bs| == n
  {
    Digits(if v < 0 then v + Pow256(n) else v, n)
  }

  /** A number read back from its bytes, whatever follows. */
  lemma NumberRoundTrip(v: int, n: nat, signed: bool, rest: seq<byte>)
    requires NumberFits(v, n, signed)
    ensures Number(NumberEncode(v, n, signed) + rest, n, signed) == v
  {
    var x := if v < 0 then v + Pow256(n) else v;
    DigitsSpell(x, n);
    assert (NumberEncode(v, n, signed) + rest)[..n] == Digits(x, n);
  }

  /** Every number that is there is one that can be written, and was written like this. */
  lemma NumberEncodes(buf: seq<byte>, n: nat, signed: bool)
    requires n <= |buf|
    ensures NumberFits(Number(buf, n, signed), n, signed)
    ensures NumberEncode(Number(buf, n, signed), n, signed) == buf[..n]
  {
    SpelledDigits(buf[..n]);
  }

  // ---- operands --------------------------------------------------------------------------------

  const PREFIX_OP_SIZE := 0x10
  const PREFIX_ADDR_SIZE := 0x20

  /** The bit is set in the value or-ed together from the prefixes. */
  predicate Has(prefixes: seq<nat>, bit: nat)
    requires 0 < bit
  {
    exists k :: 0 <= k < |prefixes| && prefixes[k] / bit % 2 == 1
  }

  function AddressBytes(prefixes: seq<nat>): nat {
    if Has(prefixes, PREFIX_ADDR_SIZE) then 2 else 4
  }

  function WidthBytes(width: Width, prefixes: seq<nat>): nat {
    match width
    case OneByte => 1
    case OneWord => 2
    case BySize => if Has(prefixes, PREFIX_OP_SIZE) then 2 else 4
  }

  /** A ModR/M operand with 16-bit addressing: the byte and its displacement, of which mod 00 has none. */
  function ShortModRMLength(m: byte): nat {
    if Mod(m) == 1 then 2 else if Mod(m) == 2 then 3 else 1
  }

  /** The same as the manual has it (table 2-1 of volume 2A): mod 00 with rm 110 is a 16-bit displacement alone. */
  function ManualShortLength(m: byte): nat {
    if Mod(m) == 1 then 2 else if Mod(m) == 2 || (Mod(m) == 0 && Rm(m) == 6) then 3 else 1
  }

  /** The bare 16-bit displacement is the one operand whose length the decoder gets wrong. */
  lemma BareDisplacementIsLost(m: byte)
    ensures ShortModRMLength(m) == ManualShortLength(m) <==> !(Mod(m) == 0 && Rm(m) == 6)
    ensures ShortModRMLength(m) <= ManualShortLength(m)
  {
  }

  /**
   `ia32_decode_operand`: bytes taken and value.  The reg field is that of the byte behind the opcode, wherever
   the operand stands; the two parts of a far pointer are read from the same place.
   */
  function DecodeOperand(isa: Isa, slot: Slot, prefixes: seq<nat>, modrm: byte, buf: seq<byte>): (nat, Operand) {
    match slot
    case Unused => (0, NoOperand)
    case FpuRegister(n) => (0, St(n))
    case RegField => (0, Field(Reg(modrm)))
    case Hardcoded(value) => (0, Known(value))
    case FromModRM =>
      if Has(prefixes, PREFIX_ADDR_SIZE) && Mod(ByteAt(buf, 0)) != 3
      then (ShortModRMLength(ByteAt(buf, 0)), Unmodelled)
      else
        var (size, ea) := DecodeModRM(buf);
        (size, Address(ea))
    case ImmediateValue(width, signed) =>
      var n := WidthBytes(width, prefixes);
      (n, Value(Number(buf, n, signed)))
    case BranchDistance(width) =>
      var n := WidthBytes(width, prefixes);
      (n, Distance(Number(buf, n, true)))
    case MemoryOffset =>
      var n := AddressBytes(prefixes);
      (n, Offset(Number(buf, n, false)))
    case FarPointer =>
      var n := AddressBytes(prefixes);
      (n + 2, Far(Number(buf, 2, false), Number(buf, n, false)))
    case OtherSlot(_) => (isa.other(slot, prefixes, buf), Unmodelled)
  }

  /** The bytes are exactly those of one operand. */
  ghost predicate OperandBytes(isa: Isa, slot: Slot, prefixes: seq<nat>, bytes: seq<byte>) {
    match slot
    case Unused | FpuRegister(_) | RegField | Hardcoded(_) => bytes == []
    case FromModRM =>
      && bytes != []
      && if Has(prefixes, PREFIX_ADDR_SIZE) && Mod(bytes[0]) != 3 then |bytes| == ShortModRMLength(bytes[0])
         else |bytes| == ManualLength(bytes) || MissingSib(bytes)
    case ImmediateValue(OneByte, _) | BranchDistance(OneByte) => |bytes| == 1
    case ImmediateValue(OneWord, _) | BranchDistance(OneWord) => |bytes| == 2
    case ImmediateValue(BySize, _) | BranchDistance(BySize) =>
      |bytes| == if Has(prefixes, PREFIX_OP_SIZE) then 2 else 4
    case MemoryOffset => |bytes| == if Has(prefixes, PREFIX_ADDR_SIZE) then 2 else 4
    case FarPointer => |bytes| == if Has(prefixes, PREFIX_ADDR_SIZE) then 4 else 6
    case OtherSlot(_) => true
  }

  /** A prefix adds its own bits to those there are. */
  lemma PrefixAdds(prefixes: seq<nat>, prefix: nat, bit: nat)
    requires 0 < bit
    ensures Has(prefixes + [prefix], bit) <==> Has(prefixes, bit) || prefix / bit % 2 == 1
    ensures !Has([], bit)
  {
    var more := prefixes + [prefix];
    assert more[|prefixes|] == prefix;
    if k :| 0 <= k < |prefixes| && prefixes[k] / bit % 2 == 1 {
      assert more[k] == prefixes[k];
    }
  }

  /** An operand that fits the buffer takes the bytes of one operand off its front. */
  lemma OperandTakes(isa: Isa, slot: Slot, prefixes: seq<nat>, modrm: byte, buf: seq<byte>)
    ensures var (n, v) := DecodeOperand(isa, slot, prefixes, modrm, buf);
            n <= |buf| && !slot.OtherSlot? ==> OperandBytes(isa, slot, prefixes, buf[..n])
  {
    hide DecodeModRM, Number, Has, ManualLength;
    if slot.FromModRM? {
      ModRMTakes(buf);
    }
  }

  lemma ModRMTakes(buf: seq<byte>)
    ensures var (n, v) := DecodeModRM(buf);
            && 1 <= n
            && (n <= |buf| ==> buf[..n] != [] && (n == ManualLength(buf[..n]) || MissingSib(buf[..n])))
  {
    hide Immediate;
    if buf != [] {
      ModRMLength(buf);
    }
  }

  /** The bytes spell this operand. */
  ghost predicate Encodes(slot: Slot, prefixes: seq<nat>, modrm: byte, v: Operand, bytes: seq<byte>) {
    match slot
    case Unused => v == NoOperand && bytes == []
    case FpuRegister(n) => v == St(n) && bytes == []
    case RegField => v == Field(Reg(modrm)) && bytes == []
    case Hardcoded(value) => v == Known(value) && bytes == []
    case FromModRM => v.Address? && EncodesAddress(prefixes, v.ea, bytes)
    case ImmediateValue(width, signed) => v.Value? && EncodesNumber(v.v, WidthBytes(width, prefixes), signed, bytes)
    case BranchDistance(width) => v.Distance? && EncodesNumber(v.d, WidthBytes(width, prefixes), true, bytes)
    case MemoryOffset => v.Offset? && EncodesNumber(v.addr, AddressBytes(prefixes), false, bytes)
    case FarPointer =>
      && |bytes| == AddressBytes(prefixes) + 2
      && v == Far(Little(bytes[..2]), Little(bytes[..AddressBytes(prefixes)]))
    case OtherSlot(_) => false
  }

  ghost predicate EncodesAddress(prefixes: seq<nat>, ea: EffectiveAddress, bytes: seq<byte>) {
    exists reg, mod ::
      && 0 <= reg < 8 && Encodable(mod, ea) && bytes == Encode(reg, mod, ea)
      && (Has(prefixes, PREFIX_ADDR_SIZE) ==> mod == 3)
  }

  ghost predicate EncodesNumber(v: int, n: nat, signed: bool, bytes: seq<byte>) {
    NumberFits(v, n, signed) && bytes == NumberEncode(v, n, signed)
  }

  /** An operand is read back from its bytes, whatever follows. */
  lemma OperandRoundTrip(isa: Isa, slot: Slot, prefixes: seq<nat>, modrm: byte, v: Operand,
                         bytes: seq<byte>, rest: seq<byte>)
    requires Encodes(slot, prefixes, modrm, v, bytes)
    ensures DecodeOperand(isa, slot, prefixes, modrm, bytes + rest) == (|bytes|, v)
  {
    hide DecodeModRM, Number, Has, Encode, Encodable, NumberFits, Little, ShortModRMLength;
    match slot
    case FromModRM =>
      var reg, mod :| && 0 <= reg < 8 && Encodable(mod, v.ea) && bytes == Encode(reg, mod, v.ea)
                      && (Has(prefixes, PREFIX_ADDR_SIZE) ==> mod == 3);
      EncodeDecode(reg, mod, v.ea, rest);
      ModOfEncoding(reg, mod, v.ea, rest);
    case ImmediateValue(width, signed) => NumberRoundTrip(v.v, WidthBytes(width, prefixes), signed, rest);
    case BranchDistance(width) => NumberRoundTrip(v.d, WidthBytes(width, prefixes), true, rest);
    case MemoryOffset => NumberRoundTrip(v.addr, AddressBytes(prefixes), false, rest);
    case FarPointer =>
      NumberInFront(bytes, 2, rest);
      NumberInFront(bytes, AddressBytes(prefixes), rest);
    case _ =>
  }

  lemma NumberInFront(bytes: seq<byte>, n: nat, rest: seq<byte>)
    requires n <= |bytes|
    ensures Number(bytes + rest, n, false) == Little(bytes[..n])
  {
    assert (bytes + rest)[..n] == bytes[..n];
  }

  lemma ModOfEncoding(reg: int, mod: int, ea: EffectiveAddress, rest: seq<byte>)
    requires 0 <= reg < 8 && Encodable(mod, ea)
    ensures Mod(ByteAt(Encode(reg, mod, ea) + rest, 0)) == mod
  {
    hide DispEncode, SibEncode, Mod, DispFits;
    if ea.Direct? {
      Fields(3, reg, ea.rm);
    } else if ea.scale == 0 {
      Fields(mod, reg, if ea.base == -1 then 5 else ea.base);
    } else {
      Fields(mod, reg, 4);
    }
  }

  /** The bytes taken determine an operand of a known kind: they spell the value found. */
  lemma OperandSpells(isa: Isa, slot: Slot, prefixes: seq<nat>, modrm: byte, buf: seq<byte>)
    requires !slot.OtherSlot?
    requires slot.FromModRM? ==>
               buf != [] && ManualLength(buf) <= |buf| && (Has(prefixes, PREFIX_ADDR_SIZE) ==> Mod(buf[0]) == 3)
    ensures var (n, v) := DecodeOperand(isa, slot, prefixes, modrm, buf);
            n <= |buf| ==> Encodes(slot, prefixes, modrm, v, buf[..n])
  {
    hide DecodeModRM, Has, Encode, Encodable, NumberFits, Little, ShortModRMLength, ManualLength, Mod, Reg;
    var (n, v) := DecodeOperand(isa, slot, prefixes, modrm, buf);
    if n <= |buf| {
      match slot
      case FromModRM => DecodeEncode(buf);
      case ImmediateValue(width, signed) => NumberEncodes(buf, n, signed);
      case BranchDistance(width) => NumberEncodes(buf, n, true);
      case MemoryOffset => NumberEncodes(buf, n, false);
      case FarPointer =>
        assert buf[..n][..2] == buf[..2] && buf[..n][..AddressBytes(prefixes)] == buf[..AddressBytes(prefixes)];
      case _ =>
    }
  }

  // ---- whole instructions ------------------------------------------------------------------------

  /** The explicit operands, one behind the other: bytes taken in all, and values. */
  datatype Operands = Operands(size: nat, dest: Operand, src: Operand, aux: Operand)

  function DecodeOperands(isa: Isa, row: Row, prefixes: seq<nat>, buf: seq<byte>): Operands {
    var modrm := ByteAt(buf, 0);
    var (n1, dest) := DecodeOperand(isa, row.dest, prefixes, modrm, buf);
    var b2 := Drop(buf, n1);
    var (n2, src) := DecodeOperand(isa, row.src, prefixes, modrm, b2);
    var (n3, aux) := DecodeOperand(isa, row.aux, prefixes, modrm, Drop(b2, n2));
    Operands(n1 + n2 + n3, dest, src, aux)
  }

  /** `handle_insn_suffix`: the mnemonic of the row the byte behind the operands selects. */
  function SuffixMnemonic(isa: Isa, table: nat, rest: seq<byte>): Option<Mnemonic>
    requires isa.Valid() && table < |isa.tables|
  {
    var s := Lookup(isa.tables, rest, table, []);
    if s.NotFound? || s.row.Invalid() then None else Some(s.row.mnemonic)
  }

  /** `ia32_disasm_addr`: opcode lookup, explicit operands, and the 3DNow! suffix byte that names the operation. */
  function DisasmAddr(isa: Isa, buf: seq<byte>): (r: Option<Insn>)
    requires isa.Valid()
    ensures r.Some? ==>
              var f := Lookup(isa.tables, buf, 0, []);
              && f.Found? && 1 <= f.size <= |buf| && !f.row.Invalid()
              && f.size <= r.value.size
              && (!f.row.suffix ==> r.value.mnemonic == f.row.mnemonic)
              && (f.row.suffix ==> f.size < r.value.size)
  {
    LookupSize(isa.tables, buf, 0, []);
    var f := Lookup(isa.tables, buf, 0, []);
    if f.NotFound? || f.size > |buf| || f.row.Invalid() then None
    else
      var o := DecodeOperands(isa, f.row, f.prefixes, buf[f.size..]);
      var size := f.size + o.size;
      if f.row.suffix then
        var m := SuffixMnemonic(isa, f.row.table, Drop(buf, size));
        if m.None? then None else Some(Insn(size + 1, m.value, o.dest, o.src, o.aux))
      else Some(Insn(size, f.row.mnemonic, o.dest, o.src, o.aux))
  }

  /**
   An accepted instruction is its opcode, the bytes of its three operands one behind the other, and one more
   byte if the row has a suffix; nothing in between and nothing behind.
   */
  lemma Tiling(isa: Isa, buf: seq<byte>) returns (dest: seq<byte>, src: seq<byte>, aux: seq<byte>)
    requires isa.Valid() && DisasmAddr(isa, buf).Some? && DisasmAddr(isa, buf).value.size <= |buf|
    ensures 0 < |isa.tables|
    ensures var f, size := Lookup(isa.tables, buf, 0, []), DisasmAddr(isa, buf).value.size;
            && f.Found? && f.size <= size
            && size == f.size + |dest| + |src| + |aux| + (if f.row.suffix then 1 else 0)
            && buf[..size] == buf[..f.size] + dest + src + aux + buf[f.size + |dest| + |src| + |aux|..size]
            && OperandBytes(isa, f.row.dest, f.prefixes, dest)
            && OperandBytes(isa, f.row.src, f.prefixes, src)
            && OperandBytes(isa, f.row.aux, f.prefixes, aux)
  {
    hide WellFormed, Lookup, DisasmAddr, DecodeOperands, OperandBytes;
    MainTable(isa, buf);
    AddrSize(isa, buf);
    var f := Lookup(isa.tables, buf, 0, []);
    dest, src, aux := OperandsTile(isa, f.row, f.prefixes, buf[f.size..]);
    FrontAndPieces(buf, f.size, dest, src, aux, DisasmAddr(isa, buf).value.size);
  }

  lemma FrontAndPieces(buf: seq<byte>, n: nat, a: seq<byte>, b: seq<byte>, c: seq<byte>, size: nat)
    requires n + |a| + |b| + |c| <= size <= |buf|
    requires buf[n..][..|a| + |b| + |c|] == a + b + c
    ensures buf[..size] == buf[..n] + a + b + c + buf[n + |a| + |b| + |c|..size]
  {
    var m := n + |a| + |b| + |c|;
    assert buf[..size] == buf[..n] + buf[n..m] + buf[m..size];
    assert buf[n..m] == buf[n..][..|a| + |b| + |c|];
  }

  /** The size is that of the opcode, of the operands, and one for a suffix. */
  lemma AddrSize(isa: Isa, buf: seq<byte>)
    requires isa.Valid() && DisasmAddr(isa, buf).Some? && 0 < |isa.tables|
    ensures var f := Lookup(isa.tables, buf, 0, []);
            && f.Found? && 1 <= f.size <= |buf|
            && DisasmAddr(isa, buf).value.size ==
                 f.size + DecodeOperands(isa, f.row, f.prefixes, buf[f.size..]).size + (if f.row.suffix then 1 else 0)
  {
    hide WellFormed, Lookup, DecodeOperands, SuffixMnemonic;
  }

  lemma OperandsTile(isa: Isa, row: Row, prefixes: seq<nat>, buf: seq<byte>)
    returns (dest: seq<byte>, src: seq<byte>, aux: seq<byte>)
    requires DecodeOperands(isa, row, prefixes, buf).size <= |buf|
    ensures |dest| + |src| + |aux| == DecodeOperands(isa, row, prefixes, buf).size
    ensures buf[..|dest| + |src| + |aux|] == dest + src + aux
    ensures OperandBytes(isa, row.dest, prefixes, dest) && OperandBytes(isa, row.src, prefixes, src)
    ensures OperandBytes(isa, row.aux, prefixes, aux)
  {
    hide DecodeOperand;
    var modrm := ByteAt(buf, 0);
    var n1 := DecodeOperand(isa, row.dest, prefixes, modrm, buf).0;
    var b2 := Drop(buf, n1);
    var n2 := DecodeOperand(isa, row.src, prefixes, modrm, b2).0;
    var b3 := Drop(b2, n2);
    var n3 := DecodeOperand(isa, row.aux, prefixes, modrm, b3).0;
    assert DecodeOperands(isa, row, prefixes, buf).size == n1 + n2 + n3;
    OperandTakes(isa, row.dest, prefixes, modrm, buf);
    OperandTakes(isa, row.src, prefixes, modrm, b2);
    OperandTakes(isa, row.aux, prefixes, modrm, b3);
    dest, src, aux := buf[..n1], b2[..n2], b3[..n3];
    OtherBytes(isa, row.dest, prefixes, dest);
    OtherBytes(isa, row.src, prefixes, src);
    OtherBytes(isa, row.aux, prefixes, aux);
    hide OperandBytes, DecodeOperands;
    ThreePieces(buf, n1, n2, n3);
  }

  lemma OtherBytes(isa: Isa, slot: Slot, prefixes: seq<nat>, bytes: seq<byte>)
    ensures slot.OtherSlot? ==> OperandBytes(isa, slot, prefixes, bytes)
  {
  }

  lemma ThreePieces(buf: seq<byte>, n1: nat, n2: nat, n3: nat)
    requires n1 + n2 + n3 <= |buf|
    ensures buf[..n1 + n2 + n3] == buf[..n1] + buf[n1..][..n2] + buf[n1..][n2..][..n3]
  {
  }

  /** What a row's operands may be spelt by. */
  ghost predicate EncodesAll(row: Row, prefixes: seq<nat>, modrm: byte, o: Operands,
                             dest: seq<byte>, src: seq<byte>, aux: seq<byte>) {
    && o.size == |dest| + |src| + |aux|
    && Encodes(row.dest, prefixes, modrm, o.dest, dest)
    && Encodes(row.src, prefixes, modrm, o.src, src)
    && Encodes(row.aux, prefixes, modrm, o.aux, aux)
  }

  lemma OperandsRoundTrip(isa: Isa, row: Row, prefixes: seq<nat>, o: Operands,
                          dest: seq<byte>, src: seq<byte>, aux: seq<byte>, rest: seq<byte>)
    requires EncodesAll(row, prefixes, ByteAt(dest + src + aux + rest, 0), o, dest, src, aux)
    ensures DecodeOperands(isa, row, prefixes, dest + src + aux + rest) == o
  {
    hide DecodeOperand, Encodes;
    var buf := dest + src + aux + rest;
    var modrm := ByteAt(buf, 0);
    assert buf == dest + (src + aux + rest);
    OperandRoundTrip(isa, row.dest, prefixes, modrm, o.dest, dest, src + aux + rest);
    assert Drop(buf, |dest|) == src + aux + rest == src + (aux + rest);
    OperandRoundTrip(isa, row.src, prefixes, modrm, o.src, src, aux + rest);
    assert Drop(src + aux + rest, |src|) == aux + rest;
    OperandRoundTrip(isa, row.aux, prefixes, modrm, o.aux, aux, rest);
  }

  /** The operands behind an opcode that the tables find whole. */
  lemma OpcodeRoundTrip(isa: Isa, opcode: seq<byte>, row: Row, prefixes: seq<nat>, o: Operands,
                        dest: seq<byte>, src: seq<byte>, aux: seq<byte>, rest: seq<byte>, tail: seq<byte>)
    requires isa.Valid() && opcode != [] && tail == dest + src + aux + rest
    requires Lookup(isa.tables, opcode + tail, 0, []) == OpcodeTables.Found(|opcode|, row, prefixes)
    requires EncodesAll(row, prefixes, ByteAt(tail, 0), o, dest, src, aux)
    requires !row.Invalid() && !row.suffix
    ensures DisasmAddr(isa, opcode + tail) == Some(Insn(|opcode| + o.size, row.mnemonic, o.dest, o.src, o.aux))
  {
    hide WellFormed, Lookup, DecodeOperands, EncodesAll;
    OperandsRoundTrip(isa, row, prefixes, o, dest, src, aux, rest);
    assert (opcode + tail)[|opcode|..] == tail;
  }

  /**
   Disassembling undoes assembling: an opcode the tables find whole, followed by the bytes of its operands, is
   disassembled to just these operands and ends with them, whatever stands before and after.
   */
  lemma InstructionRoundTrip(isa: Isa, before: seq<byte>, opcode: seq<byte>, row: Row, prefixes: seq<nat>, o: Operands,
                             dest: seq<byte>, src: seq<byte>, aux: seq<byte>, rest: seq<byte>, tail: seq<byte>)
    requires isa.Valid() && opcode != [] && tail == dest + src + aux + rest
    requires Lookup(isa.tables, opcode + tail, 0, []) == OpcodeTables.Found(|opcode|, row, prefixes)
    requires EncodesAll(row, prefixes, ByteAt(tail, 0), o, dest, src, aux)
    requires !row.Invalid() && !row.suffix
    ensures Disasm(isa, before + (opcode + tail), |before|) ==
            Some(Insn(|opcode| + |dest| + |src| + |aux|, row.mnemonic, o.dest, o.src, o.aux))
  {
    hide WellFormed, Lookup, DisasmAddr, Encodes;
    OpcodeRoundTrip(isa, opcode, row, prefixes, o, dest, src, aux, rest, tail);
    assert (before + (opcode + tail))[|before|..] == opcode + tail;
  }

  lemma NothingAround(bytes: seq<byte>, rest: seq<byte>)
    ensures [] + bytes + [] + rest == bytes + rest
  {
  }

  lemma NothingBehind(first: seq<byte>, second: seq<byte>, rest: seq<byte>)
    ensures first + second + [] + rest == first + second + rest
  {
  }

  /** An opcode that takes an immediate and nothing else is as much longer as the immediate has bytes. */
  lemma OpcodeAndImmediate(isa: Isa, opcode: seq<byte>, row: Row, prefixes: seq<nat>, v: int, bytes: seq<byte>,
                           rest: seq<byte>)
    requires isa.Valid() && opcode != []
    requires row.dest.Hardcoded? && row.src.ImmediateValue? && row.aux.Unused? && !row.Invalid() && !row.suffix
    requires EncodesNumber(v, WidthBytes(row.src.width, prefixes), row.src.signed, bytes)
    requires Lookup(isa.tables, opcode + (bytes + rest), 0, []) == OpcodeTables.Found(|opcode|, row, prefixes)
    ensures DisasmAddr(isa, opcode + (bytes + rest)) ==
            Some(Insn(|opcode| + WidthBytes(row.src.width, prefixes), row.mnemonic,
                      Known(row.dest.value), Value(v), NoOperand))
  {
    hide WellFormed, Lookup, DisasmAddr, NumberFits, Digits, WidthBytes;
    var o := Operands(|bytes|, Known(row.dest.value), Value(v), NoOperand);
    NothingAround(bytes, rest);
    OpcodeRoundTrip(isa, opcode, row, prefixes, o, [], bytes, [], rest, bytes + rest);
  }

  lemma AddressThenNumber(row: Row, prefixes: seq<nat>, modrm: byte, ea: EffectiveAddress, address: seq<byte>,
                          v: int, bytes: seq<byte>)
    requires row.dest.FromModRM? && row.src.ImmediateValue? && row.aux.Unused?
    requires EncodesAddress(prefixes, ea, address)
    requires EncodesNumber(v, WidthBytes(row.src.width, prefixes), row.src.signed, bytes)
    ensures |bytes| == WidthBytes(row.src.width, prefixes)
    ensures EncodesAll(row, prefixes, modrm, Operands(|address| + |bytes|, Address(ea), Value(v), NoOperand),
                       address, bytes, [])
  {
    hide EncodesAddress, NumberFits, WidthBytes;
  }

  /** Behind a ModR/M operand the immediate starts where the address ends. */
  lemma ModRMAndImmediate(isa: Isa, opcode: seq<byte>, row: Row, prefixes: seq<nat>, ea: EffectiveAddress,
                          address: seq<byte>, v: int, bytes: seq<byte>, rest: seq<byte>, tail: seq<byte>)
    requires isa.Valid() && opcode != [] && tail == address + bytes + rest
    requires row.dest.FromModRM? && row.src.ImmediateValue? && row.aux.Unused? && !row.Invalid() && !row.suffix
    requires EncodesAddress(prefixes, ea, address)
    requires EncodesNumber(v, WidthBytes(row.src.width, prefixes), row.src.signed, bytes)
    requires Lookup(isa.tables, opcode + tail, 0, []) == OpcodeTables.Found(|opcode|, row, prefixes)
    ensures DisasmAddr(isa, opcode + tail) ==
            Some(Insn(|opcode| + |address| + WidthBytes(row.src.width, prefixes), row.mnemonic,
                      Address(ea), Value(v), NoOperand))
  {
    hide WellFormed, Lookup, DisasmAddr, EncodesAll, EncodesNumber, WidthBytes, EncodesAddress;
    var o := Operands(|address| + |bytes|, Address(ea), Value(v), NoOperand);
    AddressThenNumber(row, prefixes, ByteAt(tail, 0), ea, address, v, bytes);
    NothingBehind(address, bytes, rest);
    OpcodeRoundTrip(isa, opcode, row, prefixes, o, address, bytes, [], rest, tail);
  }

  /** A far pointer's selector is read from where its offset stands, so it is the low half of that. */
  lemma FarMisread(isa: Isa, prefixes: seq<nat>, modrm: byte, offset: nat, selector: nat, rest: seq<byte>)
    requires offset < Pow256(AddressBytes(prefixes)) && selector < Pow256(2)
    ensures var bytes := Digits(offset, AddressBytes(prefixes)) + Digits(selector, 2);
            DecodeOperand(isa, FarPointer, prefixes, modrm, bytes + rest) ==
              (|bytes|, Far(offset % 0x1_0000, offset))
  {
    hide Has, Digits, Little, DecodeModRM;
    var n := AddressBytes(prefixes);
    var bytes := Digits(offset, n) + Digits(selector, 2);
    DigitsSpell(offset, n);
    LowDigits(offset, n);
    NumberInFront(bytes, n, rest);
    NumberInFront(bytes, 2, rest);
    assert bytes[..n] == Digits(offset, n) && bytes[..2] == Digits(offset, n)[..2];
  }

  /** The two lowest bytes of a number spell what it leaves modulo 2^16. */
  lemma LowDigits(x: nat, n: nat)
    requires 2 <= n
    ensures Little(Digits(x, n)[..2]) == x % 0x1_0000
  {
    var y, z := x / 256, x / 256 / 256;
    assert Digits(x, n) == [x % 256] + Digits(y, n - 1);
    assert Digits(y, n - 1) == [y % 256] + Digits(z, n - 2);
    var low := [x % 256, y % 256];
    assert Digits(x, n)[..2] == low;
    assert low[1..] == [y % 256] && Little([y % 256]) == y % 256;
  }

  /** A row with a suffix takes one more byte, and its mnemonic from the row that byte selects. */
  lemma SuffixNames(isa: Isa, buf: seq<byte>) returns (s: Found)
    requires isa.Valid() && DisasmAddr(isa, buf).Some?
    ensures 0 < |isa.tables| && Lookup(isa.tables, buf, 0, []).Found?
    ensures Lookup(isa.tables, buf, 0, []).row.table < |isa.tables|
    ensures var f, insn := Lookup(isa.tables, buf, 0, []), DisasmAddr(isa, buf).value;
            f.row.suffix ==>
              && s == Lookup(isa.tables, Drop(buf, insn.size - 1), f.row.table, [])
              && s.Found? && !s.row.Invalid() && insn.mnemonic == s.row.mnemonic
  {
    hide WellFormed, Lookup, DisasmAddr, Drop;
    MainTable(isa, buf);
    var f, insn := Lookup(isa.tables, buf, 0, []), DisasmAddr(isa, buf).value;
    SuffixLast(isa, buf, f);
    s := Lookup(isa.tables, Drop(buf, insn.size - 1), f.row.table, []);
  }

  /** The main table exists, and a row found names a table that does. */
  lemma MainTable(isa: Isa, buf: seq<byte>)
    requires isa.Valid()
    ensures 0 < |isa.tables|
    ensures var f := Lookup(isa.tables, buf, 0, []); f.Found? ==> f.row.table < |isa.tables|
  {
    hide Lookup, WellFormedTable;
    LookupSize(isa.tables, buf, 0, []);
  }

  lemma SuffixLast(isa: Isa, buf: seq<byte>, f: Found)
    requires isa.Valid() && DisasmAddr(isa, buf).Some? && 0 < |isa.tables|
    requires f == Lookup(isa.tables, buf, 0, []) && f.Found? && f.row.table < |isa.tables|
    ensures var insn := DisasmAddr(isa, buf).value;
            f.row.suffix ==> SuffixMnemonic(isa, f.row.table, Drop(buf, insn.size - 1)) == Some(insn.mnemonic)
  {
    hide WellFormed, Lookup, DecodeOperands, SuffixMnemonic, Drop;
  }

  /** `x86_disasm`: the instruction at `offset`, unless it is invalid or runs over the end. */
  function Disasm(isa: Isa, buf: seq<byte>, offset: nat): (r: Option<Insn>)
    requires isa.Valid()
    ensures r.Some? ==> 1 <= r.value.size && offset + r.value.size <= |buf|
  {
    if offset >= |buf| then None
    else
      var r := DisasmAddr(isa, buf[offset..]);
      if r.Some? && r.value.size > |buf| - offset then None else r
  }
}
