/**
 The instruction language of opcodes.h.  An instruction is its bytes, plus the one bit the
 boundary table keeps about it: whether it is a 2 byte instruction with a register argument.
 */
module Opcodes {

  type byte = b: int | 0 <= b < 256

  /** Opcode tables, each closed by a zero byte; an opcode is two bytes. */
  const TWOBYTE_NOARG: seq<byte> := [0xd8, 0xe1, 0xd9, 0xe0, 0xd9, 0xfd, 0xd9, 0xfa, 0xd9, 0xff, 0xd9, 0xfe, 0]
  const TWOBYTE_REGARG: seq<byte> := [
    0xd8, 0xc0, 0xdc, 0xc0, 0xdd, 0xd0, 0xd9, 0xc8, 0xd8, 0xf0, 0xd8, 0xc8, 0xdc, 0xc8, 0xd8, 0xe0, 0xdc, 0xe8, 0]
  const SIXBYTE: seq<byte> := [0xdc, 0x05, 0xdc, 0x35, 0xdc, 0x0d, 0xdc, 0x25, 0]

  const NNOARG := 6
  const NREGARG := 9
  const NSIXBYTE := 4

  type NoArgOp = i: int | 0 <= i < NNOARG
  type RegOp = i: int | 0 <= i < NREGARG
  type MemOp = i: int | 0 <= i < NSIXBYTE
  type Register = r: int | 0 <= r < 8
  type Address = a: int | 0 <= a < 0x1_0000_0000

  /** The loop that counts a table's opcodes: bytes up to and including the zero, halved. */
  method CountOpcodes(table: seq<byte>) returns (n: nat)
    requires |table| % 2 == 1 && table[|table| - 1] == 0
    requires forall i :: 0 <= i < |table| - 1 ==> table[i] != 0
    ensures 2 * n + 1 == |table|
  {
    n := 1;
    while table[n - 1] != 0
      invariant 1 <= n <= |table|
      decreases |table| - n
    {
      n := n + 1;
    }
    n := n / 2;
  }

  datatype Instr = Instr(bytes: seq<byte>, register: bool)

  function NoArg(i: NoArgOp): Instr {
    Instr([TWOBYTE_NOARG[2 * i], TWOBYTE_NOARG[2 * i + 1]], false)
  }

  function RegArg(i: RegOp, r: Register): Instr {
    Instr([TWOBYTE_REGARG[2 * i], RegByte(i, r)], true)
  }

  function MemArg(i: MemOp, a: Address): Instr {
    Instr([SIXBYTE[2 * i], SIXBYTE[2 * i + 1]] + LittleEndian(a), false)
  }

  /** The register number is added into the second opcode byte. */
  function RegByte(i: RegOp, r: Register): (b: byte)
    ensures b == TWOBYTE_REGARG[2 * i + 1] + r
  {
    RegOpcodeNibble(i);
    TWOBYTE_REGARG[2 * i + 1] + r
  }

  /** The low nibble of a register opcode is 0 or 8, so adding a register never carries out of it. */
  lemma RegOpcodeNibble(i: RegOp)
    ensures TWOBYTE_REGARG[2 * i + 1] % 16 == 0 || TWOBYTE_REGARG[2 * i + 1] % 16 == 8
    ensures TWOBYTE_REGARG[2 * i + 1] + 7 < 256
  {
    assert i == 0 || i == 1 || i == 2 || i == 3 || i == 4 || i == 5 || i == 6 || i == 7 || i == 8;
  }

  /** `arg & 0xff`, `(arg>>8) & 0xff`, ...: least significant byte first. */
  function LittleEndian(a: Address): (bs: seq<byte>)
    ensures |bs| == 4
  {
    [a % 256, a / 0x100 % 256, a / 0x1_0000 % 256, a / 0x100_0000 % 256]
  }

  function FromLittleEndian(bs: seq<byte>): Address
    requires |bs| == 4
  {
    (bs[0] as int) + 0x100 * (bs[1] as int) + 0x1_0000 * (bs[2] as int) + 0x100_0000 * (bs[3] as int)
  }

  lemma LittleEndianRoundTrip(a: Address)
    ensures FromLittleEndian(LittleEndian(a)) == a
  {
    var b := a / 0x100;
    var c := b / 0x100;
    var d := c / 0x100;
    assert a == a % 256 + 0x100 * b && b == b % 256 + 0x100 * c && c == c % 256 + 0x100 * d;
    assert a / 0x1_0000 == c && a / 0x100_0000 == d;
  }

  lemma Base256(b: byte, q: int)
    ensures (b + 0x100 * q) % 0x100 == b && (b + 0x100 * q) / 0x100 == q
  {
  }

  lemma FromLittleEndianRoundTrip(bs: seq<byte>)
    requires |bs| == 4
    ensures LittleEndian(FromLittleEndian(bs)) == bs
  {
    var b0: int, b1: int, b2: int, b3: int := bs[0], bs[1], bs[2], bs[3];
    var a := FromLittleEndian(bs);
    assert a == b0 + 0x100 * (b1 + 0x100 * (b2 + 0x100 * b3));
    Base256(b0, b1 + 0x100 * (b2 + 0x100 * b3));
    Base256(b1, b2 + 0x100 * b3);
    Base256(b2, b3);
    assert a / 0x100 / 0x100 == a / 0x1_0000 && a / 0x1_0000 / 0x100 == a / 0x100_0000;
  }
}

/**
 The byte layout of a program: a header, the instructions laid end to end, a footer.  The
 header and footer are parameters here; their actual bytes, which only matter when a program
 runs, are in X87.
 */
module Layouts {
  import opened Opcodes

  const MAXHEADERLEN := 34
  const MAXFOOTERLEN := 2

  /** The bytes around every program. */
  datatype Frame = Frame(header: seq<byte>, footer: seq<byte>) {
    /** What the program checks before it allocates anything. */
    predicate Fits() {
      |header| <= MAXHEADERLEN && |footer| <= MAXFOOTERLEN
    }
  }

  function Flat(p: seq<Instr>): seq<byte> {
    if p == [] then [] else p[0].bytes + Flat(p[1..])
  }

  /** The bytes of a whole program. */
  function Layout(fr: Frame, p: seq<Instr>): seq<byte> {
    fr.header + Flat(p) + fr.footer
  }

  /** Where instruction `i` starts; `Offset(fr, p, |p|)` is where the footer starts. */
  function Offset(fr: Frame, p: seq<Instr>, i: nat): int
    requires i <= |p|
  {
    |fr.header| + |Flat(p[..i])|
  }

  /** Entry `i` of the boundary table: negative after a 2 byte instruction with a register. */
  function SignedIndex(fr: Frame, p: seq<Instr>, i: nat): int
    requires i <= |p|
  {
    if i > 0 && p[i - 1].register then -Offset(fr, p, i) else Offset(fr, p, i)
  }

  /** Every instruction is 2 or 6 bytes long, and only 2 byte instructions take a register. */
  ghost predicate Sized(p: seq<Instr>) {
    forall i :: 0 <= i < |p| ==>
      |p[i].bytes| == 2 || (|p[i].bytes| == 6 && !p[i].register)
  }

  lemma {:induction false} FlatAppend(p: seq<Instr>, q: seq<Instr>)
    ensures Flat(p + q) == Flat(p) + Flat(q)
  {
    if p == [] {
      assert p + q == q;
    } else {
      assert (p + q)[1..] == p[1..] + q;
      FlatAppend(p[1..], q);
    }
  }

  lemma FlatSplit(p: seq<Instr>, i: nat)
    requires i <= |p|
    ensures Flat(p) == Flat(p[..i]) + Flat(p[i..])
  {
    assert p == p[..i] + p[i..];
    FlatAppend(p[..i], p[i..]);
  }

  lemma FlatExtend(p: seq<Instr>, ins: Instr)
    ensures Flat(p + [ins]) == Flat(p) + ins.bytes
  {
    FlatAppend(p, [ins]);
    assert Flat([ins]) == ins.bytes + Flat([]);
  }

  lemma OffsetStep(fr: Frame, p: seq<Instr>, i: nat)
    requires i < |p|
    ensures Flat(p[..i + 1]) == Flat(p[..i]) + p[i].bytes
    ensures Offset(fr, p, i + 1) == Offset(fr, p, i) + |p[i].bytes|
  {
    assert p[..i + 1] == p[..i] + [p[i]];
    FlatExtend(p[..i], p[i]);
  }

  lemma {:induction false} OffsetMonotone(fr: Frame, p: seq<Instr>, i: nat, j: nat)
    requires i <= j <= |p| && Sized(p)
    ensures Offset(fr, p, i) + 2 * (j - i) <= Offset(fr, p, j) <= Offset(fr, p, i) + 6 * (j - i)
    decreases j - i
  {
    if i == j {
    } else {
      OffsetStep(fr, p, i);
      OffsetMonotone(fr, p, i + 1, j);
    }
  }

  lemma LayoutLength(fr: Frame, p: seq<Instr>)
    ensures |Layout(fr, p)| == Offset(fr, p, |p|) + |fr.footer|
    ensures Sized(p) ==> |Layout(fr, p)| <= |fr.header| + 6 * |p| + |fr.footer|
  {
    assert p[..|p|] == p;
    if Sized(p) {
      OffsetMonotone(fr, p, 0, |p|);
    }
  }

  lemma Regroup<T>(a: seq<T>, b: seq<T>, c: seq<T>, d: seq<T>, e: seq<T>)
    ensures var s := a + (b + c + d) + e;
            |s| >= |a| + |b| + |c| && s[|a| + |b|..|a| + |b| + |c|] == c
  {
  }

  /** The slice of the layout between two consecutive boundaries is the instruction. */
  lemma LayoutSlice(fr: Frame, p: seq<Instr>, i: nat)
    requires i < |p|
    ensures Offset(fr, p, i) + |p[i].bytes| == Offset(fr, p, i + 1) <= |Layout(fr, p)| - |fr.footer|
    ensures Layout(fr, p)[Offset(fr, p, i)..Offset(fr, p, i + 1)] == p[i].bytes
  {
    OffsetStep(fr, p, i);
    FlatSplit(p, i + 1);
    Regroup(fr.header, Flat(p[..i]), p[i].bytes, Flat(p[i + 1..]), fr.footer);
  }

  /** Offsets and boundary entries depend only on the instructions before them. */
  lemma OffsetPrefix(fr: Frame, p: seq<Instr>, q: seq<Instr>, i: nat)
    requires i <= |p| && i <= |q| && p[..i] == q[..i]
    ensures Offset(fr, p, i) == Offset(fr, q, i) && SignedIndex(fr, p, i) == SignedIndex(fr, q, i)
  {
    if i > 0 {
      assert p[..i][i - 1] == q[..i][i - 1];
    }
  }
}
