/**
 The disassembly drivers (x86_disasm.c) and the seen-address list of x86dis.c.  The decoder is a
 parameter: any function of the bytes at an offset, reporting sizes that fit the buffer.
 */
module Drivers {
  import opened Arithmetic
  import opened LinkedLists
  import opened Opcodes
  import opened OpcodeTables
  import D = Disassembler

  const WORD := 0x1_0000_0000

  datatype Flow = Jump | CondJump | Call | CondCall | Ret | Straight | Invalid

  /** Where a branch operand points: nowhere known, an address, or a signed distance. */
  datatype Target = Unknown | Absolute(addr: int) | Relative(distance: int)

  datatype Insn = Insn(size: int, flow: Flow, target: Target)

  /** What `x86_disasm` reports at `offset`; size 0 for an invalid instruction or one that overruns. */
  type Decoder = (seq<byte>, int) -> Insn

  /** The part of `x86_disasm` that does not depend on the instruction set. */
  ghost predicate Sound(decode: Decoder) {
    forall buf, offset :: FitsBuffer(decode(buf, offset), buf, offset)
  }

  ghost predicate FitsBuffer(insn: Insn, buf: seq<byte>, offset: int) {
    && 0 <= insn.size
    && (insn.size > 0 ==> 0 <= offset && offset + insn.size <= |buf|)
    && (insn.size == 0 ==> insn.flow == Invalid)
  }

  /**
   Where the operand of a branch points.  Of a far pointer the resolvers read the first four bytes of its
   record, which hold the selector.
   */
  function TargetOf(insn: D.Insn): Target {
    match insn.dest
    case Distance(d) => Relative(d)
    case Offset(a) => Absolute(a)
    case Far(segment, _) => Absolute(segment)
    case _ => Unknown
  }

  /** The decoder of Disassembler, with the kind of its instructions supplied by `flow`, is one of these. */
  ghost function LibdisasmDecoder(isa: D.Isa, flow: D.Insn -> Flow): Decoder
    requires isa.Valid()
  {
    (buf, offset) =>
      if offset < 0 || D.Disasm(isa, buf, offset).None? then Insn(0, Invalid, Unknown)
      else
        var insn := D.Disasm(isa, buf, offset).value;
        Insn(insn.size, flow(insn), TargetOf(insn))
  }

  lemma LibdisasmIsSound(isa: D.Isa, flow: D.Insn -> Flow)
    requires isa.Valid()
    ensures Sound(LibdisasmDecoder(isa, flow))
  {
    hide D.Disasm;
    var decode := LibdisasmDecoder(isa, flow);
    forall buf, offset
      ensures FitsBuffer(decode(buf, offset), buf, offset)
    {
      if offset >= 0 && D.Disasm(isa, buf, offset).Some? {
        assert decode(buf, offset).size == D.Disasm(isa, buf, offset).value.size;
      }
    }
  }

  /** One callback: an instruction of this size at this offset. */
  datatype Report = Report(offset: int, size: int)

  // ---- a range of bytes ---------------------------------------------------------------

  /**
   The bytes from `pos` to the end, each either in a reported instruction or skipped on its own:
   `reports` is exactly what decoding one position after the other yields.
   */
  ghost predicate Tiles(decode: Decoder, buf: seq<byte>, pos: int, end: int, reports: seq<Report>)
    decreases end - pos
  {
    if pos >= end then pos == end && reports == []
    else
      var insn := decode(buf, pos);
      if insn.size > 0 then
        && reports != [] && reports[0] == Report(pos, insn.size)
        && Tiles(decode, buf, pos + insn.size, end, reports[1..])
      else Tiles(decode, buf, pos + 1, end, reports)
  }

  /** `x86_disasm_range`, with the callbacks it makes. */
  method DisasmRange(decode: Decoder, buf: seq<byte>, offset: nat, len: nat) returns (count: nat, reports: seq<Report>)
    requires Sound(decode) && |buf| == offset + len
    ensures Tiles(decode, buf, offset, offset + len, reports)
    ensures count == |reports|
  {
    var bytes := 0;
    count, reports := 0, [];
    ghost var end := offset + len;
    forall rest: seq<Report>
      ensures [] + rest == rest
    {
    }
    while bytes < len
      invariant 0 <= bytes <= len && count == |reports|
      invariant forall rest :: Tiles(decode, buf, offset + bytes, end, rest) ==>
                  Tiles(decode, buf, offset, end, reports + rest)
      decreases len - bytes
    {
      var insn := decode(buf, offset + bytes);
      assert FitsBuffer(insn, buf, offset + bytes);
      ghost var before, at := reports, offset + bytes;
      if insn.size > 0 {
        reports := reports + [Report(offset + bytes, insn.size)];
        bytes := bytes + insn.size;
        count := count + 1;
      } else {
        bytes := bytes + 1;
      }
      forall rest | Tiles(decode, buf, offset + bytes, end, rest)
        ensures Tiles(decode, buf, offset, end, reports + rest)
      {
        if insn.size > 0 {
          var longer := [Report(at, insn.size)] + rest;
          assert longer[1..] == rest;
          assert Tiles(decode, buf, at, end, longer);
          assert before + longer == reports + rest;
        }
      }
    }
    assert Tiles(decode, buf, end, end, []);
    assert reports + [] == reports;
  }

  /** Whoever tiles a range reports ascending, disjoint instructions that lie inside it. */
  lemma {:induction false} TilesInside(decode: Decoder, buf: seq<byte>, pos: int, end: int, reports: seq<Report>)
    requires Tiles(decode, buf, pos, end, reports)
    ensures forall i :: 0 <= i < |reports| ==>
              && pos <= reports[i].offset && 0 < reports[i].size && reports[i].offset + reports[i].size <= end
              && decode(buf, reports[i].offset).size == reports[i].size
    ensures forall i, j :: 0 <= i < j < |reports| ==> reports[i].offset + reports[i].size <= reports[j].offset
    decreases end - pos
  {
    if pos < end {
      var insn := decode(buf, pos);
      if insn.size > 0 {
        var rest := reports[1..];
        TilesInside(decode, buf, pos + insn.size, end, rest);
        TilesReach(decode, buf, pos + insn.size, end, rest);
        forall i | 0 <= i < |reports|
          ensures pos <= reports[i].offset && 0 < reports[i].size && reports[i].offset + reports[i].size <= end
          ensures decode(buf, reports[i].offset).size == reports[i].size
        {
          assert i > 0 ==> reports[i] == rest[i - 1];
        }
        forall i, j | 0 <= i < j < |reports|
          ensures reports[i].offset + reports[i].size <= reports[j].offset
        {
          assert reports[j] == rest[j - 1] && (i > 0 ==> reports[i] == rest[i - 1]);
        }
      } else {
        TilesInside(decode, buf, pos + 1, end, reports);
      }
    }
  }

  lemma TilesReach(decode: Decoder, buf: seq<byte>, pos: int, end: int, reports: seq<Report>)
    requires Tiles(decode, buf, pos, end, reports)
    ensures pos <= end
  {
  }

  /** A byte in no reported instruction was tried on its own and did not decode. */
  lemma {:induction false} SkippedSingly(decode: Decoder, buf: seq<byte>, pos: int, end: int,
                                         reports: seq<Report>, b: int)
    requires Sound(decode) && Tiles(decode, buf, pos, end, reports) && pos <= b < end
    ensures decode(buf, b).size == 0
         || exists i :: 0 <= i < |reports| && reports[i].offset <= b < reports[i].offset + reports[i].size
    decreases end - pos
  {
    var insn := decode(buf, pos);
    assert FitsBuffer(insn, buf, pos);
    if insn.size > 0 {
      if b >= pos + insn.size {
        SkippedSingly(decode, buf, pos + insn.size, end, reports[1..], b);
        if i :| 0 <= i < |reports[1..]| && reports[1..][i].offset <= b < reports[1..][i].offset + reports[1..][i].size {
          assert reports[i + 1] == reports[1..][i];
        }
      } else {
        assert reports[0].offset <= b < reports[0].offset + reports[0].size;
      }
    } else if b > pos {
      SkippedSingly(decode, buf, pos + 1, end, reports, b);
    }
  }

  // ---- addresses already seen -----------------------------------------------------------

  ghost predicate Ascending(nodes: seq<Node<int>>)
    reads nodes
  {
    forall i, j :: 0 <= i < j < |nodes| ==> nodes[i].data < nodes[j].data
  }

  ghost function Addresses(nodes: seq<Node<int>>): set<int>
    reads nodes
  {
    set n | n in nodes :: n.data
  }

  /** A linked list of addresses in ascending order; the head node always holds address 0. */
  class RvaList {
    const head: Node<int>
    ghost var nodes: seq<Node<int>>
    ghost var Repr: set<object>

    ghost predicate Valid()
      reads this, Repr
    {
      && this in Repr && (forall n :: n in nodes ==> n in Repr)
      && nodes != [] && nodes[0] == head && head.data == 0
      && LinkedExcept(nodes, |nodes|)
      && Ascending(nodes)
    }

    /** The addresses on the list; 0 is there from the start. */
    ghost function Seen(): set<int>
      reads this, nodes
    {
      Addresses(nodes)
    }

    constructor ()
      ensures Valid() && Seen() == {0} && fresh(Repr)
    {
      head := new Node(0, null);
      nodes := [head];
      Repr := {this, head};
    }

    /** `rva_list_add`: inserts the address in order, or reports that it is already there. */
    method Add(rva: int) returns (added: bool)
      requires Valid() && 0 <= rva
      modifies Repr
      ensures Valid() && fresh(Repr - old(Repr))
      ensures added <==> rva !in old(Seen())
      ensures Seen() == old(Seen()) + {rva}
    {
      var rl: Node?<int> := head;
      ghost var k := 0;
      // the search always ends inside the list: either the address is found, or its place
      while rl != null
        invariant rl != null && 0 <= k < |nodes| && rl == nodes[k]
        invariant nodes[k].data <= rva
        decreases |nodes| - k
      {
        if rva > rl.data {
          if rl.next == null || rva < rl.next.data {
            Link(rl, rva, k);
            return true;
          }
        } else if rva == rl.data {
          assert nodes[k].data in Addresses(nodes);
          return false;
        }
        assert nodes[k].next == NodeAt(nodes, k + 1);
        rl := rl.next;
        k := k + 1;
      }
      return false;
    }

    /** Links a new node in behind `rl`. */
    method Link(rl: Node<int>, rva: int, ghost k: int)
      requires Valid() && 0 <= k < |nodes| && rl == nodes[k]
      requires rl.data < rva && (k + 1 < |nodes| ==> rva < nodes[k + 1].data)
      modifies this, rl
      ensures Valid() && fresh(Repr - old(Repr))
      ensures Seen() == old(Seen()) + {rva} && rva !in old(Seen())
    {
      hide Ascending, Addresses, Inserted, NodeAt;
      ghost var was := nodes;
      var n := new Node(rva, rl.next);
      PointAt(rl, n, was, k);
      nodes := Inserted(was, k, n);
      Repr := Repr + {n};
      InsertedOnce(was, k, n);
      Relinked(was, k, n);
    }

    /** Redirecting one link touches no address and no other link. */
    static method PointAt(rl: Node<int>, n: Node<int>, ghost was: seq<Node<int>>, ghost k: int)
      requires Ascending(was) && LinkedExcept(was, |was|) && 0 <= k < |was| && rl == was[k]
      modifies rl`next
      ensures rl.next == n && LinkedExcept(was, k)
      ensures Ascending(was) && Addresses(was) == old(Addresses(was))
    {
      LaterNodesDiffer(was, k);
      hide Ascending, Addresses;
      rl.next := n;
      SameAddresses(was);
    }
  }

  /** Addresses do not depend on links. */
  twostate lemma SameAddresses(nodes: seq<Node<int>>)
    requires forall n :: n in nodes ==> n.data == old(n.data)
    ensures Addresses(nodes) == old(Addresses(nodes))
    ensures Ascending(nodes) == old(Ascending(nodes))
  {
    assert forall i :: 0 <= i < |nodes| ==> nodes[i] in nodes;
  }

  /** In ascending order no node occurs twice. */
  lemma LaterNodesDiffer(s: seq<Node<int>>, k: int)
    requires Ascending(s) && 0 <= k < |s|
    ensures forall i :: 0 <= i < |s| && i != k ==> s[i] != s[k]
  {
    forall i | 0 <= i < |s| && i != k
      ensures s[i] != s[k]
    {
      assert i < k || k < i;
    }
  }

  lemma InsertedInOrder(s: seq<Node<int>>, k: int, x: Node<int>)
    requires Ascending(s) && 0 <= k < |s| && s[k].data < x.data && (k + 1 < |s| ==> x.data < s[k + 1].data)
    ensures Ascending(Inserted(s, k, x))
  {
    var t := Inserted(s, k, x);
    forall i, j | 0 <= i < j < |t|
      ensures t[i].data < t[j].data
    {
      assert i <= k ==> s[i].data <= s[k].data;
      assert j > k + 1 ==> s[k + 1].data <= s[j - 1].data;
    }
  }

  lemma InsertedOnce(s: seq<Node<int>>, k: int, x: Node<int>)
    requires Ascending(s) && 0 <= k < |s| && s[k].data < x.data && (k + 1 < |s| ==> x.data < s[k + 1].data)
    ensures Ascending(Inserted(s, k, x))
    ensures Addresses(Inserted(s, k, x)) == Addresses(s) + {x.data} && x.data !in Addresses(s)
  {
    InsertedInOrder(s, k, x);
    var t := Inserted(s, k, x);
    forall i | 0 <= i < |s|
      ensures s[i] in t && s[i].data != x.data
    {
      assert t[if i <= k then i else i + 1] == s[i];
      assert i <= k ==> s[i].data <= s[k].data;
      assert i > k ==> s[k + 1].data <= s[i].data;
    }
    assert forall n :: n in t ==> n == x || n in s;
    assert t[k + 1] in t;
    assert forall a :: a in Addresses(t) <==> a in Addresses(s) || a == x.data;
  }

  // ---- following the flow of control ------------------------------------------------------

  /** A value kept in 32 unsigned bits, and the same bits read as a signed number. */
  function Unsigned32(x: int): int {
    x % WORD
  }

  function Signed32(x: int): int {
    if x % WORD < WORD / 2 then x % WORD else x % WORD - WORD
  }

  /** The address a branch at `addr` goes to, or -1 when it is not known. */
  function Destination(addr: int, insn: Insn): int {
    match insn.target
    case Unknown => -1
    case Absolute(a) => Signed32(a)
    case Relative(d) => Signed32(addr + insn.size + d)
  }

  /** `x86dis_resolver`: a branch is followed the first time it is met, and never again. */
  method Resolve(seen: RvaList, addr: int, insn: Insn) returns (next: int)
    requires seen.Valid() && 0 <= addr
    modifies seen.Repr
    ensures seen.Valid() && fresh(seen.Repr - old(seen.Repr))
    ensures next == if addr in old(seen.Seen()) then -1 else Destination(addr, insn)
    ensures seen.Seen() == old(seen.Seen()) + {addr}
  {
    var added := seen.Add(addr);
    if !added {
      return -1;
    }
    next := Destination(addr, insn);
  }

  predicate Follows(insn: Insn) {
    insn.flow == Jump || insn.flow == CondJump || insn.flow == Call || insn.flow == CondCall
  }

  predicate DoesntReturn(insn: Insn) {
    insn.flow == Jump || insn.flow == Ret
  }

  function AddressAt(rva: int, k: int): int {
    Unsigned32(rva + k)
  }

  /** The addresses of the bytes of the buffer. */
  ghost function InBuffer(rva: int, len: int): set<int> {
    set k | 0 <= k < len :: AddressAt(rva, k)
  }

  /** How many of them have not been seen. */
  ghost function Unseen(rva: int, len: int, seen: set<int>): nat {
    |InBuffer(rva, len) - seen|
  }

  lemma UnseenShrinks(rva: int, len: int, s: set<int>, t: set<int>, a: int)
    requires s <= t
    ensures Unseen(rva, len, t) <= Unseen(rva, len, s)
    ensures a in InBuffer(rva, len) && a in t && a !in s ==> Unseen(rva, len, t) < Unseen(rva, len, s)
  {
    var x, y := InBuffer(rva, len) - t, InBuffer(rva, len) - s;
    SubsetSize(x, y);
    if a in InBuffer(rva, len) && a in t && a !in s {
      SubsetSize(x, y - {a});
    }
  }

  lemma InBufferHas(rva: int, len: int, k: int)
    requires 0 <= k < len
    ensures AddressAt(rva, k) in InBuffer(rva, len)
  {
  }

  lemma {:induction false} SubsetSize<T>(x: set<T>, y: set<T>)
    requires x <= y
    ensures |x| <= |y|
    decreases |x|
  {
    if x == {} {
    } else {
      var a :| a in x;
      SubsetSize(x - {a}, y - {a});
    }
  }

  // ---- the walk as a value ------------------------------------------------------------------

  /** Instructions reported, and addresses seen afterwards. */
  datatype Walk = Walk(reports: seq<Report>, seen: set<int>)

  /** What the buffer may be: every offset has its own address. */
  predicate Addressable(buf: seq<byte>, rva: int) {
    |buf| < WORD && 0 <= rva < WORD
  }

  /** The walk from `offset + bytes` on, for as long as control goes on and the byte count lasts. */
  ghost function Forward(decode: Decoder, buf: seq<byte>, rva: int, offset: int, bytes: nat, seen: set<int>): (w: Walk)
    requires Sound(decode) && Addressable(buf, rva)
    ensures seen <= w.seen
    decreases Unseen(rva, |buf|, seen), |buf| - bytes, 1
  {
    if bytes >= |buf| then Walk([], seen)
    else
      var pos := Unsigned32(offset + bytes);
      var insn := decode(buf, pos);
      var side := Detour(decode, buf, rva, pos, bytes, seen);
      UnseenShrinks(rva, |buf|, seen, side.seen, 0);
      if DoesntReturn(insn) then side
      else
        assert FitsBuffer(insn, buf, pos);
        var rest := Forward(decode, buf, rva, offset, bytes + Advance(insn), side.seen);
        Walk(side.reports + rest.reports, rest.seen)
  }

  function Advance(insn: Insn): int {
    if insn.size > 0 then insn.size else 1
  }

  function Own(pos: int, insn: Insn): seq<Report> {
    if insn.size > 0 then [Report(pos, insn.size)] else []
  }

  /** The instruction at `pos` itself, and the walk behind it if it is a branch met for the first time. */
  ghost function Detour(decode: Decoder, buf: seq<byte>, rva: int, pos: int, bytes: nat, seen: set<int>): (w: Walk)
    requires Sound(decode) && Addressable(buf, rva) && bytes < |buf|
    ensures seen <= w.seen
    decreases Unseen(rva, |buf|, seen), |buf| - bytes, 0
  {
    var insn := decode(buf, pos);
    assert FitsBuffer(insn, buf, pos);
    if !Follows(insn) then Walk(Own(pos, insn), seen)
    else
      var side := Followed(decode, buf, rva, pos, insn, seen);
      Walk(Own(pos, insn) + side.reports, side.seen)
  }

  ghost function Followed(decode: Decoder, buf: seq<byte>, rva: int, pos: int, insn: Insn, seen: set<int>): (w: Walk)
    requires Sound(decode) && Addressable(buf, rva) && 0 <= pos < |buf|
    ensures seen <= w.seen && AddressAt(rva, pos) in w.seen
    decreases Unseen(rva, |buf|, seen), 0, 0
  {
    var addr := AddressAt(rva, pos);
    if addr in seen then Walk([], seen)
    else
      var after := seen + {addr};
      InBufferHas(rva, |buf|, pos);
      UnseenShrinks(rva, |buf|, seen, after, addr);
      if LeadsInside(buf, rva, pos, insn) then Forward(decode, buf, rva, TargetOffset(rva, pos, insn), 0, after)
      else Walk([], after)
  }

  function TargetOffset(rva: int, pos: int, insn: Insn): int {
    Unsigned32(Destination(AddressAt(rva, pos), insn) - rva)
  }

  /** The branch has a known destination, and it is in the buffer. */
  predicate LeadsInside(buf: seq<byte>, rva: int, pos: int, insn: Insn) {
    Destination(AddressAt(rva, pos), insn) != -1 && TargetOffset(rva, pos, insn) < |buf|
  }

  lemma ForwardStep(decode: Decoder, buf: seq<byte>, rva: int, offset: int, bytes: nat, seen: set<int>)
    requires Sound(decode) && Addressable(buf, rva) && bytes < |buf|
    ensures var pos := Unsigned32(offset + bytes);
            var insn := decode(buf, pos);
            var side := Detour(decode, buf, rva, pos, bytes, seen);
            && 0 <= insn.size
            && Forward(decode, buf, rva, offset, bytes, seen) ==
                 if DoesntReturn(insn) then side
                 else Before(side.reports, Forward(decode, buf, rva, offset, bytes + Advance(insn), side.seen))
  {
    assert FitsBuffer(decode(buf, Unsigned32(offset + bytes)), buf, Unsigned32(offset + bytes));
  }

  function Before(reports: seq<Report>, w: Walk): Walk {
    Walk(reports + w.reports, w.seen)
  }

  lemma BeforeTwice(a: seq<Report>, b: seq<Report>, w: Walk)
    ensures Before(a, Before(b, w)) == Before(a + b, w)
  {
    assert a + (b + w.reports) == (a + b) + w.reports;
  }

  lemma BeforeNothing(a: seq<Report>, seen: set<int>, w: Walk)
    ensures Before(a, Walk([], seen)) == Walk(a, seen) && Before([], w) == w
  {
    assert a + [] == a && [] + w.reports == w.reports;
  }

  /**
   `x86_disasm_forward` with the resolver of x86dis, on any buffer, jump cycles included.  It ends
   because a call is made only for a branch at an address of the buffer not seen before.  It makes
   exactly the walk `Forward`; the count is the number of callbacks, and it is bounded by the
   buffer's length for this call and once more for every address that became seen.
   */
  method DisasmForward(decode: Decoder, buf: seq<byte>, rva: int, offset: int, seen: RvaList)
    returns (count: nat, reports: seq<Report>)
    requires Sound(decode) && Addressable(buf, rva) && 0 <= offset < WORD
    requires seen.Valid()
    modifies seen.Repr
    ensures seen.Valid() && fresh(seen.Repr - old(seen.Repr))
    ensures Forward(decode, buf, rva, offset, 0, old(seen.Seen())) == Walk(reports, seen.Seen())
    ensures count == |reports|
    ensures count <= |buf| * (1 + Unseen(rva, |buf|, old(seen.Seen())) - Unseen(rva, |buf|, seen.Seen()))
    decreases Unseen(rva, |buf|, seen.Seen())
  {
    hide Unseen, InBuffer, RvaList.Valid, RvaList.Seen, Forward, Followed, Before, Sound;
    ghost var start := seen.Seen();
    ghost var walk := Forward(decode, buf, rva, offset, 0, start);
    var bytes, cont := 0, true;
    count, reports := 0, [];
    ghost var own := 0;
    BeforeNothing([], start, walk);
    while cont && bytes < |buf|
      invariant seen.Valid() && fresh(seen.Repr - old(seen.Repr))
      invariant start <= seen.Seen()
      invariant count == |reports|
      invariant walk == Before(reports, if cont then Forward(decode, buf, rva, offset, bytes, seen.Seen())
                                        else Walk([], seen.Seen()))
      invariant 0 <= own <= bytes && own <= |buf|
      invariant Unseen(rva, |buf|, seen.Seen()) <= Unseen(rva, |buf|, start)
      invariant count <= own + |buf| * (Unseen(rva, |buf|, start) - Unseen(rva, |buf|, seen.Seen()))
      decreases |buf| - bytes
    {
      ForwardStep(decode, buf, rva, offset, bytes, seen.Seen());
      var pos := Unsigned32(offset + bytes);
      var insn := decode(buf, pos);
      DecoderFits(decode, buf, pos);
      ghost var done, at, was := reports, bytes, seen.Seen();
      if insn.size > 0 {
        reports := reports + [Report(pos, insn.size)];
        bytes := bytes + insn.size;
        count := count + 1;
        own := own + 1;
      } else {
        bytes := bytes + 1;
      }
      ghost var side := Own(pos, insn);
      if Follows(insn) {
        ghost var before := Unseen(rva, |buf|, seen.Seen());
        var n, more := Branch(decode, buf, rva, pos, insn, seen);
        SplitProduct(|buf|, Unseen(rva, |buf|, start), before, Unseen(rva, |buf|, seen.Seen()));
        count := count + n;
        reports := reports + more;
        side := side + more;
      }
      assert Detour(decode, buf, rva, pos, at, was) == Walk(side, seen.Seen());
      assert reports == done + side;
      if DoesntReturn(insn) {
        cont := false;
        BeforeNothing(side, seen.Seen(), walk);
        BeforeTwice(done, side, Walk([], seen.Seen()));
      } else {
        BeforeTwice(done, side, Forward(decode, buf, rva, offset, bytes, seen.Seen()));
      }
    }
    ForwardDone(decode, buf, rva, offset, bytes, seen.Seen());
    BeforeNothing(reports, seen.Seen(), walk);
    CountBound(count, own, |buf|, Unseen(rva, |buf|, start), Unseen(rva, |buf|, seen.Seen()));
  }

  lemma ForwardDone(decode: Decoder, buf: seq<byte>, rva: int, offset: int, bytes: nat, seen: set<int>)
    requires Sound(decode) && Addressable(buf, rva)
    ensures bytes >= |buf| ==> Forward(decode, buf, rva, offset, bytes, seen) == Walk([], seen)
  {
  }

  lemma DecoderFits(decode: Decoder, buf: seq<byte>, pos: int)
    requires Sound(decode)
    ensures FitsBuffer(decode(buf, pos), buf, pos)
  {
  }

  lemma SplitProduct(len: int, a: int, b: int, c: int)
    ensures len * (a - b) + len * (b - c) == len * (a - c)
  {
  }

  lemma CountBound(count: int, own: int, len: int, u: int, v: int)
    requires own <= len && count <= own + len * (u - v)
    ensures count <= len * (1 + u - v)
  {
    assert len * (1 + u - v) == len + len * (u - v);
  }

  /** Follows one branch: nothing if it was seen before or leads out of the buffer. */
  method Branch(decode: Decoder, buf: seq<byte>, rva: int, pos: int, insn: Insn, seen: RvaList)
    returns (count: nat, reports: seq<Report>)
    requires Sound(decode) && Addressable(buf, rva) && 0 <= pos < |buf|
    requires seen.Valid()
    modifies seen.Repr
    ensures seen.Valid() && fresh(seen.Repr - old(seen.Repr))
    ensures Followed(decode, buf, rva, pos, insn, old(seen.Seen())) == Walk(reports, seen.Seen())
    ensures count == |reports|
    ensures Unseen(rva, |buf|, seen.Seen()) <= Unseen(rva, |buf|, old(seen.Seen()))
    ensures count <= |buf| * (Unseen(rva, |buf|, old(seen.Seen())) - Unseen(rva, |buf|, seen.Seen()))
    decreases Unseen(rva, |buf|, seen.Seen()), 0
  {
    hide Unseen, InBuffer, RvaList.Valid, RvaList.Seen, Forward, Destination, Sound, AddressAt;
    count, reports := 0, [];
    ghost var before, u0 := seen.Seen(), Unseen(rva, |buf|, seen.Seen());
    AddressInRange(rva, pos);
    var addr := AddressAt(rva, pos);
    var next := Resolve(seen, addr, insn);
    ghost var after, u1 := seen.Seen(), Unseen(rva, |buf|, seen.Seen());
    InBufferHas(rva, |buf|, pos);
    UnseenShrinks(rva, |buf|, before, after, addr);
    Scale(|buf|, u1, u0, u1);
    assert addr in before ==> after == before;
    if next != -1 {
      assert u1 < u0;
      var nextOffset := Unsigned32(next - rva);
      if nextOffset < |buf| {
        count, reports := DisasmForward(decode, buf, rva, nextOffset, seen);
        Scale(|buf|, 1 + u1, u0, Unseen(rva, |buf|, seen.Seen()));
        UnseenShrinks(rva, |buf|, after, seen.Seen(), addr);
      }
    }
  }

  lemma AddressInRange(rva: int, pos: int)
    ensures 0 <= AddressAt(rva, pos) < WORD
  {
  }

  lemma Scale(len: nat, a: int, b: int, c: int)
    requires a <= b
    ensures len * (a - c) <= len * (b - c)
  {
  }

  // ---- what a walk covers -----------------------------------------------------------------

  /** Every report is an instruction the decoder finds there, and lies inside the buffer. */
  ghost predicate Genuine(decode: Decoder, buf: seq<byte>, reports: seq<Report>) {
    forall i :: 0 <= i < |reports| ==> GenuineReport(decode, buf, reports[i])
  }

  ghost predicate GenuineReport(decode: Decoder, buf: seq<byte>, r: Report) {
    && 0 < r.size && 0 <= r.offset && r.offset + r.size <= |buf|
    && decode(buf, r.offset).size == r.size
  }

  function Offsets(reports: seq<Report>): set<int> {
    set x | x in reports :: x.offset
  }

  /** The first offset from `p` on at which something decodes, or the end of the buffer. */
  function NextDecodable(decode: Decoder, buf: seq<byte>, p: int): (q: int)
    requires p <= |buf|
    ensures p <= q <= |buf| && (q < |buf| ==> decode(buf, q).size > 0)
    decreases |buf| - p
  {
    if p == |buf| || decode(buf, p).size > 0 then p else NextDecodable(decode, buf, p + 1)
  }

  /** The first instruction from `p` on is reported. */
  ghost predicate ReportedFrom(decode: Decoder, buf: seq<byte>, p: int, reports: seq<Report>) {
    p <= |buf| && NextDecodable(decode, buf, p) < |buf| ==> NextDecodable(decode, buf, p) in Offsets(reports)
  }

  /** If the branch at `pos` leads into the buffer, the first instruction from there on is reported. */
  ghost predicate TargetReported(decode: Decoder, buf: seq<byte>, rva: int, pos: int, reports: seq<Report>) {
    var insn := decode(buf, pos);
    LeadsInside(buf, rva, pos, insn) ==> ReportedFrom(decode, buf, TargetOffset(rva, pos, insn), reports)
  }

  /** The first instruction from the one control falls through to on is reported. */
  ghost predicate NextReported(decode: Decoder, buf: seq<byte>, x: Report, reports: seq<Report>) {
    !DoesntReturn(decode(buf, x.offset)) ==> ReportedFrom(decode, buf, x.offset + x.size, reports)
  }

  /**
   The walk, started with the addresses `seen`, reports instructions of the buffer only, has seen
   every branch it reports, and has reported the target of every branch it saw for the first time.
   As long as an offset plus a byte count cannot wrap around, it also reports whatever control
   falls through to.
   */
  ghost predicate Covers(decode: Decoder, buf: seq<byte>, rva: int, seen: set<int>, w: Walk) {
    && Genuine(decode, buf, w.reports)
    && (forall x :: x in w.reports && Follows(decode(buf, x.offset)) ==> AddressAt(rva, x.offset) in w.seen)
    && (forall pos :: 0 <= pos < |buf| && AddressAt(rva, pos) in w.seen && AddressAt(rva, pos) !in seen ==>
          TargetReported(decode, buf, rva, pos, w.reports))
    && (2 * |buf| <= WORD ==> forall x :: x in w.reports ==> NextReported(decode, buf, x, w.reports))
  }

  lemma OffsetsJoin(a: seq<Report>, b: seq<Report>)
    ensures Offsets(a + b) == Offsets(a) + Offsets(b)
  {
    forall o | o in Offsets(a) + Offsets(b) ensures o in Offsets(a + b) {
      var x :| (x in a || x in b) && x.offset == o;
      assert x in a + b;
    }
  }

  lemma CoversJoin(decode: Decoder, buf: seq<byte>, rva: int, seen: set<int>, v: Walk, w: Walk)
    requires Covers(decode, buf, rva, seen, v) && Covers(decode, buf, rva, v.seen, w) && v.seen <= w.seen
    ensures Covers(decode, buf, rva, seen, Before(v.reports, w))
  {
    hide GenuineReport, Follows, DoesntReturn, LeadsInside, TargetOffset, AddressAt, Offsets;
    OffsetsJoin(v.reports, w.reports);
  }

  /** One more instruction in front, whose branch is seen and whose successor is reported. */
  lemma CoversOwn(decode: Decoder, buf: seq<byte>, rva: int, seen: set<int>, pos: int, w: Walk)
    requires Sound(decode) && Covers(decode, buf, rva, seen, w)
    requires Follows(decode(buf, pos)) ==> AddressAt(rva, pos) in w.seen
    requires 2 * |buf| <= WORD && decode(buf, pos).size > 0 ==>
               NextReported(decode, buf, Report(pos, decode(buf, pos).size), w.reports)
    ensures Covers(decode, buf, rva, seen, Before(Own(pos, decode(buf, pos)), w))
  {
    DecoderFits(decode, buf, pos);
    hide Follows, DoesntReturn, LeadsInside, TargetOffset, AddressAt, Offsets, Sound;
    OffsetsJoin(Own(pos, decode(buf, pos)), w.reports);
  }

  lemma AddressInjective(rva: int, len: int, p: int, q: int)
    requires 0 <= p < len <= WORD && 0 <= q < len && AddressAt(rva, p) == AddressAt(rva, q)
    ensures p == q
  {
  }

  /** The walk starts with the first instruction from where it is asked to start. */
  lemma {:induction false} StartsThere(decode: Decoder, buf: seq<byte>, rva: int, offset: int, bytes: nat,
                                       seen: set<int>)
    requires Sound(decode) && Addressable(buf, rva) && 0 <= offset < |buf| && offset + bytes <= |buf|
    ensures ReportedFrom(decode, buf, offset + bytes, Forward(decode, buf, rva, offset, bytes, seen).reports)
    decreases |buf| - bytes
  {
    hide Sound, Followed, Offsets;
    var pos := offset + bytes;
    if pos < |buf| {
      assert Unsigned32(pos) == pos;
      ForwardStep(decode, buf, rva, offset, bytes, seen);
      DecoderFits(decode, buf, pos);
      var insn := decode(buf, pos);
      var w := Forward(decode, buf, rva, offset, bytes, seen);
      if insn.size > 0 {
        assert w.reports[0] == Report(pos, insn.size);
        FirstOffset(w.reports);
      } else {
        StartsThere(decode, buf, rva, offset, bytes + 1, seen);
        BeforeNothing([], seen, Forward(decode, buf, rva, offset, bytes + 1, seen));
      }
    }
  }

  lemma FirstOffset(reports: seq<Report>)
    requires reports != []
    ensures reports[0].offset in Offsets(reports)
  {
    assert reports[0] in reports;
  }

  lemma {:induction false} FollowedCovers(decode: Decoder, buf: seq<byte>, rva: int, pos: int, seen: set<int>)
    requires Sound(decode) && Addressable(buf, rva) && 0 <= pos < |buf|
    ensures Covers(decode, buf, rva, seen, Followed(decode, buf, rva, pos, decode(buf, pos), seen))
    decreases Unseen(rva, |buf|, seen), 0
  {
    hide Covers, Forward, Sound, Destination, AddressAt, TargetOffset;
    var insn, addr := decode(buf, pos), AddressAt(rva, pos);
    var w := Followed(decode, buf, rva, pos, insn, seen);
    if addr in seen {
      NothingCovers(decode, buf, rva, seen);
    } else {
      var after := seen + {addr};
      InBufferHas(rva, |buf|, pos);
      UnseenShrinks(rva, |buf|, seen, after, addr);
      if LeadsInside(buf, rva, pos, insn) {
        TargetInside(buf, rva, pos, insn);
        ForwardCovers(decode, buf, rva, TargetOffset(rva, pos, insn), 0, after);
        StartsThere(decode, buf, rva, TargetOffset(rva, pos, insn), 0, after);
      } else {
        NothingCovers(decode, buf, rva, after);
      }
      NewlySeen(decode, buf, rva, pos, seen, w);
    }
  }

  lemma TargetInside(buf: seq<byte>, rva: int, pos: int, insn: Insn)
    requires Addressable(buf, rva) && LeadsInside(buf, rva, pos, insn)
    ensures 0 <= TargetOffset(rva, pos, insn) < |buf|
    ensures Unsigned32(TargetOffset(rva, pos, insn) + 0) == TargetOffset(rva, pos, insn)
  {
  }

  /** The address just seen belongs to one position only. */
  lemma NewlySeen(decode: Decoder, buf: seq<byte>, rva: int, pos: int, seen: set<int>, w: Walk)
    requires Addressable(buf, rva) && 0 <= pos < |buf|
    requires Covers(decode, buf, rva, seen + {AddressAt(rva, pos)}, w)
    requires TargetReported(decode, buf, rva, pos, w.reports)
    ensures Covers(decode, buf, rva, seen, w)
  {
    hide TargetReported, NextReported, Genuine, Follows;
    forall p | 0 <= p < |buf| && AddressAt(rva, p) in w.seen && AddressAt(rva, p) !in seen
      ensures TargetReported(decode, buf, rva, p, w.reports)
    {
      if AddressAt(rva, p) == AddressAt(rva, pos) {
        AddressInjective(rva, |buf|, p, pos);
      }
    }
  }

  /** Every walk covers: one step of control from a report leads to a report. */
  lemma {:induction false} ForwardCovers(decode: Decoder, buf: seq<byte>, rva: int, offset: int,
                                         bytes: nat, seen: set<int>)
    requires Sound(decode) && Addressable(buf, rva) && 0 <= offset < |buf|
    ensures Covers(decode, buf, rva, seen, Forward(decode, buf, rva, offset, bytes, seen))
    decreases Unseen(rva, |buf|, seen), 1, |buf| - bytes
  {
    hide Covers, Sound, Forward, Followed, NextReported, Unsigned32, AddressAt, Offsets, Before;
    NothingCovers(decode, buf, rva, seen);
    if bytes >= |buf| {
      ForwardDone(decode, buf, rva, offset, bytes, seen);
    } else {
      var pos := Unsigned32(offset + bytes);
      var insn := decode(buf, pos);
      DecoderFits(decode, buf, pos);
      ForwardStep(decode, buf, rva, offset, bytes, seen);
      var side := Walk([], seen);
      if Follows(insn) {
        side := Followed(decode, buf, rva, pos, insn, seen);
        FollowedCovers(decode, buf, rva, pos, seen);
      }
      UnseenShrinks(rva, |buf|, seen, side.seen, 0);
      if DoesntReturn(insn) {
        NoSuccessor(decode, buf, pos, side.reports);
        CoversOwn(decode, buf, rva, seen, pos, side);
        BeforeSide(pos, insn, side);
      } else {
        var rest := Forward(decode, buf, rva, offset, bytes + Advance(insn), side.seen);
        ForwardCovers(decode, buf, rva, offset, bytes + Advance(insn), side.seen);
        CoversJoin(decode, buf, rva, seen, side, rest);
        FallsThrough(decode, buf, rva, offset, bytes, side.seen, side.reports);
        BeforeSeen(side.reports, rest);
        CoversOwn(decode, buf, rva, seen, pos, Before(side.reports, rest));
        BeforeTwice(Own(pos, insn), side.reports, rest);
        BeforeSide(pos, insn, side);
      }
    }
  }

  lemma BeforeSeen(reports: seq<Report>, w: Walk)
    ensures Before(reports, w).seen == w.seen
  {
  }

  /** A detour is the instruction and what it leads to. */
  lemma BeforeSide(pos: int, insn: Insn, side: Walk)
    ensures Before(Own(pos, insn), side) == Walk(Own(pos, insn) + side.reports, side.seen)
    ensures Own(pos, insn) + [] == Own(pos, insn)
  {
  }

  lemma NoSuccessor(decode: Decoder, buf: seq<byte>, pos: int, reports: seq<Report>)
    requires DoesntReturn(decode(buf, pos))
    ensures NextReported(decode, buf, Report(pos, decode(buf, pos).size), reports)
  {
  }

  /** While offsets cannot wrap, the walk goes on right behind an instruction. */
  lemma FallsThrough(decode: Decoder, buf: seq<byte>, rva: int, offset: int, bytes: nat,
                     seen: set<int>, more: seq<Report>)
    requires Sound(decode) && Addressable(buf, rva) && 0 <= offset < |buf| && bytes < |buf|
    ensures var pos := Unsigned32(offset + bytes);
            var insn := decode(buf, pos);
            && 0 <= insn.size
            && (2 * |buf| <= WORD && insn.size > 0 ==>
                  NextReported(decode, buf, Report(pos, insn.size),
                               Before(more, Forward(decode, buf, rva, offset, bytes + Advance(insn), seen)).reports))
  {
    hide Sound, Forward;
    var pos := Unsigned32(offset + bytes);
    var insn := decode(buf, pos);
    DecoderFits(decode, buf, pos);
    if 2 * |buf| <= WORD && insn.size > 0 {
      assert pos == offset + bytes;
      StartsThere(decode, buf, rva, offset, bytes + insn.size, seen);
      OffsetsJoin(more, Forward(decode, buf, rva, offset, bytes + insn.size, seen).reports);
    }
  }

  lemma NothingCovers(decode: Decoder, buf: seq<byte>, rva: int, seen: set<int>)
    ensures Covers(decode, buf, rva, seen, Walk([], seen))
  {
  }

  // ---- reachability ------------------------------------------------------------------------

  /** A branch at an address that is not in `seen` leads from one offset to another. */
  predicate BranchesTo(decode: Decoder, buf: seq<byte>, rva: int, seen: set<int>, p: int, q: int) {
    && Follows(decode(buf, p)) && AddressAt(rva, p) !in seen
    && LeadsInside(buf, rva, p, decode(buf, p)) && q == TargetOffset(rva, p, decode(buf, p))
  }

  /** From an offset to the one behind its instruction, one on where nothing decodes, or to where it branches. */
  predicate Step(decode: Decoder, buf: seq<byte>, rva: int, seen: set<int>, p: int, q: int) {
    && 0 <= p < |buf|
    && ((!DoesntReturn(decode(buf, p)) && q == p + Advance(decode(buf, p))) || BranchesTo(decode, buf, rva, seen, p, q))
  }

  /** The offset `q` has the address a branch at offset `p` names; no branch to the last address is followed. */
  predicate Aims(rva: int, p: int, insn: Insn, q: int) {
    (rva + q) % WORD != WORD - 1
    && match insn.target
       case Unknown => false
       case Absolute(a) => (rva + q - a) % WORD == 0
       case Relative(d) => (q - (p + insn.size + d)) % WORD == 0
  }

  /**
   A step of control in terms of the instruction alone.  Behind everything but a jump or a return it goes on
   with the next byte that has not been consumed; a jump or call, conditional or not, also leads to the one
   offset of the buffer it aims at.
   */
  lemma StepCases(decode: Decoder, buf: seq<byte>, rva: int, seen: set<int>, p: int, q: int)
    requires Sound(decode) && Addressable(buf, rva) && 0 <= p < |buf|
    ensures var insn := decode(buf, p);
            Step(decode, buf, rva, seen, p, q) <==>
              || (insn.flow != Jump && insn.flow != Ret && q == p + if insn.size == 0 then 1 else insn.size)
              || (insn.flow in {Jump, CondJump, Call, CondCall} && (rva + p) % WORD !in seen
                  && 0 <= q < |buf| && Aims(rva, p, insn, q))
  {
    hide Sound, LeadsInside, TargetOffset, Aims;
    DecoderFits(decode, buf, p);
    AimIsTarget(buf, rva, p, decode(buf, p), q);
  }

  /** The offset a branch aims at is the one it is followed to, and there is no more than one. */
  lemma AimIsTarget(buf: seq<byte>, rva: int, p: int, insn: Insn, q: int)
    requires Addressable(buf, rva) && 0 <= p < |buf|
    ensures (LeadsInside(buf, rva, p, insn) && q == TargetOffset(rva, p, insn)) <==>
              0 <= q < |buf| && Aims(rva, p, insn, q)
  {
    if 0 <= q < |buf| {
      match insn.target
      case Unknown =>
      case Absolute(a) => FoldedBack(rva, a, q);
      case Relative(d) =>
        Congruent(rva, p, insn.size + d);
        FoldedBack(rva, AddressAt(rva, p) + insn.size + d, q);
        SameResidue(q - (p + insn.size + d), rva + q - (AddressAt(rva, p) + insn.size + d));
    }
  }

  /** Folding an address to 32 signed bits and taking the base off again. */
  lemma FoldedBack(rva: int, a: int, q: int)
    requires 0 <= rva < WORD && 0 <= q < WORD
    ensures q == Unsigned32(Signed32(a) - rva) <==> (rva + q - a) % WORD == 0
    ensures q == Unsigned32(Signed32(a) - rva) ==> (Signed32(a) == -1 <==> (rva + q) % WORD == WORD - 1)
  {
  }

  lemma Congruent(rva: int, p: int, x: int)
    ensures (AddressAt(rva, p) + x - (rva + p + x)) % WORD == 0
  {
  }

  lemma SameResidue(x: int, y: int)
    requires (x - y) % WORD == 0
    ensures x % WORD == 0 <==> y % WORD == 0
  {
    var k := (x - y) / WORD;
    assert x == y + WORD * k;
    MultipleAdded(WORD, y, k);
  }

  /** A relative branch of distance `d` leads `d` bytes beyond where control falls through to. */
  lemma RelativeBranch(buf: seq<byte>, rva: int, p: int, insn: Insn, d: int)
    requires Addressable(buf, rva) && 0 <= p < |buf| && insn.target == Relative(d)
    requires 0 <= p + insn.size + d < |buf| && AddressAt(rva, p + insn.size + d) != WORD - 1
    ensures LeadsInside(buf, rva, p, insn) && TargetOffset(rva, p, insn) == p + insn.size + d
  {
    hide LeadsInside, TargetOffset;
    AimIsTarget(buf, rva, p, insn, p + insn.size + d);
  }

  /** A branch to the address of byte `k` of the buffer leads to offset `k`. */
  lemma AbsoluteBranch(buf: seq<byte>, rva: int, p: int, insn: Insn, k: int)
    requires Addressable(buf, rva) && 0 <= p < |buf| && insn.target == Absolute(AddressAt(rva, k))
    requires 0 <= k < |buf| && AddressAt(rva, k) != WORD - 1
    ensures LeadsInside(buf, rva, p, insn) && TargetOffset(rva, p, insn) == k
  {
    hide LeadsInside, TargetOffset;
    AimIsTarget(buf, rva, p, insn, k);
  }

  /** A branch assembled with distance `d` is followed `d` bytes beyond its end, wherever it stands. */
  lemma BranchLands(isa: D.Isa, flow: D.Insn -> Flow, before: seq<byte>, opcode: seq<byte>, row: Row,
                    prefixes: seq<nat>, d: int, bytes: seq<byte>, rest: seq<byte>, rva: int)
    requires isa.Valid() && opcode != []
    requires row.dest.BranchDistance? && row.src.Unused? && row.aux.Unused? && !row.Invalid() && !row.suffix
    requires D.EncodesNumber(d, D.WidthBytes(row.dest.width, prefixes), true, bytes)
    requires Lookup(isa.tables, opcode + (bytes + rest), 0, []) == OpcodeTables.Found(|opcode|, row, prefixes)
    ensures var buf, p := before + (opcode + (bytes + rest)), |before|;
            var insn, q := LibdisasmDecoder(isa, flow)(buf, p), p + |opcode| + |bytes| + d;
            && insn.size == |opcode| + |bytes| && insn.target == Relative(d)
            && (Addressable(buf, rva) && 0 <= q < |buf| && AddressAt(rva, q) != WORD - 1 ==>
                  LeadsInside(buf, rva, p, insn) && TargetOffset(rva, p, insn) == q)
  {
    hide WellFormed, Lookup, D.Disasm, D.NumberFits, D.Digits, D.WidthBytes, LeadsInside, TargetOffset, AddressAt;
    var o := D.Operands(|bytes|, D.Distance(d), D.NoOperand, D.NoOperand);
    assert bytes + [] + [] + rest == bytes + rest;
    D.InstructionRoundTrip(isa, before, opcode, row, prefixes, o, bytes, [], [], rest, bytes + rest);
    var buf, p := before + (opcode + (bytes + rest)), |before|;
    var insn, q := LibdisasmDecoder(isa, flow)(buf, p), p + |opcode| + |bytes| + d;
    if Addressable(buf, rva) && 0 <= q < |buf| && AddressAt(rva, q) != WORD - 1 {
      RelativeBranch(buf, rva, p, insn, d);
    }
  }

  /** Step after step, from the first offset to the last. */
  ghost predicate Trail(decode: Decoder, buf: seq<byte>, rva: int, seen: set<int>, trail: seq<int>) {
    trail != [] && forall i :: 0 < i < |trail| ==> Step(decode, buf, rva, seen, trail[i - 1], trail[i])
  }

  /** Control gets from one offset to another. */
  ghost predicate Reaches(decode: Decoder, buf: seq<byte>, rva: int, seen: set<int>, from: int, to: int) {
    exists trail :: Trail(decode, buf, rva, seen, trail) && trail[0] == from && trail[|trail| - 1] == to
  }

  lemma ReachesItself(decode: Decoder, buf: seq<byte>, rva: int, seen: set<int>, from: int)
    ensures Reaches(decode, buf, rva, seen, from, from)
  {
    assert Trail(decode, buf, rva, seen, [from]);
  }

  lemma ReachesOn(decode: Decoder, buf: seq<byte>, rva: int, seen: set<int>, from: int, p: int, q: int)
    requires Reaches(decode, buf, rva, seen, from, p) && Step(decode, buf, rva, seen, p, q)
    ensures Reaches(decode, buf, rva, seen, from, q)
  {
    hide Step;
    var trail :| Trail(decode, buf, rva, seen, trail) && trail[0] == from && trail[|trail| - 1] == p;
    assert Trail(decode, buf, rva, seen, trail + [q]);
  }

  // what is reported is reached

  /** Every report of the walk is at an offset control reaches, if the walk starts at such an offset. */
  ghost predicate AllReached(decode: Decoder, buf: seq<byte>, rva: int, seen: set<int>, from: int,
                             reports: seq<Report>)
  {
    forall x :: x in reports ==> Reaches(decode, buf, rva, seen, from, x.offset)
  }

  lemma {:induction false} FollowedReached(decode: Decoder, buf: seq<byte>, rva: int, pos: int, now: set<int>,
                                           seen: set<int>, from: int)
    requires Sound(decode) && Addressable(buf, rva) && 2 * |buf| <= WORD && 0 <= pos < |buf|
    requires Follows(decode(buf, pos)) && seen <= now && Reaches(decode, buf, rva, seen, from, pos)
    ensures AllReached(decode, buf, rva, seen, from, Followed(decode, buf, rva, pos, decode(buf, pos), now).reports)
    decreases Unseen(rva, |buf|, now), 0
  {
    hide Forward, Sound, Destination, AddressAt, TargetOffset, Reaches;
    var insn, addr := decode(buf, pos), AddressAt(rva, pos);
    if addr !in now && LeadsInside(buf, rva, pos, insn) {
      InBufferHas(rva, |buf|, pos);
      UnseenShrinks(rva, |buf|, now, now + {addr}, addr);
      TargetInside(buf, rva, pos, insn);
      var target := TargetOffset(rva, pos, insn);
      ReachesOn(decode, buf, rva, seen, from, pos, target);
      ForwardReached(decode, buf, rva, target, 0, now + {addr}, seen, from);
    }
  }

  lemma {:induction false} ForwardReached(decode: Decoder, buf: seq<byte>, rva: int, offset: int, bytes: nat,
                                          now: set<int>, seen: set<int>, from: int)
    requires Sound(decode) && Addressable(buf, rva) && 2 * |buf| <= WORD && 0 <= offset < |buf| && seen <= now
    requires offset + bytes < |buf| ==> Reaches(decode, buf, rva, seen, from, offset + bytes)
    ensures AllReached(decode, buf, rva, seen, from, Forward(decode, buf, rva, offset, bytes, now).reports)
    decreases Unseen(rva, |buf|, now), 1, |buf| - bytes
  {
    hide Sound, Forward, Followed, AddressAt, Reaches, BranchesTo, Before;
    if bytes >= |buf| {
      ForwardDone(decode, buf, rva, offset, bytes, now);
    } else {
      var pos := offset + bytes;
      assert Unsigned32(pos) == pos;
      var insn := decode(buf, pos);
      DecoderFits(decode, buf, pos);
      ForwardStep(decode, buf, rva, offset, bytes, now);
      var side := Walk([], now);
      if Follows(insn) {
        side := Followed(decode, buf, rva, pos, insn, now);
        FollowedReached(decode, buf, rva, pos, now, seen, from);
      }
      UnseenShrinks(rva, |buf|, now, side.seen, 0);
      BeforeSide(pos, insn, side);
      if !DoesntReturn(insn) {
        if pos < |buf| {
          ReachesOn(decode, buf, rva, seen, from, pos, pos + Advance(insn));
        }
        ForwardReached(decode, buf, rva, offset, bytes + Advance(insn), side.seen, seen, from);
        BeforeReports(Own(pos, insn) + side.reports,
                      Forward(decode, buf, rva, offset, bytes + Advance(insn), side.seen));
      }
    }
  }

  lemma BeforeReports(reports: seq<Report>, w: Walk)
    ensures Before(reports, w).reports == reports + w.reports
  {
  }

  // what is reached is reported

  /** A set of reports that covers has the first instruction from every offset control reaches on. */
  lemma {:induction false} TrailReported(decode: Decoder, buf: seq<byte>, rva: int, seen: set<int>, w: Walk,
                                         trail: seq<int>, i: nat)
    requires Sound(decode) && 2 * |buf| <= WORD && Covers(decode, buf, rva, seen, w)
    requires Trail(decode, buf, rva, seen, trail) && i < |trail|
    requires ReportedFrom(decode, buf, trail[0], w.reports)
    ensures ReportedFrom(decode, buf, trail[i], w.reports)
    decreases i
  {
    hide Covers, Sound, ReportedFrom, Step;
    if i == 0 {
    } else {
      TrailReported(decode, buf, rva, seen, w, trail, i - 1);
      StepReported(decode, buf, rva, seen, w, trail[i - 1], trail[i]);
    }
  }

  lemma StepReported(decode: Decoder, buf: seq<byte>, rva: int, seen: set<int>, w: Walk, p: int, q: int)
    requires Sound(decode) && 2 * |buf| <= WORD && Covers(decode, buf, rva, seen, w)
    requires Step(decode, buf, rva, seen, p, q) && ReportedFrom(decode, buf, p, w.reports)
    ensures ReportedFrom(decode, buf, q, w.reports)
  {
    hide LeadsInside, TargetOffset, AddressAt;
    DecoderFits(decode, buf, p);
    if decode(buf, p).size > 0 {
      var x :| x in w.reports && x.offset == p;
      var i :| 0 <= i < |w.reports| && w.reports[i] == x;
      assert GenuineReport(decode, buf, w.reports[i]);
      if BranchesTo(decode, buf, rva, seen, p, q) {
        assert TargetReported(decode, buf, rva, p, w.reports);
      } else {
        assert NextReported(decode, buf, x, w.reports);
      }
    }
  }

  /**
   The walk reports exactly what control reaches: an offset is reported if and only if an instruction
   decodes there and a trail of fall-throughs, skipped bytes and branches inside the buffer leads to it,
   none of the branches at an address seen before the walk.
   */
  lemma ReportedIffReached(decode: Decoder, buf: seq<byte>, rva: int, offset: int, seen: set<int>, o: int)
    requires Sound(decode) && Addressable(buf, rva) && 2 * |buf| <= WORD && 0 <= offset < |buf|
    ensures o in Offsets(Forward(decode, buf, rva, offset, 0, seen).reports) <==>
              0 <= o < |buf| && decode(buf, o).size > 0 && Reaches(decode, buf, rva, seen, offset, o)
  {
    var w := Forward(decode, buf, rva, offset, 0, seen);
    if o in Offsets(w.reports) {
      ReportedIsReached(decode, buf, rva, offset, seen, o);
    }
    if 0 <= o < |buf| && decode(buf, o).size > 0 && Reaches(decode, buf, rva, seen, offset, o) {
      ReachableIsReported(decode, buf, rva, offset, seen, o);
    }
  }

  lemma ReportedIsReached(decode: Decoder, buf: seq<byte>, rva: int, offset: int, seen: set<int>, o: int)
    requires Sound(decode) && Addressable(buf, rva) && 2 * |buf| <= WORD && 0 <= offset < |buf|
    requires o in Offsets(Forward(decode, buf, rva, offset, 0, seen).reports)
    ensures 0 <= o < |buf| && decode(buf, o).size > 0 && Reaches(decode, buf, rva, seen, offset, o)
  {
    hide Forward, Reaches;
    var w := Forward(decode, buf, rva, offset, 0, seen);
    ReachesItself(decode, buf, rva, seen, offset);
    ForwardReached(decode, buf, rva, offset, 0, seen, seen, offset);
    ForwardCovers(decode, buf, rva, offset, 0, seen);
    var x :| x in w.reports && x.offset == o;
    var i :| 0 <= i < |w.reports| && w.reports[i] == x;
    assert GenuineReport(decode, buf, w.reports[i]);
  }

  /** Whatever control can reach from the start, by a trail of any length, is reported. */
  lemma ReachableIsReported(decode: Decoder, buf: seq<byte>, rva: int, offset: int, seen: set<int>, o: int)
    requires Sound(decode) && Addressable(buf, rva) && 2 * |buf| <= WORD && 0 <= offset < |buf|
    requires 0 <= o < |buf| && decode(buf, o).size > 0 && Reaches(decode, buf, rva, seen, offset, o)
    ensures o in Offsets(Forward(decode, buf, rva, offset, 0, seen).reports)
  {
    hide Covers, Sound, Forward, Step, Offsets;
    var w := Forward(decode, buf, rva, offset, 0, seen);
    ForwardCovers(decode, buf, rva, offset, 0, seen);
    StartsThere(decode, buf, rva, offset, 0, seen);
    var trail :| Trail(decode, buf, rva, seen, trail) && trail[0] == offset && trail[|trail| - 1] == o;
    TrailReported(decode, buf, rva, seen, w, trail, |trail| - 1);
  }

  /** No branch stands at an address seen before the walk. */
  ghost predicate NoBranchSeen(decode: Decoder, buf: seq<byte>, rva: int, seen: set<int>) {
    forall p :: 0 <= p < |buf| && Follows(decode(buf, p)) ==> AddressAt(rva, p) !in seen
  }

  /** In that case nothing control can reach at all is missed. */
  lemma NothingIsMissed(decode: Decoder, buf: seq<byte>, rva: int, offset: int, seen: set<int>, o: int)
    requires Sound(decode) && Addressable(buf, rva) && 2 * |buf| <= WORD && 0 <= offset < |buf|
    requires NoBranchSeen(decode, buf, rva, seen)
    ensures o in Offsets(Forward(decode, buf, rva, offset, 0, seen).reports) <==>
              0 <= o < |buf| && decode(buf, o).size > 0 && Reaches(decode, buf, rva, {}, offset, o)
  {
    hide Sound, Forward, Offsets, LeadsInside, TargetOffset, AddressAt, Follows, DoesntReturn;
    ReportedIffReached(decode, buf, rva, offset, seen, o);
    forall trail ensures Trail(decode, buf, rva, seen, trail) == Trail(decode, buf, rva, {}, trail) {
      assert forall i :: 0 < i < |trail| ==>
        Step(decode, buf, rva, seen, trail[i - 1], trail[i]) == Step(decode, buf, rva, {}, trail[i - 1], trail[i]);
    }
  }

  /**
   The exception is real: x86dis starts with address 0 seen, so it never follows a branch there, and
   what only that branch leads to is not reported.
   */
  lemma BranchAtZeroIsLost(decode: Decoder, buf: seq<byte>, p: int, q: int)
    requires Step(decode, buf, 0, {}, 0, q) && !Step(decode, buf, 0, {0}, 0, q)
    ensures Follows(decode(buf, 0)) && LeadsInside(buf, 0, 0, decode(buf, 0))
    ensures p != 0 && 0 <= p < |buf| <= WORD ==> (Step(decode, buf, 0, {}, p, q) <==> Step(decode, buf, 0, {0}, p, q))
  {
  }

  /** A jump at address 0 ends the walk at once, wherever it leads. */
  lemma JumpAtZeroIsLost(decode: Decoder, buf: seq<byte>)
    requires Sound(decode) && Addressable(buf, 0) && 0 < |buf|
    requires decode(buf, 0).flow == Jump
    ensures Forward(decode, buf, 0, 0, 0, {0}) == Walk([Report(0, decode(buf, 0).size)], {0})
  {
    DecoderFits(decode, buf, 0);
    hide Sound;
    ForwardStep(decode, buf, 0, 0, 0, {0});
    assert Followed(decode, buf, 0, 0, decode(buf, 0), {0}) == Walk([], {0});
  }
}
