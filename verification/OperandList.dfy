/**
 The operand list of an instruction (x86_operand_list.c, ia32_insn.c, ia32_operand.c,
 ia32_implicit.c): a singly linked list with two counters, filled by the explicit operands in
 order and then by the implicit ones.
 */
module OperandList {
  import opened LinkedLists
  import opened Wrappers

  /** The operand data the list operations look at. */
  datatype Op = Op(id: int, isRegister: bool, read: bool, write: bool, execute: bool, implied: bool)

  class Insn {
    var operands: Node?<Op>
    var operandCount: nat
    var explicitCount: int
    ghost var nodes: seq<Node<Op>>
    ghost var Repr: set<object>

    /** The list is linked, its nodes are distinct, and the total count is its length. */
    ghost predicate Valid()
      reads this, Repr
    {
      && this in Repr && (forall n :: n in nodes ==> n in Repr)
      && operands == NodeAt(nodes, 0)
      && LinkedExcept(nodes, |nodes|)
      && Distinct(nodes)
      && operandCount == |nodes|
    }

    /** The operands in list order. */
    ghost function Ops(): (s: seq<Op>)
      reads this, nodes
      ensures |s| == |nodes| && forall i :: 0 <= i < |nodes| ==> s[i] == nodes[i].data
    {
      seq(|nodes|, i requires 0 <= i < |nodes| reads this, nodes => nodes[i].data)
    }

    constructor ()
      ensures Valid() && Ops() == [] && explicitCount == 0 && fresh(Repr)
    {
      operands := null;
      operandCount := 0;
      explicitCount := 0;
      nodes := [];
      Repr := {this};
    }

    /** The walk to the end of the list. */
    method Last() returns (list: Node<Op>)
      requires Valid() && operands != null
      ensures nodes != [] && list == nodes[|nodes| - 1]
    {
      list := operands;
      ghost var k := 0;
      while list.next != null
        invariant 0 <= k < |nodes| && list == nodes[k]
        decreases |nodes| - k
      {
        assert nodes[k].next == NodeAt(nodes, k + 1);
        list := list.next;
        k := k + 1;
      }
      assert nodes[k].next == NodeAt(nodes, k + 1);
    }

    /** `x86_operand_new` and `x86_oplist_append`: a new operand at the end, counted as explicit. */
    method Append(op: Op) returns (node: Node<Op>)
      requires Valid() && (nodes == [] ==> explicitCount == 0)
      modifies Repr
      ensures Valid() && fresh(Repr - old(Repr))
      ensures nodes == old(nodes) + [node] && node in Repr
      ensures Ops() == old(Ops()) + [op]
      ensures explicitCount == old(explicitCount) + 1
    {
      hide Distinct, LinkedExcept;
      node := new Node(op, null);
      if operands == null {
        operandCount := 1;
        explicitCount := 1;
        operands := node;
      } else {
        var list := Last();
        operandCount := operandCount + 1;
        explicitCount := explicitCount + 1;
        Point(list, node);
      }
      Empty();
      LinkedAtEnd(nodes, node);
      nodes := nodes + [node];
      Repr := Repr + {node};
    }

    /** Everything before the last node keeps its links. */
    method Point(list: Node<Op>, node: Node<Op>)
      requires nodes != [] && list == nodes[|nodes| - 1] && node !in nodes
      requires LinkedExcept(nodes, |nodes|) && Distinct(nodes)
      modifies list`next
      ensures list.next == node && LinkedExcept(nodes, |nodes| - 1)
    {
      assert forall i :: 0 <= i < |nodes| - 1 ==> nodes[i] != list;
      list.next := node;
    }

    /** The list holds these operands, the first `explicit` of which are the explicit ones. */
    ghost predicate Holds(ops: seq<Op>, explicit: nat)
      reads this, Repr
    {
      Valid() && Ops() == ops && explicitCount == explicit && explicit <= |ops|
    }

    /** Decodes the explicit operands dest, src and aux, those that are used, in this order. */
    method DecodeExplicit(dest: Option<Op>, src: Option<Op>, aux: Option<Op>)
      requires Holds([], 0)
      modifies Repr
      ensures fresh(Repr - old(Repr))
      ensures Holds(Used(dest) + Used(src) + Used(aux), |Used(dest) + Used(src) + Used(aux)|)
    {
      hide Valid;
      if dest.Some? {
        var _ := Append(dest.value);
      }
      assert Ops() == Used(dest);
      if src.Some? {
        var _ := Append(src.value);
      }
      assert Ops() == Used(dest) + Used(src);
      if aux.Some? {
        var _ := Append(aux.value);
      }
      assert Ops() == Used(dest) + Used(src) + Used(aux);
    }

    /** The first operand that is this register, searched along the list. */
    method Find(id: int) returns (node: Node?<Op>, ghost k: int)
      requires Valid()
      ensures k == FirstRegister(Ops(), id)
      ensures node == NodeAt(nodes, k) && (node != null ==> node in Repr)
    {
      var existing := operands;
      k := 0;
      while existing != null
        invariant 0 <= k <= |nodes| && existing == NodeAt(nodes, k)
        invariant FirstRegister(Ops(), id) == k + FirstRegister(Ops()[k..], id)
        decreases |nodes| - k
      {
        assert Ops()[k..][0] == existing.data;
        assert Ops()[k..][1..] == Ops()[k + 1..];
        if existing.data.isRegister && existing.data.id == id {
          return existing, k;
        }
        assert nodes[k].next == NodeAt(nodes, k + 1);
        existing := existing.next;
        k := k + 1;
      }
      assert Ops()[k..] == [];
      return null, k;
    }

    /**
     One implicit operand: an alias of EAX that the instruction already names is only flagged;
     anything else is appended, and taken out of the explicit count again.
     */
    method AddImplicit(x: Implicit)
      requires Valid() && (nodes == [] ==> explicitCount == 0)
      modifies Repr
      ensures Valid() && fresh(Repr - old(Repr))
      ensures Ops() == WithImplicit(old(Ops()), x)
      ensures explicitCount == old(explicitCount)
    {
      hide Valid, FirstRegister;
      var node: Node?<Op> := null;
      ghost var k := |nodes|;
      if x.aliasesEax {
        node, k := Find(x.id);
      }
      if node == null {
        node := AppendUncounted(Op(x.id, true, false, false, false, false));
      }
      Flag(node, x, k);
    }

    /** A new operand, with the automatic explicit count taken back. */
    method AppendUncounted(op: Op) returns (node: Node<Op>)
      requires Valid() && (nodes == [] ==> explicitCount == 0)
      modifies Repr
      ensures Valid() && fresh(Repr - old(Repr))
      ensures nodes == old(nodes) + [node] && node in Repr
      ensures Ops() == old(Ops()) + [op]
      ensures explicitCount == old(explicitCount)
    {
      node := Append(op);
      explicitCount := explicitCount - 1;
    }

    /** `access |= ...; flags |= op_implied`. */
    method Flag(node: Node<Op>, x: Implicit, ghost k: int)
      requires Valid() && 0 <= k < |nodes| && node == nodes[k]
      modifies node`data
      ensures Valid()
      ensures Ops() == old(Ops())[k := Flagged(old(Ops())[k], x)]
    {
      node.data := Flagged(node.data, x);
    }

    /** All implicit operands of the instruction's row, one after the other. */
    method AddImplicits(xs: seq<Implicit>)
      requires Valid() && (nodes == [] ==> explicitCount == 0)
      modifies Repr
      ensures Valid() && fresh(Repr - old(Repr))
      ensures Ops() == WithImplicits(old(Ops()), xs)
      ensures explicitCount == old(explicitCount)
    {
      hide Valid;
      ghost var start := Ops();
      for i := 0 to |xs|
        invariant Valid() && fresh(Repr - old(Repr))
        invariant WithImplicits(start, xs) == WithImplicits(Ops(), xs[i..])
        invariant explicitCount == old(explicitCount) && (nodes == [] ==> explicitCount == 0)
      {
        assert xs[i..][0] == xs[i] && xs[i..][1..] == xs[i + 1..];
        AddImplicit(xs[i]);
      }
    }

    /** The operands of one instruction: explicit ones first, then the row's implicit ones. */
    method DecodeOperands(dest: Option<Op>, src: Option<Op>, aux: Option<Op>, implicit: seq<Implicit>)
      requires Holds([], 0)
      modifies Repr
      ensures fresh(Repr - old(Repr))
      ensures var explicit := Used(dest) + Used(src) + Used(aux);
              Holds(WithImplicits(explicit, implicit), |explicit|)
    {
      hide Valid;
      DecodeExplicit(dest, src, aux);
      ghost var explicit := Ops();
      AddImplicits(implicit);
      ExplicitFirst(explicit, implicit);
    }

    /** `x86_operand_1st`, `_2nd` and `_3rd`: null when there are fewer explicit operands. */
    method Operand1st() returns (node: Node?<Op>)
      requires Valid() && explicitCount <= |nodes|
      ensures node == if explicitCount == 0 then null else NodeAt(nodes, 0)
    {
      if explicitCount == 0 {
        return null;
      }
      node := operands;
    }

    method Operand2nd() returns (node: Node?<Op>)
      requires Valid() && explicitCount <= |nodes|
      ensures node == if explicitCount < 2 then null else NodeAt(nodes, 1)
    {
      if explicitCount < 2 {
        return null;
      }
      assert nodes[0].next == NodeAt(nodes, 1);
      node := operands.next;
    }

    method Operand3rd() returns (node: Node?<Op>)
      requires Valid() && explicitCount <= |nodes|
      ensures node == if explicitCount < 3 then null else NodeAt(nodes, 2)
    {
      if explicitCount < 3 {
        return null;
      }
      assert nodes[0].next == NodeAt(nodes, 1) && nodes[1].next == NodeAt(nodes, 2);
      node := operands.next.next;
    }

    /** `x86_operand_foreach`: the operands its callback is given, in order. */
    method Foreach(wantExplicit: bool, wantImplicit: bool, access: Access) returns (visited: seq<Op>)
      requires Valid()
      ensures visited == Selected(Ops(), wantExplicit, wantImplicit, access)
    {
      var explicit, implicit := true, true;
      if wantExplicit && !wantImplicit {
        implicit := false;
      }
      if wantImplicit && !wantExplicit {
        explicit := false;
      }
      hide Selected, Grants, Distinct;
      visited := [];
      var list := operands;
      ghost var k, ops := 0, Ops();
      while list != null
        invariant 0 <= k <= |nodes| && list == NodeAt(nodes, k)
        invariant Selected(ops, wantExplicit, wantImplicit, access)
               == visited + Selected(ops[k..], wantExplicit, wantImplicit, access)
        decreases |nodes| - k
      {
        SelectedStep(visited, ops, k, wantExplicit, wantImplicit, access);
        assert nodes[k].next == NodeAt(nodes, k + 1);
        var op := list.data;
        var skip := (!implicit && op.implied) || (!explicit && !op.implied) || !Grants(op, access);
        if !skip {
          visited := visited + [op];
        }
        list := list.next;
        k := k + 1;
      }
      SelectedNone(wantExplicit, wantImplicit, access);
      assert ops[k..] == [];
    }
  }

  lemma SelectedStep(v: seq<Op>, ops: seq<Op>, k: nat, wantExplicit: bool, wantImplicit: bool, access: Access)
    requires k < |ops|
    ensures v + Selected(ops[k..], wantExplicit, wantImplicit, access)
         == (if Wanted(ops[k], wantExplicit, wantImplicit, access) then v + [ops[k]] else v)
            + Selected(ops[k + 1..], wantExplicit, wantImplicit, access)
  {
    assert ops[k..][0] == ops[k] && ops[k..][1..] == ops[k + 1..];
  }

  lemma SelectedNone(wantExplicit: bool, wantImplicit: bool, access: Access)
    ensures Selected([], wantExplicit, wantImplicit, access) == []
  {
  }

  datatype Access = AnyAccess | Dest | Src | ReadOnly | WriteOnly | Executed | ReadWrite

  predicate Grants(op: Op, access: Access) {
    match access
    case AnyAccess => true
    case Dest => op.write
    case Src => op.read
    case ReadOnly => op.read && !op.write
    case WriteOnly => op.write && !op.read
    case Executed => op.execute
    case ReadWrite => op.write && op.read
  }

  /** Asking for explicit and implicit operands together, or for neither, restricts nothing. */
  predicate Wanted(op: Op, wantExplicit: bool, wantImplicit: bool, access: Access) {
    && (wantExplicit && !wantImplicit ==> !op.implied)
    && (wantImplicit && !wantExplicit ==> op.implied)
    && Grants(op, access)
  }

  function Selected(ops: seq<Op>, wantExplicit: bool, wantImplicit: bool, access: Access): seq<Op> {
    if ops == [] then []
    else
      (if Wanted(ops[0], wantExplicit, wantImplicit, access) then [ops[0]] else [])
      + Selected(ops[1..], wantExplicit, wantImplicit, access)
  }

  /** An implicit operand of a row: its register, whether that register is EAX or part of it, its access. */
  datatype Implicit = Implicit(id: int, aliasesEax: bool, read: bool, write: bool)

  function Used(o: Option<Op>): seq<Op> {
    if o.Some? then [o.value] else []
  }

  function FirstRegister(ops: seq<Op>, id: int): (k: nat)
    ensures k <= |ops|
  {
    if ops == [] || (ops[0].isRegister && ops[0].id == id) then 0 else 1 + FirstRegister(ops[1..], id)
  }

  function Flagged(op: Op, x: Implicit): Op {
    op.(read := op.read || x.read, write := op.write || x.write, implied := true)
  }

  function WithImplicit(ops: seq<Op>, x: Implicit): seq<Op> {
    var k := if x.aliasesEax then FirstRegister(ops, x.id) else |ops|;
    if k < |ops| then ops[k := Flagged(ops[k], x)]
    else ops + [Flagged(Op(x.id, true, false, false, false, false), x)]
  }

  function WithImplicits(ops: seq<Op>, xs: seq<Implicit>): seq<Op>
    decreases |xs|
  {
    if xs == [] then ops else WithImplicits(WithImplicit(ops, xs[0]), xs[1..])
  }

  // ---- what the counters and accessors mean ---------------------------------------------

  /** The operand is the one that was decoded, perhaps with more access and flagged as implied. */
  predicate Extends(op: Op, was: Op) {
    && op.id == was.id && op.isRegister == was.isRegister && op.execute == was.execute
    && (was.read ==> op.read) && (was.write ==> op.write) && (was.implied ==> op.implied)
  }

  /** Every explicit operand keeps its place in front, and everything behind them is implied. */
  ghost predicate InFront(explicit: seq<Op>, ops: seq<Op>) {
    && |explicit| <= |ops|
    && (forall i :: 0 <= i < |explicit| ==> Extends(ops[i], explicit[i]))
    && (forall i :: |explicit| <= i < |ops| ==> ops[i].implied)
  }

  lemma {:induction false} StaysInFront(explicit: seq<Op>, ops: seq<Op>, xs: seq<Implicit>)
    requires InFront(explicit, ops)
    ensures InFront(explicit, WithImplicits(ops, xs))
    decreases |xs|
  {
    if xs == [] {
    } else {
      StaysInFront(explicit, WithImplicit(ops, xs[0]), xs[1..]);
    }
  }

  /** After decoding, the first `explicitCount` operands are dest, src and aux in this order. */
  lemma ExplicitFirst(explicit: seq<Op>, xs: seq<Implicit>)
    ensures InFront(explicit, WithImplicits(explicit, xs))
  {
    StaysInFront(explicit, explicit, xs);
  }

  /** The operand of the list for an implicit register of its own. */
  function OwnOperand(x: Implicit): Op {
    Op(x.id, true, x.read, x.write, false, true)
  }

  /** Implicit operands that are not aliases of EAX go behind the others, in their order, with their own access. */
  lemma {:induction false} ImplicitsBehind(ops: seq<Op>, xs: seq<Implicit>)
    requires forall k :: 0 <= k < |xs| ==> !xs[k].aliasesEax
    ensures WithImplicits(ops, xs) == ops + seq(|xs|, k requires 0 <= k < |xs| => OwnOperand(xs[k]))
    decreases |xs|
  {
    if xs == [] {
    } else {
      ImplicitsBehind(WithImplicit(ops, xs[0]), xs[1..]);
      assert WithImplicit(ops, xs[0]) == ops + [OwnOperand(xs[0])];
    }
  }

  /** The list has a flagged operand for this implicit one, with its register and at least its access. */
  ghost predicate Represented(ops: seq<Op>, x: Implicit) {
    exists i :: 0 <= i < |ops| && ops[i].isRegister && ops[i].id == x.id && ops[i].implied
                && (x.read ==> ops[i].read) && (x.write ==> ops[i].write)
  }

  /** Every implicit operand is represented, alias of EAX or not. */
  lemma {:induction false} ImplicitsRepresented(ops: seq<Op>, xs: seq<Implicit>, k: nat)
    requires k < |xs|
    ensures Represented(WithImplicits(ops, xs), xs[k])
    decreases |xs|
  {
    var next := WithImplicit(ops, xs[0]);
    if k == 0 {
      FirstRegisterNames(ops, xs[0].id);
      var i := if xs[0].aliasesEax then FirstRegister(ops, xs[0].id) else |ops|;
      assert next[i].id == xs[0].id && next[i].implied;
      StaysRepresented(next, xs[1..], xs[0]);
    } else {
      ImplicitsRepresented(next, xs[1..], k - 1);
    }
  }

  lemma {:induction false} StaysRepresented(ops: seq<Op>, xs: seq<Implicit>, x: Implicit)
    requires Represented(ops, x)
    ensures Represented(WithImplicits(ops, xs), x)
    decreases |xs|
  {
    if xs == [] {
    } else {
      var i :| 0 <= i < |ops| && ops[i].isRegister && ops[i].id == x.id && ops[i].implied
               && (x.read ==> ops[i].read) && (x.write ==> ops[i].write);
      var next := WithImplicit(ops, xs[0]);
      assert Extends(next[i], ops[i]);
      StaysRepresented(next, xs[1..], x);
    }
  }

  // ---- what a loop over the operands visits ---------------------------------------------

  /** A loop visits the operands of the wanted kind with the wanted access, and no others. */
  lemma {:induction false} VisitsExactly(ops: seq<Op>, wantExplicit: bool, wantImplicit: bool, access: Access, op: Op)
    ensures op in Selected(ops, wantExplicit, wantImplicit, access) <==>
              && op in ops
              && (wantExplicit == wantImplicit || wantImplicit == op.implied)
              && (access in {Dest, WriteOnly, ReadWrite} ==> op.write)
              && (access in {Src, ReadOnly, ReadWrite} ==> op.read)
              && (access == ReadOnly ==> !op.write) && (access == WriteOnly ==> !op.read)
              && (access == Executed ==> op.execute)
  {
    if ops == [] {
    } else {
      VisitsExactly(ops[1..], wantExplicit, wantImplicit, access, op);
      assert ops == [ops[0]] + ops[1..];
    }
  }

  lemma FirstVisit(ops: seq<Op>, wantExplicit: bool, wantImplicit: bool, access: Access)
    requires ops != []
    ensures multiset(Selected(ops, wantExplicit, wantImplicit, access)) ==
              Visit(ops[0], wantExplicit, wantImplicit, access)
              + multiset(Selected(ops[1..], wantExplicit, wantImplicit, access))
  {
    hide Wanted;
  }

  function Visit(op: Op, wantExplicit: bool, wantImplicit: bool, access: Access): multiset<Op> {
    if Wanted(op, wantExplicit, wantImplicit, access) then multiset{op} else multiset{}
  }

  lemma VisitSplits(op: Op, wantExplicit: bool, wantImplicit: bool, all: Access, only: Access)
    requires (all == Src && only == ReadOnly) || (all == Dest && only == WriteOnly)
    ensures Visit(op, wantExplicit, wantImplicit, all) ==
              Visit(op, wantExplicit, wantImplicit, only) + Visit(op, wantExplicit, wantImplicit, ReadWrite)
  {
  }

  lemma SumSplits(a: multiset<Op>, b: multiset<Op>, c: multiset<Op>, x: multiset<Op>, y: multiset<Op>, z: multiset<Op>)
    requires a == b + c && x == y + z
    ensures a + x == (b + y) + (c + z)
  {
  }

  /** What is read is either only read or also written, what is written either only written or also read. */
  lemma {:induction false} AccessSplits(ops: seq<Op>, wantExplicit: bool, wantImplicit: bool, all: Access, only: Access)
    requires (all == Src && only == ReadOnly) || (all == Dest && only == WriteOnly)
    ensures multiset(Selected(ops, wantExplicit, wantImplicit, all)) ==
              multiset(Selected(ops, wantExplicit, wantImplicit, only))
              + multiset(Selected(ops, wantExplicit, wantImplicit, ReadWrite))
  {
    hide Wanted, Visit;
    if ops == [] {
    } else {
      AccessSplits(ops[1..], wantExplicit, wantImplicit, all, only);
      FirstVisit(ops, wantExplicit, wantImplicit, all);
      FirstVisit(ops, wantExplicit, wantImplicit, only);
      FirstVisit(ops, wantExplicit, wantImplicit, ReadWrite);
      VisitSplits(ops[0], wantExplicit, wantImplicit, all, only);
      SumSplits(Visit(ops[0], wantExplicit, wantImplicit, all), Visit(ops[0], wantExplicit, wantImplicit, only),
                Visit(ops[0], wantExplicit, wantImplicit, ReadWrite),
                multiset(Selected(ops[1..], wantExplicit, wantImplicit, all)),
                multiset(Selected(ops[1..], wantExplicit, wantImplicit, only)),
                multiset(Selected(ops[1..], wantExplicit, wantImplicit, ReadWrite)));
    }
  }

  /** The explicit and the implicit operands are all there are. */
  lemma {:induction false} KindsSplit(ops: seq<Op>, access: Access)
    ensures multiset(Selected(ops, true, true, access)) ==
              multiset(Selected(ops, true, false, access)) + multiset(Selected(ops, false, true, access))
  {
    hide Wanted, Visit;
    if ops == [] {
    } else {
      KindsSplit(ops[1..], access);
      FirstVisit(ops, true, true, access);
      FirstVisit(ops, true, false, access);
      FirstVisit(ops, false, true, access);
      KindSplits(ops[0], access);
      SumSplits(Visit(ops[0], true, true, access),
                Visit(ops[0], true, false, access), Visit(ops[0], false, true, access),
                multiset(Selected(ops[1..], true, true, access)), multiset(Selected(ops[1..], true, false, access)),
                multiset(Selected(ops[1..], false, true, access)));
    }
  }

  lemma KindSplits(op: Op, access: Access)
    ensures Visit(op, true, true, access) == Visit(op, true, false, access) + Visit(op, false, true, access)
  {
    hide Grants;
  }

  lemma {:induction false} AllVisited(ops: seq<Op>)
    ensures Selected(ops, true, true, AnyAccess) == ops
  {
    if ops == [] {
    } else {
      AllVisited(ops[1..]);
    }
  }

  /** How many operands a loop over the explicit ones visits. */
  function Unflagged(ops: seq<Op>): nat {
    |Selected(ops, true, false, AnyAccess)|
  }

  lemma {:induction false} UnflaggedSplit(a: seq<Op>, b: seq<Op>)
    ensures Unflagged(a + b) == Unflagged(a) + Unflagged(b)
  {
    if a == [] {
      assert a + b == b;
    } else {
      assert (a + b)[1..] == a[1..] + b;
      UnflaggedSplit(a[1..], b);
    }
  }

  lemma {:induction false} UnflaggedBound(ops: seq<Op>)
    ensures Unflagged(ops) <= |ops|
    ensures Unflagged(ops) == |ops| <==> forall i :: 0 <= i < |ops| ==> !ops[i].implied
    ensures (forall i :: 0 <= i < |ops| ==> ops[i].implied) ==> Unflagged(ops) == 0
  {
    if ops == [] {
    } else {
      UnflaggedBound(ops[1..]);
      assert forall i :: 1 <= i < |ops| ==> ops[i] == ops[1..][i - 1];
    }
  }

  /** The implicit operand is an alias of EAX, and the instruction names that register here. */
  predicate Names(op: Op, x: Implicit) {
    x.aliasesEax && op.isRegister && op.id == x.id
  }

  /** The first operand that names it. */
  predicate NamesFirst(explicit: seq<Op>, i: nat, x: Implicit) {
    x.aliasesEax && FirstRegister(explicit, x.id) == i
  }

  lemma {:induction false} FirstRegisterNames(ops: seq<Op>, id: int)
    ensures var k := FirstRegister(ops, id);
            && (k < |ops| ==> ops[k].isRegister && ops[k].id == id)
            && forall i :: 0 <= i < k ==> !(ops[i].isRegister && ops[i].id == id)
  {
    if ops == [] || (ops[0].isRegister && ops[0].id == id) {
    } else {
      FirstRegisterNames(ops[1..], id);
      assert forall i :: 1 <= i < |ops| ==> ops[i] == ops[1..][i - 1];
    }
  }

  /** The front of `ops` names the same registers as `explicit`. */
  ghost predicate SameRegisters(explicit: seq<Op>, ops: seq<Op>) {
    && |explicit| <= |ops|
    && forall i :: 0 <= i < |explicit| ==>
         ops[i].isRegister == explicit[i].isRegister && ops[i].id == explicit[i].id
  }

  lemma FirstInFront(explicit: seq<Op>, ops: seq<Op>, id: int)
    requires SameRegisters(explicit, ops)
    ensures var k := FirstRegister(explicit, id);
            if k < |explicit| then FirstRegister(ops, id) == k else |explicit| <= FirstRegister(ops, id)
  {
    FirstRegisterNames(explicit, id);
    FirstRegisterNames(ops, id);
  }

  /**
   An explicit operand ends up flagged, read or written exactly when it was, or is the first to name an implicit
   alias of EAX, or one that is read or written.
   */
  lemma {:induction false} ExplicitFlags(explicit: seq<Op>, ops: seq<Op>, xs: seq<Implicit>, i: nat)
    requires SameRegisters(explicit, ops) && i < |explicit|
    ensures |explicit| <= |WithImplicits(ops, xs)|
    ensures var op := WithImplicits(ops, xs)[i];
            && (op.implied <==> ops[i].implied || exists k :: 0 <= k < |xs| && NamesFirst(explicit, i, xs[k]))
            && (op.read <==>
                  ops[i].read || exists k :: 0 <= k < |xs| && NamesFirst(explicit, i, xs[k]) && xs[k].read)
            && (op.write <==>
                  ops[i].write || exists k :: 0 <= k < |xs| && NamesFirst(explicit, i, xs[k]) && xs[k].write)
    decreases |xs|
  {
    if xs == [] {
    } else {
      FirstInFront(explicit, ops, xs[0].id);
      var next := WithImplicit(ops, xs[0]);
      ExplicitFlags(explicit, next, xs[1..], i);
      assert next[i].implied <==> ops[i].implied || NamesFirst(explicit, i, xs[0]);
      assert next[i].read <==> ops[i].read || (NamesFirst(explicit, i, xs[0]) && xs[0].read);
      assert next[i].write <==> ops[i].write || (NamesFirst(explicit, i, xs[0]) && xs[0].write);
      assert forall k :: 1 <= k < |xs| ==> xs[k] == xs[1..][k - 1];
    }
  }

  /** Nothing the instruction lists explicitly is also one of its implicit operands, or was flagged before. */
  ghost predicate KeptApart(explicit: seq<Op>, xs: seq<Implicit>) {
    && (forall i :: 0 <= i < |explicit| ==> !explicit[i].implied)
    && forall i, k :: 0 <= i < |explicit| && 0 <= k < |xs| ==> !Names(explicit[i], xs[k])
  }

  /**
   A loop over the explicit operands makes `explicitCount` callbacks exactly when no explicit operand
   names an implicit alias of EAX; otherwise it makes fewer, although the count includes them all.
   */
  lemma ExplicitLoopCount(explicit: seq<Op>, xs: seq<Implicit>)
    ensures Unflagged(WithImplicits(explicit, xs)) <= |explicit|
    ensures Unflagged(WithImplicits(explicit, xs)) == |explicit| <==> KeptApart(explicit, xs)
  {
    var ops := WithImplicits(explicit, xs);
    FrontCount(explicit, xs);
    forall i | 0 <= i < |explicit|
      ensures ops[i].implied <==>
                explicit[i].implied || exists k :: 0 <= k < |xs| && NamesFirst(explicit, i, xs[k])
    {
      ExplicitFlags(explicit, explicit, xs, i);
    }
    forall k | 0 <= k < |xs|
      ensures forall i :: 0 <= i < |explicit| && NamesFirst(explicit, i, xs[k]) ==> Names(explicit[i], xs[k])
      ensures forall i :: 0 <= i < |explicit| && Names(explicit[i], xs[k]) ==>
                FirstRegister(explicit, xs[k].id) < |explicit|
                && NamesFirst(explicit, FirstRegister(explicit, xs[k].id), xs[k])
    {
      FirstRegisterNames(explicit, xs[k].id);
    }
  }

  /** The loop visits the front operands that are not flagged, and none behind them. */
  lemma FrontCount(explicit: seq<Op>, xs: seq<Implicit>)
    ensures var ops := WithImplicits(explicit, xs);
            && |explicit| <= |ops|
            && Unflagged(ops) <= |explicit|
            && (Unflagged(ops) == |explicit| <==> forall i :: 0 <= i < |explicit| ==> !ops[i].implied)
  {
    var ops := WithImplicits(explicit, xs);
    ExplicitFirst(explicit, xs);
    var n := |explicit|;
    assert ops == ops[..n] + ops[n..];
    UnflaggedSplit(ops[..n], ops[n..]);
    UnflaggedBound(ops[..n]);
    UnflaggedBound(ops[n..]);
    assert forall i :: 0 <= i < n ==> ops[..n][i] == ops[i];
  }

  /** It happens: a loop over the explicit operands of an instruction that also uses its EAX implicitly visits none. */
  lemma EaxIsSkipped(eax: Op, x: Implicit)
    requires eax.isRegister && eax.id == x.id && x.aliasesEax
    ensures !KeptApart([eax], [x]) && Unflagged(WithImplicits([eax], [x])) == 0
  {
    assert Names([eax][0], [x][0]);
    ExplicitLoopCount([eax], [x]);
  }

  lemma Empty()
    ensures LinkedExcept<Op>([], -1)
  {
  }
}
