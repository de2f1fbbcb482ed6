/** Singly linked lists, with the sequence of their nodes as a ghost. */
module LinkedLists {

  class Node<T> {
    var data: T
    var next: Node?<T>

    constructor (data: T, next: Node?<T>)
      ensures this.data == data && this.next == next
    {
      this.data := data;
      this.next := next;
    }
  }

  ghost function NodeAt<T>(nodes: seq<Node<T>>, i: int): Node?<T> {
    if 0 <= i < |nodes| then nodes[i] else null
  }

  /** Every node but the `k`-th points to its successor. */
  ghost predicate LinkedExcept<T>(nodes: seq<Node<T>>, k: int)
    reads nodes
  {
    forall i :: 0 <= i < |nodes| && i != k ==> nodes[i].next == NodeAt(nodes, i + 1)
  }

  ghost predicate Distinct<T>(nodes: seq<Node<T>>) {
    forall i, j :: 0 <= i < j < |nodes| ==> nodes[i] != nodes[j]
  }

  /** A linked list stays one when its last node is pointed at a new end. */
  lemma LinkedAtEnd<T>(s: seq<Node<T>>, x: Node<T>)
    requires LinkedExcept(s, |s| - 1) && Distinct(s) && x !in s && x.next == null
    requires s != [] ==> s[|s| - 1].next == x
    ensures LinkedExcept(s + [x], |s| + 1) && Distinct(s + [x])
  {
    var t := s + [x];
    forall i | 0 <= i < |t|
      ensures t[i].next == NodeAt(t, i + 1)
    {
      assert i < |s| ==> t[i] == s[i];
    }
  }

  /** The list with a node put in behind position `k`. */
  ghost function Inserted<T>(s: seq<Node<T>>, k: int, x: Node<T>): (t: seq<Node<T>>)
    requires 0 <= k < |s|
    ensures |t| == |s| + 1 && t[k + 1] == x
    ensures forall i :: 0 <= i < |s| ==> t[if i <= k then i else i + 1] == s[i]
  {
    seq(|s| + 1, i requires 0 <= i < |s| + 1 => if i <= k then s[i] else if i == k + 1 then x else s[i - 1])
  }

  /** With the new node linked in on both sides, the whole list is linked. */
  lemma Relinked<T>(s: seq<Node<T>>, k: int, x: Node<T>)
    requires 0 <= k < |s| && LinkedExcept(s, k)
    requires s[k].next == x && x.next == NodeAt(s, k + 1)
    ensures LinkedExcept(Inserted(s, k, x), |s| + 1)
    ensures Inserted(s, k, x)[0] == s[0]
    ensures forall m :: m in Inserted(s, k, x) ==> m in s || m == x
  {
    var t := Inserted(s, k, x);
    forall i | 0 <= i < |t|
      ensures t[i].next == NodeAt(t, i + 1)
    {
      if i <= k {
        assert t[i] == s[i] && (i < k ==> t[i + 1] == s[i + 1]);
      } else if i == k + 1 {
        assert k + 1 < |s| ==> t[k + 2] == s[k + 1];
      } else {
        assert t[i] == s[i - 1] && (i < |s| ==> t[i + 1] == s[i]);
      }
    }
  }
}
