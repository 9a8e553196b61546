/**
 * The hand-written doubly linked list of service/dll.go: `Node` objects with
 * `prev`/`next` links and a `Dll` holding `head` (front) and `tail` (back).
 *
 * The ghost field `Nodes` is the abstract view of a `Dll`: the nodes from head
 * to tail. `Valid()` ties every link to that sequence, so each method is
 * specified by what it does to `Nodes`.
 */
module LinkedList {

  ghost predicate Distinct<T>(s: seq<T>) {
    forall i, j :: 0 <= i < j < |s| ==> s[i] != s[j]
  }

  /** The position of the first occurrence of `x` in `s`. */
  ghost function IndexOf<T>(s: seq<T>, x: T): (k: nat)
    requires x in s
    ensures k < |s| && s[k] == x && x !in s[..k]
  {
    if s[0] == x then 0 else 1 + IndexOf(s[1..], x)
  }

  /** `s` with the occurrence of `x` cut out and the order of the rest kept. */
  ghost function Excise<T>(s: seq<T>, x: T): (r: seq<T>)
    requires x in s
    requires Distinct(s)
    ensures |r| == |s| - 1 && Distinct(r) && x !in r
    ensures multiset(r) == multiset(s) - multiset{x}
  {
    var k := IndexOf(s, x);
    assert s == s[..k] + [x] + s[k + 1..];
    assert x !in s[k + 1..] by {
      forall j | k + 1 <= j < |s| ensures s[j] != x { assert s[k] == x; }
    }
    s[..k] + s[k + 1..]
  }

  /** Moving the front node to the front gives back the same sequence. */
  lemma ExciseFront<T>(s: seq<T>)
    requires s != [] && Distinct(s)
    ensures [s[0]] + Excise(s, s[0]) == s
  {
    assert IndexOf(s, s[0]) == 0;
  }

  /** Cutting out the back node drops the last element. */
  lemma ExciseBack<T>(s: seq<T>)
    requires s != [] && Distinct(s)
    ensures Excise(s, s[|s| - 1]) == s[..|s| - 1]
  {
    var k := IndexOf(s, s[|s| - 1]);
    assert s[k] == s[|s| - 1];
  }

  /** Moving any node to the front keeps the same nodes, each once. */
  lemma {:induction false} MoveToFrontPermutes<T>(s: seq<T>, x: T)
    requires x in s && Distinct(s)
    ensures multiset([x] + Excise(s, x)) == multiset(s)
  {
    var k := IndexOf(s, x);
    assert s == s[..k] + [x] + s[k + 1..];
    calc {
      multiset(s);
      multiset(s[..k]) + multiset([x]) + multiset(s[k + 1..]);
      multiset([x]) + multiset(s[..k] + s[k + 1..]);
    }
  }

  class Node<V> {
    const key: string
    const value: V
    const expiration: int
    var prev: Node?<V>
    var next: Node?<V>

    constructor (key: string, value: V, expiration: int)
      ensures this.key == key && this.value == value && this.expiration == expiration
      ensures prev == null && next == null
    {
      this.key := key;
      this.value := value;
      this.expiration := expiration;
      prev := null;
      next := null;
    }
  }

  class Dll<V> {
    var head: Node?<V>
    var tail: Node?<V>
    ghost var Nodes: seq<Node<V>>

    /** Head has no prev, tail has no next, and `x.next.prev == x` along the chain. */
    ghost predicate Valid()
      reads this, Nodes
    {
      && (Nodes == [] ==> head == null && tail == null)
      && (Nodes != [] ==> head == Nodes[0] && tail == Nodes[|Nodes| - 1])
      && (Nodes != [] ==> Nodes[0].prev == null && Nodes[|Nodes| - 1].next == null)
      && (forall i :: 0 < i < |Nodes| ==> Nodes[i].prev == Nodes[i - 1])
      && (forall i :: 0 <= i < |Nodes| - 1 ==> Nodes[i].next == Nodes[i + 1])
      && Distinct(Nodes)
    }

    /** NewDll: an empty list. */
    constructor ()
      ensures Valid() && Nodes == [] && head == null && tail == null
    {
      head := null;
      tail := null;
      Nodes := [];
    }

    method MoveToFront(node: Node<V>)
      requires Valid() && node in Nodes
      modifies this, Nodes
      ensures Valid()
      ensures Nodes == [node] + Excise(old(Nodes), node)
      ensures old(head) == node ==> unchanged(this) && forall m :: m in old(Nodes) ==> unchanged(m)
    {
      if head == node {
        return;
      }
      Remove(node);
      PushFront(node);
    }

    method PushFront(node: Node<V>)
      requires Valid() && node !in Nodes
      modifies this, node, Nodes
      ensures Valid()
      ensures Nodes == [node] + old(Nodes)
      ensures node.prev == null && node.next == old(head)
      ensures old(head) == null ==> head == node && tail == node
      ensures old(head) != null ==> tail == old(tail)
    {
      ghost var n := Nodes;
      node.next := head;
      node.prev := null;
      if head != null {
        head.prev := node;
      }
      head := node;
      if tail == null {
        tail := node;
      }
      Nodes := [node] + Nodes;
      forall i | 1 <= i < |Nodes|
        ensures Nodes[i].prev == Nodes[i - 1]
        ensures Nodes[i].next == if i == |Nodes| - 1 then null else Nodes[i + 1]
      {
        assert Nodes[i] == n[i - 1] && n[i - 1] != node;
        assert i > 1 ==> n[i - 1] != n[0];
        assert old(n[i - 1].next) == if i - 1 == |n| - 1 then null else n[i];
      }
    }

    method Remove(node: Node<V>)
      requires Valid() && node in Nodes
      modifies this, Nodes
      ensures Valid()
      ensures Nodes == Excise(old(Nodes), node)
      ensures node.prev == old(node.prev) && node.next == old(node.next)
      ensures head == if old(head) == node then old(node.next) else old(head)
      ensures tail == if old(tail) == node then old(node.prev) else old(tail)
    {
      ghost var n := Nodes;
      ghost var k := IndexOf(Nodes, node);
      assert k > 0 ==> node.prev == n[k - 1] && n[k - 1] in n;
      assert k < |n| - 1 ==> node.next == n[k + 1] && n[k + 1] in n;
      if node.prev != null {
        node.prev.next := node.next;
      } else {
        head := node.next;
      }
      if node.next != null {
        node.next.prev := node.prev;
      } else {
        tail := node.prev;
      }
      Nodes := n[..k] + n[k + 1..];
      forall i | 0 <= i < |Nodes|
        ensures Nodes[i].prev == if i == 0 then null else Nodes[i - 1]
        ensures Nodes[i].next == if i == |Nodes| - 1 then null else Nodes[i + 1]
      {
        if i < k {
          assert Nodes[i] == n[i] && n[i] != node;
          assert k + 1 < |n| ==> n[i] != n[k + 1];
          assert old(n[i].prev) == if i == 0 then null else n[i - 1];
          assert old(n[i].next) == n[i + 1];
        } else {
          assert Nodes[i] == n[i + 1] && n[i + 1] != node;
          assert k > 0 ==> n[i + 1] != n[k - 1];
          assert old(n[i + 1].prev) == n[i];
          assert old(n[i + 1].next) == if i + 1 == |n| - 1 then null else n[i + 2];
        }
      }
    }

    method RemoveLast() returns (node: Node?<V>)
      requires Valid()
      modifies this, Nodes
      ensures Valid()
      ensures old(Nodes) == [] ==> node == null && unchanged(this)
      ensures old(Nodes) != [] ==> node == old(tail) && Nodes == old(Nodes)[..|old(Nodes)| - 1]
    {
      if tail == null {
        return null;
      }
      node := tail;
      ExciseBack(Nodes);
      Remove(node);
    }
  }
}
