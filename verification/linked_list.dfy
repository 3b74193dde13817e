/** The circular doubly linked lists under the kernel's queues, maps and hash buckets: pointer
    surgery on nodes that is splicing of sequences. */
module LinkedList {

  class Node {
    var prev: Node?
    var next: Node?

    constructor ()
      ensures prev == null && next == null
    {
      prev, next := null, null;
    }
  }

  function After(i: nat, n: nat): nat {
    if i + 1 == n then 0 else i + 1
  }

  ghost predicate Linked(a: Node, b: Node)
    reads a, b
  {
    a.next == b && b.prev == a
  }

  /** The nodes form a ring in this order; the first is the list's own node, the others are its
      members. */
  ghost predicate Ring(ns: seq<Node>)
    reads ns
  {
    && ns != []
    && (forall i, j :: 0 <= i < j < |ns| ==> ns[i] != ns[j])
    && (forall i :: 0 <= i < |ns| ==> Linked(ns[i], ns[After(i, |ns|)]))
  }

  method IsEmpty(list: Node, ghost ns: seq<Node>) returns (empty: bool)
    requires Ring(ns) && ns[0] == list
    ensures empty == (ns == [list])
  {
    empty := list.next == list;
    assert Linked(ns[0], ns[After(0, |ns|)]);
  }

  method Init(list: Node)
    modifies list
    ensures Ring([list])
  {
    list.next := list;
    list.prev := list;
  }

  /** A ring with a node more after place `i`. */
  function Spliced(ns: seq<Node>, i: nat, node: Node): seq<Node>
    requires i < |ns|
  {
    ns[..i + 1] + [node] + ns[i + 1..]
  }

  function Without(ns: seq<Node>, i: nat): seq<Node>
    requires i < |ns|
  {
    ns[..i] + ns[i + 1..]
  }

  method AddAfter(prev: Node, node: Node, ghost ns: seq<Node>, ghost i: nat)
    requires Ring(ns) && i < |ns| && ns[i] == prev && node !in ns
    modifies ns, node
    ensures Ring(Spliced(ns, i, node))
  {
    assert Linked(ns[i], ns[After(i, |ns|)]);
    node.prev := prev;
    node.next := prev.next;
    prev.next := node;
    node.next.prev := node;
    ghost var rs := Spliced(ns, i, node);
    forall k | 0 <= k < |rs| ensures Linked(rs[k], rs[After(k, |rs|)]) {
      if k != i && k != i + 1 {
        assert old(Linked(ns[if k < i then k else k - 1], ns[After(if k < i then k else k - 1, |ns|)]));
      }
    }
  }

  /** At the front of the list. */
  method AddHead(list: Node, node: Node, ghost ns: seq<Node>)
    requires Ring(ns) && ns[0] == list && node !in ns
    modifies ns, node
    ensures Ring([list, node] + ns[1..])
  {
    AddAfter(list, node, ns, 0);
    assert Spliced(ns, 0, node) == [list, node] + ns[1..];
  }

  method AddBefore(next: Node, node: Node, ghost ns: seq<Node>, ghost i: nat)
    requires Ring(ns) && i < |ns| && ns[After(i, |ns|)] == next && node !in ns
    modifies ns, node
    ensures Ring(Spliced(ns, i, node))
  {
    assert Linked(ns[i], next);
    AddAfter(next.prev, node, ns, i);
  }

  /** At the end of the list, which is before its own node. */
  method AddTail(list: Node, node: Node, ghost ns: seq<Node>)
    requires Ring(ns) && ns[0] == list && node !in ns
    modifies ns, node
    ensures Ring(ns + [node])
  {
    AddBefore(list, node, ns, |ns| - 1);
    assert Spliced(ns, |ns| - 1, node) == ns + [node];
  }

  /** Takes a node out of whatever list it is in, without knowing the list. */
  method Unlink(node: Node, ghost ns: seq<Node>, ghost i: nat)
    requires Ring(ns) && 0 < i < |ns| && ns[i] == node
    modifies ns
    ensures Ring(Without(ns, i)) && node.next == old(node.next) && node.prev == old(node.prev)
  {
    assert Linked(ns[i], ns[After(i, |ns|)]) && Linked(ns[i - 1], ns[After(i - 1, |ns|)]);
    node.prev.next := node.next;
    node.next.prev := node.prev;
    ghost var rs := Without(ns, i);
    forall k | 0 <= k < |rs| ensures Linked(rs[k], rs[After(k, |rs|)]) {
      if k != i - 1 {
        assert old(Linked(ns[if k < i then k else k + 1], ns[After(if k < i then k else k + 1, |ns|)]));
      }
    }
  }

  method RemoveNode(node: Node, ghost ns: seq<Node>, ghost i: nat)
    requires Ring(ns) && 0 < i < |ns| && ns[i] == node
    modifies ns
    ensures Ring(Without(ns, i)) && node.next == null && node.prev == null
  {
    Unlink(node, ns, i);
    assert node !in Without(ns, i);
    node.next := null;
    node.prev := null;
  }

  /** The first member, if there is one. */
  method RemoveHead(list: Node, ghost ns: seq<Node>) returns (node: Node?)
    requires Ring(ns) && ns[0] == list
    modifies ns
    ensures if ns == [list] then node == null && Ring(ns) else |ns| > 1 && node == ns[1] && Ring([list] + ns[2..])
  {
    var empty := IsEmpty(list, ns);
    if empty {
      return null;
    }
    assert Linked(ns[0], ns[After(0, |ns|)]);
    node := list.next;
    Unlink(node, ns, 1);
    assert Without(ns, 1) == [list] + ns[2..];
  }

  method PeekHead(list: Node, ghost ns: seq<Node>) returns (node: Node?)
    requires Ring(ns) && ns[0] == list
    ensures node == if |ns| > 1 then ns[1] else null
  {
    assert Linked(ns[0], ns[After(0, |ns|)]);
    node := if list.next == list then null else list.next;
  }

  method PeekTail(list: Node, ghost ns: seq<Node>) returns (node: Node?)
    requires Ring(ns) && ns[0] == list
    ensures node == if |ns| > 1 then ns[|ns| - 1] else null
  {
    assert Linked(ns[0], ns[After(0, |ns|)]) && Linked(ns[|ns| - 1], ns[After(|ns| - 1, |ns|)]);
    node := if list.next == list then null else list.prev;
  }

  /** The member after another, and none after the last. */
  method Next(list: Node, node: Node, ghost ns: seq<Node>, ghost i: nat) returns (next: Node?)
    requires Ring(ns) && ns[0] == list && i < |ns| && ns[i] == node
    ensures next == if i + 1 < |ns| then ns[i + 1] else null
  {
    assert Linked(ns[i], ns[After(i, |ns|)]);
    next := if node.next == list then null else node.next;
  }

  /** A pass over the members in order, as the lists' users make it. */
  method Members(list: Node, ghost ns: seq<Node>) returns (members: seq<Node>)
    requires Ring(ns) && ns[0] == list
    ensures members == ns[1..]
  {
    members := [];
    assert Linked(ns[0], ns[After(0, |ns|)]);
    var node := list.next;
    while node != list
      invariant |members| < |ns| && node == ns[After(|members|, |ns|)] && members == ns[1..|members| + 1]
      decreases |ns| - |members|
    {
      assert Linked(ns[After(|members|, |ns|)], ns[After(After(|members|, |ns|), |ns|)]);
      members := members + [node];
      node := node.next;
    }
  }
}
