/**
 * A circular doubly linked list of nodes, each holding a key (a block
 * compared for equality) and an element. The head pointer marks where the
 * circle "begins" for each operation; head.prev is the last node.
 *
 * The abstract state is the ghost sequence `Nodes`, listed from the head
 * along the `next` links, and `Contents`, the (key, element) pairs of those
 * nodes in the same order.
 */
module Dll {
  import opened Base

  class Node<K, E> {
    var next: Node?<K, E>
    var prev: Node?<K, E>
    const key: K
    const elt: E

    /** A fresh node holding copies of the key and the element, not yet linked. */
    constructor (key: K, elt: E)
      ensures this.key == key && this.elt == elt && next == null && prev == null
    {
      this.key := key;
      this.elt := elt;
      next := null;
      prev := null;
    }
  }

  /** The position of the first pair whose key is `key`, or |c| when there is none. */
  function KeyIndex<K(==), E>(c: seq<(K, E)>, key: K): (i: nat)
    ensures i <= |c|
    ensures i < |c| ==> c[i].0 == key
    ensures forall j :: 0 <= j < i ==> c[j].0 != key
  {
    if c == [] then 0
    else if c[0].0 == key then 0
    else 1 + KeyIndex(c[1..], key)
  }

  /** The position of the first pair whose element compares equal to `elt`, or |c| when there is none. */
  function EltIndex<K, E>(c: seq<(K, E)>, elt: E, cmpElt: (E, E) -> int): (i: nat)
    ensures i <= |c|
    ensures i < |c| ==> cmpElt(c[i].1, elt) == 0
    ensures forall j :: 0 <= j < i ==> cmpElt(c[j].1, elt) != 0
  {
    if c == [] then 0
    else if cmpElt(c[0].1, elt) == 0 then 0
    else 1 + EltIndex(c[1..], elt, cmpElt)
  }

  /** The keys of a sequence of pairs. */
  function Keys<K, E>(c: seq<(K, E)>): (ks: seq<K>)
    ensures |ks| == |c| && forall i :: 0 <= i < |c| ==> ks[i] == c[i].0
  {
    if c == [] then [] else [c[0].0] + Keys(c[1..])
  }

  /** The elements of a sequence of pairs. */
  function Elts<K, E>(c: seq<(K, E)>): (es: seq<E>)
    ensures |es| == |c| && forall i :: 0 <= i < |c| ==> es[i] == c[i].1
  {
    if c == [] then [] else [c[0].1] + Elts(c[1..])
  }

  /** A key is found exactly when it is one of the keys. */
  lemma KeyIndexFound<K, E>(c: seq<(K, E)>, key: K)
    ensures KeyIndex(c, key) < |c| <==> key in Keys(c)
  {
    var i := KeyIndex(c, key);
    if key in Keys(c) {
      var j :| 0 <= j < |c| && Keys(c)[j] == key;
      assert c[j].0 == key;
    }
    if i < |c| {
      assert Keys(c)[i] == key;
    }
  }

  /** The position of a node in a sequence of nodes that holds it. */
  ghost function IndexOf<K, E>(ns: seq<Node<K, E>>, n: Node<K, E>): (i: nat)
    requires n in ns
    ensures i < |ns| && ns[i] == n
  {
    if ns[0] == n then 0 else 1 + IndexOf(ns[1..], n)
  }

  /** Drops position i of a sequence. */
  function RemoveAt<T>(s: seq<T>, i: nat): (r: seq<T>)
    requires i < |s|
    ensures |r| == |s| - 1
    ensures forall j :: 0 <= j < i ==> r[j] == s[j]
    ensures forall j :: i <= j < |r| ==> r[j] == s[j + 1]
  {
    s[..i] + s[i + 1..]
  }

  /** The nodes of a sequence, as objects. */
  ghost function NodeSet<K, E>(ns: seq<Node<K, E>>): set<object>
  {
    set x: object | x in ns
  }

  /** The nodes form a circle in this order: each node's next is the following one and its prev the preceding one. */
  ghost predicate Linked<K, E>(ns: seq<Node<K, E>>)
    reads ns
  {
    (ns != [] ==> ns[|ns| - 1].next == ns[0] && ns[0].prev == ns[|ns| - 1]) &&
    (forall i {:trigger ns[i].next} :: 0 <= i < |ns| - 1 ==> ns[i].next == ns[i + 1]) &&
    (forall i {:trigger ns[i].prev} :: 0 < i < |ns| ==> ns[i].prev == ns[i - 1])
  }

  /** Starting the circle one node later gives the same circle. */
  lemma LinkedRotate<K, E>(ns: seq<Node<K, E>>)
    requires Linked(ns) && Distinct(ns) && ns != []
    ensures Linked(ns[1..] + [ns[0]]) && Distinct(ns[1..] + [ns[0]])
    ensures NodeSet(ns[1..] + [ns[0]]) == NodeSet(ns)
  {
    var ms := ns[1..] + [ns[0]];
    forall i | 0 <= i < |ms| - 1
      ensures ms[i].next == ms[i + 1]
    {
      assert ms[i] == ns[i + 1];
    }
    forall i | 0 < i < |ms|
      ensures ms[i].prev == ms[i - 1]
    {
      if i == |ms| - 1 {
        assert ms[i] == ns[0];
      } else {
        assert ms[i] == ns[i + 1];
      }
    }
    forall x: object | x in ns
      ensures x in ms
    {
      var j :| 0 <= j < |ns| && ns[j] == x;
      if j == 0 { assert ms[|ms| - 1] == x; } else { assert ms[j - 1] == x; }
    }
  }

  /**
   * Once the neighbours of position k point at each other, and every other
   * link is as before, the circle without position k is linked.
   */
  lemma UnlinkedCircle<K, E>(ns: seq<Node<K, E>>, k: nat)
    requires Distinct(ns) && 2 <= |ns| && k < |ns|
    requires forall i :: 0 <= i < |ns| - 1 && i != k && i + 1 != k ==> ns[i].next == ns[i + 1]
    requires forall i :: 0 < i < |ns| && i != k && i - 1 != k ==> ns[i].prev == ns[i - 1]
    requires 0 < k < |ns| - 1 ==> ns[|ns| - 1].next == ns[0] && ns[0].prev == ns[|ns| - 1]
    requires ns[if k == 0 then |ns| - 1 else k - 1].next == ns[if k == |ns| - 1 then 0 else k + 1]
    requires ns[if k == |ns| - 1 then 0 else k + 1].prev == ns[if k == 0 then |ns| - 1 else k - 1]
    ensures Linked(RemoveAt(ns, k))
  {
    var ms, n := RemoveAt(ns, k), |ns|;
    forall i, j | 0 <= i && j == i + 1 && j < n - 1
      ensures ms[i].next == ms[j] && ms[j].prev == ms[i]
    {
      if j == k {
        assert ms[i] == ns[k - 1] && ms[j] == ns[k + 1];
      } else if j < k {
        assert ms[i] == ns[i] && ms[j] == ns[j];
      } else {
        assert ms[i] == ns[i + 1] && ms[j] == ns[j + 1];
      }
    }
    assert ms[n - 2].next == ms[0] && ms[0].prev == ms[n - 2] by {
      if k == 0 {
        assert ms[0] == ns[1] && ms[n - 2] == ns[n - 1];
      } else if k == n - 1 {
        assert ms[0] == ns[0] && ms[n - 2] == ns[n - 2];
      } else {
        assert ms[0] == ns[0] && ms[n - 2] == ns[n - 1];
      }
    }
  }

  /** Dropping a node from a sequence of distinct nodes leaves distinct nodes, and all the others. */
  lemma RemoveAtNodes<K, E>(ns: seq<Node<K, E>>, k: nat)
    requires Distinct(ns) && k < |ns|
    ensures Distinct(RemoveAt(ns, k))
    ensures NodeSet(RemoveAt(ns, k)) == NodeSet(ns) - {ns[k]}
  {
    var ms := RemoveAt(ns, k);
    forall x | x in ns && x != ns[k]
      ensures x in ms
    {
      var j :| 0 <= j < |ns| && ns[j] == x;
      if j < k { assert ms[j] == x; } else { assert ms[j - 1] == x; }
    }
  }

  /** The (key, element) pairs held by a sequence of nodes, in order. */
  ghost function ContentsOf<K, E>(ns: seq<Node<K, E>>): (c: seq<(K, E)>)
    ensures |c| == |ns| && forall i :: 0 <= i < |ns| ==> c[i] == (ns[i].key, ns[i].elt)
  {
    seq(|ns|, i requires 0 <= i < |ns| => (ns[i].key, ns[i].elt))
  }

  /**
   * Links the neighbours of node k of a circle of at least two nodes to each
   * other, which takes the node out of the circle.
   */
  method LinkNeighbours<K, E>(node: Node<K, E>, ghost ns: seq<Node<K, E>>, ghost k: nat)
    requires Linked(ns) && Distinct(ns) && 2 <= |ns| && k < |ns| && ns[k] == node
    modifies node.prev, node.next
    ensures Linked(RemoveAt(ns, k))
    ensures node.next == old(node.next)
  {
    ghost var n := |ns|;
    ghost var pk, nk := if k == 0 then n - 1 else k - 1, if k == n - 1 then 0 else k + 1;
    assert node.prev == ns[pk] && node.next == ns[nk];
    node.next.prev := node.prev;
    node.prev.next := node.next;
    UnlinkedCircle(ns, k);
  }

  /** The links of dll_prepend on a non-empty circle: node goes between the last node and the head. */
  method LinkFront<K, E>(node: Node<K, E>, head: Node<K, E>, ghost ns: seq<Node<K, E>>)
    requires Linked(ns) && Distinct(ns) && ns != [] && head == ns[0] && node !in ns
    modifies node, head, ns[|ns| - 1]
    ensures Linked([node] + ns)
  {
    ghost var n := |ns|;
    assert head.prev == ns[n - 1];
    node.next := head;
    node.prev := head.prev;
    head.prev.next := node;
    head.prev := node;
    ghost var ms := [node] + ns;
    forall i, j | 0 <= i && j == i + 1 && j < |ms|
      ensures ms[i].next == ms[j] && ms[j].prev == ms[i]
    {
      if i > 0 {
        assert ms[i] == ns[i - 1] && ms[j] == ns[i];
        assert ns[i - 1] != ns[n - 1] && ns[i] != ns[0];
      }
    }
  }

  /** A circle cut open at its last node: next links run from ns[0] to the last node, whose next is null. */
  ghost predicate OpenChain<K, E>(ns: seq<Node<K, E>>)
    reads ns
  {
    ns != [] && ns[|ns| - 1].next == null &&
    forall i {:trigger ns[i].next} :: 0 <= i < |ns| - 1 ==> ns[i].next == ns[i + 1]
  }

  /** Setting the last node's next to null cuts a circle open. */
  method CutOpen<K, E>(last: Node<K, E>, ghost ns: seq<Node<K, E>>)
    requires Linked(ns) && Distinct(ns) && ns != [] && last == ns[|ns| - 1]
    modifies last`next
    ensures OpenChain(ns)
  {
    last.next := null;
    forall i | 0 <= i < |ns| - 1
      ensures ns[i].next == ns[i + 1]
    {
      assert ns[i] != last;
    }
  }

  /** Setting the last node's next back to the first node closes the circle again. */
  method CloseUp<K, E>(last: Node<K, E>, head: Node<K, E>, ghost ns: seq<Node<K, E>>)
    requires OpenChain(ns) && Distinct(ns) && last == ns[|ns| - 1] && head == ns[0]
    requires head.prev == last && forall i {:trigger ns[i].prev} :: 0 < i < |ns| ==> ns[i].prev == ns[i - 1]
    modifies last`next
    ensures Linked(ns)
  {
    last.next := head;
    forall i | 0 <= i < |ns| - 1
      ensures ns[i].next == ns[i + 1]
    {
      assert ns[i] != last;
    }
  }

  /** The search loop of dll_search_key on a cut-open circle: the first node with the key, or null. */
  method WalkToKey<K(==), E>(first: Node<K, E>, ghost ns: seq<Node<K, E>>, key: K) returns (node: Node?<K, E>, ghost i: nat)
    requires OpenChain(ns) && first == ns[0]
    ensures i <= |ns| && node == (if i < |ns| then ns[i] else null)
    ensures i < |ns| ==> ns[i].key == key
    ensures forall j :: 0 <= j < i ==> ns[j].key != key
  {
    node, i := first, 0;
    while node != null && node.key != key
      invariant 0 <= i <= |ns|
      invariant node == if i < |ns| then ns[i] else null
      invariant forall j :: 0 <= j < i ==> ns[j].key != key
      decreases |ns| - i
    {
      node := node.next;
      i := i + 1;
    }
  }

  /** The search loop of dll_search_elt on a cut-open circle: the first node whose element compares equal, or null. */
  method WalkToElt<K, E>(first: Node<K, E>, ghost ns: seq<Node<K, E>>, elt: E, cmpElt: (E, E) -> int) returns (node: Node?<K, E>, ghost i: nat)
    requires OpenChain(ns) && first == ns[0]
    ensures i <= |ns| && node == (if i < |ns| then ns[i] else null)
    ensures i < |ns| ==> cmpElt(ns[i].elt, elt) == 0
    ensures forall j :: 0 <= j < i ==> cmpElt(ns[j].elt, elt) != 0
  {
    node, i := first, 0;
    while node != null && cmpElt(node.elt, elt) != 0
      invariant 0 <= i <= |ns|
      invariant node == if i < |ns| then ns[i] else null
      invariant forall j :: 0 <= j < i ==> cmpElt(ns[j].elt, elt) != 0
      decreases |ns| - i
    {
      node := node.next;
      i := i + 1;
    }
  }

  class Dll<K(==), E> {
    var head: Node?<K, E>
    ghost var Nodes: seq<Node<K, E>>
    ghost var Repr: set<object>

    ghost predicate Valid()
      reads this, Repr
    {
      this in Repr &&
      Repr == {this} + NodeSet(Nodes) &&
      Distinct(Nodes) &&
      (head == null <==> Nodes == []) &&
      (Nodes != [] ==> head == Nodes[0]) &&
      Linked(Nodes)
    }

    /** The list's (key, element) pairs from the head along the next links. */
    ghost function Contents(): seq<(K, E)>
      reads this
    {
      ContentsOf(Nodes)
    }

    /** dll_init: the empty list, with a null head. */
    constructor ()
      ensures Valid() && fresh(Repr) && head == null && Nodes == [] && Contents() == []
    {
      head := null;
      Nodes := [];
      Repr := {this};
    }

    /**
     * dll_prepend: links an unlinked node in front of the head (or makes it a
     * one-node circle) and makes it the head.
     */
    method Prepend(node: Node<K, E>)
      requires Valid() && node !in Repr
      modifies Repr, node
      ensures Valid() && Repr == old(Repr) + {node}
      ensures head == node && Nodes == [node] + old(Nodes)
      ensures Contents() == [(node.key, node.elt)] + old(Contents())
      ensures old(head) == null ==> node.next == node && node.prev == node
    {
      ghost var ns := Nodes;
      ghost var n := |ns|;
      assert forall i :: 0 <= i < n ==> ns[i] != node;
      if head == null {
        node.next := node;
        node.prev := node;
      } else {
        LinkFront(node, head, ns);
      }
      head := node;
      Nodes := [node] + Nodes;
      Repr := Repr + {node};
    }

    /** dll_append: prepends, then advances the head, so the node becomes the last one (head.prev). */
    method Append(node: Node<K, E>)
      requires Valid() && node !in Repr
      modifies Repr, node
      ensures Valid() && Repr == old(Repr) + {node}
      ensures Nodes == old(Nodes) + [node]
      ensures Contents() == old(Contents()) + [(node.key, node.elt)]
      ensures head.prev == node
      ensures old(head) != null ==> head == old(head)
    {
      ghost var ns, c0 := Nodes, Contents();
      Prepend(node);
      ghost var c1 := Contents();
      Rotate();
      assert Nodes == ns + [node];
      assert c1[1..] + [c1[0]] == c0 + [(node.key, node.elt)];
    }

    /** Advances the head by one node, which moves the old head to the back of the circle. */
    method Rotate()
      requires Valid() && Nodes != []
      modifies this`head, this`Nodes
      ensures Valid() && Repr == old(Repr)
      ensures Nodes == old(Nodes[1..] + [Nodes[0]])
      ensures Contents() == old(Contents()[1..] + [Contents()[0]])
      ensures head.prev == old(head)
    {
      ghost var ns := Nodes;
      ghost var ms := ns[1..] + [ns[0]];
      LinkedRotate(ns);
      head := head.next;
      Nodes := ms;
    }

    /** dll_prepend_new: a new node with copies of key and elt becomes the head. */
    method PrependNew(key: K, elt: E)
      requires Valid()
      modifies Repr
      ensures Valid() && fresh(Repr - old(Repr))
      ensures Contents() == [(key, elt)] + old(Contents())
      ensures Nodes[1..] == old(Nodes)
    {
      var node := new Node(key, elt);
      Prepend(node);
    }

    /** dll_append_new: a new node with copies of key and elt becomes the last node. */
    method AppendNew(key: K, elt: E)
      requires Valid()
      modifies Repr
      ensures Valid() && fresh(Repr - old(Repr))
      ensures Contents() == old(Contents()) + [(key, elt)]
      ensures Nodes[..|Nodes| - 1] == old(Nodes)
    {
      var node := new Node(key, elt);
      Append(node);
    }

    /**
     * dll_search_key: the first node from the head whose key is `key`, or null.
     * The last node's next link is set to null during the scan as an end
     * marker and restored before returning.
     */
    method SearchKey(key: K) returns (r: Node?<K, E>)
      requires Valid()
      modifies Repr
      ensures Valid() && Repr == old(Repr) && head == old(head)
      ensures Nodes == old(Nodes) && Contents() == old(Contents())
      ensures r == null <==> KeyIndex(Contents(), key) == |Contents()|
      ensures r != null ==> r == Nodes[KeyIndex(Contents(), key)]
    {
      if head == null {
        return null;
      }
      ghost var ns := Nodes;
      var last := head.prev;
      CutOpen(last, ns);
      var node;
      ghost var i;
      node, i := WalkToKey(head, ns, key);
      CloseUp(last, head, ns);
      return node;
    }

    /**
     * dll_search_elt: the first node from the head whose element compares
     * equal to `elt` under `cmpElt`, or null; the same end marker is used.
     */
    method SearchElt(elt: E, cmpElt: (E, E) -> int) returns (r: Node?<K, E>)
      requires Valid()
      modifies Repr
      ensures Valid() && Repr == old(Repr) && head == old(head)
      ensures Nodes == old(Nodes) && Contents() == old(Contents())
      ensures r == null <==> EltIndex(Contents(), elt, cmpElt) == |Contents()|
      ensures r != null ==> r == Nodes[EltIndex(Contents(), elt, cmpElt)]
    {
      if head == null {
        return null;
      }
      ghost var ns := Nodes;
      var last := head.prev;
      CutOpen(last, ns);
      var node;
      ghost var i;
      node, i := WalkToElt(head, ns, elt, cmpElt);
      CloseUp(last, head, ns);
      return node;
    }

    /**
     * dll_search_uq_key: for a list whose keys are all different, the first
     * node from the head with the key, or null. The last node's key serves as
     * the end marker, so the list is only read.
     */
    method SearchUqKey(key: K) returns (r: Node?<K, E>)
      requires Valid() && Distinct(Keys(Contents()))
      ensures r == null <==> KeyIndex(Contents(), key) == |Contents()|
      ensures r != null ==> r == Nodes[KeyIndex(Contents(), key)]
    {
      if head == null {
        return null;
      }
      ghost var n := |Nodes|;
      ghost var ks := Keys(Contents());
      var lastKey := head.prev.key;
      assert ks[n - 1] == lastKey;
      var node := head;
      ghost var i := 0;
      while node.key != lastKey
        invariant 0 <= i < n && node == Nodes[i]
        invariant forall j :: 0 <= j < i ==> Nodes[j].key != key
        decreases n - i
      {
        if node.key == key {
          return node;
        }
        assert i != n - 1;
        node := node.next;
        i := i + 1;
      }
      assert ks[i] == lastKey;
      assert i == n - 1;
      if node.key == key {
        return node;
      }
      return null;
    }

    /**
     * dll_remove: unlinks a node of the list (nothing happens for a null node
     * or an empty list). Removing the head moves the head to its successor;
     * removing the only node leaves an empty list.
     */
    method Remove(node: Node?<K, E>)
      requires Valid() && (node == null || node in Nodes)
      modifies Repr
      ensures Valid()
      ensures node == null ==> Nodes == old(Nodes) && Contents() == old(Contents()) && Repr == old(Repr)
      ensures node != null ==>
                Repr == old(Repr) - {node} &&
                Nodes == RemoveAt(old(Nodes), IndexOf(old(Nodes), node)) &&
                Contents() == RemoveAt(old(Contents()), IndexOf(old(Nodes), node))
      ensures node != null && old(|Nodes|) == 1 ==> head == null
      ensures node != null && node == old(head) && old(|Nodes|) > 1 ==> head == old(node.next)
      ensures node != old(head) ==> head == old(head)
    {
      if head == null || node == null {
        return;
      }
      ghost var ns, n := Nodes, |Nodes|;
      ghost var k := IndexOf(ns, node);
      assert node.prev == ns[if k == 0 then n - 1 else k - 1] && node.next == ns[if k == n - 1 then 0 else k + 1];
      var last := head.prev;
      last.next := null;
      var isSameNode := node.prev.next == null;
      assert isSameNode <==> k == 0;
      if isSameNode && node.next == null {
        last.next := head;
        head := null;
        Nodes := [];
        Repr := {this};
        assert NodeSet(ns) == {node};
      } else {
        last.next := head;
        assert Valid();
        Unlink(node, isSameNode, k);
      }
    }

    /** The two-or-more-node case of dll_remove: the node's neighbours are linked to each other. */
    method Unlink(node: Node<K, E>, isSameNode: bool, ghost k: nat)
      requires Valid() && 2 <= |Nodes| && k < |Nodes| && node == Nodes[k]
      requires isSameNode <==> k == 0
      modifies Repr
      ensures Valid() && Repr == old(Repr) - {node}
      ensures Nodes == RemoveAt(old(Nodes), k)
      ensures Contents() == RemoveAt(old(Contents()), k)
      ensures head == if k == 0 then old(node.next) else old(head)
    {
      ghost var ns, n := Nodes, |Nodes|;
      assert node.prev in ns && node.next in ns by {
        assert node.prev == ns[if k == 0 then n - 1 else k - 1] && node.next == ns[if k == n - 1 then 0 else k + 1];
      }
      RemoveAtNodes(ns, k);
      Nodes := RemoveAt(ns, k);
      Repr := Repr - {node};
      if isSameNode {
        head := node.next;
      }
      assert Contents() == RemoveAt(ContentsOf(ns), k);
      assert this in Repr && Repr == {this} + NodeSet(Nodes) && head != null && head == Nodes[0];
      ghost var nodes, repr, h := Nodes, Repr, head;
      LinkNeighbours(node, ns, k);
      assert Nodes == nodes && Repr == repr && head == h;
    }

    /**
     * dll_delete: removes the node as dll_remove does and frees it; with an
     * element destructor the node's element is handed to it first.
     */
    method Delete(node: Node?<K, E>, hasFreeElt: bool) returns (freed: seq<E>)
      requires Valid() && (node == null || node in Nodes)
      modifies Repr
      ensures Valid()
      ensures node == null ==> Nodes == old(Nodes) && Contents() == old(Contents()) && Repr == old(Repr)
      ensures node != null ==>
                Repr == old(Repr) - {node} &&
                Nodes == RemoveAt(old(Nodes), IndexOf(old(Nodes), node)) &&
                Contents() == RemoveAt(old(Contents()), IndexOf(old(Nodes), node))
      ensures node != null && old(|Nodes|) == 1 ==> head == null
      ensures node != null && node == old(head) && old(|Nodes|) > 1 ==> head == old(node.next)
      ensures node != old(head) ==> head == old(head)
      ensures freed == if hasFreeElt && node != null then [node.elt] else []
    {
      freed := if hasFreeElt && node != null then [node.elt] else [];
      Remove(node);
    }

    /** Follows the next links from the head for k nodes, collecting each node's key and element. */
    method Walk(k: nat) returns (r: seq<(K, E)>)
      requires Valid() && k <= |Nodes|
      ensures r == Contents()[..k]
    {
      r := [];
      var node := head;
      for i := 0 to k
        invariant r == Contents()[..i]
        invariant i < |Nodes| ==> node == Nodes[i]
      {
        r := r + [(node.key, node.elt)];
        node := node.next;
      }
    }

    /**
     * dll_free: breaks the circle after the last node and walks it, handing
     * each element to the destructor (when there is one); the head becomes null.
     */
    method Free(hasFreeElt: bool) returns (freed: seq<E>)
      requires Valid()
      modifies Repr
      ensures head == null
      ensures freed == if hasFreeElt then Elts(old(Contents())) else []
    {
      freed := [];
      var node := head;
      if node != null {
        head.prev.next := null;
      }
      ghost var es := Elts(Contents());
      assert forall j :: 0 <= j < |Nodes| ==> es[j] == Nodes[j].elt;
      ghost var i := 0;
      while node != null
        invariant 0 <= i <= |Nodes|
        invariant node == if i < |Nodes| then Nodes[i] else null
        invariant freed == if hasFreeElt then es[..i] else []
        decreases |Nodes| - i
      {
        var nextNode := node.next;
        if hasFreeElt {
          assert es[..i + 1] == es[..i] + [node.elt];
          freed := freed + [node.elt];
        }
        node := nextNode;
        i := i + 1;
      }
      assert es[..|Nodes|] == es;
      head := null;
    }
  }

  /** The pairs (keys[i], elts[i]) in order. */
  function Pairs<K, E>(keys: seq<K>, elts: seq<E>): (c: seq<(K, E)>)
    requires |keys| == |elts|
    ensures |c| == |keys| && forall i :: 0 <= i < |keys| ==> c[i] == (keys[i], elts[i])
  {
    seq(|keys|, i requires 0 <= i < |keys| => (keys[i], elts[i]))
  }

  lemma PairsSnoc<K, E>(keys: seq<K>, elts: seq<E>, i: nat)
    requires |keys| == |elts| && i < |keys|
    ensures Pairs(keys[..i + 1], elts[..i + 1]) == Pairs(keys[..i], elts[..i]) + [(keys[i], elts[i])]
  {
  }

  /** One more pair, prepended, comes first in the reversed pairs. */
  lemma PrependStep<K, E>(keys: seq<K>, elts: seq<E>, i: nat)
    requires |keys| == |elts| && i < |keys|
    ensures Reverse(Pairs(keys[..i + 1], elts[..i + 1])) == [(keys[i], elts[i])] + Reverse(Pairs(keys[..i], elts[..i]))
  {
    PairsSnoc(keys, elts, i);
    ReverseSnoc(Pairs(keys[..i], elts[..i]), (keys[i], elts[i]));
  }

  /** Appending pairs one by one to an empty list lists them in order from the head. */
  method AppendAll<K(==), E>(keys: seq<K>, elts: seq<E>) returns (appended: seq<(K, E)>)
    requires |keys| == |elts|
    ensures appended == Pairs(keys, elts)
  {
    var l := new Dll<K, E>();
    for i := 0 to |keys|
      invariant l.Valid() && fresh(l.Repr)
      invariant l.Contents() == Pairs(keys[..i], elts[..i])
    {
      l.AppendNew(keys[i], elts[i]);
      PairsSnoc(keys, elts, i);
    }
    appended := l.Walk(|keys|);
    assert keys[..|keys|] == keys && elts[..|elts|] == elts;
  }

  /** Prepending pairs one by one to an empty list lists them in reverse order from the head. */
  method PrependAll<K(==), E>(keys: seq<K>, elts: seq<E>) returns (prepended: seq<(K, E)>)
    requires |keys| == |elts|
    ensures prepended == Reverse(Pairs(keys, elts))
  {
    var l := PrependPairs(keys, elts);
    prepended := l.Walk(|keys|);
  }

  /** The list PrependAll builds: each pair is prepended in turn to an empty list. */
  method PrependPairs<K(==), E>(keys: seq<K>, elts: seq<E>) returns (l: Dll<K, E>)
    requires |keys| == |elts|
    ensures l.Valid() && l.Contents() == Reverse(Pairs(keys, elts))
  {
    l := new Dll<K, E>();
    for i := 0 to |keys|
      invariant l.Valid() && fresh(l.Repr)
      invariant l.Contents() == Reverse(Pairs(keys[..i], elts[..i]))
    {
      PrependStep(keys, elts, i);
      l.PrependNew(keys[i], elts[i]);
    }
    assert keys[..|keys|] == keys && elts[..|elts|] == elts;
  }
}
