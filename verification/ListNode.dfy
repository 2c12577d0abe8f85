/** Doubly linked nodes, and the link surgery under the list containers (ListNode.cpp). */
module ListNode {
  import opened Objects

  /** What a node contains: an object, or the sentinel of a list's tail node. */
  datatype Item = MaxObject | Val(value: Object)

  /** Node i of a sequence, or null past either end. */
  ghost function NodeAt(ns: seq<ListNode>, i: int): ListNode? {
    if 0 <= i < |ns| then ns[i] else null
  }

  ghost predicate Distinct(ns: seq<ListNode>) {
    forall i, j :: 0 <= i < j < |ns| ==> ns[i] != ns[j]
  }

  ghost function NodeSet(ns: seq<ListNode>): set<ListNode> {
    set n | n in ns
  }

  ghost predicate LinkAt(ns: seq<ListNode>, i: nat)
    requires i < |ns|
    reads ns[i]
  {
    ns[i].prev == NodeAt(ns, i - 1) && ns[i].next == NodeAt(ns, i + 1)
  }

  /** The nodes are linked to each other in this order, both ways, and to nothing else. */
  ghost predicate Linked(ns: seq<ListNode>)
    reads ns
  {
    && Distinct(ns)
    && forall i :: 0 <= i < |ns| ==> LinkAt(ns, i)
  }

  class ListNode {
    const item: Item
    var prev: ListNode?
    var next: ListNode?

    constructor (item: Item)
      ensures this.item == item && prev == null && next == null
    {
      this.item := item;
      prev, next := null, null;
    }

    /** addAfter(): ns are the nodes linked with `node`, which is the i-th. */
    method AddAfter(node: ListNode, ghost ns: seq<ListNode>, ghost i: nat)
      requires Linked(ns) && i < |ns| && ns[i] == node && this !in ns
      modifies {this} + NodeSet(ns)
      ensures Linked(ns[..i + 1] + [this] + ns[i + 1..])
    {
      assert LinkAt(ns, i);
      prev := node;
      next := node.next;
      if node.next != null {
        node.next.prev := this;
      }
      node.next := this;
      ghost var m := ns[..i + 1] + [this] + ns[i + 1..];
      forall k | 0 <= k < |m|
        ensures LinkAt(m, k)
      {
        if k != i + 1 {
          var j := if k <= i then k else k - 1;
          assert old(LinkAt(ns, j)) && m[k] == ns[j];
        }
      }
    }

    /** addBefore() */
    method AddBefore(node: ListNode, ghost ns: seq<ListNode>, ghost i: nat)
      requires Linked(ns) && i < |ns| && ns[i] == node && this !in ns
      modifies {this} + NodeSet(ns)
      ensures Linked(ns[..i] + [this] + ns[i..])
    {
      assert LinkAt(ns, i);
      prev := node.prev;
      next := node;
      if node.prev != null {
        node.prev.next := this;
      }
      node.prev := this;
      ghost var m := ns[..i] + [this] + ns[i..];
      forall k | 0 <= k < |m|
        ensures LinkAt(m, k)
      {
        if k != i {
          var j := if k < i then k else k - 1;
          assert old(LinkAt(ns, j)) && m[k] == ns[j];
        }
      }
    }

    /** remove() */
    method Remove(ghost ns: seq<ListNode>, ghost i: nat)
      requires Linked(ns) && i < |ns| && ns[i] == this
      modifies NodeSet(ns)
      ensures Linked(ns[..i] + ns[i + 1..]) && this !in ns[..i] + ns[i + 1..] && prev == null && next == null
    {
      assert LinkAt(ns, i);
      if prev != null {
        prev.next := next;
      }
      if next != null {
        next.prev := prev;
      }
      next, prev := null, null;
      ghost var m := ns[..i] + ns[i + 1..];
      forall k | 0 <= k < |m|
        ensures LinkAt(m, k)
      {
        var j := if k < i then k else k + 1;
        assert old(LinkAt(ns, j)) && m[k] == ns[j];
      }
    }
  }
}
