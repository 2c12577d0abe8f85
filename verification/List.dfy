/** List: a doubly linked list that ends in a sentinel node, and its merge sort (List.cpp). */
module List {
  import opened Objects
  import opened ListNode
  import opened ListSort

  /** Linked forward from the first node to the sentinel, and back again; the sentinel's own prev may be anything. */
  ghost predicate Chain(ns: seq<ListNode>, back: ListNode)
    reads NodeSet(ns)
  {
    |ns| > 0 && Distinct(ns + [back]) && forall i :: 0 <= i < |ns| ==> LinkAt(ns + [back], i)
  }

  /** How many nodes go to the left half. */
  function LeftSize(n: nat): nat {
    n / 2 + 1
  }

  /** The node that the sentinel points back to after sorting: merging does not reset it. */
  ghost function Rightmost(cmp: Ordering, ns: seq<ListNode>): ListNode
    requires |ns| > 0
    decreases |ns|
  {
    if |ns| <= 16 then
      var s := Insertion(cmp, ns);
      InsertionLength(cmp, ns);
      s[|s| - 1]
    else Rightmost(cmp, ns[LeftSize(|ns|)..])
  }

  /** The nodes that are sorted last, by insertion. */
  ghost function LastPart(ns: seq<ListNode>): (r: seq<ListNode>)
    requires |ns| > 0
    ensures |r| > 0
    decreases |ns|
  {
    if |ns| <= 16 then ns else LastPart(ns[LeftSize(|ns|)..])
  }

  lemma {:induction false} RightmostOfLastPart(cmp: Ordering, ns: seq<ListNode>)
    requires |ns| > 0
    ensures |Insertion(cmp, LastPart(ns))| == |LastPart(ns)|
    ensures Rightmost(cmp, ns) == Insertion(cmp, LastPart(ns))[|LastPart(ns)| - 1]
    decreases |ns|
  {
    hide Insertion;
    InsertionLength(cmp, LastPart(ns));
    if |ns| > 16 {
      RightmostOfLastPart(cmp, ns[LeftSize(|ns|)..]);
    }
  }

  lemma ClassSnoc(cmp: Ordering, ns: seq<ListNode>, key: Object)
    requires ns != [] && ns[|ns| - 1].item.Val? && cmp(ns[|ns| - 1].item.value, key) == 0
    ensures Class(cmp, ns, key) == Class(cmp, ns[..|ns| - 1], key) + [ns[|ns| - 1]]
  {
    hide Class;
    assert ns == ns[..|ns| - 1] + [ns[|ns| - 1]];
    ClassConcat(cmp, ns[..|ns| - 1], [ns[|ns| - 1]], key);
    ClassOne(cmp, ns[|ns| - 1], key);
  }

  lemma ValuesOfSort(cmp: Ordering, ns: seq<ListNode>, ms: seq<ListNode>)
    requires SortOf(cmp, ns, ms)
    ensures |ms| == |ns| && forall n :: n in ns <==> n in ms
  {
    assert forall n :: n in ms <==> n in multiset(ms);
    assert forall n :: n in ns <==> n in multiset(ns);
    assert |multiset(ms)| == |multiset(ns)|;
  }

  /** The node that the sentinel is left pointing to is the last of its equals. */
  lemma RightmostClass(cmp: Ordering, ns: seq<ListNode>)
    requires IsOrdering(cmp) && HasObjects(ns) && |ns| > 0
    ensures var y := Rightmost(cmp, ns);
      && y in ns && y.item.Val?
      && var c := Class(cmp, ns, y.item.value); c != [] && c[|c| - 1] == y
  {
    hide Class, Insertion, SortOf, Rightmost, IsOrdering, LastPart;
    var t := LastPart(ns);
    var s := Insertion(cmp, t);
    var pre := LastPartOf(ns);
    InsertionSorts(cmp, t);
    ValuesOfSort(cmp, t, s);
    RightmostOfLastPart(cmp, ns);
    assert s[|s| - 1] in s;
    LastOfClass(cmp, pre, t, s);
  }

  lemma LastOfClass(cmp: Ordering, pre: seq<ListNode>, t: seq<ListNode>, s: seq<ListNode>)
    requires IsOrdering(cmp) && SortOf(cmp, t, s) && s != [] && s[|s| - 1].item.Val?
    ensures var y := s[|s| - 1];
      var c := Class(cmp, pre + t, y.item.value); c != [] && c[|c| - 1] == y
  {
    hide Class, SortOf;
    var y := s[|s| - 1];
    Equal(cmp, y.item.value);
    ClassSnoc(cmp, s, y.item.value);
    SortClass(cmp, t, s, y.item.value);
    ClassConcat(cmp, pre, t, y.item.value);
  }

  lemma {:induction false} LastPartOf(ns: seq<ListNode>) returns (pre: seq<ListNode>)
    requires |ns| > 0 && HasObjects(ns)
    ensures HasObjects(LastPart(ns)) && ns == pre + LastPart(ns)
    decreases |ns|
  {
    if |ns| <= 16 {
      pre := [];
    } else {
      var k := LeftSize(|ns|);
      pre := LastPartOf(ns[k..]);
      pre := ns[..k] + pre;
    }
  }

  lemma Equal(cmp: Ordering, a: Object)
    requires IsOrdering(cmp)
    ensures cmp(a, a) == 0
  {
    assert cmp(a, a) <= 0 <==> cmp(a, a) >= 0;
  }

  lemma SortClass(cmp: Ordering, ns: seq<ListNode>, ms: seq<ListNode>, key: Object)
    requires SortOf(cmp, ns, ms)
    ensures Class(cmp, ms, key) == Class(cmp, ns, key)
  {}

  /** Some node of the part that is sorted last is not below any node. */
  ghost predicate GreatestIsLast(cmp: Ordering, ns: seq<ListNode>)
    requires |ns| > 0
  {
    exists n :: n in LastPart(ns) && forall m :: m in ns ==> Compare(cmp, m, n) <= 0
  }

  lemma RightmostGreatest(cmp: Ordering, ns: seq<ListNode>)
    requires IsOrdering(cmp) && HasObjects(ns) && |ns| > 0
    ensures var y := Rightmost(cmp, ns);
      y in LastPart(ns) && y.item.Val? && forall n :: n in LastPart(ns) ==> n.item.Val? && Compare(cmp, n, y) <= 0
  {
    hide Class, Insertion, SortOf, Rightmost, IsOrdering, LastPart, Compare;
    var t := LastPart(ns);
    var s := Insertion(cmp, t);
    var _ := LastPartOf(ns);
    InsertionSorts(cmp, t);
    ValuesOfSort(cmp, t, s);
    RightmostOfLastPart(cmp, ns);
    assert s[|s| - 1] in s;
    AllAtMost(cmp, t, s);
  }

  lemma GreatestIff(cmp: Ordering, ns: seq<ListNode>)
    requires IsOrdering(cmp) && HasObjects(ns) && |ns| > 0
    ensures GreatestIsLast(cmp, ns) <==> forall n :: n in ns ==> Compare(cmp, n, Rightmost(cmp, ns)) <= 0
  {
    hide IsOrdering, Compare, Rightmost, LastPart;
    var y := Rightmost(cmp, ns);
    RightmostGreatest(cmp, ns);
    if GreatestIsLast(cmp, ns) {
      var n :| n in LastPart(ns) && forall m :: m in ns ==> Compare(cmp, m, n) <= 0;
      forall m | m in ns
        ensures Compare(cmp, m, y) <= 0
      {
        Transitive(cmp, m, n, y);
      }
    }
  }

  /** With more than 16 nodes, it is not so when the first node is above all others. */
  lemma FirstIsGreatest(cmp: Ordering, ns: seq<ListNode>)
    requires IsOrdering(cmp) && HasObjects(ns) && |ns| > 16
    requires forall i :: 1 <= i < |ns| ==> Compare(cmp, ns[i], ns[0]) < 0
    ensures !GreatestIsLast(cmp, ns)
  {
    hide IsOrdering, Compare, LastPart;
    forall n | n in LastPart(ns)
      ensures Compare(cmp, ns[0], n) > 0
    {
      var i := LastPartIndex(ns, n);
      Flip(cmp, ns[0], n);
    }
  }

  lemma LastPartIndex(ns: seq<ListNode>, n: ListNode) returns (i: nat)
    requires HasObjects(ns) && |ns| > 16 && n in LastPart(ns)
    ensures 1 <= i < |ns| && ns[i] == n
  {
    var k := LeftSize(|ns|);
    var pre := LastPartOf(ns[k..]);
    var j :| 0 <= j < |LastPart(ns)| && LastPart(ns)[j] == n;
    assert (pre + LastPart(ns))[|pre| + j] == n;
    i := k + |pre| + j;
  }

  /**
   * After sorting, the sentinel points back to the last node exactly when the part that was sorted last has an object
   * that is not below any other.
   */
  lemma BackRightIff(cmp: Ordering, ns: seq<ListNode>, ms: seq<ListNode>)
    requires IsOrdering(cmp) && HasObjects(ns) && |ns| > 0 && SortOf(cmp, ns, ms)
    ensures |ms| == |ns|
    ensures ms[|ms| - 1] == Rightmost(cmp, ns) <==> GreatestIsLast(cmp, ns)
  {
    hide Class, Insertion, Rightmost, GreatestIsLast;
    GreatestIff(cmp, ns);
    ValuesOfSort(cmp, ns, ms);
    var y, z := Rightmost(cmp, ns), ms[|ms| - 1];
    RightmostClass(cmp, ns);
    var key := y.item.value;
    Equal(cmp, key);
    assert z in ms && y in ms;
    var i :| 0 <= i < |ms| && ms[i] == y;
    if z == y {
      AllAtMost(cmp, ns, ms);
    }
    if forall n :: n in ns ==> Compare(cmp, n, y) <= 0 {
      assert Compare(cmp, z, y) <= 0 && (i < |ms| - 1 ==> Compare(cmp, y, z) <= 0);
      assert cmp(z.item.value, key) == 0;
      ClassSnoc(cmp, ms, key);
      SortClass(cmp, ns, ms, key);
    }
  }

  lemma AllAtMost(cmp: Ordering, ns: seq<ListNode>, ms: seq<ListNode>)
    requires IsOrdering(cmp) && SortOf(cmp, ns, ms) && ms != []
    ensures forall n :: n in ns ==> Compare(cmp, n, ms[|ms| - 1]) <= 0
  {
    ValuesOfSort(cmp, ns, ms);
    Equal(cmp, ms[|ms| - 1].item.value);
  }

  lemma InsertionLength(cmp: Ordering, ns: seq<ListNode>)
    ensures |Insertion(cmp, ns)| == |ns|
  {
    assert |multiset(Insertion(cmp, ns))| == |multiset(ns)|;
  }

  /** Where the insertion ends up is decided by the comparisons on either side. */
  lemma {:induction false} InsertedAt(cmp: Ordering, s: seq<ListNode>, n: ListNode, i: nat)
    requires i <= |s| && (i > 0 ==> Compare(cmp, n, s[i - 1]) >= 0)
    requires forall q :: i <= q < |s| ==> Compare(cmp, n, s[q]) < 0
    ensures Inserted(cmp, s, n) == s[..i] + [n] + s[i..]
  {
    hide Compare, Inserted;
    if i < |s| {
      var p, l := s[..|s| - 1], s[|s| - 1];
      assert forall q :: 0 <= q < |p| ==> p[q] == s[q];
      InsertedAt(cmp, p, n, i);
      InsertedUnfold(cmp, s, n);
      SpliceSnoc(s, n, i);
    } else {
      InsertedUnfold(cmp, s, n);
      assert s[..i] + [n] + s[i..] == s + [n];
    }
  }

  lemma SpliceSnoc(s: seq<ListNode>, n: ListNode, i: nat)
    requires i < |s|
    ensures var p := s[..|s| - 1]; s[..i] + [n] + s[i..] == (p[..i] + [n] + p[i..]) + [s[|s| - 1]]
  {}

  lemma InsertedUnfold(cmp: Ordering, s: seq<ListNode>, n: ListNode)
    ensures Inserted(cmp, s, n) ==
      if s == [] || Compare(cmp, n, s[|s| - 1]) >= 0 then s + [n] else Inserted(cmp, s[..|s| - 1], n) + [s[|s| - 1]]
  {}

  class List {
    const cmp: Ordering
    const back: ListNode
    var front: ListNode
    var items: nat

    /** The nodes before the sentinel, in order. */
    ghost var nodes: seq<ListNode>

    ghost predicate Valid()
      reads this, nodes, back
    {
      && IsOrdering(cmp) && back.item == MaxObject && HasObjects(nodes)
      && Linked(nodes + [back]) && front == (nodes + [back])[0] && items == |nodes|
    }

    constructor (cmp: Ordering)
      requires IsOrdering(cmp)
      ensures Valid() && nodes == [] && fresh(back) && this.cmp == cmp
    {
      var b := new ListNode(MaxObject);
      this.cmp, back, front, items, nodes := cmp, b, b, 0, [];
      new;
      assert LinkAt([back], 0);
    }

    /** pushFront() */
    method PushFront(v: Object) returns (ln: ListNode)
      requires Valid()
      modifies this, NodeSet(nodes + [back])
      ensures Valid() && fresh(ln) && ln.item == Val(v) && nodes == [ln] + old(nodes)
    {
      hide Linked;
      ln := new ListNode(Val(v));
      ln.AddBefore(front, nodes + [back], 0);
      assert (nodes + [back])[..0] + [ln] + (nodes + [back])[0..] == [ln] + nodes + [back];
      front := ln;
      items := items + 1;
      nodes := [ln] + nodes;
    }

    /** pushBack() */
    method PushBack(v: Object) returns (ln: ListNode)
      requires Valid()
      modifies this, NodeSet(nodes + [back])
      ensures Valid() && fresh(ln) && ln.item == Val(v) && nodes == old(nodes) + [ln]
    {
      hide Linked;
      ln := new ListNode(Val(v));
      FrontIsBack(nodes, back);
      ln.AddBefore(back, nodes + [back], |nodes|);
      assert (nodes + [back])[..|nodes|] + [ln] + (nodes + [back])[|nodes|..] == nodes + [ln] + [back];
      if front == back {
        front := ln;
      }
      items := items + 1;
      nodes := nodes + [ln];
    }

    /** addBefore(): the links are right in every case; the front only if it is not the node that is added before. */
    method AddBefore(v: Object, node: ListNode, ghost k: nat) returns (ln: ListNode)
      requires Valid() && k <= |nodes| && (nodes + [back])[k] == node
      modifies this, NodeSet(nodes + [back])
      ensures fresh(ln) && ln.item == Val(v) && nodes == old(nodes)[..k] + [ln] + old(nodes)[k..]
              && Linked(nodes + [back])
      ensures Valid() <==> k > 0
    {
      hide Linked;
      ln := new ListNode(Val(v));
      ghost var all := nodes + [back];
      if k > 0 {
        SameNode2(all, 0, k);
      }
      ln.AddBefore(node, all, k);
      SplicedIn(nodes, back, ln, k);
      nodes := nodes[..k] + [ln] + nodes[k..];
      if node == front {
        front := node;
      }
      items := items + 1;
    }

    /** removeNode(): that node, and no other. */
    method RemoveNode(node: ListNode, ghost k: nat)
      requires Valid() && k < |nodes| && nodes[k] == node
      modifies this, NodeSet(nodes + [back])
      ensures Valid() && nodes == old(nodes)[..k] + old(nodes)[k + 1..]
    {
      hide Linked;
      ghost var all := nodes + [back];
      LinkOf(all, k);
      var next: ListNode := node.next;
      node.Remove(all, k);
      items := items - 1;
      nodes := nodes[..k] + nodes[k + 1..];
      assert all[..k] + all[k + 1..] == nodes + [back];
      LinkOf(nodes + [back], k);
      if next.prev == null {
        front := next;
      }
    }

    /**
     * moveBefore(): a node other than the sentinel goes before another one, the sentinel included. The links are right
     * in every case; the front is right unless it is the front node itself that moves back.
     */
    method MoveBefore(lhs: ListNode, rhs: ListNode, ghost i: nat, ghost j: nat)
      requires Valid() && i < |nodes| && j <= |nodes| && i != j && nodes[i] == lhs && (nodes + [back])[j] == rhs
      modifies this, NodeSet(nodes + [back])
      ensures nodes == Moved(old(nodes), i, j) && Linked(nodes + [back])
      ensures Valid() <==> i > 0 || j == 1
    {
      hide Linked, HasObjects, Moved;
      ghost var all := nodes + [back];
      LinkOf(all, i);
      if lhs.next == rhs {
        SameNode(all, i + 1, j);
        MovedNext(nodes, i);
        return;
      }
      SameNode2(all, i, j);
      NotFirst(all, i, j);
      MovedNodes(nodes, back, i, j);
      lhs.Remove(all, i);
      lhs.AddBefore(rhs, all[..i] + all[i + 1..], if i < j then j - 1 else j);
      nodes := Moved(nodes, i, j);
      if rhs == front {
        front := lhs;
      }
    }

    /** sort(), by merging. */
    method Sort()
      requires Valid() && nodes != []
      modifies this, NodeSet(nodes + [back])
      ensures SortOf(cmp, old(nodes), nodes) && Chain(nodes, back) && front == nodes[0] && items == |nodes|
      ensures back.next == null && back.prev == Rightmost(cmp, old(nodes))
      ensures Valid() <==> GreatestIsLast(cmp, old(nodes))
    {
      hide SortOf, Rightmost, Insertion, GreatestIsLast;
      ghost var ms;
      front, ms := MergeSort(front, nodes);
      SortLength(cmp, nodes, ms);
      BackRightIff(cmp, nodes, ms);
      assert LinkAt(ms + [back], 0) && ms[0] in nodes;
      front.prev := null;
      assert forall k :: 0 <= k < |ms| ==> LinkAt(ms + [back], k);
      ChainLinked(ms, back);
      nodes := ms;
    }

    // ----- Sorting -----

    /** The search loop of insertionSort(): the node that cur goes before, and the first node after that. */
    method FindSuccessor(
        cur: ListNode, start: ListNode, head: ListNode, nodePrev: ListNode?,
        ghost s: seq<ListNode>, ghost rest: seq<ListNode>)
      returns (succ: ListNode, head': ListNode, ghost i: nat)
      requires s != [] && rest != [] && head == s[0] && start == s[|s| - 1] && nodePrev == null && Linked(s + rest)
      ensures succ in s + rest
      ensures i <= |s| && succ == (s + rest)[i] && head' == if i == 0 then cur else head
      ensures i > 0 ==> Compare(cmp, cur, s[i - 1]) >= 0
      ensures forall q :: i <= q < |s| ==> Compare(cmp, cur, s[q]) < 0
    {
      hide Compare, Linked, LinkAt;
      succ, head', i := start, head, |s| - 1;
      while true
        invariant 0 <= i < |s| && succ == s[i] && head' == head
        invariant forall q :: i < q < |s| ==> Compare(cmp, cur, s[q]) < 0
        decreases i
      {
        LinkOf(s + rest, i);
        if Compare(cmp, cur, succ) >= 0 {
          succ := succ.next;
          i := i + 1;
          break;
        }
        if succ.prev == nodePrev {
          head' := cur;
          break;
        }
        succ := succ.prev;
        i := i - 1;
      }
    }

    /** The loop body of insertionSort(): cur, which follows the sorted nodes s, moves to its place among them. */
    method Reinsert(
        cur: ListNode, head: ListNode, nodePrev: ListNode?, ghost s: seq<ListNode>, ghost rest: seq<ListNode>)
      returns (head': ListNode)
      requires s != [] && rest != [] && head == s[0] && nodePrev == null && Linked(s + [cur] + rest)
      modifies NodeSet(s + [cur] + rest)
      ensures Linked(Inserted(cmp, s, cur) + rest) && head' == (Inserted(cmp, s, cur) + rest)[0]
    {
      hide Compare, Linked, LinkAt, Inserted;
      LinkOf(s + [cur] + rest, |s|);
      var succ: ListNode := cur.prev;
      Spliced(s, cur, rest);
      cur.Remove(s + [cur] + rest, |s|);
      ghost var i;
      succ, head', i := FindSuccessor(cur, succ, head, nodePrev, s, rest);
      InsertedAt(cmp, s, cur, i);
      SplicedAt(s, rest, cur, i);
      cur.AddBefore(succ, s + rest, i);
    }

    /** insertionSort() */
    method InsertionSort(node: ListNode, ghost ns: seq<ListNode>) returns (head: ListNode)
      requires |ns| > 0 && ns[0] == node && Linked(ns + [back]) && HasObjects(ns)
      modifies NodeSet(ns + [back])
      ensures |Insertion(cmp, ns)| == |ns| && head == Insertion(cmp, ns)[0] && Linked(Insertion(cmp, ns) + [back])
    {
      hide Linked, LinkAt, Insertion, HasObjects;
      head := node;
      LinkOf(ns + [back], 0);
      InsertionStart(cmp, ns);
      BackApart(ns, back);
      var nodePrev := node.prev;
      var cur := node.next;
      ghost var k := 1;
      assert ns[..1] + (ns[1..] + [back]) == ns + [back];
      while cur != back
        invariant 0 < k <= |ns| && |Insertion(cmp, ns[..k])| == k && head == Insertion(cmp, ns[..k])[0]
        invariant Linked(Insertion(cmp, ns[..k]) + (ns[k..] + [back])) && cur == (ns[k..] + [back])[0]
        invariant forall n :: n in Insertion(cmp, ns[..k]) ==> n in ns
        decreases |ns| - k
      {
        ghost var s := Insertion(cmp, ns[..k]);
        ghost var rest := ns[k + 1..] + [back];
        assert s + (ns[k..] + [back]) == s + [cur] + rest;
        LinkOf(s + [cur] + rest, k);
        var curNext := cur.next;
        assert NodeSet(s + [cur] + rest) <= NodeSet(ns + [back]) by {
          assert forall n :: n in rest ==> n in ns || n == back;
          assert cur == ns[k];
        }
        head := Reinsert(cur, head, nodePrev, s, rest);
        InsertionStep(cmp, ns, k);
        cur := curNext;
        k := k + 1;
      }
      assert ns[..k] == ns && ns[k..] + [back] == [back];
    }

    /** merge(): a and b are the two chains; the sentinel's own prev stays as it is. */
    method Merge(lhs0: ListNode, rhs0: ListNode, ghost a: seq<ListNode>, ghost b: seq<ListNode>)
      returns (head: ListNode)
      requires Chain(a, back) && Chain(b, back) && Apart(a, b) && lhs0 == a[0] && rhs0 == b[0]
      requires back.item == MaxObject && HasObjects(a) && HasObjects(b)
      modifies NodeSet(a + b)
      ensures Chain(Merged(cmp, a, b), back) && head == Merged(cmp, a, b)[0]
    {
      hide Compare, Merged, Chain, Apart, Merging, Toward, Rest, Distinct, HasObjects;
      ChainStart(a, back);
      ChainStart(b, back);
      var dummy := new ListNode(MaxObject);
      var out: ListNode := dummy;
      var lhs: ListNode?, rhs: ListNode? := lhs0, rhs0;
      ghost var i, j := 0, 0;
      ghost var m: seq<ListNode> := [];
      var lhsAtEnd, rhsAtEnd := lhs == back, rhs == back;
      TowardStart(cmp, a, b);
      MergingStart(a, b, dummy, back);
      while !(lhsAtEnd && rhsAtEnd)
        invariant 0 <= i <= |a| && 0 <= j <= |b|
        invariant lhs == (a + [back])[i] && rhs == (b + [back])[j] && lhsAtEnd == (i == |a|) && rhsAtEnd == (j == |b|)
        invariant Toward(cmp, m, a, i, b, j)
        invariant Merging(a, i, b, j, m, dummy, out, back) && out in [dummy] + a + b
        decreases |a| + |b| - i - j
      {
        SentinelGreater(cmp, back, rhs);
        if rhsAtEnd || Compare(cmp, lhs, rhs) <= 0 {
          PickedLeft(cmp, m, a, i, b, j);
          var node := lhs;
          lhs := Emit(out, node, a, i, b, j, m, dummy);
          m, i, out := m + [node], i + 1, node;
          lhsAtEnd := lhs == back;
        } else {
          PickedRight(cmp, m, a, i, b, j);
          MergingSwap(a, i, b, j, m, dummy, out, back);
          var node := rhs;
          rhs := Emit(out, node, b, j, a, i, m, dummy);
          m, j, out := m + [node], j + 1, node;
          MergingSwap(b, j, a, i, m, dummy, out, back);
          rhsAtEnd := rhs == back;
        }
      }
      MergedAll(cmp, a, b, m);
      head := Unhook(a, b, m, dummy, out);
    }

    /** The merged chain without the dummy node. */
    method Unhook(
        ghost a: seq<ListNode>, ghost b: seq<ListNode>, ghost m: seq<ListNode>, dummy: ListNode, ghost out: ListNode)
      returns (head: ListNode)
      requires Merging(a, |a|, b, |b|, m, dummy, out, back) && m != [] && back !in a && back !in b
      modifies NodeSet(a + b)
      ensures Chain(m, back) && head == m[0]
    {
      hide Apart;
      assert a[..|a|] == a && b[..|b|] == b;
      assert HooksTo(dummy, m, 0);
      head := dummy.next;
      head.prev := null;
      forall k | 0 <= k < |m|
        ensures LinkAt(m + [back], k)
      {
        assert old(HooksTo(dummy, m, k)) && (k + 1 < |m| ==> old(HooksTo(dummy, m, k + 1)));
        assert m[k] in m;
      }
      DistinctSnoc(m, back);
    }

    /** The walk of mergeSort() from both ends to the middle. */
    method Middle(node: ListNode, ghost ns: seq<ListNode>) returns (lhsEnd: ListNode, rhsBegin: ListNode, count: nat)
      requires |ns| > 1 && ns[0] == node && Linked(ns + [back])
      ensures count == |ns| && LeftSize(count) <= count
      ensures lhsEnd == ns[LeftSize(count) - 1] && rhsBegin == (ns + [back])[LeftSize(count)]
    {
      hide Linked, LinkAt;
      ghost var all, n := ns + [back], |ns|;
      ghost var i, j := 0, n;
      LinkOf(all, 0);
      LinkOf(all, n);
      lhsEnd, rhsBegin := node, back;
      var lhsEndNext, rhsBeginPrev := lhsEnd.next, rhsBegin.prev;
      count := 1;
      while lhsEndNext != rhsBegin
        invariant 0 <= i < j == n - i && count == i + 1 + n - j
        invariant lhsEnd == all[i] && lhsEndNext == all[i + 1] && rhsBegin == all[j] && rhsBeginPrev == all[j - 1]
        decreases j - i
      {
        LinkOf(all, i + 1);
        lhsEnd := lhsEndNext;
        lhsEndNext := lhsEnd.next;
        i := i + 1;
        if lhsEndNext == rhsBegin {
          SameNode(all, i + 1, j);
          count := count + 1;
          return;
        }
        LinkOf(all, j - 1);
        rhsBegin := rhsBeginPrev;
        rhsBeginPrev := rhsBegin.prev;
        j := j - 1;
        count := count + 2;
      }
      SameNode(all, i + 1, j);
    }

    /**
     * mergeSort(): a stable sort. The sentinel is left pointing back to the last node of the last part that was sorted
     * by insertion.
     */
    method MergeSort(node: ListNode, ghost ns: seq<ListNode>) returns (head: ListNode, ghost ms: seq<ListNode>)
      requires IsOrdering(cmp) && back.item == MaxObject && HasObjects(ns)
      requires |ns| > 0 && ns[0] == node && Linked(ns + [back])
      modifies NodeSet(ns + [back])
      ensures Chain(ms, back) && head == ms[0] && SortOf(cmp, ns, ms)
      ensures back.next == null && back.prev == Rightmost(cmp, ns)
      decreases |ns|, 1
    {
      hide Linked, LinkAt, Chain, SortOf, Insertion, HasObjects, Distinct, Rightmost, Open, Apart;
      if node.next == back {
        head, ms := node, ns;
        OneNode(cmp, ns, back);
        return;
      }
      MoreNodes(ns, back);
      var lhsBegin, rhsEnd: ListNode := node, back.prev;
      var lhsEnd, rhsBegin, count := Middle(node, ns);
      if count <= 16 {
        head := InsertionSort(lhsBegin, ns);
        ms := Insertion(cmp, ns);
        InsertionSorts(cmp, ns);
        SmallSorted(cmp, ns, back);
      } else {
        head, ms := SortHalves(lhsBegin, lhsEnd, rhsBegin, rhsEnd, ns);
      }
    }

    /** The second half of mergeSort(), for more than 16 nodes. */
    method SortHalves(
        lhsBegin: ListNode, lhsEnd: ListNode, rhsBegin: ListNode, rhsEnd: ListNode, ghost ns: seq<ListNode>)
      returns (head: ListNode, ghost ms: seq<ListNode>)
      requires IsOrdering(cmp) && back.item == MaxObject && HasObjects(ns) && |ns| > 16 && Linked(ns + [back])
      requires lhsBegin == ns[0] && lhsEnd == ns[LeftSize(|ns|) - 1] && rhsBegin == ns[LeftSize(|ns|)]
               && rhsEnd == ns[|ns| - 1]
      modifies NodeSet(ns + [back])
      ensures Chain(ms, back) && head == ms[0] && SortOf(cmp, ns, ms)
      ensures back.next == null && back.prev == Rightmost(cmp, ns)
      decreases |ns|, 0
    {
      hide Linked, LinkAt, Chain, SortOf, HasObjects, Distinct, Rightmost, Open, Apart;
      ghost var k := LeftSize(|ns|);
      ghost var l, r := ns[..k], ns[k..];
      Halves(ns, k, back);
      RightmostOfHalf(cmp, ns);
      CutLeft(lhsEnd, ns, k);
      var aSeg, ls := MergeSort(lhsBegin, l);
      LeftApart(cmp, l, r, ls, back);
      CutRight(rhsBegin, rhsEnd, r);
      var bSeg, rs := MergeSort(rhsBegin, r);
      SortedHalves(cmp, l, r, ls, rs);
      head := Merge(aSeg, bSeg, ls, rs);
      ms := Merged(cmp, ls, rs);
      MergeSorts(cmp, l, r, ls, rs);
    }

    /** The left half ends at the sentinel. */
    method CutLeft(lhsEnd: ListNode, ghost ns: seq<ListNode>, ghost k: nat)
      requires 0 < k < |ns| && lhsEnd == ns[k - 1] && Linked(ns + [back])
      modifies lhsEnd`next, back`prev
      ensures Linked(ns[..k] + [back]) && Open(ns[k..], back)
    {
      ghost var all, l, r := ns + [back], ns[..k] + [back], ns[k..];
      BackApart(ns, back);
      HalvesDistinct(ns, k, back);
      assert old(LinkAt(all, |ns|));
      lhsEnd.next := back;
      back.prev := lhsEnd;
      forall i | 0 <= i < |l|
        ensures LinkAt(l, i)
      {
        if i < k {
          assert old(LinkAt(all, i)) && l[i] == all[i] && (i < k - 1 ==> all[i] != all[k - 1]);
          assert NodeAt(l, i - 1) == NodeAt(all, i - 1) && (i < k - 1 ==> NodeAt(l, i + 1) == NodeAt(all, i + 1));
        }
      }
      forall i | 0 <= i < |r|
        ensures OpenAt(r, i, back)
      {
        assert old(LinkAt(all, k + i)) && r[i] == all[k + i] && all[k + i] != all[k - 1];
        assert (r + [back])[i + 1] == all[k + i + 1];
      }
      assert forall i :: 0 <= i < |r| ==> r[i] == all[k + i];
    }

    /** The right half starts from nothing. */
    method CutRight(rhsBegin: ListNode, rhsEnd: ListNode, ghost r: seq<ListNode>)
      requires r != [] && rhsBegin == r[0] && rhsEnd == r[|r| - 1] && Open(r, back) && back.next == null
      modifies rhsBegin`prev, back`prev
      ensures Linked(r + [back])
    {
      ghost var all := r + [back];
      rhsBegin.prev := null;
      back.prev := rhsEnd;
      forall i | 0 <= i < |all|
        ensures LinkAt(all, i)
      {
        if i < |r| {
          assert old(OpenAt(r, i, back)) && all[i] == r[i] && (i > 0 ==> all[i] != all[0]) && all[i] != all[|r|];
        }
      }
    }

    /** out <--> node, and on to the node behind */
    method Emit(
        out: ListNode, node: ListNode, ghost a: seq<ListNode>, ghost i: nat, ghost b: seq<ListNode>, ghost j: nat,
                ghost m: seq<ListNode>, ghost dummy: ListNode)
      returns (next: ListNode?)
      requires Merging(a, i, b, j, m, dummy, out, back) && i < |a| && node == a[i]
      modifies out`next, node`prev
      ensures Merging(a, i + 1, b, j, m + [node], dummy, node, back) && next == (a + [back])[i + 1]
    {
      NotYet(m, a, i, b, j);
      NotYet(m, b, j, a, i);
      ghost var m' := m + [node];
      DistinctSnoc(m, node);
      assert forall n :: n in m' ==> n in a[..i + 1] || n in b[..j];
      out.next := node;
      node.prev := out;
      next := node.next;
      forall k | i < k < |a|
        ensures NextAt(a, k, back)
      {
        assert old(NextAt(a, k, back));
      }
      forall k | j <= k < |b|
        ensures NextAt(b, k, back)
      {
        assert old(NextAt(b, k, back));
      }
      assert old(NextAt(a, i, back));
      forall k | 0 <= k < |m'|
        ensures HooksTo(dummy, m', k)
      {
        if k < |m| {
          assert old(HooksTo(dummy, m, k)) && ([dummy] + m')[k] == ([dummy] + m)[k] && m'[k] == m[k];
        }
      }
    }
  }

  ghost predicate Apart(a: seq<ListNode>, b: seq<ListNode>) {
    forall n :: n in a ==> n !in b
  }

  /** The links of ns from i on still lead to the end of the chain. */
  ghost predicate Rest(ns: seq<ListNode>, i: nat, back: ListNode)
    reads ns
  {
    forall k :: i <= k < |ns| ==> NextAt(ns, k, back)
  }

  ghost predicate NextAt(ns: seq<ListNode>, k: nat, back: ListNode)
    requires k < |ns|
    reads ns[k]
  {
    ns[k].next == (ns + [back])[k + 1]
  }

  /** The last node that was merged is the one before position i, and its next is still its old one. */
  ghost predicate LastOf(ns: seq<ListNode>, i: nat, back: ListNode, out: ListNode)
    reads ns
  {
    0 < i <= |ns| && out == ns[i - 1] && NextAt(ns, i - 1, back)
  }

  ghost predicate HooksTo(dummy: ListNode, m: seq<ListNode>, k: nat)
    requires k < |m|
    reads m[k], ([dummy] + m)[k]
  {
    ([dummy] + m)[k].next == m[k] && m[k].prev == ([dummy] + m)[k]
  }

  /** m, the merge of the first i of a and the first j of b, hangs from the dummy node; the rest is as it was. */
  ghost predicate Merging(
      a: seq<ListNode>, i: nat, b: seq<ListNode>, j: nat,
      m: seq<ListNode>, dummy: ListNode, out: ListNode, back: ListNode)
    reads a, b, m, dummy
  {
    && i <= |a| && j <= |b| && Distinct(a) && Distinct(b) && Apart(a, b) && dummy !in a && dummy !in b
    && Distinct(m) && (forall n :: n in m ==> n in a[..i] || n in b[..j])
    && Rest(a, i, back) && Rest(b, j, back)
    && out == ([dummy] + m)[|m|] && (m != [] ==> LastOf(a, i, back, out) || LastOf(b, j, back, out))
    && forall k :: 0 <= k < |m| ==> HooksTo(dummy, m, k)
  }

  lemma SentinelGreater(cmp: Ordering, back: ListNode, n: ListNode)
    requires back.item == MaxObject
    ensures Compare(cmp, back, n) > 0
  {}

  lemma MergingStart(a: seq<ListNode>, b: seq<ListNode>, dummy: ListNode, back: ListNode)
    requires Distinct(a) && Distinct(b) && Apart(a, b) && dummy !in a && dummy !in b && Rest(a, 0, back)
             && Rest(b, 0, back)
    ensures Merging(a, 0, b, 0, [], dummy, dummy, back)
  {}

  lemma MergingSwap(
      a: seq<ListNode>, i: nat, b: seq<ListNode>, j: nat,
      m: seq<ListNode>, dummy: ListNode, out: ListNode, back: ListNode)
    requires Merging(a, i, b, j, m, dummy, out, back)
    ensures Merging(b, j, a, i, m, dummy, out, back)
  {}

  /** What has been merged, and the merge of what is left, make up the merge of all. */
  ghost predicate Toward(cmp: Ordering, m: seq<ListNode>, a: seq<ListNode>, i: nat, b: seq<ListNode>, j: nat)
    requires i <= |a| && j <= |b|
  {
    m + Merged(cmp, a[i..], b[j..]) == Merged(cmp, a, b)
  }

  lemma TowardStart(cmp: Ordering, a: seq<ListNode>, b: seq<ListNode>)
    ensures Toward(cmp, [], a, 0, b, 0)
  {
    assert a[0..] == a && b[0..] == b;
  }

  lemma MergedAll(cmp: Ordering, a: seq<ListNode>, b: seq<ListNode>, m: seq<ListNode>)
    requires Toward(cmp, m, a, |a|, b, |b|) && a != []
    ensures m == Merged(cmp, a, b) && m != []
  {
    assert Merged(cmp, a[|a|..], b[|b|..]) == [];
  }

  lemma DistinctSnoc(ns: seq<ListNode>, n: ListNode)
    requires Distinct(ns) && n !in ns
    ensures Distinct(ns + [n])
  {}

  /** The nodes that are still to come have not been merged yet. */
  lemma NotYet(m: seq<ListNode>, a: seq<ListNode>, i: nat, b: seq<ListNode>, j: nat)
    requires i <= |a| && j <= |b| && Apart(a, b) && Distinct(a) && forall n :: n in m ==> n in a[..i] || n in b[..j]
    ensures forall k :: i <= k < |a| ==> a[k] !in m
  {
    forall k | i <= k < |a|
      ensures a[k] !in m
    {
      assert a[k] !in b && a[k] !in a[..i];
    }
  }

  lemma MergedLeft(cmp: Ordering, n: ListNode, a: seq<ListNode>, b: seq<ListNode>)
    requires b == [] || Compare(cmp, n, b[0]) <= 0
    ensures Merged(cmp, [n] + a, b) == [n] + Merged(cmp, a, b)
  {
    assert ([n] + a)[1..] == a;
  }

  lemma MergedRight(cmp: Ordering, a: seq<ListNode>, n: ListNode, b: seq<ListNode>)
    requires a == [] || Compare(cmp, a[0], n) > 0
    ensures Merged(cmp, a, [n] + b) == [n] + Merged(cmp, a, b)
  {
    assert ([n] + b)[1..] == b;
  }

  lemma PickedLeft(cmp: Ordering, m: seq<ListNode>, a: seq<ListNode>, i: nat, b: seq<ListNode>, j: nat)
    requires i <= |a| && j <= |b| && (i < |a| || j < |b|) && Toward(cmp, m, a, i, b, j)
    requires j == |b| || (i < |a| && Compare(cmp, a[i], b[j]) <= 0)
    ensures i < |a| && Toward(cmp, m + [a[i]], a, i + 1, b, j)
  {
    hide Merged, Compare;
    assert a[i..] == [a[i]] + a[i + 1..];
    MergedLeft(cmp, a[i], a[i + 1..], b[j..]);
  }

  lemma PickedRight(cmp: Ordering, m: seq<ListNode>, a: seq<ListNode>, i: nat, b: seq<ListNode>, j: nat)
    requires i <= |a| && j < |b| && (i == |a| || Compare(cmp, a[i], b[j]) > 0) && Toward(cmp, m, a, i, b, j)
    ensures Toward(cmp, m + [b[j]], a, i, b, j + 1)
  {
    hide Merged, Compare;
    assert b[j..] == [b[j]] + b[j + 1..];
    MergedRight(cmp, a[i..], b[j], b[j + 1..]);
  }

  lemma ChainStart(ns: seq<ListNode>, back: ListNode)
    requires Chain(ns, back)
    ensures |ns| > 0 && Rest(ns, 0, back) && back !in ns && Distinct(ns)
  {
    assert forall i :: 0 <= i < |ns| ==> ns[i] == (ns + [back])[i] && (ns + [back])[|ns|] == back;
    forall k | 0 <= k < |ns|
      ensures NextAt(ns, k, back)
    {
      assert LinkAt(ns + [back], k);
    }
  }

  /** The right half of a chain: all links but the first prev. */
  ghost predicate Open(r: seq<ListNode>, back: ListNode)
    reads r
  {
    Distinct(r + [back]) && forall i :: 0 <= i < |r| ==> OpenAt(r, i, back)
  }

  ghost predicate OpenAt(r: seq<ListNode>, i: nat, back: ListNode)
    requires i < |r|
    reads r[i]
  {
    r[i].next == (r + [back])[i + 1] && (i > 0 ==> r[i].prev == r[i - 1])
  }

  lemma OneNode(cmp: Ordering, ns: seq<ListNode>, back: ListNode)
    requires |ns| > 0 && Linked(ns + [back]) && HasObjects(ns) && ns[0].next == back
    ensures Chain(ns, back) && SortOf(cmp, ns, ns) && back.next == null && back.prev == Rightmost(cmp, ns)
  {
    LinkOf(ns + [back], 0);
    SameNode(ns + [back], 1, |ns|);
    LinkOf(ns + [back], 1);
    InsertionStart(cmp, ns);
    assert ns[..1] == ns;
  }

  lemma MoreNodes(ns: seq<ListNode>, back: ListNode)
    requires |ns| > 0 && Linked(ns + [back]) && ns[0].next != back
    ensures |ns| > 1 && back.prev == ns[|ns| - 1]
  {
    LinkOf(ns + [back], 0);
    LinkOf(ns + [back], |ns|);
  }

  lemma SmallSorted(cmp: Ordering, ns: seq<ListNode>, back: ListNode)
    requires 0 < |ns| <= 16 && |Insertion(cmp, ns)| == |ns| && Linked(Insertion(cmp, ns) + [back])
    ensures Chain(Insertion(cmp, ns), back) && back.next == null && back.prev == Rightmost(cmp, ns)
  {
    hide Insertion;
    LinkOf(Insertion(cmp, ns) + [back], |ns|);
  }

  lemma RightmostOfHalf(cmp: Ordering, ns: seq<ListNode>)
    requires |ns| > 16
    ensures Rightmost(cmp, ns) == Rightmost(cmp, ns[LeftSize(|ns|)..])
  {}

  lemma Halves(ns: seq<ListNode>, k: nat, back: ListNode)
    requires Linked(ns + [back]) && 0 < k < |ns| && HasObjects(ns)
    ensures HasObjects(ns[..k]) && HasObjects(ns[k..]) && ns[..k] + ns[k..] == ns
    ensures NodeSet(ns[..k] + [back]) <= NodeSet(ns + [back]) && NodeSet(ns[k..] + [back]) <= NodeSet(ns + [back])
    ensures Apart(ns[..k], ns[k..]) && back !in ns
  {
    BackApart(ns, back);
    assert forall i :: 0 <= i < |ns| ==> ns[i] == (ns + [back])[i];
  }

  lemma HalvesDistinct(ns: seq<ListNode>, k: nat, back: ListNode)
    requires Distinct(ns + [back]) && k < |ns|
    ensures Distinct(ns[..k] + [back]) && Distinct(ns[k..] + [back])
  {
    var all, l, r := ns + [back], ns[..k] + [back], ns[k..] + [back];
    assert forall i :: 0 <= i < |l| ==> l[i] == all[if i < k then i else |ns|];
    assert forall i :: 0 <= i < |r| ==> r[i] == all[k + i];
  }

  lemma LeftApart(cmp: Ordering, l: seq<ListNode>, r: seq<ListNode>, ls: seq<ListNode>, back: ListNode)
    requires SortOf(cmp, l, ls) && Apart(l, r) && back !in l
    ensures NodeSet(ls) !! NodeSet(r + [back])
  {
    assert forall n :: n in ls <==> n in multiset(ls);
    assert forall n :: n in l <==> n in multiset(l);
  }

  lemma SortedHalves(cmp: Ordering, l: seq<ListNode>, r: seq<ListNode>, ls: seq<ListNode>, rs: seq<ListNode>)
    requires SortOf(cmp, l, ls) && SortOf(cmp, r, rs) && Apart(l, r)
    ensures Apart(ls, rs) && NodeSet(ls + rs) == NodeSet(l + r) && HasObjects(ls) && HasObjects(rs)
  {
    assert forall n :: n in ls <==> n in multiset(ls);
    assert forall n :: n in rs <==> n in multiset(rs);
    assert forall n :: n in l <==> n in multiset(l);
    assert forall n :: n in r <==> n in multiset(r);
  }

  lemma SplicedIn(ns: seq<ListNode>, back: ListNode, ln: ListNode, k: nat)
    requires k <= |ns|
    ensures (ns + [back])[..k] + [ln] + (ns + [back])[k..] == (ns[..k] + [ln] + ns[k..]) + [back]
  {}

  /** Node i taken out and put before node j. */
  ghost function Moved(ns: seq<ListNode>, i: nat, j: nat): seq<ListNode>
    requires i < |ns| && j <= |ns| && i != j
  {
    if i < j then ns[..i] + ns[i + 1..j] + [ns[i]] + ns[j..] else ns[..j] + [ns[i]] + ns[j..i] + ns[i + 1..]
  }

  lemma MovedNext(ns: seq<ListNode>, i: nat)
    requires i < |ns|
    ensures Moved(ns, i, i + 1) == ns
  {}

  lemma MovedNodes(ns: seq<ListNode>, back: ListNode, i: nat, j: nat)
    requires i < |ns| && j <= |ns| && i != j && j != i + 1 && HasObjects(ns)
    ensures var all, k := ns + [back], if i < j then j - 1 else j;
      && var rest := all[..i] + all[i + 1..];
      && k < |rest| && rest[k] == all[j] && NodeSet(rest) <= NodeSet(all)
      && rest[..k] + [ns[i]] + rest[k..] == Moved(ns, i, j) + [back]
    ensures |Moved(ns, i, j)| == |ns| && HasObjects(Moved(ns, i, j))
    ensures Moved(ns, i, j)[0] == if j == 0 then ns[i] else if i == 0 then ns[1] else ns[0]
  {
    var all, k, m := ns + [back], if i < j then j - 1 else j, Moved(ns, i, j);
    var rest := all[..i] + all[i + 1..];
    MovedEach(ns, i, j);
    Relocated(ns, back, i, j);
    assert rest[..k] + [ns[i]] + rest[k..] == m + [back];
  }

  /** What is left on either side of the new place, once node i is out. */
  lemma Relocated(ns: seq<ListNode>, back: ListNode, i: nat, j: nat)
    requires i < |ns| && j <= |ns| && i != j && j != i + 1
    ensures var all := ns + [back];
      var rest := all[..i] + all[i + 1..];
      if i < j then rest[..j - 1] == ns[..i] + ns[i + 1..j] && rest[j - 1..] == ns[j..] + [back]
      else rest[..j] == ns[..j] && rest[j..] == ns[j..i] + ns[i + 1..] + [back]
  {}

  lemma MovedEach(ns: seq<ListNode>, i: nat, j: nat)
    requires i < |ns| && j <= |ns| && i != j && j != i + 1 && HasObjects(ns)
    ensures |Moved(ns, i, j)| == |ns| && HasObjects(Moved(ns, i, j))
  {
    if i < j {
      assert Moved(ns, i, j) == ns[..i] + ns[i + 1..j] + [ns[i]] + ns[j..];
    } else {
      assert Moved(ns, i, j) == ns[..j] + [ns[i]] + ns[j..i] + ns[i + 1..];
    }
  }

  lemma NotFirst(ns: seq<ListNode>, i: nat, j: nat)
    requires Linked(ns) && i < |ns| && j < |ns| && |ns| > 1
    ensures (ns[j] == ns[0] <==> j == 0) && (ns[i] == ns[0] <==> i == 0) && ns[1] != ns[0]
  {}

  lemma FrontIsBack(ns: seq<ListNode>, back: ListNode)
    requires Linked(ns + [back])
    ensures ns != [] ==> (ns + [back])[0] != back
  {
    BackApart(ns, back);
  }

  lemma SortLength(cmp: Ordering, ns: seq<ListNode>, ms: seq<ListNode>)
    requires SortOf(cmp, ns, ms)
    ensures |ms| == |ns| && HasObjects(ms) && forall n :: n in ms ==> n in ns
  {
    assert forall n :: n in ms ==> n in multiset(ms);
    assert |multiset(ms)| == |multiset(ns)|;
  }

  /** A chain is fully linked when the sentinel points back to its last node. */
  lemma ChainLinked(ns: seq<ListNode>, back: ListNode)
    requires Chain(ns, back) && back.next == null
    ensures Linked(ns + [back]) <==> back.prev == ns[|ns| - 1]
  {
    var all := ns + [back];
    assert LinkAt(all, |ns|) <==> back.prev == ns[|ns| - 1];
    if back.prev == ns[|ns| - 1] {
      forall i | 0 <= i < |all|
        ensures LinkAt(all, i)
      {}
    }
  }

  lemma SameNode2(ns: seq<ListNode>, i: nat, j: nat)
    requires Linked(ns) && i < |ns| && j < |ns| && i != j
    ensures ns[i] != ns[j]
  {}

  lemma SameNode(ns: seq<ListNode>, i: nat, j: nat)
    requires Linked(ns) && i < |ns| && j < |ns| && ns[i] == ns[j]
    ensures i == j
  {}

  lemma Spliced(s: seq<ListNode>, n: ListNode, rest: seq<ListNode>)
    ensures (s + [n] + rest)[..|s|] + (s + [n] + rest)[|s| + 1..] == s + rest
    ensures NodeSet(s + rest) <= NodeSet(s + [n] + rest) && n in NodeSet(s + [n] + rest)
  {
    assert (s + [n] + rest)[|s|] == n;
    forall m | m in s + rest
      ensures m in s + [n] + rest
    {}
  }

  lemma SplicedAt(s: seq<ListNode>, rest: seq<ListNode>, n: ListNode, i: nat)
    requires i <= |s|
    ensures (s + rest)[..i] + [n] + (s + rest)[i..] == s[..i] + [n] + s[i..] + rest
  {}

  lemma BackApart(ns: seq<ListNode>, back: ListNode)
    requires Linked(ns + [back])
    ensures back !in ns
  {
    assert forall i :: 0 <= i < |ns| ==> ns[i] == (ns + [back])[i] && (ns + [back])[|ns|] == back;
  }

  lemma InsertionStart(cmp: Ordering, ns: seq<ListNode>)
    requires |ns| > 0
    ensures Insertion(cmp, ns[..1]) == ns[..1] == [ns[0]]
  {
    assert ns[..1][..0] == [];
  }

  lemma InsertionStep(cmp: Ordering, ns: seq<ListNode>, k: nat)
    requires k < |ns|
    ensures Insertion(cmp, ns[..k + 1]) == Inserted(cmp, Insertion(cmp, ns[..k]), ns[k])
    ensures |Insertion(cmp, ns[..k + 1])| == k + 1
    ensures forall n :: n in Insertion(cmp, ns[..k + 1]) ==> n in ns
  {
    hide Inserted;
    assert ns[..k + 1][..k] == ns[..k];
    InsertionLength(cmp, ns[..k + 1]);
    forall n | n in Insertion(cmp, ns[..k + 1])
      ensures n in ns
    {
      assert n in multiset(ns[..k + 1]);
    }
  }

  lemma LinkOf(ns: seq<ListNode>, i: nat)
    requires Linked(ns) && i < |ns|
    ensures ns[i].prev == NodeAt(ns, i - 1) && ns[i].next == NodeAt(ns, i + 1)
  {
    assert LinkAt(ns, i);
  }

  /** Seventeen objects, the greatest of them in front: sorting leaves the sentinel pointing to the wrong node. */
  method SortMisleads(cmp: Ordering, a: Object, b: Object) returns (l: List)
    requires IsOrdering(cmp) && cmp(a, b) < 0
    ensures fresh(l) && Sorted(cmp, l.nodes) && |l.nodes| == 17
    ensures l.back.prev != l.nodes[16] && !l.Valid()
  {
    hide Rightmost, GreatestIsLast, Linked;
    l := new List(cmp);
    for i := 0 to 16
      invariant fresh(l) && fresh(l.back) && l.Valid() && |l.nodes| == i && l.cmp == cmp
      invariant forall n :: n in l.nodes ==> fresh(n) && n.item == Val(a)
    {
      var _ := l.PushFront(a);
    }
    var _ := l.PushFront(b);
    ghost var ns := l.nodes;
    FirstIsGreatest(cmp, ns);
    l.Sort();
    BackRightIff(cmp, ns, l.nodes);
  }
}
