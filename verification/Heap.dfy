/** Heap: a binary max-heap in an array, where holes move up and down (Heap.cpp). */
module Heap {
  import opened Objects

  function Parent(i: nat): (p: nat)
    requires i > 0
    ensures p < i
  {
    (i - 1) / 2
  }

  /** No object is greater than its parent. */
  ghost predicate HeapOrdered(cmp: Ordering, h: seq<Object>) {
    forall i :: 0 < i < |h| ==> cmp(h[Parent(i)], h[i]) >= 0
  }

  lemma AtLeastTransitive(cmp: Ordering, a: Object, b: Object, c: Object)
    requires IsOrdering(cmp) && cmp(a, b) >= 0 && cmp(b, c) >= 0
    ensures cmp(a, c) >= 0
  {
    assert cmp(c, b) <= 0 && cmp(b, a) <= 0;
  }

  lemma Either(cmp: Ordering, a: Object, b: Object)
    requires IsOrdering(cmp)
    ensures (cmp(a, b) < 0 ==> cmp(b, a) > 0) && (cmp(a, b) > 0 ==> cmp(b, a) < 0) && cmp(a, a) == 0
  {
    assert cmp(a, b) <= 0 <==> cmp(b, a) >= 0;
    assert cmp(b, a) <= 0 <==> cmp(a, b) >= 0;
  }

  /** The root is a greatest object. */
  lemma {:induction false} RootGreatest(cmp: Ordering, h: seq<Object>, i: nat)
    requires IsOrdering(cmp) && HeapOrdered(cmp, h) && i < |h|
    ensures cmp(h[0], h[i]) >= 0
  {
    if i == 0 {
      Either(cmp, h[0], h[0]);
    } else {
      RootGreatest(cmp, h, Parent(i));
      AtLeastTransitive(cmp, h[0], h[Parent(i)], h[i]);
    }
  }

  /** Ordered but for the object at idx, which may be greater than those above it. */
  ghost predicate OrderedBelow(cmp: Ordering, h: seq<Object>, idx: nat) {
    && idx < |h|
    && (forall i :: 0 < i < |h| && i != idx ==> cmp(h[Parent(i)], h[i]) >= 0)
    && (forall i :: 0 < i < |h| && Parent(i) == idx && idx > 0 ==> cmp(h[Parent(idx)], h[i]) >= 0)
  }

  /** Ordered but for the object at idx, which may be less than those below it. */
  ghost predicate OrderedAbove(cmp: Ordering, h: seq<Object>, idx: nat) {
    && idx < |h|
    && (forall i :: 0 < i < |h| && Parent(i) != idx ==> cmp(h[Parent(i)], h[i]) >= 0)
    && (forall i :: 0 < i < |h| && Parent(i) == idx && idx > 0 ==> cmp(h[Parent(idx)], h[i]) >= 0)
  }

  function Swapped(h: seq<Object>, i: nat, j: nat): (r: seq<Object>)
    requires i < |h| && j < |h|
    ensures |r| == |h|
  {
    h[i := h[j]][j := h[i]]
  }

  lemma SwappedAt(h: seq<Object>, i: nat, j: nat)
    requires i < |h| && j < |h|
    ensures Swapped(h, i, j)[j] == h[i]
  {}

  ghost predicate Permuted(g: seq<Object>, h: seq<Object>) {
    multiset(g) == multiset(h)
  }

  lemma Reflexive(h: seq<Object>)
    ensures Permuted(h, h)
  {}

  lemma SwappedSame(g: seq<Object>, h: seq<Object>, i: nat, j: nat)
    requires Permuted(g, h) && i < |h| && j < |h|
    ensures Permuted(g, Swapped(h, i, j))
  {}

  lemma MovedUp(cmp: Ordering, h: seq<Object>, idx: nat)
    requires IsOrdering(cmp) && OrderedBelow(cmp, h, idx) && idx > 0 && cmp(h[Parent(idx)], h[idx]) < 0
    ensures OrderedBelow(cmp, Swapped(h, idx, Parent(idx)), Parent(idx))
  {
    var j := Parent(idx);
    var h' := Swapped(h, idx, j);
    Either(cmp, h[j], h[idx]);
    forall i | 0 < i < |h| && i != j
      ensures cmp(h'[Parent(i)], h'[i]) >= 0
    {
      if Parent(i) == j && i != idx {
        AtLeastTransitive(cmp, h[idx], h[j], h[i]);
      }
    }
    forall i | 0 < i < |h| && Parent(i) == j && j > 0
      ensures cmp(h'[Parent(j)], h'[i]) >= 0
    {
      if i != idx {
        AtLeastTransitive(cmp, h[Parent(j)], h[j], h[i]);
      }
    }
  }

  /** The object at j is at least as great as any child of idx. */
  ghost predicate Greatest(cmp: Ordering, h: seq<Object>, idx: nat, j: nat) {
    j < |h| && forall i :: 0 < i < |h| && Parent(i) == idx ==> cmp(h[j], h[i]) >= 0
  }

  lemma MovedDown(cmp: Ordering, h: seq<Object>, idx: nat, j: nat)
    requires IsOrdering(cmp) && OrderedAbove(cmp, h, idx) && 0 < j < |h| && Parent(j) == idx && cmp(h[idx], h[j]) < 0
    requires Greatest(cmp, h, idx, j)
    ensures OrderedAbove(cmp, Swapped(h, idx, j), j)
  {
    var h' := Swapped(h, idx, j);
    Either(cmp, h[idx], h[j]);
    forall i | 0 < i < |h| && Parent(i) != j
      ensures cmp(h'[Parent(i)], h'[i]) >= 0
    {
      if Parent(i) == idx {
        assert i != j ==> h'[i] == h[i];
      } else {
        assert i != j && Parent(i) != j && h'[Parent(i)] == h[Parent(i)];
      }
    }
    forall i | 0 < i < |h| && Parent(i) == j
      ensures cmp(h'[Parent(j)], h'[i]) >= 0
    {
      assert i > j && h'[i] == h[i];
    }
  }

  /** The last object put in the place of the one at idx. */
  function Replaced(h: seq<Object>, idx: nat): (r: seq<Object>)
    requires idx + 1 < |h|
    ensures |r| == |h| - 1
  {
    h[..|h| - 1][idx := h[|h| - 1]]
  }

  lemma ReplacedContents(h: seq<Object>, idx: nat)
    requires idx + 1 < |h|
    ensures multiset(Replaced(h, idx)) + multiset{h[idx]} == multiset(h)
  {
    assert h == h[..|h| - 1] + [h[|h| - 1]];
  }

  lemma ReplacedOrder(cmp: Ordering, h: seq<Object>, idx: nat)
    requires IsOrdering(cmp) && HeapOrdered(cmp, h) && idx + 1 < |h|
    ensures var h' := Replaced(h, idx);
      if idx > 0 && cmp(h'[idx], h'[Parent(idx)]) > 0 then OrderedBelow(cmp, h', idx) else OrderedAbove(cmp, h', idx)
  {
    var h' := Replaced(h, idx);
    forall i | 0 < i < |h'| && Parent(i) == idx && idx > 0
      ensures cmp(h'[Parent(idx)], h'[i]) >= 0
    {
      AtLeastTransitive(cmp, h[Parent(idx)], h[idx], h[i]);
    }
    if idx > 0 {
      Either(cmp, h'[idx], h'[Parent(idx)]);
      forall i | 0 < i < |h'| && Parent(i) == idx && cmp(h'[idx], h'[Parent(idx)]) > 0
        ensures cmp(h'[idx], h'[i]) >= 0
      {
        AtLeastTransitive(cmp, h'[idx], h'[Parent(idx)], h'[i]);
      }
    }
  }

  lemma Appended(cmp: Ordering, h: seq<Object>, v: Object)
    requires HeapOrdered(cmp, h)
    ensures OrderedBelow(cmp, h + [v], |h|) && multiset(h + [v]) == multiset(h) + multiset{v}
  {}

  lemma DroppedLast(cmp: Ordering, h: seq<Object>)
    requires HeapOrdered(cmp, h) && h != []
    ensures HeapOrdered(cmp, h[..|h| - 1]) && multiset(h) == multiset(h[..|h| - 1]) + multiset{h[|h| - 1]}
  {
    assert h == h[..|h| - 1] + [h[|h| - 1]];
  }

  // ----- Popping -----

  /** What one pop() does to the contents. */
  ghost predicate Pops(cmp: Ordering, h: multiset<Object>, v: Object, h': multiset<Object>) {
    h == h' + multiset{v} && forall o :: o in h ==> cmp(v, o) >= 0
  }

  /** Popping until the heap is empty yields its contents in descending order. */
  lemma {:induction false} PopsDescend(cmp: Ordering, hs: seq<multiset<Object>>, vs: seq<Object>)
    requires |hs| == |vs| + 1 && hs[|vs|] == multiset{}
    requires forall i :: 0 <= i < |vs| ==> Pops(cmp, hs[i], vs[i], hs[i + 1])
    ensures multiset(vs) == hs[0]
    ensures forall i, j :: 0 <= i < j < |vs| ==> cmp(vs[i], vs[j]) >= 0
  {
    if vs != [] {
      PopsDescend(cmp, hs[1..], vs[1..]);
      assert Pops(cmp, hs[0], vs[0], hs[1]);
      assert vs == [vs[0]] + vs[1..];
      forall i, j | 0 <= i < j < |vs|
        ensures cmp(vs[i], vs[j]) >= 0
      {
        if i == 0 {
          assert vs[1..][j - 1] in multiset(vs[1..]);
        } else {
          assert vs[1..][i - 1] == vs[i] && vs[1..][j - 1] == vs[j];
        }
      }
    }
  }

  /** The array holds the heap, except that the slot at hole may hold anything; the other slots are null. */
  ghost predicate Holds(a: seq<Slot>, h: seq<Object>, hole: nat) {
    && |h| <= |a|
    && (forall i :: 0 <= i < |h| && i != hole ==> a[i] == Full(h[i]))
    && (forall i :: |h| <= i < |a| ==> a[i] == Null)
  }

  lemma HoleMoves(a: seq<Slot>, h: seq<Object>, idx: nat, j: nat)
    requires Holds(a, h, idx) && idx < |h| && j < |h| && idx != j
    ensures Holds(a[idx := a[j]], Swapped(h, idx, j), j)
  {}

  lemma HoleOpens(a: seq<Slot>, h: seq<Object>, idx: nat)
    requires Holds(a, h, |h|) && idx < |h|
    ensures Holds(a, h, idx) && a[idx] == Full(h[idx])
  {}

  lemma HoleFilled(a: seq<Slot>, h: seq<Object>, idx: nat)
    requires Holds(a, h, idx) && idx < |h|
    ensures Holds(a[idx := Full(h[idx])], h, |h|)
  {}

  lemma HoldsAt(a: seq<Slot>, h: seq<Object>, hole: nat, i: nat)
    requires Holds(a, h, hole) && i < |h| && i != hole
    ensures i < |a| && a[i] == Full(h[i])
  {}

  lemma HoldsDropped(a: seq<Slot>, h: seq<Object>)
    requires Holds(a, h, |h|) && h != []
    ensures Holds(a[|h| - 1 := Null], h[..|h| - 1], |h| - 1)
  {}

  lemma HoldsAppended(a: seq<Slot>, h: seq<Object>, v: Object)
    requires Holds(a, h, |h|) && |h| < |a|
    ensures Holds(a[|h| := Full(v)], h + [v], |h| + 1)
  {}

  lemma HoldsLonger(a: seq<Slot>, a': seq<Slot>, h: seq<Object>)
    requires Holds(a, h, |h|) && a' == a + [Null]
    ensures Holds(a', h, |h|)
  {}

  lemma HoldsReplaced(a: seq<Slot>, h: seq<Object>, idx: nat)
    requires Holds(a, h, |h|) && idx + 1 < |h|
    ensures Holds(a[idx := a[|h| - 1]][|h| - 1 := Null], Replaced(h, idx), |h| - 1)
  {}

  class Heap {
    const cmp: Ordering
    const multiSet: bool
    var slots: array<Slot>
    var items: nat

    /** The objects in the array, in order. */
    ghost var heap: seq<Object>

    ghost predicate Held(hole: nat)
      reads this, slots
    {
      items == |heap| <= slots.Length && Holds(slots[..], heap, hole)
    }

    ghost predicate Valid()
      reads this, slots
    {
      IsOrdering(cmp) && Held(items) && HeapOrdered(cmp, heap)
    }

    constructor (cmp: Ordering, multiSet: bool, size: nat)
      requires IsOrdering(cmp)
      ensures Valid() && heap == [] && fresh(slots) && this.cmp == cmp && this.multiSet == multiSet
    {
      this.cmp, this.multiSet := cmp, multiSet;
      slots := new Slot[size](_ => Null);
      items, heap := 0, [];
    }

    /** find(): the first object, in array order, that is equal to the key. */
    method Find(key: Object) returns (idx: nat)
      requires Valid()
      ensures idx <= items && (idx < items ==> cmp(heap[idx], key) == 0)
      ensures forall i :: 0 <= i < idx ==> cmp(heap[i], key) != 0
    {
      idx := 0;
      while idx < items
        invariant idx <= items && forall i :: 0 <= i < idx ==> cmp(heap[i], key) != 0
      {
        if cmp(slots[idx].value, key) == 0 {
          return;
        }
        idx := idx + 1;
      }
    }

    /** swapUp() */
    method SwapUp(start: nat)
      requires IsOrdering(cmp) && Held(items) && OrderedBelow(cmp, heap, start)
      modifies slots, this`heap
      ensures Valid() && Permuted(old(heap), heap)
    {
      hide HeapOrdered, OrderedBelow, Permuted, Holds, Swapped, IsOrdering;
      var idx := start;
      Reflexive(heap);
      StartsBelow(cmp, heap, idx);
      HoleOpens(slots[..], heap, idx);
      var v := slots[idx].value;
      while idx > 0
        invariant idx < items && Held(idx) && heap[idx] == v && OrderedBelow(cmp, heap, idx)
        invariant Permuted(old(heap), heap)
      {
        var j := (idx - 1) / 2;
        HoldsAt(slots[..], heap, idx, j);
        if cmp(slots[j].value, v) >= 0 {
          break;
        }
        MovedUp(cmp, heap, idx);
        SwappedSame(old(heap), heap, idx, j);
        HoleMoves(slots[..], heap, idx, j);
        SwappedAt(heap, idx, j);
        slots[idx] := slots[j];
        heap := Swapped(heap, idx, j);
        idx := j;
      }
      HoleFilled(slots[..], heap, idx);
      slots[idx] := Full(v);
      SettledUp(cmp, heap, idx);
    }

    /** swapDown() */
    method SwapDown(start: nat)
      requires IsOrdering(cmp) && Held(items) && OrderedAbove(cmp, heap, start)
      modifies slots, this`heap
      ensures Valid() && Permuted(old(heap), heap)
    {
      hide HeapOrdered, OrderedAbove, Permuted, Holds, Swapped, Greatest, IsOrdering;
      var idx := start;
      Reflexive(heap);
      StartsAbove(cmp, heap, idx);
      HoleOpens(slots[..], heap, idx);
      var v := slots[idx].value;
      while true
        invariant idx < items && Held(idx) && heap[idx] == v && OrderedAbove(cmp, heap, idx)
        invariant Permuted(old(heap), heap)
        decreases items - idx
      {
        var j := idx * 2 + 1;
        if j >= items {
          SettledDown(cmp, heap, idx);
          break;
        }
        HoldsAt(slots[..], heap, idx, j);
        if j + 1 < items {
          HoldsAt(slots[..], heap, idx, j + 1);
        }
        if j + 1 < items && cmp(slots[j + 1].value, slots[j].value) > 0 {
          j := j + 1;
        }
        GreatestChild(cmp, heap, idx, j);
        if cmp(v, slots[j].value) >= 0 {
          SettledAbove(cmp, heap, idx, j);
          break;
        }
        MovedDown(cmp, heap, idx, j);
        SwappedSame(old(heap), heap, idx, j);
        HoleMoves(slots[..], heap, idx, j);
        SwappedAt(heap, idx, j);
        slots[idx] := slots[j];
        heap := Swapped(heap, idx, j);
        idx := j;
      }
      HoleFilled(slots[..], heap, idx);
      slots[idx] := Full(v);
    }

    /** removeIdx() */
    method RemoveIdx(idx: nat)
      requires Valid() && idx < items
      modifies slots, this`heap, this`items
      ensures Valid() && old(multiset(heap)) == multiset(heap) + multiset{old(heap)[idx]}
    {
      hide HeapOrdered, OrderedAbove, OrderedBelow, Holds, Replaced;
      HoldsAt(slots[..], heap, items, idx);
      if idx == items - 1 {
        DroppedLast(cmp, heap);
        HoldsDropped(slots[..], heap);
        slots[idx] := Null;
        items := items - 1;
        heap := heap[..items];
        return;
      }
      ReplacedContents(heap, idx);
      ReplacedOrder(cmp, heap, idx);
      HoldsReplaced(slots[..], heap, idx);
      items := items - 1;
      slots[idx] := slots[items];
      slots[items] := Null;
      heap := Replaced(heap, idx);
      HoldsAt(slots[..], heap, items, idx);
      if idx > 0 {
        HoldsAt(slots[..], heap, items, Parent(idx));
      }
      if idx > 0 && cmp(slots[idx].value, slots[(idx - 1) / 2].value) > 0 {
        SwapUp(idx);
      } else {
        SwapDown(idx);
      }
    }

    /** pop(): a greatest object. */
    method Pop() returns (r: Slot)
      requires Valid()
      modifies slots, this`heap, this`items
      ensures Valid()
      ensures r == Null <==> old(heap) == []
      ensures r == Null ==> heap == []
      ensures r.Full? ==> Pops(cmp, old(multiset(heap)), r.value, multiset(heap))
    {
      if items == 0 {
        return Null;
      }
      r := slots[0];
      forall i | 0 <= i < items
        ensures cmp(heap[0], heap[i]) >= 0
      {
        RootGreatest(cmp, heap, i);
      }
      RemoveIdx(0);
    }

    /** remove(): some object equal to the key, if there is one. */
    method Remove(key: Object) returns (ok: bool)
      requires Valid()
      modifies slots, this`heap, this`items
      ensures Valid()
      ensures ok <==> exists i :: 0 <= i < |old(heap)| && cmp(old(heap)[i], key) == 0
      ensures ok ==> exists o :: cmp(o, key) == 0 && old(multiset(heap)) == multiset(heap) + multiset{o}
      ensures !ok ==> heap == old(heap)
    {
      var idx := Find(key);
      ok := idx < items;
      if ok {
        RemoveIdx(idx);
        assert cmp(old(heap)[idx], key) == 0;
      }
    }

    /** add() */
    method Add(v: Object) returns (ok: bool)
      requires Valid()
      modifies this, slots
      ensures Valid() && (slots == old(slots) || fresh(slots))
      ensures ok <==> multiSet || forall i :: 0 <= i < |old(heap)| ==> cmp(old(heap)[i], v) != 0
      ensures multiset(heap) == if ok then old(multiset(heap)) + multiset{v} else old(multiset(heap))
    {
      hide HeapOrdered, OrderedBelow, Holds, IsOrdering;
      if !multiSet {
        var found := Find(v);
        if found < items {
          return false;
        }
      }
      if items == slots.Length {
        slots := Grown(slots);
        HoldsLonger(old(slots[..]), slots[..], heap);
      }
      Appended(cmp, heap, v);
      HoldsAppended(slots[..], heap, v);
      slots[items] := Full(v);
      items := items + 1;
      heap := heap + [v];
      SwapUp(items - 1);
      return true;
    }
  }

  /** Popping until nothing is left gives all objects, in descending order. */
  method PopAll(h: Heap) returns (objs: seq<Object>)
    requires h.Valid()
    modifies h.slots, h`heap, h`items
    ensures h.Valid() && h.heap == [] && multiset(objs) == old(multiset(h.heap))
    ensures forall i, j :: 0 <= i < j < |objs| ==> h.cmp(objs[i], objs[j]) >= 0
  {
    objs := [];
    ghost var hs := [multiset(h.heap)];
    while true
      invariant h.Valid() && |hs| == |objs| + 1 && hs[0] == old(multiset(h.heap)) && hs[|objs|] == multiset(h.heap)
      invariant forall i :: 0 <= i < |objs| ==> Pops(h.cmp, hs[i], objs[i], hs[i + 1])
      decreases |multiset(h.heap)|
    {
      var r := h.Pop();
      if r == Null {
        break;
      }
      objs := objs + [r.value];
      hs := hs + [multiset(h.heap)];
    }
    PopsDescend(h.cmp, hs, objs);
  }

  /** The array with room for one more object. */
  method Grown(slots: array<Slot>) returns (r: array<Slot>)
    ensures fresh(r) && r[..] == slots[..] + [Null]
  {
    r := new Slot[slots.Length + 1](
      i requires 0 <= i <= slots.Length reads slots => if i < slots.Length then slots[i] else Null);
  }

  lemma StartsBelow(cmp: Ordering, h: seq<Object>, idx: nat)
    requires OrderedBelow(cmp, h, idx)
    ensures idx < |h|
  {}

  lemma StartsAbove(cmp: Ordering, h: seq<Object>, idx: nat)
    requires OrderedAbove(cmp, h, idx)
    ensures idx < |h|
  {}

  lemma SettledUp(cmp: Ordering, h: seq<Object>, idx: nat)
    requires OrderedBelow(cmp, h, idx) && (idx == 0 || cmp(h[Parent(idx)], h[idx]) >= 0)
    ensures HeapOrdered(cmp, h)
  {}

  lemma SettledDown(cmp: Ordering, h: seq<Object>, idx: nat)
    requires OrderedAbove(cmp, h, idx) && 2 * idx + 1 >= |h|
    ensures HeapOrdered(cmp, h)
  {}

  lemma GreatestChild(cmp: Ordering, h: seq<Object>, idx: nat, j: nat)
    requires IsOrdering(cmp) && idx < |h| && j < |h|
    requires j == 2 * idx + 1 || j == 2 * idx + 2
    requires j == 2 * idx + 1 ==> j + 1 >= |h| || cmp(h[j + 1], h[j]) <= 0
    requires j == 2 * idx + 2 ==> cmp(h[j], h[j - 1]) > 0
    ensures j > 0 && Parent(j) == idx && Greatest(cmp, h, idx, j)
  {
    forall i | 0 < i < |h| && Parent(i) == idx
      ensures cmp(h[j], h[i]) >= 0
    {
      assert i == 2 * idx + 1 || i == 2 * idx + 2;
      Either(cmp, h[j], h[i]);
      Either(cmp, h[i], h[j]);
    }
  }

  lemma SettledAbove(cmp: Ordering, h: seq<Object>, idx: nat, j: nat)
    requires IsOrdering(cmp) && OrderedAbove(cmp, h, idx) && j < |h| && cmp(h[idx], h[j]) >= 0
    requires Greatest(cmp, h, idx, j)
    ensures HeapOrdered(cmp, h)
  {
    forall i | 0 < i < |h|
      ensures cmp(h[Parent(i)], h[i]) >= 0
    {
      if Parent(i) == idx {
        AtLeastTransitive(cmp, h[idx], h[j], h[i]);
      }
    }
  }
}
