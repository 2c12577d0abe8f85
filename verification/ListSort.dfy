/** What List::sort computes: a stable sort of the nodes, by merging and by insertion (List.cpp). */
module ListSort {
  import opened Objects
  import opened ListNode

  /** compareObjects(), where the sentinel is greater than every object. */
  function Compare(cmp: Ordering, a: ListNode, b: ListNode): int {
    if a.item == MaxObject then 1 else if b.item == MaxObject then -1 else cmp(a.item.value, b.item.value)
  }

  ghost predicate HasObjects(ns: seq<ListNode>) {
    forall i :: 0 <= i < |ns| ==> ns[i].item.Val?
  }

  /** The objects are in ascending order. */
  ghost predicate Sorted(cmp: Ordering, ns: seq<ListNode>) {
    HasObjects(ns) && forall i, j :: 0 <= i < j < |ns| ==> cmp(ns[i].item.value, ns[j].item.value) <= 0
  }

  /** The nodes whose objects are equal to the key, in order. */
  ghost function Class(cmp: Ordering, ns: seq<ListNode>, key: Object): (r: seq<ListNode>)
    ensures forall n :: n in r ==> n in ns
  {
    if ns == [] then []
    else (if ns[0].item.Val? && cmp(ns[0].item.value, key) == 0 then [ns[0]] else []) + Class(cmp, ns[1..], key)
  }

  lemma {:induction false} ClassConcat(cmp: Ordering, a: seq<ListNode>, b: seq<ListNode>, key: Object)
    ensures Class(cmp, a + b, key) == Class(cmp, a, key) + Class(cmp, b, key)
  {
    if a == [] {
      assert a + b == b;
    } else {
      assert (a + b)[1..] == a[1..] + b;
      ClassConcat(cmp, a[1..], b, key);
    }
  }

  lemma {:induction false} ClassEmpty(cmp: Ordering, ns: seq<ListNode>, key: Object)
    requires forall i :: 0 <= i < |ns| && ns[i].item.Val? ==> cmp(ns[i].item.value, key) != 0
    ensures Class(cmp, ns, key) == []
  {
    if ns != [] {
      ClassEmpty(cmp, ns[1..], key);
    }
  }

  /** ms is a sort of ns that keeps equal objects in their order. */
  ghost predicate SortOf(cmp: Ordering, ns: seq<ListNode>, ms: seq<ListNode>) {
    && Sorted(cmp, ms) && multiset(ms) == multiset(ns)
    && forall key :: Class(cmp, ms, key) == Class(cmp, ns, key)
  }

  lemma Transitive(cmp: Ordering, a: ListNode, b: ListNode, c: ListNode)
    requires IsOrdering(cmp) && a.item.Val? && b.item.Val? && c.item.Val?
    requires Compare(cmp, a, b) <= 0 && Compare(cmp, b, c) <= 0
    ensures Compare(cmp, a, c) <= 0
  {}

  lemma Flip(cmp: Ordering, a: ListNode, b: ListNode)
    requires IsOrdering(cmp) && a.item.Val? && b.item.Val?
    ensures Compare(cmp, a, b) <= 0 <==> Compare(cmp, b, a) >= 0
    ensures Compare(cmp, b, a) <= 0 <==> Compare(cmp, a, b) >= 0
  {}

  /** Objects equal to the same key are equal to each other; so one strictly below another is in another class. */
  lemma OtherClass(cmp: Ordering, a: Object, b: Object, key: Object)
    requires IsOrdering(cmp) && cmp(a, key) == 0 && cmp(b, key) == 0
    ensures cmp(a, b) == 0
  {
    assert cmp(key, b) >= 0 && cmp(key, b) <= 0;
    assert cmp(a, b) <= 0;
    assert cmp(key, a) <= 0;
    assert cmp(b, a) <= 0;
  }

  // ----- Merging -----

  ghost function Merged(cmp: Ordering, a: seq<ListNode>, b: seq<ListNode>): (r: seq<ListNode>)
    ensures multiset(r) == multiset(a) + multiset(b)
    decreases |a| + |b|
  {
    if a == [] then b else if b == [] then a
    else if Compare(cmp, a[0], b[0]) <= 0 then
      assert a == [a[0]] + a[1..];
      [a[0]] + Merged(cmp, a[1..], b)
    else
      assert b == [b[0]] + b[1..];
      [b[0]] + Merged(cmp, a, b[1..])
  }

  lemma SortedCons(cmp: Ordering, n: ListNode, ns: seq<ListNode>)
    requires Sorted(cmp, ns) && n.item.Val? && forall x :: x in ns ==> Compare(cmp, n, x) <= 0
    ensures Sorted(cmp, [n] + ns)
  {
    forall i | 0 <= i < |ns|
      ensures cmp(n.item.value, ns[i].item.value) <= 0
    {
      assert Compare(cmp, n, ns[i]) <= 0;
    }
  }

  lemma {:induction false} MergedSorted(cmp: Ordering, a: seq<ListNode>, b: seq<ListNode>)
    requires IsOrdering(cmp) && Sorted(cmp, a) && Sorted(cmp, b)
    ensures Sorted(cmp, Merged(cmp, a, b))
    decreases |a| + |b|
  {
    if a != [] && b != [] {
      if Compare(cmp, a[0], b[0]) <= 0 {
        MergedSorted(cmp, a[1..], b);
        MergedAbove(cmp, a[0], a[1..], b);
        SortedCons(cmp, a[0], Merged(cmp, a[1..], b));
      } else {
        Flip(cmp, a[0], b[0]);
        MergedSorted(cmp, a, b[1..]);
        MergedAbove(cmp, b[0], b[1..], a);
        MergedAbove(cmp, b[0], a, b[1..]);
        SortedCons(cmp, b[0], Merged(cmp, a, b[1..]));
      }
    }
  }

  /** A node that is not above the first of either part is not above any of the merged nodes. */
  lemma MergedAbove(cmp: Ordering, n: ListNode, a: seq<ListNode>, b: seq<ListNode>)
    requires IsOrdering(cmp) && n.item.Val? && Sorted(cmp, a) && Sorted(cmp, b)
    requires forall x :: x in a ==> Compare(cmp, n, x) <= 0
    requires b != [] ==> Compare(cmp, n, b[0]) <= 0
    ensures forall x :: x in Merged(cmp, a, b) ==> Compare(cmp, n, x) <= 0
  {
    hide IsOrdering;
    forall x | x in Merged(cmp, a, b)
      ensures Compare(cmp, n, x) <= 0
    {
      assert x in multiset(a) + multiset(b);
      if x !in a {
        assert x in b;
        var i :| 0 <= i < |b| && b[i] == x;
        if i > 0 {
          Transitive(cmp, n, b[0], x);
        }
      }
    }
  }

  /** A node strictly below the first of a sorted sequence has no equal in it. */
  lemma NoEqual(cmp: Ordering, a: seq<ListNode>, n: ListNode, key: Object)
    requires IsOrdering(cmp) && Sorted(cmp, a) && a != [] && n.item.Val? && Compare(cmp, a[0], n) > 0
    requires cmp(n.item.value, key) == 0
    ensures Class(cmp, a, key) == []
  {
    hide Class, IsOrdering;
    forall i | 0 <= i < |a|
      ensures cmp(a[i].item.value, key) != 0
    {
      AboveClass(cmp, n.item.value, a[0].item.value, a[i].item.value, key);
    }
    ClassEmpty(cmp, a, key);
  }

  /** An object strictly below another is in no class of that one or of what follows it. */
  lemma AboveClass(cmp: Ordering, n: Object, a: Object, b: Object, key: Object)
    requires IsOrdering(cmp) && cmp(a, n) > 0 && (a == b || cmp(a, b) <= 0) && cmp(n, key) == 0
    ensures cmp(b, key) != 0
  {
    if cmp(b, key) == 0 {
      OtherClass(cmp, b, n, key);
      assert false;
    }
  }

  lemma ClassFirst(cmp: Ordering, n: ListNode, ns: seq<ListNode>, key: Object)
    ensures Class(cmp, [n] + ns, key) == (if n.item.Val? && cmp(n.item.value, key) == 0 then [n] else [])
            + Class(cmp, ns, key)
  {
    assert ([n] + ns)[1..] == ns;
  }

  /** Merging keeps equal objects in order: those of the first part before those of the second. */
  lemma {:induction false} MergedClass(cmp: Ordering, a: seq<ListNode>, b: seq<ListNode>, key: Object)
    requires IsOrdering(cmp) && Sorted(cmp, a) && Sorted(cmp, b)
    ensures Class(cmp, Merged(cmp, a, b), key) == Class(cmp, a, key) + Class(cmp, b, key)
    decreases |a| + |b|
  {
    if a == [] || b == [] {
      assert Class(cmp, [], key) == [];
    } else {
      assert a == [a[0]] + a[1..] && b == [b[0]] + b[1..];
      if Compare(cmp, a[0], b[0]) <= 0 {
        MergedClass(cmp, a[1..], b, key);
        MergedClassLeft(cmp, a[0], a[1..], b, Merged(cmp, a[1..], b), key);
      } else {
        MergedClass(cmp, a, b[1..], key);
        MergedClassRight(cmp, a, b[0], b[1..], Merged(cmp, a, b[1..]), key);
      }
    }
  }

  lemma MergedClassLeft(cmp: Ordering, n: ListNode, a: seq<ListNode>, b: seq<ListNode>, m: seq<ListNode>, key: Object)
    requires Class(cmp, m, key) == Class(cmp, a, key) + Class(cmp, b, key)
    ensures Class(cmp, [n] + m, key) == Class(cmp, [n] + a, key) + Class(cmp, b, key)
  {
    hide Class;
    ClassFirst(cmp, n, a, key);
    ClassFirst(cmp, n, m, key);
  }

  lemma MergedClassRight(cmp: Ordering, a: seq<ListNode>, n: ListNode, b: seq<ListNode>, m: seq<ListNode>, key: Object)
    requires IsOrdering(cmp) && Sorted(cmp, a) && a != [] && n.item.Val? && Compare(cmp, a[0], n) > 0
    requires Class(cmp, m, key) == Class(cmp, a, key) + Class(cmp, b, key)
    ensures Class(cmp, [n] + m, key) == Class(cmp, a, key) + Class(cmp, [n] + b, key)
  {
    hide Class, IsOrdering, Sorted;
    ClassFirst(cmp, n, b, key);
    ClassFirst(cmp, n, m, key);
    if cmp(n.item.value, key) == 0 {
      NoEqual(cmp, a, n, key);
    }
  }

  // ----- Insertion -----

  /** n put behind the last node whose object is not greater. */
  ghost function Inserted(cmp: Ordering, s: seq<ListNode>, n: ListNode): (r: seq<ListNode>)
    ensures multiset(r) == multiset(s) + multiset{n}
  {
    if s == [] then [n]
    else
      var p, l := s[..|s| - 1], s[|s| - 1];
      assert s == p + [l];
      if Compare(cmp, n, l) >= 0 then s + [n] else Inserted(cmp, p, n) + [l]
  }

  /** The first k nodes sorted by insertion. */
  ghost function Insertion(cmp: Ordering, ns: seq<ListNode>): (r: seq<ListNode>)
    ensures multiset(r) == multiset(ns)
  {
    if ns == [] then []
    else
      assert ns == ns[..|ns| - 1] + [ns[|ns| - 1]];
      Inserted(cmp, Insertion(cmp, ns[..|ns| - 1]), ns[|ns| - 1])
  }

  lemma SortedSnoc(cmp: Ordering, ns: seq<ListNode>, n: ListNode)
    requires Sorted(cmp, ns) && n.item.Val? && forall x :: x in ns ==> Compare(cmp, x, n) <= 0
    ensures Sorted(cmp, ns + [n])
  {
    forall i | 0 <= i < |ns|
      ensures cmp(ns[i].item.value, n.item.value) <= 0
    {
      assert Compare(cmp, ns[i], n) <= 0;
    }
  }

  /** No object of a sorted sequence is above the last. */
  lemma NoneAboveLast(cmp: Ordering, s: seq<ListNode>)
    requires Sorted(cmp, s) && s != []
    ensures var p, l := s[..|s| - 1], s[|s| - 1];
      forall x :: x in p ==> Compare(cmp, x, l) <= 0
  {}

  /** What is not less than the last of a sorted sequence is not less than any of it. */
  lemma AllUpTo(cmp: Ordering, s: seq<ListNode>, n: ListNode)
    requires IsOrdering(cmp) && Sorted(cmp, s) && s != [] && n.item.Val? && Compare(cmp, s[|s| - 1], n) <= 0
    ensures forall x :: x in s ==> Compare(cmp, x, n) <= 0
  {
    hide IsOrdering, Compare;
    NoneAboveLast(cmp, s);
    forall x | x in s
      ensures Compare(cmp, x, n) <= 0
    {
      var i :| 0 <= i < |s| && s[i] == x;
      if i < |s| - 1 {
        assert x in s[..|s| - 1];
        Transitive(cmp, x, s[|s| - 1], n);
      }
    }
  }

  lemma {:induction false} InsertedSorted(cmp: Ordering, s: seq<ListNode>, n: ListNode)
    requires IsOrdering(cmp) && Sorted(cmp, s) && n.item.Val?
    ensures Sorted(cmp, Inserted(cmp, s, n))
  {
    hide IsOrdering, Compare;
    if s != [] {
      var p, l := s[..|s| - 1], s[|s| - 1];
      Flip(cmp, n, l);
      if Compare(cmp, n, l) >= 0 {
        AllUpTo(cmp, s, n);
        SortedSnoc(cmp, s, n);
      } else {
        InsertedSorted(cmp, p, n);
        NoneAboveLast(cmp, s);
        forall x | x in Inserted(cmp, p, n)
          ensures Compare(cmp, x, l) <= 0
        {
          assert x in multiset(p) + multiset{n};
        }
        SortedSnoc(cmp, Inserted(cmp, p, n), l);
      }
    }
  }

  /** The new node comes behind all equal ones. */
  lemma {:induction false} InsertedClass(cmp: Ordering, s: seq<ListNode>, n: ListNode, key: Object)
    requires IsOrdering(cmp) && HasObjects(s) && n.item.Val?
    ensures Class(cmp, Inserted(cmp, s, n), key) == Class(cmp, s + [n], key)
  {
    if s == [] {
      assert s + [n] == [n];
    } else {
      var p, l := s[..|s| - 1], s[|s| - 1];
      assert s == p + [l];
      if Compare(cmp, n, l) < 0 {
        InsertedClass(cmp, p, n, key);
        InsertedClassStep(cmp, p, l, n, key);
      }
    }
  }

  lemma InsertedClassStep(cmp: Ordering, p: seq<ListNode>, l: ListNode, n: ListNode, key: Object)
    requires IsOrdering(cmp) && l.item.Val? && n.item.Val? && Compare(cmp, n, l) < 0
    requires Class(cmp, Inserted(cmp, p, n), key) == Class(cmp, p + [n], key)
    ensures Class(cmp, Inserted(cmp, p, n) + [l], key) == Class(cmp, p + [l] + [n], key)
  {
    hide Class, Inserted, IsOrdering;
    ClassConcat(cmp, Inserted(cmp, p, n), [l], key);
    ClassConcat(cmp, p, [n], key);
    ClassConcat(cmp, p + [l], [n], key);
    ClassConcat(cmp, p, [l], key);
    ClassOne(cmp, l, key);
    ClassOne(cmp, n, key);
    if cmp(n.item.value, key) == 0 && cmp(l.item.value, key) == 0 {
      OtherClass(cmp, n.item.value, l.item.value, key);
    }
  }

  lemma ClassOne(cmp: Ordering, n: ListNode, key: Object)
    ensures Class(cmp, [n], key) == if n.item.Val? && cmp(n.item.value, key) == 0 then [n] else []
  {}

  lemma {:induction false} InsertionSorts(cmp: Ordering, ns: seq<ListNode>)
    requires IsOrdering(cmp) && HasObjects(ns)
    ensures SortOf(cmp, ns, Insertion(cmp, ns))
  {
    if ns != [] {
      var p, l := ns[..|ns| - 1], ns[|ns| - 1];
      assert ns == p + [l];
      InsertionSorts(cmp, p);
      var s := Insertion(cmp, p);
      InsertedSorted(cmp, s, l);
      forall key
        ensures Class(cmp, Inserted(cmp, s, l), key) == Class(cmp, ns, key)
      {
        InsertedClass(cmp, s, l, key);
        ClassConcat(cmp, s, [l], key);
        ClassConcat(cmp, p, [l], key);
      }
    }
  }

  lemma MergeSorts(cmp: Ordering, l: seq<ListNode>, r: seq<ListNode>, ls: seq<ListNode>, rs: seq<ListNode>)
    requires IsOrdering(cmp) && SortOf(cmp, l, ls) && SortOf(cmp, r, rs)
    ensures SortOf(cmp, l + r, Merged(cmp, ls, rs))
  {
    MergedSorted(cmp, ls, rs);
    forall key
      ensures Class(cmp, Merged(cmp, ls, rs), key) == Class(cmp, l + r, key)
    {
      MergedClass(cmp, ls, rs, key);
      ClassConcat(cmp, l, r, key);
    }
  }
}
