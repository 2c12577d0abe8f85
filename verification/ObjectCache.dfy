/** ObjectCache: a least-recently-used cache, where a hash table and a list hold the same objects (ObjectCache.cpp). */
module ObjectCache {
  import opened Objects
  import opened ListNode
  import List
  import ListSort

  type Key = int

  /** CachedObject: the object, and the list node that holds it. */
  datatype CachedObject = CachedObject(value: Object, node: ListNode)

  /** The objects of a sequence of nodes, most recently used first. */
  ghost function Order(ns: seq<ListNode>): (r: seq<Object>)
    ensures |r| == |ns|
  {
    seq(|ns|, i requires 0 <= i < |ns| => if ns[i].item.Val? then ns[i].item.value else Object(0))
  }

  /** The table has the node's object, which knows the node. */
  ghost predicate Known(key: Object -> Key, ht: map<Key, CachedObject>, n: ListNode) {
    n.item.Val? && var o := n.item.value; key(o) in ht && ht[key(o)] == CachedObject(o, n)
  }

  /** The table's object has this key, and is in the node that it knows. */
  ghost predicate Filed(key: Object -> Key, k: Key, c: CachedObject) {
    c.node.item == Val(c.value) && key(c.value) == k
  }

  /** Table and list hold the same objects, and each object in the table knows its node. */
  ghost predicate Agree(key: Object -> Key, ht: map<Key, CachedObject>, ns: seq<ListNode>) {
    && (forall n :: n in ns ==> Known(key, ht, n))
    && (forall k :: k in ht ==> ht[k].node in ns && Filed(key, k, ht[k]))
    && |ht| == |ns|
  }

  /** The list is in the order of the last uses, the latest first. */
  ghost predicate ByUse(key: Object -> Key, lastUse: map<Key, nat>, clock: nat, order: seq<Object>) {
    && (forall i :: 0 <= i < |order| ==> key(order[i]) in lastUse && lastUse[key(order[i])] < clock)
    && (forall i, j :: 0 <= i < j < |order| ==> lastUse[key(order[i])] > lastUse[key(order[j])])
  }

  function MovedToFront<T>(s: seq<T>, i: nat): (r: seq<T>)
    requires i < |s|
    ensures |r| == |s|
  {
    [s[i]] + s[..i] + s[i + 1..]
  }

  /** Using object i now puts it in front. */
  lemma UsedNow(key: Object -> Key, lastUse: map<Key, nat>, clock: nat, order: seq<Object>, i: nat)
    requires ByUse(key, lastUse, clock, order) && i < |order|
    requires forall a, b :: 0 <= a < b < |order| ==> key(order[a]) != key(order[b])
    ensures ByUse(key, lastUse[key(order[i]) := clock], clock + 1, MovedToFront(order, i))
  {
    var r := MovedToFront(order, i);
    assert forall p :: 1 <= p < |r| ==> r[p] == order[if p <= i then p - 1 else p];
  }

  lemma AddedNow(key: Object -> Key, lastUse: map<Key, nat>, clock: nat, order: seq<Object>, o: Object)
    requires ByUse(key, lastUse, clock, order) && forall i :: 0 <= i < |order| ==> key(order[i]) != key(o)
    ensures ByUse(key, lastUse[key(o) := clock], clock + 1, [o] + order)
  {
    var r := [o] + order;
    assert forall p :: 1 <= p < |r| ==> r[p] == order[p - 1];
  }

  lemma DroppedUse(key: Object -> Key, lastUse: map<Key, nat>, clock: nat, order: seq<Object>, i: nat)
    requires ByUse(key, lastUse, clock, order) && i < |order|
    ensures ByUse(key, lastUse, clock, order[..i] + order[i + 1..])
  {
    var r := order[..i] + order[i + 1..];
    assert forall p :: 0 <= p < |r| ==> r[p] == order[if p < i then p else p + 1];
  }

  /** Where a node is. */
  ghost function IndexOf(ns: seq<ListNode>, n: ListNode): (i: nat)
    requires n in ns
    ensures i < |ns| && ns[i] == n
  {
    if ns[0] == n then 0 else IndexOf(ns[1..], n) + 1
  }

  lemma KeysDistinct(key: Object -> Key, ht: map<Key, CachedObject>, ns: seq<ListNode>)
    requires Agree(key, ht, ns) && Distinct(ns)
    ensures forall a, b :: 0 <= a < b < |ns| ==> key(Order(ns)[a]) != key(Order(ns)[b])
  {
    forall a, b | 0 <= a < b < |ns|
      ensures key(Order(ns)[a]) != key(Order(ns)[b])
    {
      assert ns[a] != ns[b] && Known(key, ht, ns[a]) && Known(key, ht, ns[b]);
    }
  }

  lemma AgreeSame(key: Object -> Key, ht: map<Key, CachedObject>, ns: seq<ListNode>, ms: seq<ListNode>)
    requires Agree(key, ht, ns) && |ms| == |ns| && forall n :: n in ms <==> n in ns
    ensures Agree(key, ht, ms)
  {
    hide Known, Filed;
  }

  lemma AgreeAdded(key: Object -> Key, ht: map<Key, CachedObject>, ns: seq<ListNode>, o: Object, n: ListNode)
    requires Agree(key, ht, ns) && key(o) !in ht && n.item == Val(o) && n !in ns
    ensures Agree(key, ht[key(o) := CachedObject(o, n)], [n] + ns)
  {
    var ms, ht' := [n] + ns, ht[key(o) := CachedObject(o, n)];
    assert ht'.Keys == ht.Keys + {key(o)};
    forall m | m in ms
      ensures Known(key, ht', m)
    {
      assert m != n ==> Known(key, ht, m);
    }
  }

  /** Exactly the removed node leaves. */
  lemma OthersStay(ns: seq<ListNode>, i: nat)
    requires Distinct(ns) && i < |ns|
    ensures var ms := ns[..i] + ns[i + 1..];
      |ms| == |ns| - 1 && forall n :: n in ms <==> n in ns && n != ns[i]
  {
    var ms := ns[..i] + ns[i + 1..];
    forall n | n in ns && n != ns[i]
      ensures n in ms
    {
      var p := IndexOf(ns, n);
      assert ms[if p < i then p else p - 1] == n;
    }
    assert forall p :: 0 <= p < |ms| ==> ms[p] == ns[if p < i then p else p + 1];
  }

  lemma AgreeRemoved(key: Object -> Key, ht: map<Key, CachedObject>, ns: seq<ListNode>, k: Key, i: nat)
    requires Agree(key, ht, ns) && Distinct(ns) && k in ht && i < |ns| && ns[i] == ht[k].node
    ensures Agree(key, ht - {k}, ns[..i] + ns[i + 1..])
  {
    hide Distinct;
    var ms, ht' := ns[..i] + ns[i + 1..], ht - {k};
    OthersStay(ns, i);
    assert ht.Keys == ht'.Keys + {k};
    forall n | n in ms
      ensures Known(key, ht', n)
    {
      assert Known(key, ht, n);
    }
    forall q | q in ht'
      ensures ht'[q].node in ms
    {
      assert Filed(key, q, ht[q]) && Filed(key, k, ht[k]);
    }
  }

  lemma DistinctMoved(ns: seq<ListNode>, i: nat)
    requires Distinct(ns) && i < |ns|
    ensures Distinct(MovedToFront(ns, i)) && forall n :: n in MovedToFront(ns, i) <==> n in ns
    ensures Order(MovedToFront(ns, i)) == MovedToFront(Order(ns), i)
    ensures MovedToFront(ns, i) == if ns[i] == ns[0] then ns else List.Moved(ns, i, 0)
  {
    var ms := MovedToFront(ns, i);
    assert forall p :: 0 <= p < |ms| ==> ms[p] == ns[if p == 0 then i else if p <= i then p - 1 else p];
    forall n | n in ns
      ensures n in ms
    {
      var p := IndexOf(ns, n);
      assert ms[if p < i then p + 1 else if p == i then 0 else p] == n;
    }
  }

  /** What moving a node to the front does to everything that the cache promises. */
  lemma Accessed(
      key: Object -> Key, ht: map<Key, CachedObject>, lastUse: map<Key, nat>, clock: nat, ns: seq<ListNode>, i: nat)
    requires Distinct(ns) && Agree(key, ht, ns) && ByUse(key, lastUse, clock, Order(ns)) && i < |ns|
    ensures var ms := MovedToFront(ns, i);
      && Distinct(ms) && Agree(key, ht, ms) && Order(ms) == MovedToFront(Order(ns), i)
      && ByUse(key, lastUse[key(Order(ns)[i]) := clock], clock + 1, Order(ms))
      && ms == if ns[i] == ns[0] then ns else List.Moved(ns, i, 0)
  {
    hide Agree, ByUse, Distinct, Order, MovedToFront;
    KeysDistinct(key, ht, ns);
    UsedNow(key, lastUse, clock, Order(ns), i);
    DistinctMoved(ns, i);
    AgreeSame(key, ht, ns, MovedToFront(ns, i));
  }

  lemma DistinctDropped(ns: seq<ListNode>, i: nat)
    requires Distinct(ns) && i < |ns|
    ensures Distinct(ns[..i] + ns[i + 1..])
    ensures Order(ns[..i] + ns[i + 1..]) == Order(ns)[..i] + Order(ns)[i + 1..]
  {
    var ms := ns[..i] + ns[i + 1..];
    assert forall p :: 0 <= p < |ms| ==> ms[p] == ns[if p < i then p else p + 1];
  }

  class ObjectCache {
    const key: Object -> Key
    const list: List.List
    var size: nat
    var frozen: bool
    var ht: map<Key, CachedObject>
    var items: nat

    /** When each key was last added, or accessed while not frozen. */
    ghost var clock: nat
    ghost var lastUse: map<Key, nat>

    ghost predicate Valid()
      reads this, list, NodeSet(list.nodes + [list.back])
    {
      && list.Valid() && Distinct(list.nodes) && Agree(key, ht, list.nodes)
      && items == |ht| <= size && size >= 1
      && ByUse(key, lastUse, clock, Objects())
    }

    /** The cached objects, most recently used first. */
    ghost function Objects(): seq<Object>
      reads this, list
    {
      Order(list.nodes)
    }

    ghost predicate Cached(k: Key)
      reads this, list
    {
      exists o :: o in Objects() && key(o) == k
    }

    constructor (key: Object -> Key, cmp: Ordering, size: nat)
      requires IsOrdering(cmp) && size >= 1
      ensures Valid() && Objects() == [] && !frozen && this.size == size && this.key == key
      ensures lastUse == map[] && fresh(list) && fresh(list.back)
    {
      this.key, this.size, frozen, ht, items, clock, lastUse := key, size, false, map[], 0, 0, map[];
      list := new List.List(cmp);
    }

    /** access(ListNode*): an object that is used goes to the front, unless the cache is frozen. */
    method AccessNode(node: ListNode, ghost i: nat)
      requires Valid() && i < |list.nodes| && list.nodes[i] == node
      modifies this`clock, this`lastUse, list, NodeSet(list.nodes + [list.back])
      ensures fresh(NodeSet(list.nodes) - old(NodeSet(list.nodes)))
      ensures Valid() && Objects() == if frozen then old(Objects()) else MovedToFront(old(Objects()), i)
      ensures lastUse == if frozen then old(lastUse) else old(lastUse)[key(old(Objects())[i]) := old(clock)]
      ensures clock == if frozen then old(clock) else old(clock) + 1
    {
      hide ByUse, Agree, Distinct, Order, MovedToFront, Linked, ListSort.HasObjects, IsOrdering;
      if frozen {
        return;
      }
      Accessed(key, ht, lastUse, clock, list.nodes, i);
      lastUse, clock := lastUse[key(Objects()[i]) := clock], clock + 1;
      if node != list.front {
        list.MoveBefore(node, list.front, i, 0);
      }
    }

    /** The node at index i, and its object, leave the cache. */
    method Drop(node: ListNode, ghost i: nat)
      requires Valid() && i < |list.nodes| && list.nodes[i] == node
      modifies this`ht, this`items, list, NodeSet(list.nodes + [list.back])
      ensures Valid() && Objects() == old(Objects())[..i] + old(Objects())[i + 1..] && |ht| == |Objects()|
      ensures forall n :: n in list.nodes ==> n in old(list.nodes)
      ensures forall k :: k in ht ==> k in old(ht)
    {
      hide ByUse, Agree, Distinct;
      ghost var ns := list.nodes;
      DistinctDropped(ns, i);
      DroppedUse(key, lastUse, clock, Objects(), i);
      NodeOfTable(key, ht, ns, i);
      AgreeRemoved(key, ht, ns, key(node.item.value), i);
      ht := ht - {key(node.item.value)};
      list.RemoveNode(node, i);
      items := |ht|;
      AgreeSize(key, ht, list.nodes);
    }

    /** The second half of addCache(): a new object goes to the front. */
    method AddNew(o: Object)
      requires Valid() && |ht| < size && key(o) !in ht
      modifies this`ht, this`items, this`clock, this`lastUse, list, NodeSet(list.nodes + [list.back])
      ensures fresh(NodeSet(list.nodes) - old(NodeSet(list.nodes)))
      ensures Valid() && Objects() == [o] + old(Objects())
      ensures lastUse == old(lastUse)[key(o) := old(clock)] && clock == old(clock) + 1
    {
      hide ByUse, Agree, Distinct;
      ghost var ns := list.nodes;
      OtherKeys(key, ht, ns, o);
      AddedNow(key, lastUse, clock, Objects(), o);
      var node := list.PushFront(o);
      AgreeAdded(key, ht, ns, o, node);
      AddedOrder(ns, node);
      ht := ht[key(o) := CachedObject(o, node)];
      items := |ht|;
      lastUse, clock := lastUse[key(o) := clock], clock + 1;
    }

    /** addCache(): a full cache makes room by dropping the object that was used least recently. */
    method AddCache(o: Object) returns (ok: bool)
      requires Valid()
      modifies this`ht, this`items, this`clock, this`lastUse, list, NodeSet(list.nodes + [list.back])
      ensures fresh(NodeSet(list.nodes) - old(NodeSet(list.nodes)))
      ensures Valid() && (ok <==> !old(Cached(key(o))))
      ensures !ok ==> Objects() == old(Objects()) && lastUse == old(lastUse) && clock == old(clock)
      ensures ok ==>
        Objects() == [o] + (if |old(Objects())| == size then old(Objects())[..size - 1] else old(Objects()))
      ensures ok && |old(Objects())| == size ==> LeastRecent(key, old(lastUse), old(Objects()), size - 1)
      ensures ok ==> lastUse == old(lastUse)[key(o) := old(clock)] && clock == old(clock) + 1
    {
      hide ByUse, Agree, Distinct, LeastRecent;
      CachedIff(key, ht, list.nodes, key(o));
      if key(o) in ht {
        return false;
      }
      AgreeSize(key, ht, list.nodes);
      if |ht| == size {
        LastNode(list);
        LastIsLeastRecent(key, lastUse, clock, Objects());
        var last := list.back.prev;
        Drop(last, |list.nodes| - 1);
      }
      AddNew(o);
      ok := true;
    }

    /** access(): an object not cached yet is added, and any other moves to the front; a frozen cache ignores it. */
    method Access(o: Object)
      requires Valid()
      modifies this`ht, this`items, this`clock, this`lastUse, list, NodeSet(list.nodes + [list.back])
      ensures fresh(NodeSet(list.nodes) - old(NodeSet(list.nodes)))
      ensures Valid() && (frozen ==> Objects() == old(Objects()))
      ensures !frozen ==> Objects() != [] && key(Objects()[0]) == key(o)
      ensures !frozen && old(Cached(key(o))) ==>
        exists i :: 0 <= i < |old(Objects())| && Objects() == MovedToFront(old(Objects()), i)
      ensures !frozen && !old(Cached(key(o))) ==>
        Objects() == [o] + (if |old(Objects())| == size then old(Objects())[..size - 1] else old(Objects()))
      ensures lastUse == if frozen then old(lastUse) else old(lastUse)[key(o) := old(clock)]
      ensures clock == if frozen then old(clock) else old(clock) + 1
    {
      hide ByUse, Agree, Distinct;
      if frozen {
        return;
      }
      CachedIff(key, ht, list.nodes, key(o));
      if key(o) !in ht {
        var _ := AddCache(o);
        return;
      }
      TableNode(key, ht, list.nodes, key(o));
      ghost var i := IndexOf(list.nodes, ht[key(o)].node);
      assert Objects()[i] == ht[key(o)].value;
      AccessNode(ht[key(o)].node, i);
    }

    /** find(): what it finds moves to the front, unless the caller or the cache says frozen. */
    method Find(k: Key, keepOrder: bool) returns (found: bool, o: Object)
      requires Valid()
      modifies this`clock, this`lastUse, list, NodeSet(list.nodes + [list.back])
      ensures fresh(NodeSet(list.nodes) - old(NodeSet(list.nodes)))
      ensures Valid() && (found <==> old(Cached(k))) && (found ==> key(o) == k && o in old(Objects()))
      ensures !found || keepOrder || frozen ==> Objects() == old(Objects())
      ensures found && !keepOrder && !frozen ==>
        exists i :: 0 <= i < |old(Objects())| && old(Objects())[i] == o && Objects() == MovedToFront(old(Objects()), i)
      ensures lastUse == if !found || keepOrder || frozen then old(lastUse) else old(lastUse)[k := old(clock)]
      ensures clock == if !found || keepOrder || frozen then old(clock) else old(clock) + 1
    {
      hide ByUse, Agree, Distinct;
      CachedIff(key, ht, list.nodes, k);
      if k !in ht {
        return false, Object(0);
      }
      TableNode(key, ht, list.nodes, k);
      ghost var i := IndexOf(list.nodes, ht[k].node);
      found, o := true, ht[k].value;
      assert Objects()[i] == o;
      if !keepOrder {
        AccessNode(ht[k].node, i);
      }
    }

    /** removeCache(): the object with that key, and no other. */
    method RemoveCache(o: Object) returns (ok: bool)
      requires Valid()
      modifies this`ht, this`items, list, NodeSet(list.nodes + [list.back])
      ensures fresh(NodeSet(list.nodes) - old(NodeSet(list.nodes)))
      ensures Valid() && (ok <==> old(Cached(key(o)))) && (!ok ==> Objects() == old(Objects()))
      ensures ok ==> exists i :: 0 <= i < |old(Objects())| && key(old(Objects())[i]) == key(o)
                              && Objects() == old(Objects())[..i] + old(Objects())[i + 1..]
    {
      hide ByUse, Agree, Distinct;
      CachedIff(key, ht, list.nodes, key(o));
      if key(o) !in ht {
        return false;
      }
      TableNode(key, ht, list.nodes, key(o));
      ghost var i := IndexOf(list.nodes, ht[key(o)].node);
      assert Objects()[i] == ht[key(o)].value;
      Drop(ht[key(o)].node, i);
      ok := true;
    }
  }

  lemma TableNode(key: Object -> Key, ht: map<Key, CachedObject>, ns: seq<ListNode>, k: Key)
    requires Agree(key, ht, ns) && k in ht
    ensures ht[k].node in ns && ht[k].node.item == Val(ht[k].value) && key(ht[k].value) == k
  {}

  /** Object i is the one whose last use lies furthest back. */
  ghost predicate LeastRecent(key: Object -> Key, lastUse: map<Key, nat>, order: seq<Object>, i: nat) {
    && i < |order| && key(order[i]) in lastUse
    && forall j :: 0 <= j < |order| && j != i ==>
         key(order[j]) in lastUse && lastUse[key(order[i])] < lastUse[key(order[j])]
  }

  lemma LastIsLeastRecent(key: Object -> Key, lastUse: map<Key, nat>, clock: nat, order: seq<Object>)
    requires ByUse(key, lastUse, clock, order) && order != []
    ensures LeastRecent(key, lastUse, order, |order| - 1)
  {}

  lemma OtherKeys(key: Object -> Key, ht: map<Key, CachedObject>, ns: seq<ListNode>, o: Object)
    requires Agree(key, ht, ns) && key(o) !in ht
    ensures forall i :: 0 <= i < |ns| ==> key(Order(ns)[i]) != key(o)
  {
    forall i | 0 <= i < |ns|
      ensures key(Order(ns)[i]) != key(o)
    {
      assert Known(key, ht, ns[i]);
    }
  }

  lemma AddedOrder(ns: seq<ListNode>, n: ListNode)
    requires Distinct(ns) && n !in ns && n.item.Val?
    ensures Distinct([n] + ns) && Order([n] + ns) == [n.item.value] + Order(ns)
  {}

  lemma NodeOfTable(key: Object -> Key, ht: map<Key, CachedObject>, ns: seq<ListNode>, i: nat)
    requires Agree(key, ht, ns) && i < |ns|
    ensures ns[i].item.Val? && key(ns[i].item.value) in ht && ht[key(ns[i].item.value)].node == ns[i]
  {
    assert Known(key, ht, ns[i]);
  }

  lemma AgreeSize(key: Object -> Key, ht: map<Key, CachedObject>, ns: seq<ListNode>)
    requires Agree(key, ht, ns)
    ensures |ht| == |ns| == |Order(ns)|
  {}

  lemma LastNode(l: List.List)
    requires l.Valid() && l.nodes != []
    ensures l.back.prev == l.nodes[|l.nodes| - 1]
  {
    List.LinkOf(l.nodes + [l.back], |l.nodes|);
  }

  /** A key is in the table exactly when an object with that key is in the list. */
  lemma CachedIff(key: Object -> Key, ht: map<Key, CachedObject>, ns: seq<ListNode>, k: Key)
    requires Agree(key, ht, ns)
    ensures k in ht <==> exists o :: o in Order(ns) && key(o) == k
  {
    if k in ht {
      var i := IndexOf(ns, ht[k].node);
      assert Order(ns)[i] == ht[k].value;
    }
    if o :| o in Order(ns) && key(o) == k {
      var i :| 0 <= i < |ns| && Order(ns)[i] == o;
      assert Known(key, ht, ns[i]);
    }
  }
}
