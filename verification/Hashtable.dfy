/** Hashtable: chained hashing with tagged slots and rehashing (Hashtable.cpp, dlist.cpp). */
module Hashtable {
  import opened Arithmetic
  import opened Objects

  /** hash(object, size) */
  type HashFunction = (Object, nat) -> nat

  /** A slot of _array: null, one object, or, when tagged, a list of several in ascending order. */
  datatype Slot = Empty | One(value: Object) | Many(list: seq<Object>)

  datatype Found = Nothing | At(idx: nat, k: nat)

  /** Every object has a place in the table, and objects that compare equal have the same. */
  ghost predicate IsHash(cmp: Ordering, hash: HashFunction) {
    && (forall o, size :: size > 0 ==> hash(o, size) < size)
    && (forall a, b, size :: cmp(a, b) == 0 ==> hash(a, size) == hash(b, size))
  }

  function Objs(s: Slot): seq<Object> {
    match s
    case Empty => []
    case One(o) => [o]
    case Many(l) => l
  }

  ghost predicate Sorted(cmp: Ordering, l: seq<Object>) {
    forall i, j :: 0 <= i < j < |l| ==> cmp(l[i], l[j]) <= 0
  }

  ghost predicate NoEquals(cmp: Ordering, l: seq<Object>) {
    forall i, j :: 0 <= i < j < |l| ==> cmp(l[i], l[j]) != 0
  }

  /** All objects in the table. */
  ghost function All(slots: seq<Slot>): multiset<Object> {
    if slots == [] then multiset{} else multiset(Objs(slots[0])) + All(slots[1..])
  }

  lemma {:induction false} AllSet(slots: seq<Slot>, i: nat, x: Slot)
    requires i < |slots|
    ensures All(slots[i := x]) + multiset(Objs(slots[i])) == All(slots) + multiset(Objs(x))
  {
    hide Objs;
    var u := slots[i := x];
    if i == 0 {
      assert u[1..] == slots[1..];
    } else {
      assert u[1..] == slots[1..][i - 1 := x];
      AllSet(slots[1..], i - 1, x);
      var h := multiset(Objs(slots[0]));
      assert All(u) + multiset(Objs(slots[i])) == h + (All(u[1..]) + multiset(Objs(slots[i])));
      assert All(slots) + multiset(Objs(x)) == h + (All(slots[1..]) + multiset(Objs(x)));
    }
  }

  lemma {:induction false} AllHas(slots: seq<Slot>, o: Object)
    ensures o in All(slots) <==> exists i :: 0 <= i < |slots| && o in Objs(slots[i])
  {
    hide Objs;
    if slots != [] {
      AllHas(slots[1..], o);
      if o in All(slots) && o !in Objs(slots[0]) {
        var i :| 0 <= i < |slots[1..]| && o in Objs(slots[1..][i]);
        assert slots[i + 1] == slots[1..][i];
      }
      if i :| 0 <= i < |slots| && o in Objs(slots[i]) {
        assert i > 0 ==> slots[1..][i - 1] == slots[i];
      }
    }
  }

  /** A tagged slot has at least two objects, in order, and no equal ones unless the table is a multiset. */
  ghost predicate ListOk(cmp: Ordering, multiSet: bool, s: Slot) {
    && (s.Many? ==> |s.list| >= 2)
    && Sorted(cmp, Objs(s)) && (multiSet || NoEquals(cmp, Objs(s)))
  }

  /** The objects of slot i hash to i. */
  ghost predicate SlotOk(cmp: Ordering, hash: HashFunction, multiSet: bool, slots: seq<Slot>, i: nat)
    requires i < |slots|
  {
    ListOk(cmp, multiSet, slots[i]) && forall o :: o in Objs(slots[i]) ==> hash(o, |slots|) == i
  }

  ghost predicate TableOk(cmp: Ordering, hash: HashFunction, multiSet: bool, slots: seq<Slot>) {
    forall i :: 0 <= i < |slots| ==> SlotOk(cmp, hash, multiSet, slots, i)
  }

  ghost predicate Has(cmp: Ordering, objects: multiset<Object>, key: Object) {
    exists o :: o in objects && cmp(o, key) == 0
  }

  ghost predicate ListHas(cmp: Ordering, l: seq<Object>, key: Object) {
    exists o :: o in l && cmp(o, key) == 0
  }

  /** Looking only into the slot that the hash names misses nothing. */
  lemma OnlySlot(cmp: Ordering, hash: HashFunction, multiSet: bool, slots: seq<Slot>, key: Object)
    requires IsHash(cmp, hash) && TableOk(cmp, hash, multiSet, slots) && |slots| > 0
    ensures Has(cmp, All(slots), key) <==> ListHas(cmp, Objs(slots[hash(key, |slots|)]), key)
  {
    var idx := hash(key, |slots|);
    if o :| o in All(slots) && cmp(o, key) == 0 {
      AllHas(slots, o);
      var i :| 0 <= i < |slots| && o in Objs(slots[i]);
      assert SlotOk(cmp, hash, multiSet, slots, i);
    }
    if o :| o in Objs(slots[idx]) && cmp(o, key) == 0 {
      AllHas(slots, o);
    }
  }

  // ----- Chains -----

  function Inserted(l: seq<Object>, i: nat, v: Object): (r: seq<Object>)
    requires i <= |l|
    ensures |r| == |l| + 1 && multiset(r) == multiset(l) + multiset{v}
  {
    assert l == l[..i] + l[i..];
    l[..i] + [v] + l[i..]
  }

  lemma InsertedSorted(cmp: Ordering, l: seq<Object>, i: nat, v: Object)
    requires IsOrdering(cmp) && Sorted(cmp, l) && i <= |l|
    requires (forall k :: 0 <= k < i ==> cmp(l[k], v) <= 0) && (forall k :: i <= k < |l| ==> cmp(l[k], v) >= 0)
    ensures Sorted(cmp, Inserted(l, i, v))
  {
    var r := Inserted(l, i, v);
    forall a, b | 0 <= a < b < |r|
      ensures cmp(r[a], r[b]) <= 0
    {
      assert a != i ==> r[a] == l[if a < i then a else a - 1];
      assert b != i ==> r[b] == l[if b < i then b else b - 1];
    }
  }

  lemma InsertedNoEquals(cmp: Ordering, l: seq<Object>, i: nat, v: Object)
    requires IsOrdering(cmp) && NoEquals(cmp, l) && i <= |l| && forall k :: 0 <= k < |l| ==> cmp(l[k], v) != 0
    ensures NoEquals(cmp, Inserted(l, i, v))
  {
    var r := Inserted(l, i, v);
    forall a, b | 0 <= a < b < |r|
      ensures cmp(r[a], r[b]) != 0
    {
      assert a != i ==> r[a] == l[if a < i then a else a - 1];
      assert b != i ==> r[b] == l[if b < i then b else b - 1];
      assert cmp(v, r[b]) == 0 ==> cmp(r[b], v) == 0;
    }
  }

  /** list_findInsertionPoint(), sorted: the first object not below the key, or else the last one. */
  method FindInsertionPoint(cmp: Ordering, l: seq<Object>, key: Object) returns (i: nat, res: int)
    requires IsOrdering(cmp) && Sorted(cmp, l) && l != []
    ensures i < |l| && res == cmp(l[i], key) && (res < 0 ==> i == |l| - 1)
    ensures forall k :: 0 <= k < i ==> cmp(l[k], key) < 0
    ensures res >= 0 ==> forall k :: i <= k < |l| ==> cmp(l[k], key) >= 0
    ensures res == 0 <==> ListHas(cmp, l, key)
  {
    i := 0;
    while true
      invariant i < |l| && forall k :: 0 <= k < i ==> cmp(l[k], key) < 0
      decreases |l| - i
    {
      res := cmp(l[i], key);
      if res == 0 || res > 0 || i == |l| - 1 {
        break;
      }
      i := i + 1;
    }
    if res >= 0 {
      forall k | i <= k < |l|
        ensures cmp(l[k], key) >= 0 && (res > 0 ==> cmp(l[k], key) > 0)
      {
        NotBelow(cmp, l[i], l[k], key, i == k);
      }
    }
  }

  lemma NotBelow(cmp: Ordering, a: Object, b: Object, key: Object, same: bool)
    requires IsOrdering(cmp) && cmp(a, key) >= 0 && (if same then a == b else cmp(a, b) <= 0)
    ensures cmp(b, key) >= 0 && (cmp(a, key) > 0 ==> cmp(b, key) > 0)
  {
    assert cmp(key, a) <= 0;
    assert cmp(b, key) <= 0 ==> same || cmp(a, key) <= 0;
  }

  /** How add() changes a slot: an object becomes a list, and a list grows in order. */
  method AddToSlot(cmp: Ordering, multiSet: bool, s: Slot, v: Object) returns (ok: bool, s': Slot)
    requires IsOrdering(cmp) && ListOk(cmp, multiSet, s)
    ensures ok <==> multiSet || !ListHas(cmp, Objs(s), v)
    ensures if ok then ListOk(cmp, multiSet, s') && multiset(Objs(s')) == multiset(Objs(s)) + multiset{v} else s' == s
  {
    hide Sorted, NoEquals, ListHas, Inserted;
    match s
    case Empty =>
      EmptyHas(cmp, v);
      SortedOne(cmp, v);
      return true, One(v);
    case One(o) =>
      OneHas(cmp, o, v);
      if !multiSet && cmp(o, v) == 0 {
        return false, s;
      }
      var i, res := FindInsertionPoint(cmp, [o], v);
      ok, s' := true, Many(Inserted([o], if res < 0 then i + 1 else i, v));
      InsertedOk(cmp, multiSet, [o], i, res, v);
    case Many(l) =>
      var i, res := FindInsertionPoint(cmp, l, v);
      if !multiSet && res == 0 {
        return false, s;
      }
      ok, s' := true, Many(Inserted(l, if res < 0 then i + 1 else i, v));
      InsertedOk(cmp, multiSet, l, i, res, v);
  }

  lemma SortedOne(cmp: Ordering, v: Object)
    ensures Sorted(cmp, [v]) && NoEquals(cmp, [v])
  {}

  lemma InsertedOk(cmp: Ordering, multiSet: bool, l: seq<Object>, i: nat, res: int, v: Object)
    requires IsOrdering(cmp) && Sorted(cmp, l) && i < |l| && (res < 0 ==> i == |l| - 1) && res == cmp(l[i], v)
    requires forall k :: 0 <= k < i ==> cmp(l[k], v) < 0
    requires res >= 0 ==> forall k :: i <= k < |l| ==> cmp(l[k], v) >= 0
    requires multiSet || (NoEquals(cmp, l) && !ListHas(cmp, l, v))
    ensures var r := Inserted(l, if res < 0 then i + 1 else i, v);
      Sorted(cmp, r) && (multiSet || NoEquals(cmp, r))
  {
    hide Sorted, NoEquals, Inserted;
    var at := if res < 0 then i + 1 else i;
    InsertedSorted(cmp, l, at, v);
    if !multiSet {
      assert forall k :: 0 <= k < |l| ==> l[k] in l;
      InsertedNoEquals(cmp, l, at, v);
    }
  }

  // ----- The table -----

  const PRIMES: seq<nat> := [
    7, 13, 23, 53, 97, 193, 389, 769, 1543, 3079, 6151, 12289, 24593, 49157, 98317, 196613, 393241, 786433, 1572869,
    3145739, 6291469, 12582917, 25165843, 50331653, 100663319, 167772161, 201326611, 234881033, 335544323, 402653189,
    469762049, 671088667, 805306457, 939524129, 1342177283, 1610612741, 1879048201, 2684354591, 3221225473, 3758096411,
    5368709131, 6442450967, 7516192771]

  const LARGEST: nat := 7516192771

  /** The first of the sizes in the list that is not below the one asked for. */
  ghost predicate NextSize(newSize: nat, p: nat) {
    exists i :: IsNext(newSize, i) && p == PRIMES[i]
  }

  ghost predicate IsNext(newSize: nat, i: int) {
    0 <= i < |PRIMES| && PRIMES[i] >= newSize && forall k :: 0 <= k < i ==> PRIMES[k] < newSize
  }

  /** How many objects a table of this size takes before it grows. */
  function LoadLimit(size: nat, maxLF: nat): nat {
    size * maxLF / 100
  }

  class Hashtable {
    const cmp: Ordering
    const hash: HashFunction
    const multiSet: bool
    const maxLF: nat
    var slots: array<Slot>
    var limit: nat
    var items: nat

    ghost predicate Valid()
      reads this, slots
    {
      && IsOrdering(cmp) && IsHash(cmp, hash) && TableOk(cmp, hash, multiSet, slots[..])
      && items == |All(slots[..])| && (slots.Length == 0 ==> limit == 0)
    }

    ghost function Contents(): multiset<Object>
      reads this, slots
    {
      All(slots[..])
    }

    constructor (cmp: Ordering, hash: HashFunction, multiSet: bool, maxLF: nat)
      requires IsOrdering(cmp) && IsHash(cmp, hash)
      ensures Valid() && Contents() == multiset{} && fresh(slots)
      ensures this.cmp == cmp && this.hash == hash && this.multiSet == multiSet && this.maxLF == maxLF
    {
      this.cmp, this.hash, this.multiSet, this.maxLF := cmp, hash, multiSet, maxLF;
      slots := new Slot[0](_ => Empty);
      limit, items := 0, 0;
    }

    /** find(): agrees with a scan of everything in the table. */
    method Find(key: Object) returns (r: Found)
      requires Valid()
      ensures r == Nothing <==> !Has(cmp, Contents(), key)
      ensures r.At? ==> r.idx < slots.Length && r.k < |Objs(slots[r.idx])| && cmp(Objs(slots[r.idx])[r.k], key) == 0
    {
      hide TableOk, All, Has, ListHas;
      if items == 0 {
        NoObjects(cmp, slots[..], key);
        return Nothing;
      }
      AnySlots(slots[..]);
      var idx := hash(key, slots.Length);
      OnlySlot(cmp, hash, multiSet, slots[..], key);
      SlotOfTable(cmp, hash, multiSet, slots[..], idx);
      match slots[idx]
      case Empty =>
        EmptyHas(cmp, key);
        return Nothing;
      case One(o) =>
        OneHas(cmp, o, key);
        return if cmp(o, key) == 0 then At(idx, 0) else Nothing;
      case Many(l) =>
        var k, res := FindInsertionPoint(cmp, l, key);
        return if res == 0 then At(idx, k) else Nothing;
    }

    /** add(): an equal object is turned away, unless the table is a multiset; a full table grows first. */
    method Add(v: Object) returns (ok: bool)
      requires Valid() && items + 2 < WORD && (items < limit || slots.Length < LARGEST)
      modifies this, slots
      ensures Valid() && (slots == old(slots) || fresh(slots))
      ensures ok <==> multiSet || !Has(cmp, old(Contents()), v)
      ensures Contents() == old(Contents()) + if ok then multiset{v} else multiset{}
      ensures old(items < limit) ==> slots == old(slots) && limit == old(limit)
      ensures old(items >= limit) ==>
        NextSize(old(slots.Length) + 1, slots.Length) && limit == LoadLimit(slots.Length, maxLF)
      decreases if items < limit then 0 else 3
    {
      hide TableOk, All, Has, ListHas, ListOk, IsHash, IsOrdering, NextSize, LoadLimit;
      if items >= limit {
        Grow(slots.Length + 1);
      }
      var idx := HashOf(v);
      ghost var before := slots[..];
      SlotOfTable(cmp, hash, multiSet, before, idx);
      OnlySlot(cmp, hash, multiSet, before, v);
      var s;
      ok, s := AddToSlot(cmp, multiSet, slots[idx], v);
      if ok {
        TableSet(cmp, hash, multiSet, before, idx, s, v);
        slots[idx] := s;
        items := items + 1;
      }
    }

    /** remove(): the object that was found, and no other; a list that is left with one object becomes that object. */
    method RemoveAt(idx: nat, k: nat)
      requires Valid() && idx < slots.Length && k < |Objs(slots[idx])|
      modifies slots, this`items
      ensures Valid() && old(Contents()) == Contents() + multiset{Objs(old(slots[idx]))[k]}
    {
      hide TableOk, All, ListOk, IsHash, IsOrdering;
      ghost var before := slots[..];
      SlotOfTable(cmp, hash, multiSet, before, idx);
      ghost var v := Objs(slots[idx])[k];
      var s := Empty;
      match slots[idx] {
        case Empty =>
        case One(_) =>
          EmptyOk(cmp, multiSet);
        case Many(l) =>
          s := if |l| == 2 then One(l[1 - k]) else Many(l[..k] + l[k + 1..]);
          WithoutOk(cmp, multiSet, l, k);
      }
      SlotWithout(slots[idx], s, k);
      TableUnset(cmp, hash, multiSet, before, idx, s, v);
      slots[idx] := s;
      items := items - 1;
      assert slots[..] == before[idx := s];
    }

    /** remove() */
    method Remove(key: Object) returns (ok: bool)
      requires Valid()
      modifies slots, this`items
      ensures Valid() && (ok <==> Has(cmp, old(Contents()), key))
      ensures ok ==> exists o :: cmp(o, key) == 0 && old(Contents()) == Contents() + multiset{o}
      ensures !ok ==> Contents() == old(Contents())
    {
      hide TableOk, All, IsHash, IsOrdering, Has;
      var r := Find(key);
      ok := r.At?;
      if ok {
        ghost var o := Objs(slots[r.idx])[r.k];
        RemoveAt(r.idx, r.k);
        assert cmp(o, key) == 0 && old(Contents()) == Contents() + multiset{o};
      }
    }

    method HashOf(v: Object) returns (idx: nat)
      requires IsHash(cmp, hash) && slots.Length > 0
      ensures idx == hash(v, slots.Length) < slots.Length
    {
      idx := hash(v, slots.Length);
    }

    /** The objects of one old slot move to their places, one by one; none is turned away. */
    method Rehome(l: seq<Object>, ghost all: seq<Slot>, ghost i: nat)
      requires Valid() && limit == WORD - 1 && |All(all)| + 2 < WORD
      requires TableOk(cmp, hash, multiSet, all) && i < |all| && l == Objs(all[i]) && Contents() == All(all[..i])
      modifies this, slots
      ensures Valid() && Contents() == All(all[..i]) + multiset(l) && slots == old(slots) && limit == old(limit)
      decreases 1
    {
      hide TableOk, All, Has, ListHas, ListOk, IsHash, IsOrdering;
      assert l[..0] == [];
      for k := 0 to |l|
        invariant Valid() && Contents() == All(all[..i]) + multiset(l[..k]) && slots == old(slots) && limit == WORD - 1
      {
        NotYetThere(cmp, hash, multiSet, all, i, k);
        assert l[..k + 1] == l[..k] + [l[k]];
        var ok := Add(l[k]);
      }
      assert l[..|l|] == l;
    }

    /** grow(): every object moves to its place in the larger table, and no call of add() under way grows it again. */
    method Grow(newSize: nat)
      requires Valid() && items + 2 < WORD && newSize <= LARGEST && limit <= items
      modifies this
      ensures Valid() && (slots == old(slots) || fresh(slots)) && Contents() == old(Contents())
      ensures slots.Length >= newSize && items == old(items)
      ensures if newSize <= old(slots.Length) then slots == old(slots) && limit == old(limit)
              else NextSize(newSize, slots.Length) && limit == LoadLimit(slots.Length, maxLF)
      decreases 2
    {
      hide TableOk, All, Has, ListHas, ListOk, IsHash, IsOrdering, Objs, NextSize, LoadLimit;
      if newSize <= slots.Length {
        return;
      }
      var size := PrimeFor(newSize);
      var oldSlots := slots;
      slots := new Slot[size](_ => Empty);
      items, limit := 0, WORD - 1;
      EmptyTable(cmp, hash, multiSet, slots[..]);
      ghost var all := oldSlots[..];
      AllNone(all);
      for i := 0 to oldSlots.Length
        invariant oldSlots[..] == all && fresh(slots) && slots.Length == size && limit == WORD - 1
        invariant Valid() && Contents() == All(all[..i])
      {
        AllNext(all, i);
        ObjsOf(oldSlots[i]);
        match oldSlots[i]
        case Empty =>
        case One(o) =>
          Rehome([o], all, i);
        case Many(l) =>
          Rehome(l, all, i);
      }
      AllNone(all);
      limit := LoadLimit(size, maxLF);
    }
  }

  lemma NoObjects(cmp: Ordering, slots: seq<Slot>, key: Object)
    requires |All(slots)| == 0
    ensures !Has(cmp, All(slots), key)
  {
    hide All;
  }

  lemma AnySlots(slots: seq<Slot>)
    requires |All(slots)| > 0
    ensures |slots| > 0
  {}

  lemma SlotOfTable(cmp: Ordering, hash: HashFunction, multiSet: bool, slots: seq<Slot>, i: nat)
    requires TableOk(cmp, hash, multiSet, slots) && i < |slots|
    ensures SlotOk(cmp, hash, multiSet, slots, i)
  {}

  lemma EmptyHas(cmp: Ordering, key: Object)
    ensures !ListHas(cmp, [], key)
  {}

  lemma OneHas(cmp: Ordering, o: Object, key: Object)
    ensures ListHas(cmp, [o], key) <==> cmp(o, key) == 0
  {
    assert o in [o];
  }

  /** The first prime of the list that is large enough. */
  method PrimeFor(newSize: nat) returns (p: nat)
    requires newSize <= LARGEST
    ensures NextSize(newSize, p) && p >= newSize && p > 0
  {
    var primes := PRIMES;
    PrimesSpan(primes);
    var i := 0;
    while primes[i] < newSize
      invariant 0 <= i < |primes| && forall k :: 0 <= k < i ==> primes[k] < newSize
      decreases |primes| - i
    {
      i := i + 1;
    }
    p := primes[i];
    assert IsNext(newSize, i);
  }

  lemma PrimesSpan(primes: seq<nat>)
    requires primes == PRIMES
    ensures |primes| > 0 && primes[|primes| - 1] == LARGEST && forall k :: 0 <= k < |primes| ==> primes[k] > 0
  {}

  lemma Cancel(x: multiset<Object>, y: multiset<Object>, a: multiset<Object>)
    requires x + a == y + a
    ensures x == y
  {
    forall o
      ensures x[o] == y[o]
    {
      assert (x + a)[o] == (y + a)[o];
    }
  }

  lemma ObjsOf(s: Slot)
    ensures match s case Empty => Objs(s) == [] case One(o) => Objs(s) == [o] case Many(l) => Objs(s) == l
  {}

  lemma AllNone(all: seq<Slot>)
    ensures All(all[..0]) == multiset{} && All(all[..|all|]) == All(all)
  {
    assert all[..|all|] == all;
  }

  lemma {:induction false} AllConcat(a: seq<Slot>, b: seq<Slot>)
    ensures All(a + b) == All(a) + All(b)
  {
    if a == [] {
      assert a + b == b;
    } else {
      assert (a + b)[1..] == a[1..] + b;
      AllConcat(a[1..], b);
    }
  }

  lemma AllNext(all: seq<Slot>, i: nat)
    requires i < |all|
    ensures All(all[..i + 1]) == All(all[..i]) + multiset(Objs(all[i]))
    ensures |All(all[..i + 1])| <= |All(all)|
  {
    hide Objs;
    assert all[..i + 1] == all[..i] + [all[i]];
    AllConcat(all[..i], [all[i]]);
    assert All([all[i]]) == multiset(Objs(all[i]));
    assert all == all[..i + 1] + all[i + 1..];
    AllConcat(all[..i + 1], all[i + 1..]);
  }

  /** The next object to be moved has no equal among those already there, which are fewer than all. */
  lemma NotYetThere(cmp: Ordering, hash: HashFunction, multiSet: bool, all: seq<Slot>, i: nat, k: nat)
    requires IsOrdering(cmp) && IsHash(cmp, hash) && TableOk(cmp, hash, multiSet, all) && i < |all|
             && k < |Objs(all[i])|
    ensures var there := All(all[..i]) + multiset(Objs(all[i])[..k]);
      |there| < |All(all)| && (multiSet || !Has(cmp, there, Objs(all[i])[k]))
  {
    hide All, TableOk, Objs;
    var l := Objs(all[i]);
    AllNext(all, i);
    Shorter(l, k);
    if !multiSet {
      forall o | o in All(all[..i]) + multiset(l[..k])
        ensures cmp(o, l[k]) != 0
      {
        if o in All(all[..i]) {
          NoEqualBefore(cmp, hash, multiSet, all, i, k, o);
        } else {
          SlotOfTable(cmp, hash, multiSet, all, i);
          assert o in l[..k];
        }
      }
    }
  }

  lemma Shorter(l: seq<Object>, k: nat)
    requires k < |l|
    ensures |multiset(l[..k])| < |multiset(l)|
  {
    assert l == l[..k] + l[k..];
  }

  lemma NoEqualBefore(cmp: Ordering, hash: HashFunction, multiSet: bool, all: seq<Slot>, i: nat, k: nat, o: Object)
    requires IsHash(cmp, hash) && TableOk(cmp, hash, multiSet, all) && i < |all| && k < |Objs(all[i])|
             && o in All(all[..i])
    ensures cmp(o, Objs(all[i])[k]) != 0
  {
    hide All, Objs;
    AllHas(all[..i], o);
    var j :| 0 <= j < |all[..i]| && o in Objs(all[..i][j]);
    assert SlotOk(cmp, hash, multiSet, all, j) && SlotOk(cmp, hash, multiSet, all, i);
    assert Objs(all[i])[k] in Objs(all[i]);
  }

  lemma EmptyTable(cmp: Ordering, hash: HashFunction, multiSet: bool, slots: seq<Slot>)
    requires forall i :: 0 <= i < |slots| ==> slots[i] == Empty
    ensures TableOk(cmp, hash, multiSet, slots) && All(slots) == multiset{}
  {
    if slots != [] {
      EmptyTable(cmp, hash, multiSet, slots[1..]);
    }
  }

  lemma EmptyOk(cmp: Ordering, multiSet: bool)
    ensures ListOk(cmp, multiSet, Empty)
  {}

  lemma WithoutOk(cmp: Ordering, multiSet: bool, l: seq<Object>, k: nat)
    requires ListOk(cmp, multiSet, Many(l)) && k < |l|
    ensures ListOk(cmp, multiSet, if |l| == 2 then One(l[1 - k]) else Many(l[..k] + l[k + 1..]))
  {
    var r := l[..k] + l[k + 1..];
    assert forall i :: 0 <= i < |r| ==> r[i] == l[if i < k then i else i + 1];
  }

  lemma SlotWithout(s: Slot, s': Slot, k: nat)
    requires k < |Objs(s)|
    requires match s case Empty => true case One(_) => s' == Empty
             case Many(l) => s' == if |l| == 2 then One(l[1 - k]) else Many(l[..k] + l[k + 1..])
    ensures multiset(Objs(s)) == multiset(Objs(s')) + multiset{Objs(s)[k]}
  {
    match s
    case Empty =>
    case One(_) =>
    case Many(l) =>
      Without(l, k);
      if |l| == 2 {
        OneLeft(l, k);
      }
  }

  lemma Without(l: seq<Object>, k: nat)
    requires k < |l|
    ensures multiset(l) == multiset(l[..k] + l[k + 1..]) + multiset{l[k]}
  {
    assert l == l[..k] + ([l[k]] + l[k + 1..]);
  }

  lemma OneLeft(l: seq<Object>, k: nat)
    requires |l| == 2 && k < 2
    ensures l[..k] + l[k + 1..] == [l[1 - k]]
  {}

  lemma TableUnset(cmp: Ordering, hash: HashFunction, multiSet: bool, slots: seq<Slot>, i: nat, s: Slot, v: Object)
    requires TableOk(cmp, hash, multiSet, slots) && i < |slots| && ListOk(cmp, multiSet, s)
    requires multiset(Objs(slots[i])) == multiset(Objs(s)) + multiset{v}
    ensures TableOk(cmp, hash, multiSet, slots[i := s]) && All(slots) == All(slots[i := s]) + multiset{v}
  {
    hide ListOk, All, Objs;
    AllSet(slots, i, s);
    var slots' := slots[i := s];
    var a := multiset(Objs(s));
    assert All(slots) + a == (All(slots') + multiset{v}) + a;
    Cancel(All(slots), All(slots') + multiset{v}, a);
    assert SlotOk(cmp, hash, multiSet, slots, i);
    forall o | o in Objs(s)
      ensures o in Objs(slots[i])
    {
      assert o in multiset(Objs(slots[i]));
    }
    forall j | 0 <= j < |slots'|
      ensures SlotOk(cmp, hash, multiSet, slots', j)
    {
      assert SlotOk(cmp, hash, multiSet, slots, j);
    }
  }

  /** A slot that takes one more object, of its own hash, keeps the table right. */
  lemma TableSet(cmp: Ordering, hash: HashFunction, multiSet: bool, slots: seq<Slot>, i: nat, s: Slot, v: Object)
    requires TableOk(cmp, hash, multiSet, slots) && i < |slots| && ListOk(cmp, multiSet, s) && hash(v, |slots|) == i
    requires multiset(Objs(s)) == multiset(Objs(slots[i])) + multiset{v}
    ensures TableOk(cmp, hash, multiSet, slots[i := s]) && All(slots[i := s]) == All(slots) + multiset{v}
  {
    hide ListOk, All, Objs;
    AllSet(slots, i, s);
    var slots' := slots[i := s];
    var a := multiset(Objs(slots[i]));
    assert All(slots') + a == (All(slots) + multiset{v}) + a;
    Cancel(All(slots'), All(slots) + multiset{v}, a);
    assert SlotOk(cmp, hash, multiSet, slots, i);
    forall o | o in Objs(s)
      ensures hash(o, |slots|) == i
    {
      assert o in multiset(Objs(s));
      assert o in Objs(slots[i]) || o == v;
    }
    forall j | 0 <= j < |slots'|
      ensures SlotOk(cmp, hash, multiSet, slots', j)
    {
      assert SlotOk(cmp, hash, multiSet, slots, j);
    }
  }
}
