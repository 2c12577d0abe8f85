/** RingBuffer called by one thread at a time: a bounded first-in first-out queue (RingBuffer.h). */
module RingBuffer {
  import opened Arithmetic
  import opened Tickets
  import opened RingBufferSteps

  /**
   * All values ever enqueued, in ticket order, of which the first deq have left again: the others are in the slots of
   * their tickets, and the rest of the round, up to the head again, is empty.
   */
  ghost predicate Holds(slots: seq<Slot>, n: nat, deq: nat, history: seq<Value>) {
    && |slots| == Pow2(n) && deq <= |history| <= deq + Pow2(n)
    && (forall k :: deq <= k < |history| ==> slots[SlotOf(k, Pow2(n))] == Full(history[k]))
    && (forall k :: |history| <= k < deq + Pow2(n) ==> slots[SlotOf(k, Pow2(n))] == Null)
  }

  lemma Enqueued(slots: seq<Slot>, n: nat, deq: nat, history: seq<Value>, v: Value)
    requires Holds(slots, n, deq, history) && |history| < deq + Pow2(n)
    ensures var i := SlotOf(|history|, Pow2(n));
      slots[i] == Null && Holds(slots[i := Full(v)], n, deq, history + [v])
  {
    hide SlotOf, Pow2;
    forall k | deq <= k < deq + Pow2(n) && k != |history|
      ensures SlotOf(k, Pow2(n)) != SlotOf(|history|, Pow2(n))
    {
      SlotsDistinct(n, if k < |history| then k else |history|, if k < |history| then |history| else k);
    }
  }

  lemma Dequeued(slots: seq<Slot>, n: nat, deq: nat, history: seq<Value>)
    requires Holds(slots, n, deq, history) && deq < |history|
    ensures var i := SlotOf(deq, Pow2(n));
      slots[i] == Full(history[deq]) && Holds(slots[i := Null], n, deq + 1, history)
  {
    hide SlotOf, Pow2;
    forall k | deq < k < deq + Pow2(n)
      ensures SlotOf(k, Pow2(n)) != SlotOf(deq, Pow2(n))
    {
      SlotsDistinct(n, deq, k);
    }
    NextRound(deq, n);
  }

  /** A full round later the tickets are at the same slot again. */
  lemma NextRound(k: nat, n: nat)
    ensures SlotOf(k + Pow2(n), Pow2(n)) == SlotOf(k, Pow2(n))
  {
    ModPlusMultiple(9 * k, 9, Pow2(n));
    assert 9 * (k + Pow2(n)) == 9 * k + 9 * Pow2(n);
  }

  class RingBuffer {
    var mask: nat
    var countMax: nat
    var size: nat
    var slots: array<Slot>
    var countLB: nat
    var countUB: nat
    var head: nat
    var tail: nat

    /** size == 2^n; history and deq determine the queue. */
    ghost var n: nat
    ghost var deq: nat
    ghost var history: seq<Value>

    ghost predicate Valid()
      reads this, slots
    {
      && Sized() && Holds(slots[..], n, deq, history)
      && |history| - deq <= countMax
      && countLB == OFFSET + |history| - deq && countUB == |history| - deq
      && head == (9 * deq) % WORD && tail == (9 * |history|) % WORD
    }

    ghost predicate Sized()
      reads this
    {
      n <= 63 && size == slots.Length == Pow2(n) && mask == size - 1 && countMax <= size
    }

    ghost function Queue(): seq<Value>
      reads this, slots
      requires Valid()
    {
      history[deq..]
    }

    /** set(): the number of slots is the least power of two that is at least the capacity. */
    constructor (capacity: nat)
      requires capacity <= WORD / 2
      ensures Valid() && fresh(slots) && Queue() == [] && countMax == capacity
      ensures size == 1 || size < 2 * capacity
    {
      hide SlotOf;
      var sz := 1;
      ghost var e := 0;
      while sz < capacity
        invariant sz == Pow2(e) && e <= 63 && (sz == 1 || sz < 2 * capacity)
        decreases WORD - sz
      {
        PowerFits(e, capacity);
        sz := (2 * sz) % WORD;
        e := e + 1;
      }
      size := sz;
      mask := sz - 1;
      countLB, countUB, countMax := OFFSET, 0, capacity;
      head, tail := 0, 0;
      n, deq, history := e, 0, [];
      slots := new Slot[sz](_ => Null);
    }

    /** count() */
    method Count() returns (c: int)
      requires Valid()
      ensures c == |Queue()|
    {
      c := if countLB >= OFFSET then countLB - OFFSET else 0;
    }

    /** enQ(): fails exactly when the queue holds countMax values. */
    method EnQ(v: Value) returns (ok: bool)
      requires Valid()
      modifies this, slots
      ensures Valid() && slots == old(slots) && countMax == old(countMax)
      ensures ok <==> old(|Queue()|) < countMax
      ensures Queue() == if ok then old(Queue()) + [v] else old(Queue())
    {
      hide Holds, Pow2, SlotOf, Inc, Dec;
      if countUB >= countMax {
        return false;
      }
      HoldsSize(slots[..], n, deq, history);
      CounterFits(n, countUB + 1);
      countUB := Inc(countUB, 1);
      AdvancePosition(|history|, n);
      var pos := tail % size;
      tail := Inc(tail, 9);
      Enqueued(slots[..], n, deq, history, v);
      var stored := false;
      while !stored
        modifies slots
        invariant slots[..] == if stored then old(slots[..])[pos := Full(v)] else old(slots[..])
        decreases !stored
      {
        if slots[pos] == Null {
          slots[pos] := Full(v);
          stored := true;
        }
      }
      history := history + [v];
      countLB := Inc(countLB, 1);
      return true;
    }

    /** deQ(): fails exactly when the queue is empty, and otherwise removes its first value. */
    method DeQ() returns (r: Slot)
      requires Valid()
      modifies this, slots
      ensures Valid() && slots == old(slots) && countMax == old(countMax)
      ensures r == Null <==> old(Queue()) == []
      ensures old(Queue()) == if r.Full? then [r.value] + Queue() else Queue()
    {
      hide Holds, Pow2, SlotOf, Inc, Dec;
      if countLB <= OFFSET {
        return Null;
      }
      HoldsSize(slots[..], n, deq, history);
      CounterFits(n, countUB);
      countLB := Dec(countLB);
      AdvancePosition(deq, n);
      var pos := head % size;
      head := Inc(head, 9);
      Dequeued(slots[..], n, deq, history);
      r := Null;
      while r == Null
        modifies slots
        invariant slots[..] == if r == Null then old(slots[..]) else old(slots[..])[pos := Null]
        invariant r.Full? ==> r.value == history[deq]
        decreases r == Null
      {
        r := slots[pos];
        slots[pos] := Null;
      }
      deq := deq + 1;
      countUB := Dec(countUB);
    }

    /** forEach(): visits the values from the head to the tail. */
    method ForEach() returns (visited: seq<Value>)
      requires Valid()
      ensures visited == Queue()
    {
      hide Pow2, SlotOf, Inc, Dec;
      var pos := head;
      visited := [];
      ghost var k := deq;
      while pos != tail
        invariant deq <= k <= |history| && pos == (9 * k) % WORD && visited == history[deq..k]
        decreases |history| - k
      {
        AdvancePosition(k, n);
        assert slots[SlotOf(k, size)] == Full(history[k]);
        visited := visited + [slots[pos % size].value];
        pos := Inc(pos, 9);
        k := k + 1;
      }
      SamePosition(deq, k, |history|, n);
    }
  }

  lemma HoldsSize(slots: seq<Slot>, n: nat, deq: nat, history: seq<Value>)
    requires Holds(slots, n, deq, history)
    ensures |slots| == Pow2(n) && deq <= |history| <= deq + Pow2(n)
  {}

  /** Two positions of one window coincide only for the same ticket. */
  lemma SamePosition(h: nat, k: nat, t: nat, n: nat)
    requires h <= k <= t <= h + Pow2(n) && n <= 63 && (9 * k) % WORD == (9 * t) % WORD
    ensures k == t
  {
    WordIsPow2();
    Pow2Mono(n, 63);
    if k < t {
      SlotsDistinct(64, k, t);
    }
  }

  lemma PowerFits(e: nat, capacity: nat)
    requires e <= 63 && Pow2(e) < capacity <= WORD / 2
    ensures e < 63 && (2 * Pow2(e)) % WORD == 2 * Pow2(e) == Pow2(e + 1) < WORD
  {
    WordIsPow2();
    Pow2Mono(e + 1, 63);
  }

  lemma CounterFits(n: nat, c: nat)
    requires n <= 63 && c <= Pow2(n)
    ensures c + OFFSET < WORD && (c >= 1 ==> Inc(c - 1, 1) == c && Dec(c) == c - 1)
    ensures c >= 1 ==> Inc(OFFSET + c - 1, 1) == OFFSET + c && Dec(OFFSET + c) == OFFSET + c - 1
  {
    WordIsPow2();
    Pow2Mono(n, 63);
  }
}
