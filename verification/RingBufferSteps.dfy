/**
 * RingBuffer under any number of threads: every atomic access is one step of one thread, and steps interleave freely.
 * The atomics are taken as sequentially consistent.
 */
module RingBufferSteps {
  import opened Arithmetic
  import opened Counting
  import opened Tickets

  type ThreadId = nat
  type Value = int

  /** `_countLB` starts at this offset, so that it can go down past the true count without wrapping. */
  const OFFSET: nat := 1000000

  /** A slot of `_array`; `Null` is nullValue, which is never enqueued. */
  datatype Slot = Null | Full(value: Value)

  /** What a thread is about to do. */
  datatype Pc =
    | Idle
    | EnqCheck(v: Value)            // load _countUB
    | EnqReserve(v: Value)          // _countUB.fetch_add(1)
    | EnqBackOut                    // _countUB.fetch_sub(1), give up
    | EnqTicket(v: Value)           // _tail.fetch_add(9)
    | EnqStore(v: Value, pos: nat)  // compare-exchange nullValue -> v, until it succeeds
    | EnqCount                      // _countLB.fetch_add(1)
    | DeqCheck                      // load _countLB
    | DeqReserve                    // _countLB.fetch_sub(1)
    | DeqBackOut                    // _countLB.fetch_add(1), give up
    | DeqTicket                     // _head.fetch_add(9)
    | DeqTake(pos: nat)             // exchange with nullValue, until it yields a value
    | DeqCount(v: Value)            // _countUB.fetch_sub(1)

  /**
   * The buffer's fields, the threads, and what has happened so far: the tickets given out on either side, and the
   * values stored in and taken from the slots.
   */
  datatype State = State(
    n: nat, countMax: nat,
    countLB: nat, countUB: nat, head: nat, tail: nat, slots: seq<Slot>,
    threads: map<ThreadId, Pc>,
    enqTickets: nat, deqTickets: nat, stored: multiset<Value>, taken: multiset<Value>)

  /** What the scheduler may pick for a thread; a weak compare-exchange may also fail for no reason. */
  datatype Action = CallEnq(v: Value) | CallDeq | Go | FailSpuriously

  function Inc(x: nat, d: nat): nat {
    (x + d) % WORD
  }

  function Dec(x: nat): nat {
    (x + WORD - 1) % WORD
  }

  function Goto(s: State, t: ThreadId, pc: Pc): State {
    s.(threads := s.threads[t := pc])
  }

  function Step(s: State, t: ThreadId, a: Action): State
    requires t in s.threads && |s.slots| == Pow2(s.n)
  {
    match s.threads[t]
    case Idle =>
      if a.CallEnq? then Goto(s, t, EnqCheck(a.v)) else if a.CallDeq? then Goto(s, t, DeqCheck) else s
    case EnqCheck(v) =>
      if s.countUB >= s.countMax then Goto(s, t, Idle) else Goto(s, t, EnqReserve(v))
    case EnqReserve(v) =>
      Goto(s, t, if s.countUB >= s.countMax then EnqBackOut else EnqTicket(v)).(countUB := Inc(s.countUB, 1))
    case EnqBackOut =>
      Goto(s, t, Idle).(countUB := Dec(s.countUB))
    case EnqTicket(v) =>
      Goto(s, t, EnqStore(v, s.tail % |s.slots|)).(tail := Inc(s.tail, 9), enqTickets := s.enqTickets + 1)
    case EnqStore(v, pos) =>
      if a.FailSpuriously? || pos >= |s.slots| || s.slots[pos] != Null then s
      else Goto(s, t, EnqCount).(slots := s.slots[pos := Full(v)], stored := s.stored + multiset{v})
    case EnqCount =>
      Goto(s, t, Idle).(countLB := Inc(s.countLB, 1))
    case DeqCheck =>
      if s.countLB <= OFFSET then Goto(s, t, Idle) else Goto(s, t, DeqReserve)
    case DeqReserve =>
      Goto(s, t, if s.countLB <= OFFSET then DeqBackOut else DeqTicket).(countLB := Dec(s.countLB))
    case DeqBackOut =>
      Goto(s, t, Idle).(countLB := Inc(s.countLB, 1))
    case DeqTicket =>
      Goto(s, t, DeqTake(s.head % |s.slots|)).(head := Inc(s.head, 9), deqTickets := s.deqTickets + 1)
    case DeqTake(pos) =>
      if pos >= |s.slots| || s.slots[pos] == Null then s
      else
        var v := s.slots[pos].value;
        Goto(s, t, DeqCount(v)).(slots := s.slots[pos := Null], taken := s.taken + multiset{v})
    case DeqCount(_) =>
      Goto(s, t, Idle).(countUB := Dec(s.countUB))
  }

  // ----- Counting threads -----

  /** Places in the code where the proof counts threads. */
  datatype Place =
    | AtEnqCheck | AtEnqReserve | AtEnqBackOut | AtEnqTicket | AtEnqStore | AtEnqStoreOf(i: nat) | AtEnqCount
    | AtDeqCheck | AtDeqReserve | AtDeqBackOut | AtDeqTicket | AtDeqTake | AtDeqTakeOf(i: nat) | AtDeqCount

  predicate Is(pc: Pc, w: Place) {
    match w
    case AtEnqCheck => pc.EnqCheck?
    case AtEnqReserve => pc.EnqReserve?
    case AtEnqBackOut => pc.EnqBackOut?
    case AtEnqTicket => pc.EnqTicket?
    case AtEnqStore => pc.EnqStore?
    case AtEnqStoreOf(i) => pc.EnqStore? && pc.pos == i
    case AtEnqCount => pc.EnqCount?
    case AtDeqCheck => pc.DeqCheck?
    case AtDeqReserve => pc.DeqReserve?
    case AtDeqBackOut => pc.DeqBackOut?
    case AtDeqTicket => pc.DeqTicket?
    case AtDeqTake => pc.DeqTake?
    case AtDeqTakeOf(i) => pc.DeqTake? && pc.pos == i
    case AtDeqCount => pc.DeqCount?
  }

  ghost function ThreadsAt(m: map<ThreadId, Pc>, w: Place): set<ThreadId> {
    set t | t in m && Is(m[t], w)
  }

  ghost function Count(m: map<ThreadId, Pc>, w: Place): nat {
    |ThreadsAt(m, w)|
  }

  lemma CountMoved(m: map<ThreadId, Pc>, t: ThreadId, pc: Pc, w: Place)
    requires t in m
    ensures Count(m[t := pc], w) + One(Is(m[t], w)) == Count(m, w) + One(Is(pc, w))
  {
    hide Is;
    var m' := m[t := pc];
    assert ThreadsAt(m', w) - {t} == ThreadsAt(m, w) - {t};
    assert t in ThreadsAt(m', w) <==> Is(pc, w);
    assert t in ThreadsAt(m, w) <==> Is(m[t], w);
    hide ThreadsAt;
    Removed(ThreadsAt(m, w), t);
    Removed(ThreadsAt(m', w), t);
  }

  lemma CountAtMost(m: map<ThreadId, Pc>, w: Place)
    ensures Count(m, w) <= |m|
  {
    var k := m.Keys;
    assert ThreadsAt(m, w) <= k;
    Subset(ThreadsAt(m, w), k);
  }

  lemma SomeThread(m: map<ThreadId, Pc>, w: Place) returns (t: ThreadId)
    requires Count(m, w) > 0
    ensures t in m && Is(m[t], w)
  {
    t :| t in ThreadsAt(m, w);
  }

  lemma ThreadCounted(m: map<ThreadId, Pc>, t: ThreadId, w: Place)
    requires t in m && Is(m[t], w)
    ensures Count(m, w) > 0
  {
    assert t in ThreadsAt(m, w);
  }

  // ----- Contents of the slots -----

  ghost function Filled(slots: seq<Slot>): nat {
    if slots == [] then 0 else Filled(slots[1..]) + One(slots[0].Full?)
  }

  function Held(x: Slot): multiset<Value> {
    if x.Full? then multiset{x.value} else multiset{}
  }

  ghost function Values(slots: seq<Slot>): multiset<Value> {
    if slots == [] then multiset{} else Held(slots[0]) + Values(slots[1..])
  }

  lemma {:induction false} SlotSet(slots: seq<Slot>, i: nat, x: Slot)
    requires i < |slots|
    ensures Filled(slots[i := x]) + One(slots[i].Full?) == Filled(slots) + One(x.Full?)
  {
    var u := slots[i := x];
    if i == 0 {
      assert u[1..] == slots[1..];
    } else {
      assert u[1..] == slots[1..][i - 1 := x];
      SlotSet(slots[1..], i - 1, x);
    }
  }

  lemma {:induction false} ValueSet(slots: seq<Slot>, i: nat, x: Slot)
    requires i < |slots|
    ensures Values(slots[i := x]) + Held(slots[i]) == Values(slots) + Held(x)
  {
    hide Held;
    var u := slots[i := x];
    if i == 0 {
      assert u[1..] == slots[1..];
    } else {
      assert u[1..] == slots[1..][i - 1 := x];
      ValueSet(slots[1..], i - 1, x);
      var h := Held(slots[0]);
      assert Values(u) + Held(slots[i]) == h + (Values(u[1..]) + Held(slots[i]));
      assert Values(slots) + Held(x) == h + (Values(slots[1..]) + Held(x));
    }
  }

  // ----- The invariant -----

  /** Stores published so far (counted into _countLB), and dequeue reservations made. */
  ghost function Published(s: State): int {
    s.enqTickets - Count(s.threads, AtEnqStore) - Count(s.threads, AtEnqCount)
  }

  ghost function DeqReserved(s: State): int {
    s.deqTickets + Count(s.threads, AtDeqTicket)
  }

  /** Enqueue reservations made, and those given back after a dequeue. */
  ghost function EnqReserved(s: State): int {
    s.enqTickets + Count(s.threads, AtEnqTicket)
  }

  ghost function Released(s: State): int {
    s.deqTickets - Count(s.threads, AtDeqTake) - Count(s.threads, AtDeqCount)
  }

  /** Enqueue tickets of slot i that have stored, less dequeue tickets of slot i that have taken. */
  ghost function Balance(s: State, i: nat): int {
    (Visits(i, s.enqTickets, Pow2(s.n)) - Count(s.threads, AtEnqStoreOf(i)))
    - (Visits(i, s.deqTickets, Pow2(s.n)) - Count(s.threads, AtDeqTakeOf(i)))
  }

  /** set() was called with size countMax, and 2^n is the power of two it rounded up to. */
  ghost predicate Configured(s: State) {
    && s.n <= 63 && |s.slots| == Pow2(s.n) && s.countMax <= Pow2(s.n)
    && (forall t :: t in s.threads && s.threads[t].EnqStore? ==> s.threads[t].pos < |s.slots|)
    && (forall t :: t in s.threads && s.threads[t].DeqTake? ==> s.threads[t].pos < |s.slots|)
  }

  ghost predicate Positions(s: State) {
    s.tail == (9 * s.enqTickets) % WORD && s.head == (9 * s.deqTickets) % WORD
  }

  /** _countUB holds what it should, without wrap-around, and reservations never exceed the capacity. */
  ghost predicate UpperCount(s: State) {
    && s.countUB == EnqReserved(s) - Released(s) + Count(s.threads, AtEnqBackOut)
    && EnqReserved(s) - Released(s) <= s.countMax
  }

  ghost predicate Slots(s: State) {
    && (forall i :: 0 <= i < |s.slots| ==> Balance(s, i) == One(s.slots[i].Full?))
    && Filled(s.slots) == (s.enqTickets - Count(s.threads, AtEnqStore)) - (s.deqTickets - Count(s.threads, AtDeqTake))
    && s.stored == s.taken + Values(s.slots)
  }

  /** What holds in every run, whatever becomes of _countLB. */
  ghost predicate Upper(s: State) {
    Configured(s) && Positions(s) && UpperCount(s) && Slots(s)
  }

  /** _countLB holds what it should, without wrap-around, and no more is reserved than has been published. */
  ghost predicate Lower(s: State) {
    && s.countLB == OFFSET + Published(s) - DeqReserved(s) - Count(s.threads, AtDeqBackOut)
    && DeqReserved(s) <= Published(s)
  }

  ghost predicate Inv(s: State) {
    Upper(s) && Lower(s)
  }

  ghost predicate Init(s: State) {
    && s.n <= 63 && s.countMax <= Pow2(s.n) && |s.slots| == Pow2(s.n)
    && (forall i :: 0 <= i < |s.slots| ==> s.slots[i] == Null)
    && s.countLB == OFFSET && s.countUB == 0 && s.head == 0 && s.tail == 0
    && (forall t :: t in s.threads ==> s.threads[t] == Idle)
    && s.enqTickets == 0 && s.deqTickets == 0 && s.stored == multiset{} && s.taken == multiset{}
  }

  lemma NoneAt(m: map<ThreadId, Pc>, w: Place)
    requires forall t :: t in m ==> m[t] == Idle
    ensures Count(m, w) == 0
  {
    assert ThreadsAt(m, w) == {};
  }

  lemma {:induction false} AllNull(slots: seq<Slot>)
    requires forall i :: 0 <= i < |slots| ==> slots[i] == Null
    ensures Filled(slots) == 0 && Values(slots) == multiset{}
  {
    if slots != [] {
      AllNull(slots[1..]);
    }
  }

  lemma InitInv(s: State)
    requires Init(s)
    ensures Inv(s)
  {
    forall w
      ensures Count(s.threads, w) == 0
    {
      NoneAt(s.threads, w);
    }
    AllNull(s.slots);
  }

  // ----- Each step keeps the invariant -----

  lemma Moved(s: State, t: ThreadId, pc: Pc)
    requires t in s.threads
    ensures forall w :: Count(s.threads[t := pc], w) == Count(s.threads, w) + One(Is(pc, w)) - One(Is(s.threads[t], w))
  {
    forall w
      ensures Count(s.threads[t := pc], w) == Count(s.threads, w) + One(Is(pc, w)) - One(Is(s.threads[t], w))
    {
      CountMoved(s.threads, t, pc, w);
    }
  }

  lemma WordMoves(x: nat)
    requires x + 1 < WORD
    ensures Inc(x, 1) == x + 1 && (x >= 1 ==> Dec(x) == x - 1)
  {}

  /** A step that touches neither the slots nor the tickets, nor moves a thread to or from its slot. */
  lemma SlotsKept(s: State, t: ThreadId, s': State, q: Pc)
    requires Configured(s) && Slots(s) && CountersOnly(s, s', t, q)
    ensures Configured(s') && Slots(s')
  {
    hide Count, Visits, Filled, Values;
    Moved(s, t, q);
  }

  /** _countUB is far from either end of its range. */
  lemma Room(s: State, t: ThreadId)
    requires Upper(s) && |s.threads| < Pow2(62) && t in s.threads
    ensures s.countUB + 1 < WORD
    ensures s.threads[t].EnqBackOut? || s.threads[t].DeqCount? ==> s.countUB >= 1
  {
    WordIsPow2();
    Pow2Mono(s.n, 63);
    assert Pow2(63) == 2 * Pow2(62);
    CountAtMost(s.threads, AtEnqBackOut);
    if s.threads[t].EnqBackOut? {
      ThreadCounted(s.threads, t, AtEnqBackOut);
    }
    if s.threads[t].DeqCount? {
      ThreadCounted(s.threads, t, AtDeqCount);
    }
    hide Count, Pow2, Filled, Values, Balance;
  }

  /** And so is _countLB, as long as it holds what it should. */
  lemma RoomBelow(s: State)
    requires Inv(s) && |s.threads| < Pow2(62)
    ensures s.countLB + 1 < WORD
  {
    WordIsPow2();
    Pow2Mono(s.n, 63);
    assert Pow2(63) == 2 * Pow2(62);
    hide Count, Pow2, Slots;
  }

  /** How the counts that the counters depend on change when thread t moves. */
  lemma CountsMoved(s: State, s': State, t: ThreadId, q: Pc)
    requires t in s.threads && s'.threads == s.threads[t := q]
    ensures var m, m', p := s.threads, s'.threads, s.threads[t];
      && Count(m', AtEnqBackOut) == Count(m, AtEnqBackOut) + One(q.EnqBackOut?) - One(p.EnqBackOut?)
      && Count(m', AtEnqTicket) == Count(m, AtEnqTicket) + One(q.EnqTicket?) - One(p.EnqTicket?)
      && Count(m', AtEnqStore) == Count(m, AtEnqStore) + One(q.EnqStore?) - One(p.EnqStore?)
      && Count(m', AtEnqCount) == Count(m, AtEnqCount) + One(q.EnqCount?) - One(p.EnqCount?)
      && Count(m', AtDeqBackOut) == Count(m, AtDeqBackOut) + One(q.DeqBackOut?) - One(p.DeqBackOut?)
      && Count(m', AtDeqTicket) == Count(m, AtDeqTicket) + One(q.DeqTicket?) - One(p.DeqTicket?)
      && Count(m', AtDeqTake) == Count(m, AtDeqTake) + One(q.DeqTake?) - One(p.DeqTake?)
      && Count(m', AtDeqCount) == Count(m, AtDeqCount) + One(q.DeqCount?) - One(p.DeqCount?)
  {
    hide Count;
    Moved(s, t, q);
  }

  /** A step that touches neither slots nor tickets, given by the thread's new place and the new counters. */
  ghost predicate CountersOnly(s: State, s': State, t: ThreadId, q: Pc) {
    && t in s.threads && s' == s.(threads := s.threads[t := q], countLB := s'.countLB, countUB := s'.countUB)
    && !s.threads[t].EnqStore? && !q.EnqStore? && !s.threads[t].DeqTake? && !q.DeqTake?
  }

  lemma CountersOnlyUpper(s: State, s': State, t: ThreadId, q: Pc)
    requires Upper(s) && CountersOnly(s, s', t, q) && UpperCount(s')
    ensures Upper(s')
  {
    SlotsKept(s, t, s', q);
  }

  lemma EnqCheckStep(s: State, t: ThreadId, a: Action)
    requires Upper(s) && t in s.threads && s.threads[t].EnqCheck?
    ensures Upper(Step(s, t, a)) && (Lower(s) ==> Lower(Step(s, t, a)))
  {
    hide Count, Inc, Dec, Slots, Pow2;
    var s' := Step(s, t, a);
    var q := if s.countUB >= s.countMax then Idle else EnqReserve(s.threads[t].v);
    CountsMoved(s, s', t, q);
    CountersOnlyUpper(s, s', t, q);
  }

  lemma EnqReserveStep(s: State, t: ThreadId, a: Action)
    requires Upper(s) && t in s.threads && |s.threads| < Pow2(62) && s.threads[t].EnqReserve?
    ensures Upper(Step(s, t, a)) && (Lower(s) ==> Lower(Step(s, t, a)))
  {
    hide Count, Inc, Dec, Slots, Pow2;
    var s' := Step(s, t, a);
    var q := if s.countUB >= s.countMax then EnqBackOut else EnqTicket(s.threads[t].v);
    Room(s, t);
    WordMoves(s.countUB);
    CountsMoved(s, s', t, q);
    CountersOnlyUpper(s, s', t, q);
  }

  lemma EnqBackOutStep(s: State, t: ThreadId, a: Action)
    requires Upper(s) && t in s.threads && |s.threads| < Pow2(62) && s.threads[t].EnqBackOut?
    ensures Upper(Step(s, t, a)) && (Lower(s) ==> Lower(Step(s, t, a)))
  {
    hide Count, Inc, Dec, Slots, Pow2;
    var s' := Step(s, t, a);
    var q := Idle;
    Room(s, t);
    WordMoves(s.countUB);
    CountsMoved(s, s', t, q);
    CountersOnlyUpper(s, s', t, q);
  }

  lemma EnqCountStep(s: State, t: ThreadId, a: Action)
    requires Upper(s) && t in s.threads && |s.threads| < Pow2(62) && s.threads[t].EnqCount?
    ensures Upper(Step(s, t, a)) && (Lower(s) ==> Lower(Step(s, t, a)))
  {
    hide Count, Inc, Dec, Slots, Pow2;
    var s' := Step(s, t, a);
    var q := Idle;
    CountsMoved(s, s', t, q);
    CountersOnlyUpper(s, s', t, q);
    if Lower(s) {
      RoomBelow(s);
      WordMoves(s.countLB);
    }
  }

  lemma DeqCheckStep(s: State, t: ThreadId, a: Action)
    requires Upper(s) && t in s.threads && s.threads[t].DeqCheck?
    ensures Upper(Step(s, t, a)) && (Lower(s) ==> Lower(Step(s, t, a)))
  {
    hide Count, Inc, Dec, Slots, Pow2;
    var s' := Step(s, t, a);
    var q := if s.countLB <= OFFSET then Idle else DeqReserve;
    CountsMoved(s, s', t, q);
    CountersOnlyUpper(s, s', t, q);
  }

  lemma DeqReserveStep(s: State, t: ThreadId, a: Action)
    requires Upper(s) && t in s.threads && |s.threads| < Pow2(62) && s.threads[t].DeqReserve?
    ensures Upper(Step(s, t, a)) && (Lower(s) ==> (Lower(Step(s, t, a)) <==> s.countLB > 0))
  {
    hide Count, Inc, Dec, Slots, Pow2;
    var s' := Step(s, t, a);
    var q := if s.countLB <= OFFSET then DeqBackOut else DeqTicket;
    CountsMoved(s, s', t, q);
    CountersOnlyUpper(s, s', t, q);
    if Lower(s) {
      RoomBelow(s);
      WordMoves(s.countLB);
      if s.countLB == 0 {
        Underflow();
      }
    }
  }

  lemma Underflow()
    ensures Dec(0) == WORD - 1
  {}

  lemma DeqBackOutStep(s: State, t: ThreadId, a: Action)
    requires Upper(s) && t in s.threads && |s.threads| < Pow2(62) && s.threads[t].DeqBackOut?
    ensures Upper(Step(s, t, a)) && (Lower(s) ==> Lower(Step(s, t, a)))
  {
    hide Count, Inc, Dec, Slots, Pow2;
    var s' := Step(s, t, a);
    var q := Idle;
    CountsMoved(s, s', t, q);
    CountersOnlyUpper(s, s', t, q);
    if Lower(s) {
      RoomBelow(s);
      WordMoves(s.countLB);
    }
  }

  lemma DeqCountStep(s: State, t: ThreadId, a: Action)
    requires Upper(s) && t in s.threads && |s.threads| < Pow2(62) && s.threads[t].DeqCount?
    ensures Upper(Step(s, t, a)) && (Lower(s) ==> Lower(Step(s, t, a)))
  {
    hide Count, Inc, Dec, Slots, Pow2;
    var s' := Step(s, t, a);
    var q := Idle;
    Room(s, t);
    WordMoves(s.countUB);
    CountsMoved(s, s', t, q);
    CountersOnlyUpper(s, s', t, q);
  }

  lemma AdvancePosition(k: nat, n: nat)
    requires n <= 63
    ensures Inc((9 * k) % WORD, 9) == (9 * (k + 1)) % WORD
    ensures ((9 * k) % WORD) % Pow2(n) == SlotOf(k, Pow2(n))
  {
    WrapKeepsSlot(9 * k, n);
    var q, r := (9 * k) / WORD, (9 * k) % WORD;
    assert 9 * (k + 1) == (r + 9) + q * WORD;
    ModPlusMultiple(r + 9, q, WORD);
  }

  lemma BalanceMoved(s: State, s': State, t: ThreadId, q: Pc, i: nat)
    requires t in s.threads && s'.threads == s.threads[t := q] && s'.n == s.n
    ensures Balance(s', i) - Balance(s, i) ==
      (Visits(i, s'.enqTickets, Pow2(s.n)) - Visits(i, s.enqTickets, Pow2(s.n)))
      - (One(Is(q, AtEnqStoreOf(i))) - One(Is(s.threads[t], AtEnqStoreOf(i))))
      - (Visits(i, s'.deqTickets, Pow2(s.n)) - Visits(i, s.deqTickets, Pow2(s.n)))
      + (One(Is(q, AtDeqTakeOf(i))) - One(Is(s.threads[t], AtDeqTakeOf(i))))
  {
    hide Count, Visits;
    CountMoved(s.threads, t, q, AtEnqStoreOf(i));
    CountMoved(s.threads, t, q, AtDeqTakeOf(i));
  }

  lemma EnqTicketSlots(s: State, s': State, t: ThreadId, q: Pc)
    requires Configured(s) && Slots(s) && t in s.threads && s.threads[t].EnqTicket?
    requires q.EnqStore? && q.pos == SlotOf(s.enqTickets, Pow2(s.n))
    requires s' == s.(threads := s.threads[t := q], tail := s'.tail, enqTickets := s.enqTickets + 1)
    ensures Configured(s') && Slots(s')
  {
    hide Count, Filled, Values, Balance;
    CountsMoved(s, s', t, q);
    forall i | 0 <= i < |s'.slots|
      ensures Balance(s', i) == Balance(s, i)
    {
      BalanceMoved(s, s', t, q, i);
    }
  }

  lemma EnqTicketStep(s: State, t: ThreadId, a: Action)
    requires Upper(s) && t in s.threads && s.threads[t].EnqTicket?
    ensures Upper(Step(s, t, a)) && (Lower(s) ==> Lower(Step(s, t, a)))
  {
    hide Count, Slots, Inc, Pow2, SlotOf;
    var s' := Step(s, t, a);
    var q := EnqStore(s.threads[t].v, s.tail % |s.slots|);
    AdvancePosition(s.enqTickets, s.n);
    EnqTicketSlots(s, s', t, q);
    CountsMoved(s, s', t, q);
  }

  lemma DeqTicketSlots(s: State, s': State, t: ThreadId, q: Pc)
    requires Configured(s) && Slots(s) && t in s.threads && s.threads[t].DeqTicket?
    requires q.DeqTake? && q.pos == SlotOf(s.deqTickets, Pow2(s.n))
    requires s' == s.(threads := s.threads[t := q], head := s'.head, deqTickets := s.deqTickets + 1)
    ensures Configured(s') && Slots(s')
  {
    hide Count, Filled, Values, Balance;
    CountsMoved(s, s', t, q);
    forall i | 0 <= i < |s'.slots|
      ensures Balance(s', i) == Balance(s, i)
    {
      BalanceMoved(s, s', t, q, i);
    }
  }

  lemma DeqTicketStep(s: State, t: ThreadId, a: Action)
    requires Upper(s) && t in s.threads && s.threads[t].DeqTicket?
    ensures Upper(Step(s, t, a)) && (Lower(s) ==> Lower(Step(s, t, a)))
  {
    hide Count, Slots, Inc, Pow2, SlotOf;
    var s' := Step(s, t, a);
    var q := DeqTake(s.head % |s.slots|);
    AdvancePosition(s.deqTickets, s.n);
    DeqTicketSlots(s, s', t, q);
    CountsMoved(s, s', t, q);
  }

  /** The two states' slots differ in this: one slot that is empty in s holds v in s'. */
  ghost predicate Differ(s: State, s': State, pos: nat, v: Value) {
    && pos < |s.slots| == |s'.slots| && s.slots[pos] == Null && s'.slots[pos] == Full(v)
    && (forall i :: 0 <= i < |s.slots| && i != pos ==> s'.slots[i] == s.slots[i])
    && Values(s'.slots) == Values(s.slots) + multiset{v} && Filled(s'.slots) == Filled(s.slots) + 1
  }

  ghost predicate Stores(s: State, s': State, t: ThreadId) {
    && Configured(s) && t in s.threads && s.threads[t].EnqStore?
    && var v, pos := s.threads[t].v, s.threads[t].pos;
      && s.slots[pos] == Null
      && s' == s.(
        threads := s.threads[t := EnqCount], slots := s.slots[pos := Full(v)], stored := s.stored + multiset{v})
  }

  lemma StoreBalance(s: State, s': State, t: ThreadId, i: nat)
    requires Stores(s, s', t) && i < |s.slots| && Balance(s, i) == One(s.slots[i].Full?)
    ensures Balance(s', i) == One(s'.slots[i].Full?)
  {
    hide Count, Visits, Balance;
    BalanceMoved(s, s', t, EnqCount, i);
  }

  lemma StoreContents(s: State, s': State, t: ThreadId)
    requires Stores(s, s', t)
    ensures Filled(s'.slots) == Filled(s.slots) + 1
    ensures Values(s'.slots) == Values(s.slots) + multiset{s.threads[t].v}
  {
    SlotSet(s.slots, s.threads[t].pos, Full(s.threads[t].v));
    ValueSet(s.slots, s.threads[t].pos, Full(s.threads[t].v));
  }

  lemma EnqStoreSlots(s: State, s': State, t: ThreadId)
    requires Stores(s, s', t) && Slots(s)
    ensures Configured(s') && Slots(s')
  {
    hide Count, Visits, Filled, Values, Balance;
    StoreContents(s, s', t);
    CountsMoved(s, s', t, EnqCount);
    forall i | 0 <= i < |s'.slots|
      ensures Balance(s', i) == One(s'.slots[i].Full?)
    {
      StoreBalance(s, s', t, i);
    }
  }

  /** A store that succeeds fills the one slot of the ticket with the caller's value; one that fails changes nothing. */
  lemma EnqStoreStep(s: State, t: ThreadId, a: Action)
    requires Upper(s) && t in s.threads && s.threads[t].EnqStore?
    ensures Upper(Step(s, t, a)) && (Lower(s) ==> Lower(Step(s, t, a)))
    ensures if s.slots[s.threads[t].pos] == Null && !a.FailSpuriously?
            then Differ(s, Step(s, t, a), s.threads[t].pos, s.threads[t].v)
            else Step(s, t, a) == s
  {
    hide Count, Slots, Pow2, Values, Filled;
    var s' := Step(s, t, a);
    if s' != s {
      EnqStoreSlots(s, s', t);
      StoreContents(s, s', t);
      CountsMoved(s, s', t, EnqCount);
    }
  }

  ghost predicate Takes(s: State, s': State, t: ThreadId, v: Value) {
    && Configured(s) && t in s.threads && s.threads[t].DeqTake?
    && var pos := s.threads[t].pos;
      && s.slots[pos] == Full(v)
      && s' == s.(threads := s.threads[t := DeqCount(v)], slots := s.slots[pos := Null], taken := s.taken + multiset{v})
  }

  lemma TakeBalance(s: State, s': State, t: ThreadId, v: Value, i: nat)
    requires Takes(s, s', t, v) && i < |s.slots| && Balance(s, i) == One(s.slots[i].Full?)
    ensures Balance(s', i) == One(s'.slots[i].Full?)
  {
    hide Count, Visits, Balance;
    BalanceMoved(s, s', t, DeqCount(v), i);
  }

  lemma TakeContents(s: State, s': State, t: ThreadId, v: Value)
    requires Takes(s, s', t, v)
    ensures Filled(s'.slots) == Filled(s.slots) - 1
    ensures Values(s.slots) == Values(s'.slots) + multiset{v}
  {
    SlotSet(s.slots, s.threads[t].pos, Null);
    ValueSet(s.slots, s.threads[t].pos, Null);
  }

  lemma DeqTakeSlots(s: State, s': State, t: ThreadId, v: Value)
    requires Takes(s, s', t, v) && Slots(s)
    ensures Configured(s') && Slots(s')
  {
    hide Count, Visits, Filled, Values, Balance;
    TakeContents(s, s', t, v);
    CountsMoved(s, s', t, DeqCount(v));
    forall i | 0 <= i < |s'.slots|
      ensures Balance(s', i) == One(s'.slots[i].Full?)
    {
      TakeBalance(s, s', t, v, i);
    }
  }

  /** An exchange that finds a value takes this one, out of the one slot of the ticket; another one changes nothing. */
  lemma DeqTakeStep(s: State, t: ThreadId, a: Action)
    requires Upper(s) && t in s.threads && s.threads[t].DeqTake?
    ensures Upper(Step(s, t, a)) && (Lower(s) ==> Lower(Step(s, t, a)))
    ensures if s.slots[s.threads[t].pos] == Null then Step(s, t, a) == s
            else Differ(Step(s, t, a), s, s.threads[t].pos, s.slots[s.threads[t].pos].value)
  {
    hide Count, Slots, Pow2, Values, Filled;
    var s' := Step(s, t, a);
    if s' != s {
      var v := s.slots[s.threads[t].pos].value;
      DeqTakeSlots(s, s', t, v);
      TakeContents(s, s', t, v);
      CountsMoved(s, s', t, DeqCount(v));
    }
  }

  /** The one step that can break the invariant: the reservation of a dequeue when _countLB is already zero. */
  predicate Underflows(s: State, t: ThreadId)
    requires t in s.threads
  {
    s.threads[t].DeqReserve? && s.countLB == 0
  }

  /** Every step of every thread keeps the invariant, save exactly that one; and the upper part is kept even then. */
  lemma StepInv(s: State, t: ThreadId, a: Action)
    requires Upper(s) && t in s.threads && |s.threads| < Pow2(62)
    ensures Upper(Step(s, t, a))
    ensures Lower(s) ==> (Inv(Step(s, t, a)) <==> !Underflows(s, t))
  {
    hide Step, Pow2, UpperCount, Lower, Slots, Positions;
    match s.threads[t]
    case Idle => IdleStep(s, t, a);
    case EnqCheck(_) => EnqCheckStep(s, t, a);
    case EnqReserve(_) => EnqReserveStep(s, t, a);
    case EnqBackOut => EnqBackOutStep(s, t, a);
    case EnqTicket(_) => EnqTicketStep(s, t, a);
    case EnqStore(_, _) => EnqStoreStep(s, t, a);
    case EnqCount => EnqCountStep(s, t, a);
    case DeqCheck => DeqCheckStep(s, t, a);
    case DeqReserve => DeqReserveStep(s, t, a);
    case DeqBackOut => DeqBackOutStep(s, t, a);
    case DeqTicket => DeqTicketStep(s, t, a);
    case DeqTake(_) => DeqTakeStep(s, t, a);
    case DeqCount(_) => DeqCountStep(s, t, a);
  }

  lemma IdleStep(s: State, t: ThreadId, a: Action)
    requires Upper(s) && t in s.threads && s.threads[t].Idle?
    ensures Upper(Step(s, t, a)) && (Lower(s) ==> Lower(Step(s, t, a)))
  {
    hide Count, Slots, Pow2;
    var s' := Step(s, t, a);
    if s' != s {
      var q := if a.CallEnq? then EnqCheck(a.v) else DeqCheck;
      CountsMoved(s, s', t, q);
      CountersOnlyUpper(s, s', t, q);
    }
  }
}
