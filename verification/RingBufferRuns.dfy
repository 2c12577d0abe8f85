/**
 * What RingBuffer promises over whole runs: safety with any number of threads, and freedom from deadlock as long as
 * _countLB does not wrap.
 */
module RingBufferRuns {
  import opened Arithmetic
  import opened Counting
  import opened Tickets
  import opened RingBufferSteps

  ghost predicate StepOf(s: State, s': State, t: ThreadId, a: Action) {
    t in s.threads && |s.slots| == Pow2(s.n) && s' == Step(s, t, a)
  }

  ghost predicate Next(s: State, s': State) {
    exists t, a :: StepOf(s, s', t, a)
  }

  /** A run: one step of some thread after another, from a freshly set buffer. */
  ghost predicate Run(r: seq<State>) {
    && |r| > 0 && Init(r[0]) && |r[0].threads| < Pow2(62)
    && forall i :: 0 <= i < |r| - 1 ==> Next(r[i], r[i + 1])
  }

  lemma SameThreads(s: State, s': State, t: ThreadId, a: Action)
    requires StepOf(s, s', t, a)
    ensures s'.threads.Keys == s.threads.Keys && |s'.threads| == |s.threads|
    ensures s'.threads == s.threads[t := s'.threads[t]] && s'.n == s.n && s'.countMax == s.countMax
  {
    hide Step, Pow2, Enqueuing;
    if Enqueuing(s.threads[t]) {
      EnqueuingFrame(s, s', t, a);
    } else {
      DequeuingFrame(s, s', t, a);
    }
    KeysCount(s.threads);
    KeysCount(s'.threads);
  }

  predicate Enqueuing(pc: Pc) {
    pc.EnqCheck? || pc.EnqReserve? || pc.EnqBackOut? || pc.EnqTicket? || pc.EnqStore? || pc.EnqCount?
  }

  lemma EnqueuingFrame(s: State, s': State, t: ThreadId, a: Action)
    requires StepOf(s, s', t, a) && Enqueuing(s.threads[t])
    ensures t in s'.threads && s'.threads == s.threads[t := s'.threads[t]] && s'.n == s.n && s'.countMax == s.countMax
  {
    hide Pow2, Inc, Dec;
  }

  lemma DequeuingFrame(s: State, s': State, t: ThreadId, a: Action)
    requires StepOf(s, s', t, a) && !Enqueuing(s.threads[t])
    ensures t in s'.threads && s'.threads == s.threads[t := s'.threads[t]] && s'.n == s.n && s'.countMax == s.countMax
  {
    hide Pow2, Inc, Dec;
  }

  lemma KeysCount(m: map<ThreadId, Pc>)
    ensures |m| == |m.Keys|
  {}

  lemma {:induction false} RunFrame(r: seq<State>, i: nat)
    requires Run(r) && i < |r|
    ensures |r[i].threads| == |r[0].threads| && r[i].n == r[0].n && r[i].countMax == r[0].countMax
  {
    hide Init, Step, Pow2;
    if i > 0 {
      RunFrame(r, i - 1);
      assert Next(r[i - 1], r[i]);
      var t, a :| StepOf(r[i - 1], r[i], t, a);
      SameThreads(r[i - 1], r[i], t, a);
    }
  }

  /** Every state of every run satisfies the upper part of the invariant, whether _countLB has wrapped or not. */
  lemma {:induction false} RunUpper(r: seq<State>, i: nat)
    requires Run(r) && i < |r|
    ensures Upper(r[i])
  {
    hide Init, Upper, Lower, Step;
    if i == 0 {
      InitInv(r[0]);
    } else {
      RunUpper(r, i - 1);
      assert Next(r[i - 1], r[i]);
      var t, a :| StepOf(r[i - 1], r[i], t, a);
      RunFrame(r, i - 1);
      StepInv(r[i - 1], t, a);
    }
  }

  // ----- What it takes for _countLB to wrap -----

  /**
   * Even when all threads are about to reserve a dequeue or to back out of one, some value has not been reserved: the
   * last thread to get there saw it in the counter. With no capacity, none gets there.
   */
  ghost predicate Spare(s: State) {
    && (Count(s.threads, AtDeqReserve) + Count(s.threads, AtDeqBackOut) >= |s.threads| > 0 ==>
          DeqReserved(s) < Published(s))
    && (s.countMax == 0 ==> Count(s.threads, AtDeqReserve) == 0)
  }

  predicate Reserving(pc: Pc) {
    pc.DeqReserve? || pc.DeqBackOut?
  }

  /** A thread elsewhere is in neither of the two places. */
  lemma Elsewhere(m: map<ThreadId, Pc>, t: ThreadId)
    requires t in m && !Reserving(m[t])
    ensures Count(m, AtDeqReserve) + Count(m, AtDeqBackOut) < |m|
  {
    var a, b := ThreadsAt(m, AtDeqReserve), ThreadsAt(m, AtDeqBackOut);
    assert a !! b && a + b <= m.Keys - {t};
    Subset(a + b, m.Keys - {t});
    Removed(m.Keys, t);
  }

  lemma InitSpare(s: State)
    requires Init(s)
    ensures Spare(s)
  {
    hide Pow2;
    NoneAt(s.threads, AtDeqReserve);
    NoneAt(s.threads, AtDeqBackOut);
    if s.threads != map[] {
      var t :| t in s.threads;
      Elsewhere(s.threads, t);
    }
  }

  /** While the counter shows a value, there is one that is not reserved. */
  lemma SeenSpare(s: State)
    requires Inv(s) && s.countLB > OFFSET
    ensures DeqReserved(s) < Published(s) && s.countMax > 0
  {
    hide Count, Configured, Positions, Slots;
  }

  lemma GetsThere(s: State, s': State, t: ThreadId, a: Action)
    requires StepOf(s, s', t, a) && s' != s && t in s'.threads && Reserving(s'.threads[t])
    ensures s'.enqTickets == s.enqTickets && s'.deqTickets == s.deqTickets
    ensures if s'.threads[t].DeqReserve? then s.threads[t].DeqCheck? && s.countLB > OFFSET else s.threads[t].DeqReserve?
  {
    hide Pow2, Inc, Dec;
    if Enqueuing(s.threads[t]) {
      EnqueuingElsewhere(s, s', t, a);
    } else if !s.threads[t].DeqCheck? && !s.threads[t].DeqReserve? {
      DequeuedElsewhere(s, s', t, a);
    }
  }

  lemma EnqueuingElsewhere(s: State, s': State, t: ThreadId, a: Action)
    requires StepOf(s, s', t, a) && t in s'.threads && Enqueuing(s.threads[t])
    ensures !Reserving(s'.threads[t])
  {
    hide Pow2, Inc, Dec;
  }

  lemma DequeuedElsewhere(s: State, s': State, t: ThreadId, a: Action)
    requires StepOf(s, s', t, a) && t in s'.threads && !Enqueuing(s.threads[t])
    requires !s.threads[t].DeqCheck? && !s.threads[t].DeqReserve?
    ensures !Reserving(s'.threads[t]) || s' == s
  {
    hide Pow2, Inc, Dec;
  }

  lemma NotThere(s: State, s': State, t: ThreadId)
    requires t in s.threads && t in s'.threads && s'.threads == s.threads[t := s'.threads[t]]
             && s'.countMax == s.countMax
    requires Spare(s) && !Reserving(s'.threads[t])
    ensures Spare(s')
  {
    hide Count;
    CountMoved(s.threads, t, s'.threads[t], AtDeqReserve);
    Elsewhere(s'.threads, t);
  }

  lemma SpareStep(s: State, t: ThreadId, a: Action)
    requires Inv(s) && Spare(s) && t in s.threads
    ensures Spare(Step(s, t, a))
  {
    hide Step, Count, Pow2, UpperCount, Lower, Positions, Slots;
    var s' := Step(s, t, a);
    SameThreads(s, s', t, a);
    if s' == s {
    } else if !Reserving(s'.threads[t]) {
      NotThere(s, s', t);
    } else {
      GetsThere(s, s', t, a);
      Moved(s, t, s'.threads[t]);
      if s'.threads[t].DeqReserve? {
        SeenSpare(s);
      }
    }
  }

  /** When _countLB is about to wrap, 1,000,000 threads are backing out, one is about to, and there is one more. */
  lemma UnderflowNeeds(s: State, t: ThreadId)
    requires Inv(s) && Spare(s) && t in s.threads && Underflows(s, t)
    ensures Count(s.threads, AtDeqBackOut) >= OFFSET + Published(s) - DeqReserved(s) >= OFFSET
    ensures |s.threads| >= OFFSET + 2 && s.countMax >= 1
  {
    hide Configured, Positions, Slots, Pow2;
    ThreadCounted(s.threads, t, AtDeqReserve);
    var others := s.threads.Keys - {t};
    assert ThreadsAt(s.threads, AtDeqBackOut) <= others;
    Subset(ThreadsAt(s.threads, AtDeqBackOut), others);
    Removed(s.threads.Keys, t);
  }

  /**
   * Every state of every run satisfies the invariant, as long as there are at most 1,000,001 threads, or no capacity,
   * or fewer than 1,000,000 threads back out at once.
   */
  lemma {:induction false} RunInv(r: seq<State>, i: nat)
    requires Run(r) && i < |r|
    requires |r[0].threads| <= OFFSET + 1 || r[0].countMax == 0
             || forall j :: 0 <= j < |r| ==> Count(r[j].threads, AtDeqBackOut) < OFFSET
    ensures Inv(r[i]) && Spare(r[i])
  {
    hide Init, Upper, Lower, Spare, Step, Count;
    if i == 0 {
      InitInv(r[0]);
      InitSpare(r[0]);
    } else {
      RunInv(r, i - 1);
      var s := r[i - 1];
      assert Next(s, r[i]);
      var t, a :| StepOf(s, r[i], t, a);
      RunFrame(r, i - 1);
      StepInv(s, t, a);
      SpareStep(s, t, a);
      if Underflows(s, t) {
        UnderflowNeeds(s, t);
      }
    }
  }

  // ----- Safety -----

  /** What count() returns. */
  function Sample(s: State): nat {
    if s.countLB >= OFFSET then s.countLB - OFFSET else 0
  }

  /**
   * In every run, with any number of threads: no value is lost, invented or duplicated, no more values are in the slots
   * than _countUB says, or than enqueuers have reserved places for, and these reservations stay within the capacity.
   */
  lemma Conservation(s: State)
    requires Upper(s)
    ensures s.stored == s.taken + Values(s.slots)
    ensures Filled(s.slots) <= EnqReserved(s) - Released(s) <= s.countUB
    ensures EnqReserved(s) - Released(s) <= s.countMax <= Pow2(s.n) == |s.slots|
    ensures s.enqTickets <= s.deqTickets + s.countMax
  {
    hide Count, Filled, Values, Pow2, Balance;
  }

  /** While _countLB has not wrapped, it bounds the values from below, and the head is never past the tail. */
  lemma Safety(s: State)
    requires Inv(s)
    ensures Sample(s) <= Filled(s.slots) <= s.countUB
    ensures s.deqTickets <= s.enqTickets <= s.deqTickets + s.countMax
  {
    hide Count, Filled, Values, Pow2, Balance;
  }

  // ----- Freedom from deadlock -----

  lemma WindowAbove(s: State, i: nat)
    requires Upper(s) && i < |s.slots|
    ensures Visits(i, s.enqTickets, Pow2(s.n)) <= Visits(i, s.deqTickets, Pow2(s.n)) + 1
  {
    hide Visits, Filled, Values, Balance, Count, Pow2;
    Conservation(s);
    if s.deqTickets <= s.enqTickets {
      WindowVisits(i, s.deqTickets, s.enqTickets, s.n);
    } else {
      VisitsGrow(i, s.enqTickets, s.deqTickets, Pow2(s.n));
    }
  }

  lemma Window(s: State, i: nat)
    requires Inv(s) && i < |s.slots|
    ensures Visits(i, s.deqTickets, Pow2(s.n)) <= Visits(i, s.enqTickets, Pow2(s.n))
  {
    hide Visits, Filled, Values, Balance, Count, Pow2;
    Safety(s);
    VisitsGrow(i, s.deqTickets, s.enqTickets, Pow2(s.n));
  }

  /**
   * In every run: an enqueuer that finds its slot full is not stuck, as a dequeuer with a ticket for that slot can take
   * the value.
   */
  lemma BlockedEnqueuer(s: State, t: ThreadId) returns (u: ThreadId)
    requires Upper(s) && t in s.threads && s.threads[t].EnqStore? && s.slots[s.threads[t].pos].Full?
    ensures u in s.threads && s.threads[u] == DeqTake(s.threads[t].pos)
    ensures Step(s, u, Go).slots[s.threads[t].pos] == Null
  {
    hide Visits, Count, Filled, Values, Pow2;
    var pos := s.threads[t].pos;
    WindowAbove(s, pos);
    ThreadCounted(s.threads, t, AtEnqStoreOf(pos));
    assert Balance(s, pos) == 1;
    u := SomeThread(s.threads, AtDeqTakeOf(pos));
  }

  /**
   * While _countLB has not wrapped, a dequeuer that finds its slot empty is not stuck either: an enqueuer with a ticket
   * for that slot can store its value.
   */
  lemma BlockedDequeuer(s: State, t: ThreadId) returns (u: ThreadId)
    requires Inv(s) && t in s.threads && s.threads[t].DeqTake? && s.slots[s.threads[t].pos] == Null
    ensures u in s.threads && s.threads[u].EnqStore? && s.threads[u].pos == s.threads[t].pos
    ensures Step(s, u, Go).slots[s.threads[t].pos] == Full(s.threads[u].v)
  {
    hide Visits, Count, Filled, Values, Pow2;
    var pos := s.threads[t].pos;
    Window(s, pos);
    ThreadCounted(s.threads, t, AtDeqTakeOf(pos));
    assert Balance(s, pos) == 0;
    u := SomeThread(s.threads, AtEnqStoreOf(pos));
  }

  // ----- Progress -----

  /** How many effective steps a call still has before it. */
  function Weight(pc: Pc): nat {
    match pc
    case Idle => 0
    case EnqCheck(_) => 5
    case EnqReserve(_) => 4
    case EnqTicket(_) => 3
    case EnqStore(_, _) => 2
    case EnqCount => 1
    case EnqBackOut => 1
    case DeqCheck => 5
    case DeqReserve => 4
    case DeqTicket => 3
    case DeqTake(_) => 2
    case DeqCount(_) => 1
    case DeqBackOut => 1
  }

  ghost function Work(m: map<ThreadId, Pc>): nat {
    Total(m, Weight)
  }

  ghost predicate Lighter(s: State, s': State, t: ThreadId) {
    && t in s.threads && t in s'.threads
    && s'.threads == s.threads[t := s'.threads[t]] && Weight(s'.threads[t]) < Weight(s.threads[t])
  }

  lemma EnqueuingWeight(s: State, s': State, t: ThreadId, a: Action)
    requires StepOf(s, s', t, a) && Enqueuing(s.threads[t])
    ensures s' == s || Lighter(s, s', t)
  {
    hide Pow2, Inc, Dec;
  }

  predicate Calls(a: Action) {
    a.CallEnq? || a.CallDeq?
  }

  lemma DequeuingWeight(s: State, s': State, t: ThreadId, a: Action)
    requires StepOf(s, s', t, a) && !Enqueuing(s.threads[t]) && !Calls(a)
    ensures s' == s || Lighter(s, s', t)
  {
    hide Pow2, Inc, Dec;
  }

  /** Every step that changes the state, other than a new call, brings some call strictly closer to its return. */
  lemma StepWork(s: State, s': State, t: ThreadId, a: Action)
    requires StepOf(s, s', t, a) && !Calls(a)
    ensures s' == s || Work(s'.threads) < Work(s.threads)
  {
    hide Step, Weight, Pow2, Enqueuing;
    if Enqueuing(s.threads[t]) {
      EnqueuingWeight(s, s', t, a);
    } else {
      DequeuingWeight(s, s', t, a);
    }
    if s' != s {
      TotalMoved(s.threads, t, s'.threads[t], Weight);
    }
  }

  /** While _countLB has not wrapped, and a call is under way, some thread can take an effective step. */
  lemma NoDeadlock(s: State, u: ThreadId) returns (t: ThreadId)
    requires Inv(s) && u in s.threads && !s.threads[u].Idle?
    ensures t in s.threads && !s.threads[t].Idle?
    ensures Work(Step(s, t, Go).threads) < Work(s.threads)
  {
    hide Work, Slots, Pow2, Inc, Dec, Positions, UpperCount, Lower;
    t := u;
    if s.threads[u].EnqStore? && s.slots[s.threads[u].pos].Full? {
      t := BlockedEnqueuer(s, u);
    } else if s.threads[u].DeqTake? && s.slots[s.threads[u].pos] == Null {
      t := BlockedDequeuer(s, u);
    }
    StepWork(s, Step(s, t, Go), t, Go);
    assert Step(s, t, Go).threads[t] != s.threads[t];
  }

  /** One step after another, without new calls. */
  ghost predicate GoRun(r: seq<State>) {
    |r| > 0 && forall i :: 0 <= i < |r| - 1 ==> GoStep(r[i], r[i + 1])
  }

  ghost predicate GoStep(s: State, s': State) {
    exists t, a :: !Calls(a) && StepOf(s, s', t, a)
  }

  ghost predicate Quiet(s: State) {
    forall t :: t in s.threads ==> s.threads[t] == Idle
  }

  /** While _countLB has not wrapped, the calls under way can all be brought to return, without new calls. */
  lemma {:induction false} Drain(s: State) returns (r: seq<State>)
    requires Inv(s) && |s.threads| < Pow2(62)
    ensures GoRun(r) && r[0] == s && Quiet(r[|r| - 1]) && Inv(r[|r| - 1])
    decreases Work(s.threads)
  {
    hide Inv, Work, Step, Count, Pow2;
    if Quiet(s) {
      r := [s];
    } else {
      var u :| u in s.threads && s.threads[u] != Idle;
      var t := NoDeadlock(s, u);
      var s' := Relieve(s, t);
      var rest := Drain(s');
      r := [s] + rest;
      assert forall i :: 1 <= i < |r| - 1 ==> r[i] == rest[i - 1] && r[i + 1] == rest[i];
    }
  }

  /** Where a step would take _countLB below zero, some thread is backing out, and its step raises the counter first. */
  lemma Relieve(s: State, t: ThreadId) returns (s': State)
    requires Inv(s) && |s.threads| < Pow2(62) && t in s.threads && Work(Step(s, t, Go).threads) < Work(s.threads)
    ensures GoStep(s, s') && Inv(s') && |s'.threads| == |s.threads| && Work(s'.threads) < Work(s.threads)
  {
    hide Positions, UpperCount, Slots, Work, Pow2, Inc, Dec, Count;
    var u := t;
    if Underflows(s, t) {
      u := SomeThread(s.threads, AtDeqBackOut);
      StepWork(s, Step(s, u, Go), u, Go);
      assert Step(s, u, Go).threads[u] != s.threads[u];
    }
    s' := Step(s, u, Go);
    hide Step, Inv;
    StepInv(s, u, Go);
    SameThreads(s, s', u, Go);
  }

  /** With no call under way _countUB is exact, and so is _countLB, unless it has wrapped. */
  lemma QuietCounts(s: State)
    requires Upper(s) && Quiet(s)
    ensures Filled(s.slots) == s.countUB && (Lower(s) ==> Sample(s) == Filled(s.slots))
  {
    hide Filled, Values, Pow2, Balance, Visits, Is;
    forall w
      ensures Count(s.threads, w) == 0
    {
      NoneAt(s.threads, w);
    }
  }
}
