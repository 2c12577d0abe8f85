/**
 * When RingBuffer's _countLB can wrap around, and its calls deadlock: with 1,000,002 threads, and in no run with fewer.
 */
module RingBufferOverrun {
  import opened Arithmetic
  import opened RingBufferSteps
  import opened RingBufferRuns

  /** The smallest number of threads with which the counter can wrap. */
  const CROWD: nat := OFFSET + 2

  /** A run of k threads on a buffer of this size. */
  ghost predicate RunOf(r: seq<State>, n: nat, countMax: nat, k: nat) {
    Run(r) && r[0].n == n && r[0].countMax == countMax && |r[0].threads| == k
  }

  /** A state that a run of k threads on a buffer of this size can reach. */
  ghost predicate Reachable(n: nat, countMax: nat, k: nat, s: State) {
    exists r :: Reaches(r, n, countMax, k, s)
  }

  ghost predicate Reaches(r: seq<State>, n: nat, countMax: nat, k: nat, s: State) {
    RunOf(r, n, countMax, k) && r[|r| - 1] == s
  }

  lemma Longer(r: seq<State>, n: nat, countMax: nat, k: nat, s: State, s': State, t: ThreadId, a: Action)
    requires Reaches(r, n, countMax, k, s) && StepOf(s, s', t, a)
    ensures Reaches(r + [s'], n, countMax, k, s')
  {
    hide Init, Step, Pow2;
    var r' := r + [s'];
    assert Next(s, s');
    forall i | 0 <= i < |r'| - 1
      ensures Next(r'[i], r'[i + 1])
    {
      if i < |r| - 1 {
        assert r'[i] == r[i] && r'[i + 1] == r[i + 1];
      }
    }
  }

  lemma Take(n: nat, countMax: nat, k: nat, s: State, t: ThreadId, a: Action) returns (s': State)
    requires Reachable(n, countMax, k, s) && t in s.threads && |s.slots| == Pow2(s.n)
    ensures s' == Step(s, t, a) && Reachable(n, countMax, k, s')
  {
    hide Reaches, Step;
    s' := Step(s, t, a);
    var r :| Reaches(r, n, countMax, k, s);
    Longer(r, n, countMax, k, s, s', t, a);
  }

  /** Threads 0 to k - 1. */
  ghost function Ids(k: nat): (ids: set<ThreadId>)
    ensures |ids| == k
    ensures forall t: ThreadId :: t in ids <==> t < k
  {
    if k == 0 then {} else Ids(k - 1) + {k - 1}
  }

  ghost function Everyone(k: nat): map<ThreadId, Pc> {
    map t | t in Ids(k) :: Idle
  }

  lemma EveryoneCount(m: map<ThreadId, Pc>, k: nat)
    requires m.Keys == Ids(k)
    ensures |m| == k
  {
    hide Ids;
    KeysCount(m);
  }

  function NoSlots(n: nat): (slots: seq<Slot>)
    ensures |slots| == Pow2(n)
  {
    seq(Pow2(n), _ => Null)
  }

  function Empty(n: nat, countMax: nat, threads: map<ThreadId, Pc>, countUB: nat): State {
    State(n, countMax, OFFSET, countUB, 0, 0, NoSlots(n), threads, 0, 0, multiset{}, multiset{})
  }

  /** The buffer holds one value. */
  function OneValue(n: nat, countMax: nat, threads: map<ThreadId, Pc>, countLB: nat): State {
    State(n, countMax, countLB, 1, 0, 9, NoSlots(n)[0 := Full(7)], threads, 1, 0, multiset{7}, multiset{})
  }

  /** The first d threads have seen the value in the counter, the others have not called yet. */
  ghost function Checked(n: nat, countMax: nat, k: nat, d: nat): State {
    OneValue(n, countMax, map t | t in Ids(k) :: if t < d then DeqReserve else Idle, OFFSET + 1)
  }

  /** Thread 0 has won the value, threads 1 to d are backing out, and the others of the crowd are about to. */
  ghost function BackingOut(n: nat, countMax: nat, k: nat, d: nat): State
    requires d <= OFFSET
  {
    OneValue(
      n, countMax,
      map t | t in Ids(k) ::
        if t == 0 then DeqTicket else if t <= d then DeqBackOut else if t < CROWD then DeqReserve else Idle,
      OFFSET - d)
  }

  ghost predicate Sizes(n: nat, countMax: nat, k: nat) {
    n <= 63 && 1 <= countMax <= Pow2(n) && CROWD <= k < Pow2(62)
  }

  lemma Fresh(n: nat, countMax: nat, k: nat)
    requires Sizes(n, countMax, k)
    ensures Reachable(n, countMax, k, Empty(n, countMax, Everyone(k), 0))
  {
    hide Pow2, Ids;
    var s := Empty(n, countMax, Everyone(k), 0);
    EveryoneCount(s.threads, k);
    assert Reaches([s], n, countMax, k, s);
  }

  ghost function OneReserved(n: nat, countMax: nat, k: nat): State {
    Empty(n, countMax, Everyone(k)[0 := EnqTicket(7)], 1)
  }

  lemma FirstReserves(n: nat, countMax: nat, k: nat)
    requires Sizes(n, countMax, k)
    ensures Reachable(n, countMax, k, OneReserved(n, countMax, k))
  {
    hide Reachable, Ids, Pow2, NoSlots;
    Fresh(n, countMax, k);
    var s0 := Empty(n, countMax, Everyone(k), 0);
    var s1 := Take(n, countMax, k, s0, 0, CallEnq(7));
    var s2 := Take(n, countMax, k, s1, 0, Go);
    var s3 := Take(n, countMax, k, s2, 0, Go);
    assert s3.threads == OneReserved(n, countMax, k).threads;
  }

  /** Thread 0 enqueues a value. */
  lemma OneEnqueued(n: nat, countMax: nat, k: nat)
    requires Sizes(n, countMax, k)
    ensures Reachable(n, countMax, k, Checked(n, countMax, k, 0))
  {
    hide Reachable, Ids, Pow2;
    FirstReserves(n, countMax, k);
    var s1 := Take(n, countMax, k, OneReserved(n, countMax, k), 0, Go);
    assert s1.threads[0] == EnqStore(7, 0);
    var s2 := Take(n, countMax, k, s1, 0, Go);
    var s3 := Take(n, countMax, k, s2, 0, Go);
    assert s3.threads == Checked(n, countMax, k, 0).threads;
    assert s3.stored == multiset{7};
  }

  lemma {:induction false} AllChecked(n: nat, countMax: nat, k: nat, d: nat)
    requires Sizes(n, countMax, k) && d <= CROWD
    ensures Reachable(n, countMax, k, Checked(n, countMax, k, d))
  {
    hide Reachable, Ids, Pow2, NoSlots;
    if d == 0 {
      OneEnqueued(n, countMax, k);
    } else {
      AllChecked(n, countMax, k, d - 1);
      var s1 := Take(n, countMax, k, Checked(n, countMax, k, d - 1), d - 1, CallDeq);
      var s2 := Take(n, countMax, k, s1, d - 1, Go);
      assert s2.threads == Checked(n, countMax, k, d).threads;
    }
  }

  lemma {:induction false} AllBackingOut(n: nat, countMax: nat, k: nat, d: nat)
    requires Sizes(n, countMax, k) && d <= OFFSET
    ensures Reachable(n, countMax, k, BackingOut(n, countMax, k, d))
  {
    hide Reachable, Ids, Pow2, NoSlots;
    if d == 0 {
      AllChecked(n, countMax, k, CROWD);
      var s := Take(n, countMax, k, Checked(n, countMax, k, CROWD), 0, Go);
      assert s.threads == BackingOut(n, countMax, k, 0).threads;
    } else {
      AllBackingOut(n, countMax, k, d - 1);
      OneMoreBacksOut(n, countMax, k, d);
      var _ := Take(n, countMax, k, BackingOut(n, countMax, k, d - 1), d, Go);
    }
  }

  lemma OneMoreBacksOut(n: nat, countMax: nat, k: nat, d: nat)
    requires Sizes(n, countMax, k) && 1 <= d <= OFFSET
    ensures d in BackingOut(n, countMax, k, d - 1).threads
    ensures Step(BackingOut(n, countMax, k, d - 1), d, Go) == BackingOut(n, countMax, k, d)
  {
    hide Ids, Pow2, NoSlots;
    var s := BackingOut(n, countMax, k, d - 1);
    assert s.threads[d := DeqBackOut] == BackingOut(n, countMax, k, d).threads;
    assert Dec(s.countLB) == OFFSET - d;
  }

  /** In some step of the run, _countLB goes from zero to the largest word. */
  ghost predicate Wraps(r: seq<State>) {
    exists i :: 0 <= i < |r| - 1 && r[i].countLB == 0 && r[i + 1].countLB == WORD - 1
  }

  /** A run of k threads, on a buffer of this size, in which _countLB wraps around. */
  ghost predicate CanWrap(n: nat, countMax: nat, k: nat) {
    exists r :: RunOf(r, n, countMax, k) && Wraps(r)
  }

  /**
   * With 1,000,002 threads or more, and any capacity, there is a run that takes _countLB from zero to the largest word.
   * After that the buffer reports a count above its capacity, and the invariant is lost.
   */
  lemma Overrun(n: nat, countMax: nat, k: nat) returns (r: seq<State>)
    requires n <= 63 && 1 <= countMax <= Pow2(n) && OFFSET + 2 <= k < Pow2(62)
    ensures RunOf(r, n, countMax, k) && Wraps(r)
    ensures Sample(r[|r| - 1]) > countMax && !Inv(r[|r| - 1])
  {
    hide Run, Ids, Inv, Pow2, NoSlots;
    AllBackingOut(n, countMax, k, OFFSET);
    var s := BackingOut(n, countMax, k, OFFSET);
    r :| Reaches(r, n, countMax, k, s);
    var s' := Step(s, OFFSET + 1, Go);
    Longer(r, n, countMax, k, s, s', OFFSET + 1, Go);
    RunNotEmpty(r);
    var i := |r| - 1;
    r := r + [s'];
    assert r[i] == s && r[i + 1] == s';
    WrappedCount(s');
  }

  lemma RunNotEmpty(r: seq<State>)
    requires Run(r)
    ensures |r| > 0
  {}

  lemma WrappedCount(s: State)
    requires s.countLB == WORD - 1 && s.countMax <= Pow2(s.n) && s.n <= 63
    ensures Sample(s) > s.countMax && !Inv(s)
  {
    hide Count, Filled, Values, Balance, Pow2;
    Pow2Mono(s.n, 63);
    WordIsPow2();
    if Inv(s) {
      Safety(s);
    }
  }

  /** _countLB can wrap around exactly when there are at least 1,000,002 threads, and the buffer has any capacity. */
  lemma WrapIff(n: nat, countMax: nat, k: nat)
    requires n <= 63 && countMax <= Pow2(n) && k < Pow2(62)
    ensures CanWrap(n, countMax, k) <==> k >= OFFSET + 2 && countMax >= 1
  {
    hide RunOf, Wraps, Inv, Pow2;
    if k >= OFFSET + 2 && countMax >= 1 {
      var _ := Overrun(n, countMax, k);
    }
    if CanWrap(n, countMax, k) && !(k >= OFFSET + 2 && countMax >= 1) {
      var r :| RunOf(r, n, countMax, k) && Wraps(r);
      NeverWraps(r, n, countMax, k);
    }
  }

  lemma NeverWraps(r: seq<State>, n: nat, countMax: nat, k: nat)
    requires RunOf(r, n, countMax, k) && (k <= OFFSET + 1 || countMax == 0)
    ensures !Wraps(r)
  {
    hide Inv, Spare, Init, Step, Pow2;
    forall i | 0 <= i < |r|
      ensures r[i].countLB != WORD - 1
    {
      RunInv(r, i);
      RunFrame(r, i);
      if r[i].countLB == WORD - 1 {
        InvSizes(r[i]);
        WrappedCount(r[i]);
      }
    }
  }

  lemma InvSizes(s: State)
    requires Inv(s)
    ensures s.n <= 63 && s.countMax <= Pow2(s.n)
  {}

  // ----- Deadlock -----

  /** The calls under way can all be brought to return, without new calls. */
  ghost predicate Drains(s: State) {
    exists r :: GoRun(r) && r[0] == s && Quiet(r[|r| - 1])
  }

  ghost predicate Lowers(s: State, t: ThreadId, a: Action) {
    t in s.threads && |s.slots| == Pow2(s.n) && !Calls(a) && Work(Step(s, t, a).threads) < Work(s.threads)
  }

  /** If a call is under way, some thread can take an effective step. */
  ghost predicate Progresses(s: State) {
    Quiet(s) || exists t, a :: Lowers(s, t, a)
  }

  /** Thread t waits for a value, the slots are empty, and nobody enqueues. */
  ghost predicate Stuck(s: State, t: ThreadId) {
    && |s.slots| == Pow2(s.n) && (forall i :: 0 <= i < |s.slots| ==> s.slots[i] == Null)
    && t in s.threads && s.threads[t].DeqTake? && forall u :: u in s.threads ==> !Enqueuing(s.threads[u])
  }

  lemma StuckStep(s: State, s': State, t: ThreadId, u: ThreadId, a: Action)
    requires Stuck(s, t) && StepOf(s, s', u, a) && !Calls(a)
    ensures Stuck(s', t)
  {
    hide Pow2, Inc, Dec;
  }

  /** Without new calls, such a thread waits forever. */
  lemma {:induction false} StuckForever(r: seq<State>, t: ThreadId, i: nat)
    requires GoRun(r) && Stuck(r[0], t) && i < |r|
    ensures Stuck(r[i], t)
  {
    hide Stuck, Step;
    if i > 0 {
      StuckForever(r, t, i - 1);
      assert GoStep(r[i - 1], r[i]);
      var u, a :| !Calls(a) && StepOf(r[i - 1], r[i], u, a);
      StuckStep(r[i - 1], r[i], t, u, a);
    }
  }

  lemma NeverDrains(s: State, t: ThreadId)
    requires Stuck(s, t)
    ensures !Drains(s)
  {
    hide Stuck;
    forall r | GoRun(r) && r[0] == s
      ensures !Quiet(r[|r| - 1])
    {
      StuckForever(r, t, |r| - 1);
      NotQuiet(r[|r| - 1], t);
    }
  }

  lemma NotQuiet(s: State, t: ThreadId)
    requires Stuck(s, t)
    ensures !Quiet(s)
  {}

  /** The state after _countLB has wrapped: thread 0 is still to take the one value. */
  ghost function Wrapped(n: nat, countMax: nat, k: nat): State {
    OneValue(
      n, countMax,
      map t | t in Ids(k) :: if t == 0 then DeqTicket else if t < CROWD then DeqBackOut else Idle,
      WORD - 1)
  }

  lemma WrappedReachable(n: nat, countMax: nat, k: nat)
    requires Sizes(n, countMax, k)
    ensures Reachable(n, countMax, k, Wrapped(n, countMax, k))
  {
    hide Reachable, Ids, Pow2, NoSlots;
    AllBackingOut(n, countMax, k, OFFSET);
    var s := Take(n, countMax, k, BackingOut(n, countMax, k, OFFSET), OFFSET + 1, Go);
    assert s.threads == Wrapped(n, countMax, k).threads;
  }

  /** Thread 0 has taken the value and returned. */
  ghost function Emptied(n: nat, countMax: nat, k: nat): State {
    State(
      n, countMax, WORD - 1, 0, 9, 9, NoSlots(n),
      map t | t in Ids(k) :: if t == 0 then Idle else if t < CROWD then DeqBackOut else Idle,
      1, 1, multiset{7}, multiset{7})
  }

  lemma EmptiedReachable(n: nat, countMax: nat, k: nat)
    requires Sizes(n, countMax, k)
    ensures Reachable(n, countMax, k, Emptied(n, countMax, k))
  {
    hide Reachable, Ids, Pow2;
    WrappedReachable(n, countMax, k);
    var s := Take(n, countMax, k, Wrapped(n, countMax, k), 0, Go);
    assert s.threads[0] == DeqTake(0);
    s := Take(n, countMax, k, s, 0, Go);
    assert s.slots == NoSlots(n) && s.taken == multiset{7};
    s := Take(n, countMax, k, s, 0, Go);
    assert s.threads == Emptied(n, countMax, k).threads;
  }

  /**
   * With 1,000,002 threads or more, and any capacity, there is a run to a deadlock: after the wrap thread 0 takes the
   * only value, calls deQ again, is let through by the wrapped counter, and waits at a slot that nobody will fill.
   */
  lemma Deadlock(n: nat, countMax: nat, k: nat) returns (s: State)
    requires n <= 63 && 1 <= countMax <= Pow2(n) && OFFSET + 2 <= k < Pow2(62)
    ensures Reachable(n, countMax, k, s) && Stuck(s, 0) && !Drains(s)
  {
    hide Reachable, Ids, Pow2, Drains;
    EmptiedReachable(n, countMax, k);
    s := Take(n, countMax, k, Emptied(n, countMax, k), 0, CallDeq);
    s := Take(n, countMax, k, s, 0, Go);
    s := Take(n, countMax, k, s, 0, Go);
    s := Take(n, countMax, k, s, 0, Go);
    NeverDrains(s, 0);
  }

  lemma ReachableInv(n: nat, countMax: nat, k: nat, s: State)
    requires Reachable(n, countMax, k, s) && (k <= OFFSET + 1 || countMax == 0)
    ensures Inv(s) && |s.threads| == k < Pow2(62)
  {
    hide Inv, Spare, Init, Step, Pow2;
    var r :| Reaches(r, n, countMax, k, s);
    RunInv(r, |r| - 1);
    RunFrame(r, |r| - 1);
  }

  /**
   * From every reachable state the calls under way can all be brought to return, exactly when there are at most
   * 1,000,001 threads, or the buffer has no capacity.
   */
  lemma DrainIff(n: nat, countMax: nat, k: nat)
    requires n <= 63 && countMax <= Pow2(n) && k < Pow2(62)
    ensures (forall s :: Reachable(n, countMax, k, s) ==> Drains(s)) <==> k <= OFFSET + 1 || countMax == 0
  {
    hide Reachable, Inv, Pow2, Stuck;
    if k <= OFFSET + 1 || countMax == 0 {
      forall s | Reachable(n, countMax, k, s)
        ensures Drains(s)
      {
        ReachableInv(n, countMax, k, s);
        var _ := Drain(s);
      }
    } else {
      var s := Deadlock(n, countMax, k);
    }
  }

  /** And exactly then, in every reachable state with a call under way, some thread can take an effective step. */
  lemma NoDeadlockIff(n: nat, countMax: nat, k: nat)
    requires n <= 63 && countMax <= Pow2(n) && k < Pow2(62)
    ensures (forall s :: Reachable(n, countMax, k, s) ==> Progresses(s)) <==> k <= OFFSET + 1 || countMax == 0
  {
    hide Reachable, Inv, Pow2, Stuck, Drains, Progresses;
    if k <= OFFSET + 1 || countMax == 0 {
      forall s | Reachable(n, countMax, k, s)
        ensures Progresses(s)
      {
        ReachableInv(n, countMax, k, s);
        InvProgresses(s);
      }
    } else {
      var s := Deadlock(n, countMax, k);
      if forall s :: Reachable(n, countMax, k, s) ==> Progresses(s) {
        ProgressDrains(n, countMax, k, s);
      }
    }
  }

  lemma InvProgresses(s: State)
    requires Inv(s)
    ensures Progresses(s)
  {
    hide Work, Step, UpperCount, Lower, Slots, Positions;
    if !Quiet(s) {
      var u :| u in s.threads && s.threads[u] != Idle;
      var t := NoDeadlock(s, u);
      assert Lowers(s, t, Go);
    }
  }

  lemma {:induction false} ProgressDrains(n: nat, countMax: nat, k: nat, s: State)
    requires Reachable(n, countMax, k, s) && forall s :: Reachable(n, countMax, k, s) ==> Progresses(s)
    ensures Drains(s)
    decreases Work(s.threads)
  {
    hide Reachable, Work, Step, Pow2, Quiet;
    if Quiet(s) {
      assert GoRun([s]);
    } else {
      var t, a :| Lowers(s, t, a);
      var s' := Take(n, countMax, k, s, t, a);
      ProgressDrains(n, countMax, k, s');
      var rest :| GoRun(rest) && rest[0] == s' && Quiet(rest[|rest| - 1]);
      var r := [s] + rest;
      assert StepOf(s, s', t, a) && GoStep(s, s');
      assert forall i :: 1 <= i < |r| - 1 ==> r[i] == rest[i - 1] && r[i + 1] == rest[i];
      assert GoRun(r) && r[0] == s && Quiet(r[|r| - 1]);
    }
  }

  /** And exactly then count() never exceeds the number of values in the slots. */
  lemma CountIff(n: nat, countMax: nat, k: nat)
    requires n <= 63 && countMax <= Pow2(n) && k < Pow2(62)
    ensures (forall s :: Reachable(n, countMax, k, s) ==> Sample(s) <= Filled(s.slots))
            <==> k <= OFFSET + 1 || countMax == 0
  {
    hide Reachable, Inv, Pow2, Ids, NoSlots, Filled;
    if k <= OFFSET + 1 || countMax == 0 {
      forall s | Reachable(n, countMax, k, s)
        ensures Sample(s) <= Filled(s.slots)
      {
        ReachableInv(n, countMax, k, s);
        Safety(s);
      }
    } else {
      var s := Wrapped(n, countMax, k);
      WrappedReachable(n, countMax, k);
      ReachableFilled(n, countMax, k, s);
      WrappedCount(s);
    }
  }

  lemma ReachableFilled(n: nat, countMax: nat, k: nat, s: State)
    requires Reachable(n, countMax, k, s)
    ensures Filled(s.slots) <= countMax
  {
    hide Upper, Init, Step, Pow2, Filled;
    var r :| Reaches(r, n, countMax, k, s);
    RunUpper(r, |r| - 1);
    RunFrame(r, |r| - 1);
    Conservation(s);
  }
}
