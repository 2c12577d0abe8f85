/**
 * What each call of RingBuffer does, over whole runs with any number of threads: a call that succeeds changes exactly
 * one slot, with the caller's value or the returned one, and a call that fails changes none and has a reason.
 */
module RingBufferHistory {
  import opened Arithmetic
  import opened RingBufferSteps
  import opened RingBufferRuns

  // ----- Runs with their moves -----

  datatype Move = Move(t: ThreadId, a: Action)

  /** A run with the moves between its states. */
  datatype Log = Log(states: seq<State>, moves: seq<Move>)

  ghost predicate IsLog(r: Log) {
    && |r.states| == |r.moves| + 1 && Init(r.states[0]) && |r.states[0].threads| < Pow2(62)
    && forall i :: 0 <= i < |r.moves| ==> StepOf(r.states[i], r.states[i + 1], r.moves[i].t, r.moves[i].a)
  }

  lemma LogUpper(r: Log, i: nat)
    requires IsLog(r) && i < |r.states|
    ensures Run(r.states) && Upper(r.states[i]) && r.states[i].countMax == r.states[0].countMax
  {
    hide Init, Upper, Step, Pow2;
    forall k | 0 <= k < |r.moves|
      ensures Next(r.states[k], r.states[k + 1])
    {
      assert StepOf(r.states[k], r.states[k + 1], r.moves[k].t, r.moves[k].a);
    }
    RunUpper(r.states, i);
    RunFrame(r.states, i);
  }

  // ----- What a step does to the slots -----

  /** The value goes into one empty slot, and all others stay. */
  ghost predicate Puts(s: State, s': State, v: Value) {
    exists pos :: PutAt(s, s', pos, v)
  }

  ghost predicate PutAt(s: State, s': State, pos: nat, v: Value) {
    pos < |s.slots| && s.slots[pos] == Null && s'.slots == s.slots[pos := Full(v)]
  }

  /** The value comes out of one slot, and all others stay. */
  ghost predicate TakesOut(s: State, s': State, v: Value) {
    exists pos :: TakenAt(s, s', pos, v)
  }

  ghost predicate TakenAt(s: State, s': State, pos: nat, v: Value) {
    pos < |s.slots| && s.slots[pos] == Full(v) && s'.slots == s.slots[pos := Null]
  }

  // ----- What a call has done so far -----

  datatype Stage = NoCall | WillEnq(v: Value) | DidEnq | WontEnq | WillDeq | DidDeq(v: Value) | WontDeq

  function StageOf(pc: Pc): Stage {
    match pc
    case Idle => NoCall
    case EnqCheck(v) => WillEnq(v)
    case EnqReserve(v) => WillEnq(v)
    case EnqBackOut => WontEnq
    case EnqTicket(v) => WillEnq(v)
    case EnqStore(v, _) => WillEnq(v)
    case EnqCount => DidEnq
    case DeqCheck => WillDeq
    case DeqReserve => WillDeq
    case DeqBackOut => WontDeq
    case DeqTicket => WillDeq
    case DeqTake(_) => WillDeq
    case DeqCount(v) => DidDeq(v)
  }

  ghost function StageIn(s: State, t: ThreadId): Stage
    requires t in s.threads
  {
    StageOf(s.threads[t])
  }

  /** A step in which a call changes a slot, and with which result. */
  ghost predicate Changes(s: State, s': State, g: Stage, g': Stage) {
    || (g.WillEnq? && g' == DidEnq && Puts(s, s', g.v))
    || (g == WillDeq && g'.DidDeq? && TakesOut(s, s', g'.v))
  }

  /** A step in which a call reads a counter that turns it away. */
  ghost predicate Refuses(s: State, pc: Pc) {
    || ((pc.EnqCheck? || pc.EnqReserve?) && s.countUB >= s.countMax)
    || ((pc.DeqCheck? || pc.DeqReserve?) && s.countLB <= OFFSET)
  }

  /** What one step of a call does, if the call does not return with it. */
  ghost predicate Proceeds(s: State, s': State, t: ThreadId) {
    && t in s.threads && t in s'.threads
    && var g, g' := StageIn(s, t), StageIn(s', t);
      if s'.slots != s.slots then Changes(s, s', g, g')
      else
        || g' == g
        || (Refuses(s, s.threads[t]) && (if g.WillEnq? then g' == WontEnq else g == WillDeq && g' == WontDeq))
  }

  /** The answers that calls return. */
  datatype Answer = EnqTrue | EnqFalse | DeqTrue(v: Value) | DeqFalse | NoAnswer

  /** The answer that a step gives when it returns from this place. */
  function AnswerOf(pc: Pc): Answer {
    match pc
    case EnqCheck(_) => EnqFalse
    case EnqBackOut => EnqFalse
    case EnqCount => EnqTrue
    case DeqCheck => DeqFalse
    case DeqBackOut => DeqFalse
    case DeqCount(v) => DeqTrue(v)
    case _ => NoAnswer
  }

  lemma EnqueuingProceeds(s: State, s': State, t: ThreadId, a: Action)
    requires StepOf(s, s', t, a) && Enqueuing(s.threads[t])
    ensures t in s'.threads
    ensures s'.threads[t] != Idle ==> Proceeds(s, s', t)
    ensures s'.threads[t] == Idle ==> s'.slots == s.slots && AnswerOf(s.threads[t]) in {EnqTrue, EnqFalse}
    ensures s'.threads[t] == Idle && s.threads[t].EnqCheck? ==> Refuses(s, s.threads[t])
  {
    hide Pow2, Inc, Dec;
    var p := s.threads[t];
    if p.EnqStore? && s' != s {
      assert PutAt(s, s', p.pos, p.v);
    }
  }

  lemma DequeuingProceeds(s: State, s': State, t: ThreadId, a: Action)
    requires StepOf(s, s', t, a) && !Enqueuing(s.threads[t]) && s.threads[t] != Idle
    ensures t in s'.threads
    ensures s'.threads[t] != Idle ==> Proceeds(s, s', t)
    ensures s'.threads[t] == Idle ==>
      s'.slots == s.slots && (AnswerOf(s.threads[t]).DeqTrue? || AnswerOf(s.threads[t]) == DeqFalse)
    ensures s'.threads[t] == Idle && s.threads[t].DeqCheck? ==> Refuses(s, s.threads[t])
  {
    hide Pow2, Inc, Dec;
    var p := s.threads[t];
    if p.DeqTake? && s' != s {
      assert TakenAt(s, s', p.pos, s.slots[p.pos].value);
    }
  }

  // ----- Calls -----

  /** A thread that is idle can call, and its value goes with it. */
  lemma CallAccepted(s: State, t: ThreadId, v: Value)
    requires t in s.threads && s.threads[t] == Idle && |s.slots| == Pow2(s.n)
    ensures Step(s, t, CallEnq(v)) == Goto(s, t, EnqCheck(v)) && Step(s, t, CallDeq) == Goto(s, t, DeqCheck)
    ensures StageOf(EnqCheck(v)) == WillEnq(v) && StageOf(DeqCheck) == WillDeq
  {}

  /** Thread t calls in move c, and is still in that call in state k. */
  ghost predicate InCall(r: Log, t: ThreadId, c: nat, k: nat) {
    && c < k < |r.states| == |r.moves| + 1 && r.moves[c].t == t
    && (forall i :: c <= i <= k ==> t in r.states[i].threads)
    && r.states[c].threads[t] == Idle && forall i :: c < i <= k ==> r.states[i].threads[t] != Idle
  }

  /** The call returns in move d. */
  ghost predicate Returns(r: Log, t: ThreadId, c: nat, d: nat) {
    && InCall(r, t, c, d) && d < |r.moves| && r.moves[d].t == t
    && t in r.states[d + 1].threads && r.states[d + 1].threads[t] == Idle
  }

  /** Thread t changes no slot from move c up to move k, except perhaps in move p. */
  ghost predicate OnlyChange(r: Log, t: ThreadId, c: nat, k: nat, p: int)
    requires k <= |r.moves| < |r.states|
  {
    forall q :: c <= q < k && q != p && r.moves[q].t == t ==> r.states[q + 1].slots == r.states[q].slots
  }

  /** What the call has done up to state k: nothing yet, or one change or refusal, in move p. */
  ghost predicate SoFar(r: Log, t: ThreadId, c: nat, k: nat, p: int)
    requires InCall(r, t, c, k)
  {
    && InCall(r, t, c, c + 1)
    && var g0, g := StageIn(r.states[c + 1], t), StageIn(r.states[k], t);
      match g
      case DidEnq => OneChange(r, t, c, k, p, g0, g)
      case DidDeq(_) => OneChange(r, t, c, k, p, g0, g)
      case WontEnq => g0.WillEnq? && OneRefusal(r, t, c, k, p, g0)
      case WontDeq => g0 == WillDeq && OneRefusal(r, t, c, k, p, g0)
      case _ => g == g0 && OnlyChange(r, t, c, k, -1)
  }

  ghost predicate OneChange(r: Log, t: ThreadId, c: nat, k: nat, p: int, g0: Stage, g: Stage)
    requires k <= |r.moves| < |r.states|
  {
    c < p < k && r.moves[p].t == t && Changes(r.states[p], r.states[p + 1], g0, g) && OnlyChange(r, t, c, k, p)
  }

  ghost predicate OneRefusal(r: Log, t: ThreadId, c: nat, k: nat, p: int, g0: Stage)
    requires k <= |r.moves| < |r.states|
  {
    && c < p < k && r.moves[p].t == t && OnlyChange(r, t, c, k, -1)
    && t in r.states[p].threads && StageIn(r.states[p], t) == g0 && Refuses(r.states[p], r.states[p].threads[t])
  }

  lemma OnlyLonger(r: Log, t: ThreadId, c: nat, k: nat, p: int)
    requires 0 < k <= |r.moves| < |r.states| && OnlyChange(r, t, c, k - 1, p)
    requires r.moves[k - 1].t == t ==> r.states[k].slots == r.states[k - 1].slots
    ensures OnlyChange(r, t, c, k, p)
  {}

  lemma OnlyNow(r: Log, t: ThreadId, c: nat, k: nat)
    requires 0 < k <= |r.moves| < |r.states| && OnlyChange(r, t, c, k - 1, -1)
    ensures OnlyChange(r, t, c, k, k - 1)
  {}

  lemma ChangeEnds(s: State, s': State, g: Stage, g': Stage)
    requires Changes(s, s', g, g')
    ensures (g.WillEnq? && g' == DidEnq) || (g == WillDeq && g'.DidDeq?)
  {}

  lemma CallBegins(r: Log, t: ThreadId, c: nat)
    requires IsLog(r) && InCall(r, t, c, c + 1)
    ensures r.states[c + 1].slots == r.states[c].slots
    ensures var a := r.moves[c].a;
      StageIn(r.states[c + 1], t) == if a.CallEnq? then WillEnq(a.v) else WillDeq
  {
    hide Init, Pow2, Inc, Dec;
    assert StepOf(r.states[c], r.states[c + 1], t, r.moves[c].a);
  }

  /** A step of another thread leaves the place of thread t, and one of thread t proceeds with its call. */
  lemma MoveProceeds(r: Log, t: ThreadId, i: nat)
    requires IsLog(r) && i < |r.moves| && t in r.states[i].threads && t in r.states[i + 1].threads
    requires r.states[i].threads[t] != Idle && r.states[i + 1].threads[t] != Idle
    ensures var s, s' := r.states[i], r.states[i + 1];
      if r.moves[i].t == t then Proceeds(s, s', t) else s'.threads[t] == s.threads[t]
  {
    hide Init, Pow2, Step, Proceeds, Enqueuing;
    var m := r.moves[i];
    assert StepOf(r.states[i], r.states[i + 1], m.t, m.a);
    if m.t != t {
      SameThreads(r.states[i], r.states[i + 1], m.t, m.a);
    } else if Enqueuing(r.states[i].threads[t]) {
      EnqueuingProceeds(r.states[i], r.states[i + 1], t, m.a);
    } else {
      DequeuingProceeds(r.states[i], r.states[i + 1], t, m.a);
    }
  }

  lemma NoneYet(r: Log, t: ThreadId, c: nat)
    requires c < |r.moves| < |r.states| && r.states[c + 1].slots == r.states[c].slots
    ensures OnlyChange(r, t, c, c + 1, -1)
  {}

  lemma {:induction false} CallSoFar(r: Log, t: ThreadId, c: nat, k: nat) returns (p: int)
    requires IsLog(r) && InCall(r, t, c, k)
    ensures SoFar(r, t, c, k, p)
    decreases k
  {
    hide IsLog, StageOf, Changes, Refuses, OnlyChange;
    if k == c + 1 {
      p := -1;
      CallBegins(r, t, c);
      NoneYet(r, t, c);
    } else {
      p := CallSoFar(r, t, c, k - 1);
      MoveProceeds(r, t, k - 1);
      var s, s' := r.states[k - 1], r.states[k];
      if r.moves[k - 1].t == t && s'.slots != s.slots {
        p := k - 1;
        ChangeEnds(s, s', StageIn(s, t), StageIn(s', t));
        OnlyNow(r, t, c, k);
      } else {
        OnlyLonger(r, t, c, k, if StageIn(s, t) == DidEnq || StageIn(s, t).DidDeq? then p else -1);
        if StageIn(s', t) != StageIn(s, t) {
          p := k - 1;
        }
      }
    }
  }

  /**
   * What every call that returns has done. One that succeeds has changed exactly one slot, strictly between its call
   * and its return: enQ has put in the caller's value, and deQ has taken out the value that it returns. One that fails
   * has changed none, and it has read a counter that told it to: that no place, or no value, was left.
   */
  lemma CallDone(r: Log, t: ThreadId, c: nat, d: nat) returns (p: int)
    requires IsLog(r) && Returns(r, t, c, d)
    ensures c < p <= d && r.moves[p].t == t && p < |r.moves| < |r.states|
    ensures var a, s, s' := r.moves[c].a, r.states[p], r.states[p + 1];
      match AnswerOf(r.states[d].threads[t])
      case EnqTrue => a.CallEnq? && Puts(s, s', a.v) && OnlyChange(r, t, c, d + 1, p)
      case EnqFalse => a.CallEnq? && s.countUB >= s.countMax && OnlyChange(r, t, c, d + 1, -1)
      case DeqTrue(v) => a == CallDeq && TakesOut(s, s', v) && OnlyChange(r, t, c, d + 1, p)
      case DeqFalse => a == CallDeq && s.countLB <= OFFSET && OnlyChange(r, t, c, d + 1, -1)
      case NoAnswer => false
  {
    hide IsLog, Puts, TakesOut, OnlyChange;
    p := CallSoFar(r, t, c, d);
    CallBegins(r, t, c);
    CallEnds(r, t, d);
    CallKind(r, t, c);
    var pc := r.states[d].threads[t];
    OnlyLonger(r, t, c, d + 1, if pc.EnqCount? || pc.DeqCount? then p else -1);
    if pc.EnqCheck? || pc.DeqCheck? {
      p := d;
    }
  }

  lemma CallKind(r: Log, t: ThreadId, c: nat)
    requires IsLog(r) && InCall(r, t, c, c + 1)
    ensures r.moves[c].a.CallEnq? || r.moves[c].a == CallDeq
  {
    hide Init, Pow2, Inc, Dec;
    assert StepOf(r.states[c], r.states[c + 1], t, r.moves[c].a);
  }

  lemma CallEnds(r: Log, t: ThreadId, d: nat)
    requires IsLog(r) && d < |r.moves| && r.moves[d].t == t && t in r.states[d].threads && t in r.states[d + 1].threads
    requires r.states[d].threads[t] != Idle && r.states[d + 1].threads[t] == Idle
    ensures r.states[d + 1].slots == r.states[d].slots && AnswerOf(r.states[d].threads[t]) != NoAnswer
    ensures r.states[d].threads[t].EnqCheck? || r.states[d].threads[t].DeqCheck? ==>
      Refuses(r.states[d], r.states[d].threads[t])
  {
    hide Init, Pow2, Step, Refuses, Enqueuing;
    var a := r.moves[d].a;
    assert StepOf(r.states[d], r.states[d + 1], t, a);
    if Enqueuing(r.states[d].threads[t]) {
      EnqueuingProceeds(r.states[d], r.states[d + 1], t, a);
    } else {
      DequeuingProceeds(r.states[d], r.states[d + 1], t, a);
    }
  }

  // ----- Calls that do not overlap -----

  /** From state c to state k only thread t moves, and in state c no call is under way. */
  ghost predicate Lone(r: Log, t: ThreadId, c: nat, k: nat) {
    c <= k <= |r.moves| < |r.states| && Quiet(r.states[c]) && forall i :: c <= i < k ==> r.moves[i].t == t
  }

  /** How a lone call's place tells what it has read in the counters, which only its own call changes. */
  ghost predicate ReadSo(s: State, pc: Pc, s0: State) {
    && (pc.EnqCheck? || pc.EnqReserve? ==> s.countUB == s0.countUB)
    && (pc.EnqTicket? || pc.EnqStore? || pc.EnqCount? ==> s0.countUB < s0.countMax)
    && (pc.EnqBackOut? ==> s0.countUB >= s0.countMax)
    && (pc.DeqCheck? || pc.DeqReserve? ==> s.countLB == s0.countLB)
    && (pc.DeqTicket? || pc.DeqTake? || pc.DeqCount? ==> s0.countLB > OFFSET)
    && (pc.DeqBackOut? ==> s0.countLB <= OFFSET)
  }

  lemma EnqueuingReads(s: State, s': State, t: ThreadId, a: Action, s0: State)
    requires StepOf(s, s', t, a) && Enqueuing(s.threads[t]) && ReadSo(s, s.threads[t], s0) && s.countMax == s0.countMax
    ensures t in s'.threads && ReadSo(s', s'.threads[t], s0)
    ensures s'.threads[t] == Idle ==> (AnswerOf(s.threads[t]) == EnqTrue <==> s0.countUB < s0.countMax)
  {
    hide Pow2, Inc, Dec;
  }

  lemma DequeuingReads(s: State, s': State, t: ThreadId, a: Action, s0: State)
    requires StepOf(s, s', t, a) && !Enqueuing(s.threads[t]) && s.threads[t] != Idle && ReadSo(s, s.threads[t], s0)
    ensures t in s'.threads && ReadSo(s', s'.threads[t], s0)
    ensures s'.threads[t] == Idle ==> (AnswerOf(s.threads[t]).DeqTrue? <==> s0.countLB > OFFSET)
  {
    hide Pow2, Inc, Dec;
  }

  lemma {:induction false} LoneReads(r: Log, t: ThreadId, c: nat, k: nat)
    requires IsLog(r) && InCall(r, t, c, k) && Lone(r, t, c, k)
    ensures ReadSo(r.states[k], r.states[k].threads[t], r.states[c])
    decreases k
  {
    hide Init, Pow2, Step, ReadSo, Enqueuing, Quiet, Upper, Run;
    var s, a := r.states[k - 1], r.moves[k - 1].a;
    assert StepOf(s, r.states[k], t, a);
    if k == c + 1 {
      FirstReads(s, r.states[k], t, a);
    } else {
      LoneReads(r, t, c, k - 1);
      LogUpper(r, c);
      LogUpper(r, k - 1);
      if Enqueuing(s.threads[t]) {
        EnqueuingReads(s, r.states[k], t, a, r.states[c]);
      } else {
        DequeuingReads(s, r.states[k], t, a, r.states[c]);
      }
    }
  }

  lemma FirstReads(s: State, s': State, t: ThreadId, a: Action)
    requires StepOf(s, s', t, a) && s.threads[t] == Idle && t in s'.threads
    ensures ReadSo(s', s'.threads[t], s)
  {
    hide Pow2, Inc, Dec;
  }

  /** An enQ that overlaps with no other call succeeds exactly when fewer values are held than the capacity. */
  lemma LoneEnq(r: Log, t: ThreadId, c: nat, d: nat)
    requires IsLog(r) && Returns(r, t, c, d) && Lone(r, t, c, d) && r.moves[c].a.CallEnq?
    ensures AnswerOf(r.states[d].threads[t]) == EnqTrue <==> Filled(r.states[c].slots) < r.states[c].countMax
  {
    hide Init, Pow2, Step, ReadSo, Enqueuing, Quiet, Upper, Filled;
    var p := CallDone(r, t, c, d);
    LoneReads(r, t, c, d);
    LogUpper(r, c);
    LogUpper(r, d);
    QuietCounts(r.states[c]);
    var s, a := r.states[d], r.moves[d].a;
    assert StepOf(s, r.states[d + 1], t, a);
    AnswerKind(s.threads[t]);
    EnqueuingReads(s, r.states[d + 1], t, a, r.states[c]);
  }

  lemma AnswerKind(pc: Pc)
    ensures AnswerOf(pc) == EnqTrue || AnswerOf(pc) == EnqFalse ==> Enqueuing(pc)
    ensures AnswerOf(pc).DeqTrue? || AnswerOf(pc) == DeqFalse ==> !Enqueuing(pc) && pc != Idle
  {}

  /**
   * A deQ that overlaps with no other call succeeds exactly when a value is held, unless _countLB has wrapped before.
   */
  lemma LoneDeq(r: Log, t: ThreadId, c: nat, d: nat)
    requires IsLog(r) && Returns(r, t, c, d) && Lone(r, t, c, d) && r.moves[c].a == CallDeq && Inv(r.states[c])
    ensures AnswerOf(r.states[d].threads[t]).DeqTrue? <==> Filled(r.states[c].slots) > 0
  {
    hide Init, Pow2, Step, ReadSo, Enqueuing, Quiet, Upper, Lower, Filled;
    var p := CallDone(r, t, c, d);
    LoneReads(r, t, c, d);
    QuietCounts(r.states[c]);
    QuietLower(r.states[c]);
    var s, a := r.states[d], r.moves[d].a;
    assert StepOf(s, r.states[d + 1], t, a);
    AnswerKind(s.threads[t]);
    DequeuingReads(s, r.states[d + 1], t, a, r.states[c]);
  }

  lemma QuietLower(s: State)
    requires Inv(s) && Quiet(s)
    ensures s.countLB >= OFFSET
  {
    hide Upper, Is;
    forall w
      ensures Count(s.threads, w) == 0
    {
      NoneAt(s.threads, w);
    }
  }

  /** A call that overlaps with no other one gets on with every step, so it returns. */
  lemma LoneReturns(s: State, t: ThreadId)
    requires Inv(s) && t in s.threads && s.threads[t] != Idle
    requires forall u :: u in s.threads && u != t ==> s.threads[u] == Idle
    ensures Work(Step(s, t, Go).threads) < Work(s.threads)
  {
    hide Work, Step, UpperCount, Lower, Slots, Positions;
    var u := NoDeadlock(s, t);
  }
}
