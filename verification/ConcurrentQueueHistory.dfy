/**
 * Linearizability of ConcurrentQueue over whole runs: the steps that take effect form a sequential first-in first-out
 * history, and every call that returns has exactly one of them, between its call and its return, with its own result.
 */
module ConcurrentQueueHistory {
  import opened ConcurrentQueue
  import opened ConcurrentQueueRuns

  /** What a call does to the queue, and with which result. */
  datatype Op = Enq(v: Value) | Deq(v: Value) | DeqEmpty

  // ----- The sequential queue -----

  /** A dequeue takes the value in front, and fails exactly where there is none. */
  predicate Allowed(q: seq<Value>, op: Op) {
    match op
    case Enq(_) => true
    case Deq(v) => q != [] && q[0] == v
    case DeqEmpty => q == []
  }

  function Applied(q: seq<Value>, op: Op): seq<Value> {
    match op
    case Enq(v) => q + [v]
    case Deq(_) => if q == [] then [] else q[1..]
    case DeqEmpty => q
  }

  /** The contents after these operations. */
  ghost function After(ops: seq<Op>): seq<Value> {
    if ops == [] then [] else Applied(After(ops[..|ops| - 1]), ops[|ops| - 1])
  }

  ghost predicate Legal(ops: seq<Op>) {
    ops != [] ==> Legal(ops[..|ops| - 1]) && Allowed(After(ops[..|ops| - 1]), ops[|ops| - 1])
  }

  lemma LegalSnoc(ops: seq<Op>, op: Op)
    requires Legal(ops) && Allowed(After(ops), op)
    ensures Legal(ops + [op]) && After(ops + [op]) == Applied(After(ops), op)
  {
    assert (ops + [op])[..|ops|] == ops;
  }

  // ----- Runs and their effects -----

  datatype Move = Move(t: ThreadId, a: Action)

  /** A run with the moves between its states. */
  datatype Log = Log(states: seq<State>, moves: seq<Move>)

  ghost predicate IsLog(r: Log) {
    && |r.states| == |r.moves| + 1 && Init(r.states[0])
    && forall i :: 0 <= i < |r.moves| ==> StepOf(r.states[i], r.states[i + 1], r.moves[i].t, r.moves[i].a)
  }

  /** What the next step of thread t does to the abstract queue: linking a node, and reading next, are what counts. */
  function Effect(s: State, t: ThreadId): seq<Op> {
    if t !in s.threads then []
    else
      match s.threads[t]
      case EnqLink(_, v, _) => [Enq(v)]
      case DeqReadNext(_) => [if s.taken < |s.enqueued| then Deq(s.enqueued[s.taken]) else DeqEmpty]
      case _ => []
  }

  lemma {:induction false} LogInv(r: Log, i: nat)
    requires IsLog(r) && i < |r.states|
    ensures Inv(r.states[i]) && r.states[i].taken <= |r.states[i].enqueued|
    ensures i < |r.moves| ==> r.moves[i].t in r.states[i].threads
    ensures r.states[i].threads.Keys == r.states[0].threads.Keys
  {
    hide Init, Inv, Step;
    if i == 0 {
      InitInv(r.states[0]);
    } else {
      LogInv(r, i - 1);
      var s, m := r.states[i - 1], r.moves[i - 1];
      assert StepOf(s, r.states[i], m.t, m.a);
      StepInv(s, m.t, m.a);
      OneMoves(s, m.t, m.a);
    }
    TakenBound(r.states[i]);
    assert i < |r.moves| ==> StepOf(r.states[i], r.states[i + 1], r.moves[i].t, r.moves[i].a);
  }

  lemma OneMoves(s: State, t: ThreadId, a: Action)
    requires t in s.threads
    ensures t in Step(s, t, a).threads && Step(s, t, a).threads == s.threads[t := Step(s, t, a).threads[t]]
  {
    if !Enqueuing(s.threads[t]) {
      OneMovesDequeuing(s, t, a);
    }
  }

  lemma OneMovesDequeuing(s: State, t: ThreadId, a: Action)
    requires t in s.threads && !Enqueuing(s.threads[t])
    ensures t in Step(s, t, a).threads && Step(s, t, a).threads == s.threads[t := Step(s, t, a).threads[t]]
  {}

  /** The effects of the first n steps, in their order. */
  ghost function History(r: Log, n: nat): seq<Op>
    requires n <= |r.moves| < |r.states|
  {
    if n == 0 then [] else History(r, n - 1) + Effect(r.states[n - 1], r.moves[n - 1].t)
  }

  /** In every run the effects are a legal history of a sequential queue, and lead to the values that are contained. */
  lemma {:induction false} FifoHistory(r: Log, n: nat)
    requires IsLog(r) && n <= |r.moves|
    ensures Legal(History(r, n))
    ensures r.states[n].taken <= |r.states[n].enqueued| && After(History(r, n)) == Contained(r.states[n])
  {
    hide Init, Inv, Step, Legal, After;
    LogInv(r, n);
    if n == 0 {
      NothingYet(r.states[0]);
    } else {
      FifoHistory(r, n - 1);
      LogInv(r, n - 1);
      var s, m := r.states[n - 1], r.moves[n - 1];
      assert StepOf(s, r.states[n], m.t, m.a);
      Linearizes(s, m.t, m.a);
      var h := History(r, n - 1);
      if Effect(s, m.t) == [] {
        assert h + [] == h;
      } else {
        LegalSnoc(h, Effect(s, m.t)[0]);
      }
    }
  }

  lemma NothingYet(s: State)
    requires Init(s)
    ensures s.taken <= |s.enqueued| && Legal([]) && After([]) == Contained(s)
  {}

  // ----- What a call has done so far -----

  datatype Stage = NoCall | WillEnq(v: Value) | DidEnq | WillDeq | DidDeq(v: Value) | DidDeqEmpty

  function StageOf(pc: Pc): Stage {
    match pc
    case Idle => NoCall
    case EnqLock(_, v) => WillEnq(v)
    case EnqReadTail(_, v) => WillEnq(v)
    case EnqLink(_, v, _) => WillEnq(v)
    case EnqSetTail(_) => DidEnq
    case EnqUnlock => DidEnq
    case DeqLock => WillDeq
    case DeqReadHead => WillDeq
    case DeqReadNext(_) => WillDeq
    case DeqUnlockEmpty => DidDeqEmpty
    case DeqReadValue(_, _, x) => DidDeq(x)
    case DeqAdvance(_, _, _, x) => DidDeq(x)
    case DeqUnlock(_, _, x) => DidDeq(x)
    case DeqDelete(_, _, x) => DidDeq(x)
  }

  predicate Pending(g: Stage) {
    g.WillEnq? || g.WillDeq?
  }

  /** An effect takes a pending call to the stage that knows the result. */
  predicate TakesEffect(g: Stage, op: Op, g': Stage) {
    match op
    case Enq(v) => g == WillEnq(v) && g' == DidEnq
    case Deq(v) => g == WillDeq && g' == DidDeq(v)
    case DeqEmpty => g == WillDeq && g' == DidDeqEmpty
  }

  lemma EffectEnds(g: Stage, op: Op, g': Stage)
    requires TakesEffect(g, op, g')
    ensures Pending(g) && !Pending(g')
  {}

  lemma AskedPending(g: Stage)
    requires g.WillEnq? || g.WillDeq?
    ensures Pending(g)
  {}

  ghost function StageIn(s: State, t: ThreadId): Stage
    requires t in s.threads
  {
    StageOf(s.threads[t])
  }

  ghost predicate Proceeds(s: State, s': State, t: ThreadId)
    requires t in s.threads
  {
    && t in s'.threads
    && if Effect(s, t) == [] then s'.threads[t].Idle? || StageIn(s', t) == StageIn(s, t)
       else |Effect(s, t)| == 1 && TakesEffect(StageIn(s, t), Effect(s, t)[0], StageIn(s', t))
  }

  /** A step of a call under way either has no effect, or has the one effect that the call is for. */
  lemma StageStep(s: State, t: ThreadId, a: Action)
    requires Inv(s) && t in s.threads && !s.threads[t].Idle?
    ensures Proceeds(s, Step(s, t, a), t)
  {
    hide Inv, Step, Effect;
    var p := s.threads[t];
    if p.EnqLink? {
      LinkStage(s, t, a);
    } else if p.DeqReadNext? {
      ReadStage(s, t, a);
    } else {
      PlainStage(s, t, a);
    }
  }

  lemma LinkStage(s: State, t: ThreadId, a: Action)
    requires Inv(s) && t in s.threads && s.threads[t].EnqLink?
    ensures t in Step(s, t, a).threads && StageIn(Step(s, t, a), t) == DidEnq && Effect(s, t) == [Enq(s.threads[t].v)]
  {
    hide Inv;
    LinkReady(s, t);
  }

  lemma ReadStage(s: State, t: ThreadId, a: Action)
    requires Inv(s) && t in s.threads && s.threads[t].DeqReadNext?
    ensures t in Step(s, t, a).threads && StageIn(s, t) == WillDeq
    ensures |Effect(s, t)| == 1 && TakesEffect(WillDeq, Effect(s, t)[0], StageIn(Step(s, t, a), t))
  {
    hide Inv, Step;
    Linearizes(s, t, a);
  }

  lemma PlainStage(s: State, t: ThreadId, a: Action)
    requires t in s.threads && !s.threads[t].Idle? && !s.threads[t].EnqLink? && !s.threads[t].DeqReadNext?
    ensures t in Step(s, t, a).threads && Effect(s, t) == []
    ensures Step(s, t, a).threads[t].Idle? || StageIn(Step(s, t, a), t) == StageIn(s, t)
  {
    if !Enqueuing(s.threads[t]) {
      PlainDequeuing(s, t, a);
    }
  }

  lemma PlainDequeuing(s: State, t: ThreadId, a: Action)
    requires t in s.threads && !s.threads[t].Idle? && !Enqueuing(s.threads[t]) && !s.threads[t].DeqReadNext?
    ensures t in Step(s, t, a).threads && Effect(s, t) == []
    ensures Step(s, t, a).threads[t].Idle? || StageIn(Step(s, t, a), t) == StageIn(s, t)
  {}

  // ----- Calls -----

  /** A thread that is idle can call, and the value goes with it into a new node. */
  lemma CallAccepted(s: State, t: ThreadId, v: Value, a: Address)
    requires t in s.threads && s.threads[t] == Idle
    ensures Step(s, t, CallDeq) == Goto(s, t, DeqLock)
    ensures a !in s.heap ==>
      Step(s, t, CallEnq(v, a)) == Goto(s, t, EnqLock(a, v)).(heap := s.heap[a := Node(v, Nil, Thread(t))])
  {}

  /** Thread t calls in move c, and is still in that call in state k. */
  ghost predicate InCall(r: Log, t: ThreadId, c: nat, k: nat) {
    && c < k < |r.states| == |r.moves| + 1 && r.moves[c].t == t
    && (forall i :: c <= i <= k ==> t in r.states[i].threads)
    && r.states[c].threads[t] == Idle && forall i :: c < i <= k ==> r.states[i].threads[t] != Idle
  }

  /** The call returns in move d. */
  ghost predicate Returns(r: Log, t: ThreadId, c: nat, d: nat) {
    && InCall(r, t, c, d) && d < |r.moves| && r.moves[d].t == t
    && t in r.states[d + 1].threads && r.states[d + 1].threads[t] == Idle
  }

  /** What was asked for by the caller, and what it was told: enQ(v), deQ giving a value, or deQ giving false. */
  ghost function Outcome(r: Log, t: ThreadId, c: nat, d: nat): Op
    requires Returns(r, t, c, d)
  {
    if r.moves[c].a.CallEnq? then Enq(r.moves[c].a.v)
    else if r.states[d].threads[t].DeqDelete? then Deq(r.states[d].threads[t].v)
    else DeqEmpty
  }

  /** Move p is the only one from c up to k in which thread t has an effect, and the effect is op. */
  ghost predicate OnlyEffect(r: Log, t: ThreadId, c: nat, k: nat, p: nat, op: Op)
    requires k <= |r.moves| < |r.states|
  {
    && c < p < k && HasEffect(r, t, p, [op])
    && forall q :: c <= q < k && q != p && r.moves[q].t == t ==> HasEffect(r, t, q, [])
  }

  ghost predicate HasEffect(r: Log, t: ThreadId, p: nat, ops: seq<Op>)
    requires p < |r.moves| < |r.states|
  {
    r.moves[p].t == t && Effect(r.states[p], t) == ops
  }

  ghost predicate NoEffect(r: Log, t: ThreadId, c: nat, k: nat)
    requires k <= |r.moves| < |r.states|
  {
    forall q :: c <= q < k && r.moves[q].t == t ==> HasEffect(r, t, q, [])
  }

  lemma CallBegins(r: Log, t: ThreadId, c: nat)
    requires IsLog(r) && InCall(r, t, c, c + 1)
    ensures NoEffect(r, t, c, c + 1)
    ensures var a := r.moves[c].a;
      StageIn(r.states[c + 1], t) == if a.CallEnq? then WillEnq(a.v) else WillDeq
  {
    hide Inv, Init;
    LogInv(r, c);
    assert StepOf(r.states[c], r.states[c + 1], t, r.moves[c].a);
  }

  /** Up to each state of a call, its thread has had no effect and the call is pending, or has had exactly one. */
  lemma {:induction false} CallSoFar(r: Log, t: ThreadId, c: nat, k: nat) returns (p: nat, op: Op)
    requires IsLog(r) && InCall(r, t, c, k)
    ensures InCall(r, t, c, c + 1)
    ensures var g0, g := StageIn(r.states[c + 1], t), StageIn(r.states[k], t);
      if Pending(g) then g == g0 && NoEffect(r, t, c, k)
      else OnlyEffect(r, t, c, k, p, op) && TakesEffect(g0, op, g)
    decreases k
  {
    hide Inv, Init, Step, IsLog, Effect, Pending, TakesEffect, StageOf;
    if k == c + 1 {
      p, op := 0, DeqEmpty;
      CallBegins(r, t, c);
      AskedPending(StageIn(r.states[k], t));
    } else {
      p, op := CallSoFar(r, t, c, k - 1);
      LogInv(r, k - 1);
      MoveStage(r, t, k - 1);
      var s := r.states[k - 1];
      if r.moves[k - 1].t == t && Effect(s, t) != [] {
        p, op := k - 1, Effect(s, t)[0];
        EffectEnds(StageIn(s, t), op, StageIn(r.states[k], t));
        assert Effect(s, t) == [op];
      }
    }
  }

  lemma MoveStage(r: Log, t: ThreadId, i: nat)
    requires IsLog(r) && i < |r.moves| && t in r.states[i].threads && t in r.states[i + 1].threads
    requires !r.states[i].threads[t].Idle?
    ensures var s, s' := r.states[i], r.states[i + 1];
      if r.moves[i].t == t then Proceeds(s, s', t) else s'.threads[t] == s.threads[t]
  {
    hide Inv, Init, Step, Effect;
    var m := r.moves[i];
    LogInv(r, i);
    assert StepOf(r.states[i], r.states[i + 1], m.t, m.a);
    OneMoves(r.states[i], m.t, m.a);
    if m.t == t {
      StageStep(r.states[i], t, m.a);
    }
  }

  /**
   * Every call that returns has had exactly one effect on the queue, strictly between its call and its return; and
   * it is what the caller asked for and was told.
   */
  lemma CallLinearized(r: Log, t: ThreadId, c: nat, d: nat) returns (p: nat)
    requires IsLog(r) && Returns(r, t, c, d)
    ensures OnlyEffect(r, t, c, d + 1, p, Outcome(r, t, c, d))
  {
    hide Inv, Init, Step, IsLog;
    var op;
    p, op := CallSoFar(r, t, c, d);
    CallBegins(r, t, c);
    LogInv(r, d);
    ReturnStage(r, t, d);
  }

  lemma ReturnStage(r: Log, t: ThreadId, d: nat)
    requires IsLog(r) && d < |r.moves| && r.moves[d].t == t && t in r.states[d].threads && t in r.states[d + 1].threads
    requires !r.states[d].threads[t].Idle? && r.states[d + 1].threads[t].Idle?
    ensures HasEffect(r, t, d, [])
    ensures match r.states[d].threads[t]
            case EnqUnlock => true
            case DeqUnlockEmpty => true
            case DeqDelete(_, v, x) => v == x
            case _ => false
  {
    hide Init;
    LogInv(r, d);
    var s, a := r.states[d], r.moves[d].a;
    assert StepOf(s, r.states[d + 1], t, a);
    if s.threads[t].DeqDelete? {
      ReturnsTaken(s, t);
    }
  }
}
