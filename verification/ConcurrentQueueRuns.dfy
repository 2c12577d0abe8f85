/** What ConcurrentQueue promises over whole runs: a linearizable queue that never touches a freed node. */
module ConcurrentQueueRuns {
  import opened Counting
  import opened ConcurrentQueue

  ghost predicate StepOf(s: State, s': State, t: ThreadId, a: Action) {
    t in s.threads && s' == Step(s, t, a)
  }

  ghost predicate Next(s: State, s': State) {
    exists t, a :: StepOf(s, s', t, a)
  }

  ghost predicate Run(r: seq<State>) {
    |r| > 0 && Init(r[0]) && forall i :: 0 <= i < |r| - 1 ==> Next(r[i], r[i + 1])
  }

  /** Every state of every run satisfies the invariant. */
  lemma {:induction false} RunInv(r: seq<State>, i: nat)
    requires Run(r) && i < |r|
    ensures Inv(r[i])
  {
    hide Init, Inv, Step;
    if i == 0 {
      InitInv(r[0]);
    } else {
      RunInv(r, i - 1);
      assert Next(r[i - 1], r[i]);
      var t, a :| StepOf(r[i - 1], r[i], t, a);
      StepInv(r[i - 1], t, a);
    }
  }

  /** No step reads, writes or frees a node that is not allocated. */
  lemma NoFreedAccess(s: State, t: ThreadId)
    requires Inv(s) && t in s.threads
    ensures Touches(s, t) <= s.heap.Keys
  {
    hide Contents, Tail, Holders, Locks;
    assert Local(s, s.threads[t]);
    if s.threads[t].EnqLink? {
      LinkReady(s, t);
    } else if s.threads[t].DeqDelete? {
      FreesOwn(s, t);
    }
  }

  lemma FreesOwn(s: State, t: ThreadId)
    requires Inv(s) && t in s.threads && s.threads[t].DeqDelete?
    ensures s.threads[t].h in s.heap
  {
    hide Linked, Locks, Locals, Contents, Tail;
    assert Owned(s.threads[t]) == To(s.threads[t].h);
  }

  /** The abstract queue: linked, and not yet taken. */
  ghost function Contained(s: State): seq<Value>
    requires s.taken <= |s.enqueued|
  {
    s.enqueued[s.taken..]
  }

  lemma TakenBound(s: State)
    requires Inv(s)
    ensures s.taken <= |s.enqueued|
  {
    hide Holders, Linked, Locks, Tail;
    if PoppingNow(s) {
      assert Local(s, s.threads[s.consumer.t]);
    }
  }

  /**
   * Each step acts on the abstract queue exactly as the call it belongs to should: linking appends the value that the
   * caller passed, reading next takes the front or finds the queue empty, and no other step changes it.
   */
  lemma Linearizes(s: State, t: ThreadId, a: Action)
    requires Inv(s) && t in s.threads
    ensures var s' := Step(s, t, a);
      && s.taken <= |s.enqueued| && s'.taken <= |s'.enqueued| && t in s'.threads
      && (s.threads[t].EnqLink? ==> Contained(s') == Contained(s) + [s.threads[t].v])
      && (s.threads[t].DeqReadNext? ==>
            if Contained(s) == [] then s'.threads[t] == DeqUnlockEmpty && Contained(s') == []
            else s'.threads[t].DeqReadValue? && Contained(s) == [s'.threads[t].x] + Contained(s'))
      && (!s.threads[t].EnqLink? && !s.threads[t].DeqReadNext? ==> Contained(s') == Contained(s))
  {
    hide Inv, Step;
    TakenBound(s);
    if s.threads[t].EnqLink? {
      LinkAppends(s, t, a);
    } else if s.threads[t].DeqReadNext? {
      ReadTakes(s, t, a);
    } else {
      OthersKeep(s, t, a);
    }
  }

  lemma LinkAppends(s: State, t: ThreadId, a: Action)
    requires Inv(s) && t in s.threads && s.threads[t].EnqLink? && s.taken <= |s.enqueued|
    ensures var s' := Step(s, t, a);
      t in s'.threads && s'.taken <= |s'.enqueued| && Contained(s') == Contained(s) + [s.threads[t].v]
  {
    hide Inv;
    LinkReady(s, t);
  }

  lemma ReadTakes(s: State, t: ThreadId, a: Action)
    requires Inv(s) && t in s.threads && s.threads[t].DeqReadNext? && s.taken <= |s.enqueued|
    ensures var s' := Step(s, t, a);
      && t in s'.threads && s'.taken <= |s'.enqueued|
      && if Contained(s) == [] then s'.threads[t] == DeqUnlockEmpty && Contained(s') == []
         else s'.threads[t].DeqReadValue? && Contained(s) == [s'.threads[t].x] + Contained(s')
  {
    hide Inv, NextIn;
    AtFront(s, t);
    NextInChain(s.chain);
  }

  predicate Enqueuing(pc: Pc) {
    pc.EnqLock? || pc.EnqReadTail? || pc.EnqLink? || pc.EnqSetTail? || pc.EnqUnlock?
  }

  /** No other step touches what the abstract queue is made of. */
  lemma OthersKeep(s: State, t: ThreadId, a: Action)
    requires t in s.threads && !s.threads[t].EnqLink? && !s.threads[t].DeqReadNext?
    ensures var s' := Step(s, t, a);
      t in s'.threads && s'.taken == s.taken && s'.enqueued == s.enqueued
  {
    if !Enqueuing(s.threads[t]) {
      OtherDequeuing(s, t, a);
    }
  }

  lemma OtherDequeuing(s: State, t: ThreadId, a: Action)
    requires t in s.threads && !Enqueuing(s.threads[t]) && !s.threads[t].DeqReadNext?
    ensures var s' := Step(s, t, a);
      t in s'.threads && s'.taken == s.taken && s'.enqueued == s.enqueued
  {}

  lemma NextInChain(chain: seq<Address>)
    ensures NextIn(chain, 0).To? <==> |chain| > 1
  {}

  /** The value that a successful deQ returns is the one that it took from the abstract queue. */
  lemma ReturnsTaken(s: State, t: ThreadId)
    requires Inv(s) && t in s.threads && s.threads[t].DeqDelete?
    ensures s.threads[t].v == s.threads[t].x
  {
    assert Local(s, s.threads[t]);
  }

  /** With no call under way, the allocated nodes are exactly those of the queue: none has leaked. */
  lemma NoLeak(s: State)
    requires Inv(s) && (forall t :: t in s.threads ==> s.threads[t] == Idle)
    ensures forall a :: a in s.heap <==> a in s.chain
    ensures |s.chain| == |s.enqueued| - s.taken + 1 && s.tail == s.chain[|s.chain| - 1]
  {
    hide Locals;
  }

  // ----- Freedom from deadlock -----

  /** How many effective steps a call has before it, at most. */
  function Weight(pc: Pc): nat {
    match pc
    case Idle => 0
    case EnqLock(_, _) => 5
    case EnqReadTail(_, _) => 4
    case EnqLink(_, _, _) => 3
    case EnqSetTail(_) => 2
    case EnqUnlock => 1
    case DeqLock => 7
    case DeqReadHead => 6
    case DeqReadNext(_) => 5
    case DeqUnlockEmpty => 1
    case DeqReadValue(_, _, _) => 4
    case DeqAdvance(_, _, _, _) => 3
    case DeqUnlock(_, _, _) => 2
    case DeqDelete(_, _, _) => 1
  }

  ghost function Work(m: map<ThreadId, Pc>): nat {
    Total(m, Weight)
  }

  predicate Calls(a: Action) {
    a.CallEnq? || a.CallDeq?
  }

  ghost predicate Lighter(s: State, s': State, t: ThreadId) {
    && t in s.threads && t in s'.threads
    && s'.threads == s.threads[t := s'.threads[t]] && Weight(s'.threads[t]) < Weight(s.threads[t])
  }

  lemma EnqueuingLighter(s: State, t: ThreadId, a: Action)
    requires t in s.threads && Enqueuing(s.threads[t])
    ensures Step(s, t, a) == s || Lighter(s, Step(s, t, a), t)
  {}

  lemma DequeuingLighter(s: State, t: ThreadId, a: Action)
    requires t in s.threads && !Enqueuing(s.threads[t]) && !Calls(a)
    ensures Step(s, t, a) == s || Lighter(s, Step(s, t, a), t)
  {}

  /** A step that changes the state, other than a new call, brings its call strictly closer to its return. */
  lemma StepWork(s: State, t: ThreadId, a: Action)
    requires t in s.threads && !Calls(a)
    ensures Step(s, t, a) == s || Work(Step(s, t, a).threads) < Work(s.threads)
  {
    hide Step, Weight, Enqueuing;
    var s' := Step(s, t, a);
    if Enqueuing(s.threads[t]) {
      EnqueuingLighter(s, t, a);
    } else {
      DequeuingLighter(s, t, a);
    }
    if s' != s {
      TotalMoved(s.threads, t, s'.threads[t], Weight);
    }
  }

  /** Whenever a call is under way, some thread can take a step that brings its call closer to its return. */
  lemma NoDeadlock(s: State, u: ThreadId) returns (t: ThreadId)
    requires Inv(s) && u in s.threads && !s.threads[u].Idle?
    ensures t in s.threads && Work(Step(s, t, Go).threads) < Work(s.threads)
  {
    hide Contents, Tail, Linked, Holders, Work, Step;
    t := u;
    if s.threads[u].EnqLock? && s.producer.HeldBy? {
      t := s.producer.t;
    } else if s.threads[u].DeqLock? && s.consumer.HeldBy? {
      t := s.consumer.t;
    }
    Effective(s, t);
    StepWork(s, t, Go);
  }

  /** One step after another, without new calls. */
  ghost predicate GoRun(r: seq<State>) {
    |r| > 0 && forall i :: 0 <= i < |r| - 1 ==> GoStep(r[i], r[i + 1])
  }

  ghost predicate GoStep(s: State, s': State) {
    exists t, a :: !Calls(a) && StepOf(s, s', t, a)
  }

  /** From every reachable state the calls under way can all be brought to return, without new calls; nothing leaks. */
  lemma {:induction false} Drain(s: State) returns (r: seq<State>)
    requires Inv(s)
    ensures GoRun(r) && r[0] == s
    ensures var last := r[|r| - 1];
      Inv(last) && AllIdle(last) && last.heap.Keys == Addresses(last.chain)
    decreases Work(s.threads)
  {
    hide Inv, Work, Step;
    if u :| u in s.threads && s.threads[u] != Idle {
      var t := NoDeadlock(s, u);
      var s' := Step(s, t, Go);
      StepInv(s, t, Go);
      var rest := Drain(s');
      r := [s] + rest;
      assert StepOf(s, s', t, Go) && GoStep(s, s');
      assert forall i :: 1 <= i < |r| - 1 ==> r[i] == rest[i - 1] && r[i + 1] == rest[i];
    } else {
      r := [s];
      NoLeak(s);
    }
  }

  lemma Effective(s: State, t: ThreadId)
    requires Inv(s) && t in s.threads && !s.threads[t].Idle?
    requires (s.threads[t].EnqLock? ==> s.producer == Free) && (s.threads[t].DeqLock? ==> s.consumer == Free)
    ensures t in Step(s, t, Go).threads && Step(s, t, Go).threads[t] != s.threads[t]
  {
    hide Inv, Touches, Step;
    NoFreedAccess(s, t);
    if s.threads[t].EnqLink? {
      LinkReady(s, t);
    } else if s.threads[t].DeqAdvance? {
      HeadThere(s, t);
    }
    Moving(s, t);
  }

  lemma HeadThere(s: State, t: ThreadId)
    requires Inv(s) && t in s.threads && s.threads[t].DeqAdvance?
    ensures s.threads[t].h in s.heap && s.chain != []
  {
    hide Holders, Locks, Tail, Contents;
    assert Local(s, s.threads[t]);
  }

  /** A step goes on to another place when the lock is free and the nodes that it uses are there. */
  lemma Moving(s: State, t: ThreadId)
    requires t in s.threads && !s.threads[t].Idle? && Touches(s, t) <= s.heap.Keys
    requires (s.threads[t].EnqLock? ==> s.producer == Free) && (s.threads[t].DeqLock? ==> s.consumer == Free)
    requires s.threads[t].EnqLink? ==> s.threads[t].node in s.heap
    requires s.threads[t].DeqAdvance? ==> s.threads[t].h in s.heap && s.chain != []
    ensures t in Step(s, t, Go).threads && Step(s, t, Go).threads[t] != s.threads[t]
  {}

  // ----- A dangling tail -----

  ghost predicate Reachable(s: State) {
    exists r :: Run(r) && r[|r| - 1] == s
  }

  lemma Take(s: State, t: ThreadId, a: Action) returns (s': State)
    requires Reachable(s) && t in s.threads
    ensures s' == Step(s, t, a) && Reachable(s')
  {
    hide Init, Step;
    s' := Step(s, t, a);
    var r :| Run(r) && r[|r| - 1] == s;
    var r' := r + [s'];
    assert StepOf(s, s', t, a) && Next(s, s');
    forall i | 0 <= i < |r'| - 1
      ensures Next(r'[i], r'[i + 1])
    {
      if i < |r| - 1 {
        assert r'[i] == r[i] && r'[i + 1] == r[i + 1];
      }
    }
    assert Run(r') && r'[|r'| - 1] == s';
  }

  /** Two threads and one dummy node; then thread 0 has linked node 1, but has not moved the tail yet. */
  ghost function Constructed(): State {
    State(map[0 := Node(0, Nil, Queue)], 0, 0, Free, Free, map[0 := Idle, 1 := Idle], [0], [], 0)
  }

  ghost function OneLinked(): State {
    State(map[0 := Node(0, To(1), Queue), 1 := Node(7, Nil, Queue)], 0, 0, Free, HeldBy(0),
          map[0 := EnqSetTail(1), 1 := Idle], [0, 1], [7], 0)
  }

  lemma LinkReachable()
    ensures Reachable(OneLinked())
  {
    hide Reachable;
    var s := Constructed();
    ConstructedReachable();
    s := Take(s, 0, CallEnq(7, 1));
    s := Take(s, 0, Go);
    s := Take(s, 0, Go);
    s := Take(s, 0, Go);
    assert s.threads == OneLinked().threads && s.heap == OneLinked().heap;
    assert s == OneLinked();
  }

  lemma ConstructedReachable()
    ensures Reachable(Constructed())
  {
    assert Run([Constructed()]);
  }

  ghost function OneTaken(): State {
    State(map[0 := Node(0, To(1), Queue), 1 := Node(7, Nil, Queue)], 0, 0, HeldBy(1), HeldBy(0),
          map[0 := EnqSetTail(1), 1 := DeqReadValue(0, 1, 7)], [0, 1], [7], 1)
  }

  lemma TakeReachable()
    ensures Reachable(OneTaken())
  {
    hide Reachable;
    LinkReachable();
    var s := OneLinked();
    s := Take(s, 1, CallDeq);
    s := Take(s, 1, Go);
    s := Take(s, 1, Go);
    s := Take(s, 1, Go);
    assert s.threads == OneTaken().threads;
    assert s == OneTaken();
  }

  /** A dequeuer may free the node that _tail still points to; NoFreedAccess says that nobody uses it. */
  lemma DanglingTail() returns (s: State)
    ensures Reachable(s) && s.tail !in s.heap
  {
    hide Reachable;
    TakeReachable();
    s := OneTaken();
    s := Take(s, 1, Go);
    s := Take(s, 1, Go);
    s := Take(s, 1, Go);
    s := Take(s, 1, Go);
  }

  // ----- Walking the nodes -----

  ghost predicate AllIdle(s: State) {
    forall t :: t in s.threads ==> s.threads[t] == Idle
  }

  lemma ChainAt(s: State, i: nat)
    requires Inv(s) && AllIdle(s) && i < |s.chain|
    ensures s.taken + |s.chain| == |s.enqueued| + 1
    ensures s.chain[i] in s.heap && s.heap[s.chain[i]].next == NextIn(s.chain, i) && s.chain[i] !in s.chain[i + 1..]
    ensures i + 1 < |s.chain| ==> s.chain[i + 1] in s.heap && s.heap[s.chain[i + 1]].value == s.enqueued[s.taken + i]
  {
    hide Holders, Tail, Locals, NextIn;
    NoLeak(s);
  }

  /** forEach(): visits the contents in order, when no call is under way. */
  method ForEach(s: State) returns (visited: seq<Value>)
    requires Inv(s) && AllIdle(s)
    ensures s.taken <= |s.enqueued| && visited == Contained(s)
  {
    hide Inv, AllIdle;
    HeadOfChain(s);
    ChainAt(s, 0);
    var node := To(s.head);
    visited := [];
    ghost var i := 0;
    while true
      invariant 0 <= i < |s.chain| && node == To(s.chain[i])
      invariant visited == s.enqueued[s.taken..s.taken + i]
      decreases |s.chain| - i
    {
      ChainAt(s, i);
      node := s.heap[node.addr].next;
      if node == Nil {
        break;
      }
      visited := visited + [s.heap[node.addr].value];
      i := i + 1;
    }
  }

  lemma HeadOfChain(s: State)
    requires Inv(s) && AllIdle(s)
    ensures |s.chain| > 0 && s.chain[0] == s.head && forall a :: a in s.heap <==> a in s.chain
  {
    NoLeak(s);
  }

  /** The destructor frees every node, and each of them once. */
  method Destroy(s: State) returns (heap: map<Address, Node>)
    requires Inv(s) && AllIdle(s)
    ensures heap == map[]
  {
    hide Inv, AllIdle;
    HeadOfChain(s);
    heap := s.heap;
    var head := To(s.head);
    ghost var i := 0;
    while head != Nil
      invariant 0 <= i <= |s.chain| && head == if i < |s.chain| then To(s.chain[i]) else Nil
      invariant heap.Keys == Addresses(s.chain[i..]) && forall a :: a in heap ==> a in s.heap && heap[a] == s.heap[a]
      decreases |s.chain| - i
    {
      ChainAt(s, i);
      var node := head.addr;
      FirstOf(s.chain, i);
      head := heap[node].next;
      heap := heap - {node};
      i := i + 1;
    }
  }

  ghost function Addresses(chain: seq<Address>): set<Address> {
    set a | a in chain
  }

  lemma FirstOf(chain: seq<Address>, i: nat)
    requires i < |chain| && chain[i] !in chain[i + 1..]
    ensures chain[i] in chain[i..]
    ensures Addresses(chain[i + 1..]) == Addresses(chain[i..]) - {chain[i]}
  {
    assert chain[i..] == [chain[i]] + chain[i + 1..];
  }
}
