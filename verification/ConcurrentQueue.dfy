/**
 * ConcurrentQueue under any number of producers and consumers: a linked queue with a dummy node in front, a lock at
 * either end, and nodes that are freed. Every access to shared memory is one step (ConcurrentQueue.h).
 */
module ConcurrentQueue {
  import opened Counting

  type ThreadId = nat
  type Address = nat
  type Value = int

  datatype Pointer = Nil | To(addr: Address)

  /** Who will use a node next: the queue, as long as it is linked, or the thread that will link or free it. */
  datatype Holder = Queue | Thread(t: ThreadId)

  datatype Node = Node(value: Value, next: Pointer, holder: Holder)

  /** The atomic_bool of a lock is true when some thread holds it. */
  datatype Lock = Free | HeldBy(t: ThreadId)

  /** What a thread is about to do. A consumer's x is the value that the abstract queue gave it. */
  datatype Pc =
    | Idle
    | EnqLock(node: Address, v: Value)                       // compare-exchange _producerLock, until it succeeds
    | EnqReadTail(node: Address, v: Value)                   // load _tail
    | EnqLink(node: Address, v: Value, tl: Address)          // tl->next = node
    | EnqSetTail(node: Address)                              // _tail = node
    | EnqUnlock                                              // _producerLock = false
    | DeqLock                                                // compare-exchange _consumerLock, until it succeeds
    | DeqReadHead                                            // head = _head
    | DeqReadNext(h: Address)                                // next = _head->next
    | DeqUnlockEmpty                                         // _consumerLock = false, return false
    | DeqReadValue(h: Address, n: Address, x: Value)         // value = next->value
    | DeqAdvance(h: Address, n: Address, v: Value, x: Value) // _head = next
    | DeqUnlock(h: Address, v: Value, x: Value)              // _consumerLock = false
    | DeqDelete(h: Address, v: Value, x: Value)              // delete head, return true with value v

  /**
   * The queue's fields, the nodes that are allocated, and the threads; and, as history, the linked nodes from the
   * head on, all values ever linked, and how many of them have been taken.
   */
  datatype State = State(
    heap: map<Address, Node>, head: Address, tail: Address, consumer: Lock, producer: Lock,
    threads: map<ThreadId, Pc>,
    chain: seq<Address>, enqueued: seq<Value>, taken: nat)

  /** An allocation may return any address that is not in use, in particular one that was freed before. */
  datatype Action = CallEnq(v: Value, a: Address) | CallDeq | Go | FailSpuriously

  function Goto(s: State, t: ThreadId, pc: Pc): State {
    s.(threads := s.threads[t := pc])
  }

  /** The front of the abstract queue. */
  function Front(s: State): Value {
    if s.taken < |s.enqueued| then s.enqueued[s.taken] else 0
  }

  function Step(s: State, t: ThreadId, a: Action): State
    requires t in s.threads
  {
    match s.threads[t]
    case Idle =>
      if a.CallDeq? then Goto(s, t, DeqLock)
      else if a.CallEnq? && a.a !in s.heap then
        Goto(s, t, EnqLock(a.a, a.v)).(heap := s.heap[a.a := Node(a.v, Nil, Thread(t))])
      else s
    case EnqLock(node, v) =>
      if a.FailSpuriously? || s.producer != Free then s
      else Goto(s, t, EnqReadTail(node, v)).(producer := HeldBy(t))
    case EnqReadTail(node, v) =>
      Goto(s, t, EnqLink(node, v, s.tail))
    case EnqLink(node, v, tl) =>
      if tl !in s.heap || node !in s.heap then s
      else
        Goto(s, t, EnqSetTail(node)).(
          heap := s.heap[node := s.heap[node].(holder := Queue)][tl := s.heap[tl].(next := To(node))],
          chain := s.chain + [node], enqueued := s.enqueued + [v])
    case EnqSetTail(node) =>
      Goto(s, t, EnqUnlock).(tail := node)
    case EnqUnlock =>
      Goto(s, t, Idle).(producer := Free)
    case DeqLock =>
      if a.FailSpuriously? || s.consumer != Free then s
      else Goto(s, t, DeqReadHead).(consumer := HeldBy(t))
    case DeqReadHead =>
      Goto(s, t, DeqReadNext(s.head))
    case DeqReadNext(h) =>
      if s.head !in s.heap then s
      else if s.heap[s.head].next == Nil then Goto(s, t, DeqUnlockEmpty)
      else Goto(s, t, DeqReadValue(h, s.heap[s.head].next.addr, Front(s))).(taken := s.taken + 1)
    case DeqUnlockEmpty =>
      Goto(s, t, Idle).(consumer := Free)
    case DeqReadValue(h, n, x) =>
      if n !in s.heap then s else Goto(s, t, DeqAdvance(h, n, s.heap[n].value, x))
    case DeqAdvance(h, n, v, x) =>
      if h !in s.heap || s.chain == [] then s
      else
        Goto(s, t, DeqUnlock(h, v, x)).(
          head := n, chain := s.chain[1..], heap := s.heap[h := Node(s.heap[h].value, s.heap[h].next, Thread(t))])
    case DeqUnlock(h, v, x) =>
      Goto(s, t, DeqDelete(h, v, x)).(consumer := Free)
    case DeqDelete(h, _, _) =>
      Goto(s, t, Idle).(heap := s.heap - {h})
  }

  /** The nodes that the next step of thread t reads, writes or frees. */
  function Touches(s: State, t: ThreadId): set<Address>
    requires t in s.threads
  {
    match s.threads[t]
    case EnqLink(_, _, tl) => {tl}
    case DeqReadNext(_) => {s.head}
    case DeqReadValue(_, n, _) => {n}
    case DeqDelete(h, _, _) => {h}
    case _ => {}
  }

  // ----- The invariant -----

  predicate Producing(pc: Pc) {
    pc.EnqReadTail? || pc.EnqLink? || pc.EnqSetTail? || pc.EnqUnlock?
  }

  predicate Consuming(pc: Pc) {
    pc.DeqReadHead? || pc.DeqReadNext? || pc.DeqUnlockEmpty? || Popping(pc) || pc.DeqUnlock?
  }

  /** The value has been taken from the abstract queue, and its node is still second in the chain. */
  predicate Popping(pc: Pc) {
    pc.DeqReadValue? || pc.DeqAdvance?
  }

  /** The node that belongs to a thread: not yet linked, or no longer. */
  function Owned(pc: Pc): Pointer {
    match pc
    case EnqLock(node, _) => To(node)
    case EnqReadTail(node, _) => To(node)
    case EnqLink(node, _, _) => To(node)
    case DeqUnlock(h, _, _) => To(h)
    case DeqDelete(h, _, _) => To(h)
    case _ => Nil
  }

  function NextIn(chain: seq<Address>, i: nat): Pointer {
    if i + 1 < |chain| then To(chain[i + 1]) else Nil
  }

  /** The chain is what following next from the head visits. */
  ghost predicate Linked(s: State) {
    && |s.chain| > 0 && s.chain[0] == s.head
    && (forall i, j :: 0 <= i < j < |s.chain| ==> s.chain[i] != s.chain[j])
    && (forall i :: 0 <= i < |s.chain| ==>
          s.chain[i] in s.heap && s.heap[s.chain[i]].next == NextIn(s.chain, i) && s.heap[s.chain[i]].holder == Queue)
  }

  /** Every allocated node is in the chain or belongs to exactly one thread: none is lost. */
  ghost predicate Holders(s: State) {
    && (forall a :: a in s.heap && s.heap[a].holder == Queue ==> a in s.chain)
    && (forall a :: a in s.heap && s.heap[a].holder.Thread? ==>
          s.heap[a].holder.t in s.threads && Owned(s.threads[s.heap[a].holder.t]) == To(a))
    && (forall t :: t in s.threads && Owned(s.threads[t]).To? ==>
          Owned(s.threads[t]).addr in s.heap && s.heap[Owned(s.threads[t]).addr].holder == Thread(t))
  }

  ghost predicate Locks(s: State) {
    && (forall t :: t in s.threads ==> (Producing(s.threads[t]) <==> s.producer == HeldBy(t)))
    && (forall t :: t in s.threads ==> (Consuming(s.threads[t]) <==> s.consumer == HeldBy(t)))
    && (s.producer.HeldBy? ==> s.producer.t in s.threads) && (s.consumer.HeldBy? ==> s.consumer.t in s.threads)
  }

  /** A new node has been linked, but _tail does not point to it yet. */
  ghost predicate Settling(s: State) {
    s.producer.HeldBy? && s.producer.t in s.threads && s.threads[s.producer.t].EnqSetTail?
  }

  ghost predicate Tail(s: State) {
    |s.chain| > 0 && (Settling(s) || s.tail == s.chain[|s.chain| - 1])
  }

  ghost predicate Local(s: State, pc: Pc) {
    match pc
    case EnqLock(node, v) => node in s.heap && s.heap[node].value == v && s.heap[node].next == Nil
    case EnqReadTail(node, v) => node in s.heap && s.heap[node].value == v && s.heap[node].next == Nil
    case EnqLink(node, v, tl) => node in s.heap && s.heap[node].value == v && s.heap[node].next == Nil && tl == s.tail
    case EnqSetTail(node) => |s.chain| > 0 && node == s.chain[|s.chain| - 1]
    case DeqReadNext(h) => h == s.head
    case DeqReadValue(h, n, x) => |s.chain| > 1 && h == s.head && n == s.chain[1] && n in s.heap && s.heap[n].value == x
    case DeqAdvance(h, n, v, x) => |s.chain| > 1 && h == s.head && n == s.chain[1] && v == x
    case DeqUnlock(h, v, x) => v == x
    case DeqDelete(h, v, x) => v == x
    case _ => true
  }

  ghost predicate Locals(s: State) {
    forall t :: t in s.threads ==> Local(s, s.threads[t])
  }

  ghost predicate PoppingNow(s: State) {
    s.consumer.HeldBy? && s.consumer.t in s.threads && Popping(s.threads[s.consumer.t])
  }

  /** The values in the chain, behind the dummy node, are the last ones that were linked. */
  ghost predicate Contents(s: State) {
    && 0 < |s.chain| <= |s.enqueued| + 1
    && s.taken == |s.enqueued| + 1 - |s.chain| + One(PoppingNow(s))
    && (forall i :: 1 <= i < |s.chain| ==>
          s.chain[i] in s.heap && s.heap[s.chain[i]].value == s.enqueued[|s.enqueued| - |s.chain| + i])
  }

  ghost predicate Inv(s: State) {
    Linked(s) && Holders(s) && Locks(s) && Tail(s) && Locals(s) && Contents(s)
  }

  /** Just constructed: one dummy node. */
  ghost predicate Init(s: State) {
    && s.chain == [s.head] && s.tail == s.head
    && s.heap.Keys == {s.head} && s.heap[s.head].next == Nil && s.heap[s.head].holder == Queue
    && s.consumer == Free && s.producer == Free && s.enqueued == [] && s.taken == 0
    && (forall t :: t in s.threads ==> s.threads[t] == Idle)
  }

  lemma InitInv(s: State)
    requires Init(s)
    ensures Inv(s)
  {}

  // ----- Locks -----

  /** How one lock, and a thread's being in its critical section, change together. */
  predicate LockRule(l: Lock, l': Lock, t: ThreadId, inside: bool, inside': bool) {
    || (l' == l && inside' == inside)
    || (l == Free && l' == HeldBy(t) && !inside && inside')
    || (l' == Free && inside && !inside')
  }

  ghost predicate Moves(s: State, s': State, t: ThreadId, q: Pc) {
    && t in s.threads && s'.threads == s.threads[t := q]
    && LockRule(s.producer, s'.producer, t, Producing(s.threads[t]), Producing(q))
    && LockRule(s.consumer, s'.consumer, t, Consuming(s.threads[t]), Consuming(q))
  }

  lemma LocksKept(s: State, s': State, t: ThreadId, q: Pc)
    requires Locks(s) && Moves(s, s', t, q)
    ensures Locks(s')
  {
    hide Producing, Consuming;
  }

  lemma SettlingKept(s: State, s': State, t: ThreadId, q: Pc)
    requires Locks(s) && Moves(s, s', t, q)
    ensures One(Settling(s')) + One(s.threads[t].EnqSetTail?) == One(Settling(s)) + One(q.EnqSetTail?)
  {
    hide Consuming;
    LocksKept(s, s', t, q);
  }

  lemma PoppingKept(s: State, s': State, t: ThreadId, q: Pc)
    requires Locks(s) && Moves(s, s', t, q)
    ensures One(PoppingNow(s')) + One(Popping(s.threads[t])) == One(PoppingNow(s)) + One(Popping(q))
  {
    hide Producing;
    LocksKept(s, s', t, q);
  }

  // ----- Steps that leave the nodes alone -----

  ghost predicate Quiet(s: State, s': State, t: ThreadId, q: Pc) {
    && Moves(s, s', t, q)
    && s' == s.(threads := s'.threads, producer := s'.producer, consumer := s'.consumer, taken := s'.taken)
    && Owned(q) == Owned(s.threads[t]) && !q.EnqSetTail? && !s.threads[t].EnqSetTail?
    && s'.taken - s.taken == One(Popping(q)) - One(Popping(s.threads[t]))
  }

  lemma QuietHolders(s: State, s': State, t: ThreadId, q: Pc)
    requires Holders(s) && Quiet(s, s', t, q)
    ensures Holders(s')
  {
    hide LockRule, Owned;
  }

  lemma QuietLocals(s: State, s': State, t: ThreadId, q: Pc)
    requires Locals(s) && Quiet(s, s', t, q) && Local(s, q)
    ensures Locals(s')
  {
    hide Owned, LockRule;
    forall u | u in s'.threads
      ensures Local(s', s'.threads[u])
    {
      assert Local(s, if u == t then q else s.threads[u]);
    }
  }

  lemma QuietContents(s: State, s': State, t: ThreadId, q: Pc)
    requires Contents(s) && Locks(s) && Quiet(s, s', t, q)
    ensures Contents(s')
  {
    hide Locks, PoppingNow, Popping, Consuming, Producing, Owned, LockRule;
    PoppingKept(s, s', t, q);
  }

  lemma QuietInv(s: State, s': State, t: ThreadId, q: Pc)
    requires Inv(s) && Quiet(s, s', t, q) && Local(s, q)
    ensures Inv(s')
  {
    hide Locals, Holders, Locks, Local, Settling, Contents, Popping, Consuming, Producing, Owned, LockRule;
    QuietHolders(s, s', t, q);
    QuietLocals(s, s', t, q);
    QuietContents(s, s', t, q);
    LocksKept(s, s', t, q);
    SettlingKept(s, s', t, q);
  }

  /** The chain is untouched, and nothing starts or stops popping. */
  ghost predicate SameChain(s: State, s': State) {
    && s'.head == s.head && s'.chain == s.chain && s'.enqueued == s.enqueued && s'.taken == s.taken
    && (forall a :: a in s.chain && a in s.heap ==> a in s'.heap && s'.heap[a] == s.heap[a])
  }

  lemma LinkedKept(s: State, s': State)
    requires Linked(s) && SameChain(s, s')
    ensures Linked(s')
  {}

  lemma ContentsKept(s: State, s': State)
    requires Contents(s) && SameChain(s, s') && PoppingNow(s') == PoppingNow(s)
    ensures Contents(s')
  {
    hide PoppingNow;
  }

  lemma ChainKept(s: State, s': State)
    requires Linked(s) && Contents(s) && SameChain(s, s') && PoppingNow(s') == PoppingNow(s)
    ensures Linked(s') && Contents(s')
  {
    hide PoppingNow, Linked, Contents, SameChain;
    LinkedKept(s, s');
    ContentsKept(s, s');
  }

  // ----- A new node -----

  ghost predicate Allocates(s: State, s': State, t: ThreadId, a: Address, v: Value) {
    && t in s.threads && s.threads[t] == Idle && a !in s.heap
    && s' == s.(threads := s.threads[t := EnqLock(a, v)], heap := s.heap[a := Node(v, Nil, Thread(t))])
  }

  lemma AllocatesHolders(s: State, s': State, t: ThreadId, a: Address, v: Value)
    requires Holders(s) && Allocates(s, s', t, a, v)
    ensures Holders(s')
  {
    hide Owned;
    assert Owned(EnqLock(a, v)) == To(a) && Owned(Idle) == Nil by {
      OwnedEnqLock(a, v);
    }
  }

  lemma OwnedEnqLock(a: Address, v: Value)
    ensures Owned(EnqLock(a, v)) == To(a) && Owned(Idle) == Nil
  {}

  lemma AllocatesLocals(s: State, s': State, t: ThreadId, a: Address, v: Value)
    requires Locals(s) && Allocates(s, s', t, a, v)
    ensures Locals(s')
  {
    forall u | u in s'.threads
      ensures Local(s', s'.threads[u])
    {
      assert u != t ==> Local(s, s.threads[u]);
    }
  }

  lemma AllocatesInv(s: State, s': State, t: ThreadId, a: Address, v: Value)
    requires Inv(s) && Allocates(s, s', t, a, v)
    ensures Inv(s')
  {
    hide Linked, Contents, Locals, Holders, Locks, Local, Settling, PoppingNow;
    assert SameChain(s, s');
    AllocatesHolders(s, s', t, a, v);
    AllocatesLocals(s, s', t, a, v);
    LocksKept(s, s', t, EnqLock(a, v));
    SettlingKept(s, s', t, EnqLock(a, v));
    PoppingKept(s, s', t, EnqLock(a, v));
    ChainKept(s, s');
  }

  // ----- The link -----

  ghost predicate Links(s: State, s': State, t: ThreadId, a: Address, v: Value) {
    && t in s.threads && s.threads[t] == EnqLink(a, v, s.tail)
    && a in s.heap && s.tail in s.heap && a != s.tail
    && s'.heap == s.heap[a := s.heap[a].(holder := Queue)][s.tail := s.heap[s.tail].(next := To(a))]
    && s' == s.(
      threads := s.threads[t := EnqSetTail(a)], heap := s'.heap, chain := s.chain + [a], enqueued := s.enqueued + [v])
  }

  lemma LinksLinked(s: State, s': State, t: ThreadId, a: Address, v: Value)
    requires Linked(s) && Links(s, s', t, a, v) && s.tail == s.chain[|s.chain| - 1]
    requires s.heap[a].next == Nil && s.heap[a].holder.Thread?
    ensures Linked(s')
  {
    assert a !in s.chain;
    forall i | 0 <= i < |s'.chain|
      ensures s'.chain[i] in s'.heap && s'.heap[s'.chain[i]].next == NextIn(s'.chain, i)
              && s'.heap[s'.chain[i]].holder == Queue
    {
      assert i < |s.chain| ==> s'.chain[i] == s.chain[i];
    }
  }

  lemma LinksHolders(s: State, s': State, t: ThreadId, a: Address, v: Value)
    requires Holders(s) && Links(s, s', t, a, v) && s.heap[s.tail].holder == Queue && s.heap[a].holder == Thread(t)
    ensures Holders(s')
  {
    hide Owned;
    OwnedLink(a, v, s.tail);
    assert s'.heap[s.tail].holder == Queue;
    forall u | u in s'.threads && Owned(s'.threads[u]).To?
      ensures var b := Owned(s'.threads[u]).addr; b in s'.heap && s'.heap[b].holder == Thread(u)
    {
      assert u != t && s'.threads[u] == s.threads[u];
    }
    assert forall b :: b in s.chain ==> b in s'.chain;
    assert a in s'.chain;
  }

  lemma OwnedLink(a: Address, v: Value, tl: Address)
    ensures Owned(EnqLink(a, v, tl)) == To(a) && Owned(EnqSetTail(a)) == Nil
  {}

  lemma LinksLocals(s: State, s': State, t: ThreadId, a: Address, v: Value)
    requires Locals(s) && Locks(s) && Holders(s) && Links(s, s', t, a, v) && |s.chain| > 0
    requires s.heap[s.tail].holder == Queue && s.heap[a].holder == Thread(t)
    ensures Locals(s')
  {
    forall u | u in s'.threads
      ensures Local(s', s'.threads[u])
    {
      if u != t {
        assert Local(s, s.threads[u]);
        assert !Producing(s.threads[u]);
        assert |s.chain| > 1 ==> s'.chain[1] == s.chain[1];
      }
    }
  }

  lemma LinksContents(s: State, s': State, t: ThreadId, a: Address, v: Value)
    requires Contents(s) && Locks(s) && Links(s, s', t, a, v) && s.heap[a].value == v
    ensures Contents(s')
  {
    hide Locks, PoppingNow;
    PoppingKept(s, s', t, EnqSetTail(a));
    forall i | 1 <= i < |s'.chain|
      ensures s'.chain[i] in s'.heap && s'.heap[s'.chain[i]].value == s'.enqueued[|s'.enqueued| - |s'.chain| + i]
    {
      assert i < |s.chain| ==> s'.chain[i] == s.chain[i];
    }
  }

  lemma LinksInv(s: State, s': State, t: ThreadId, a: Address, v: Value)
    requires Inv(s) && Links(s, s', t, a, v) && s.heap[a].holder == Thread(t) && s.heap[a].next == Nil
             && s.heap[a].value == v
    requires !Settling(s)
    ensures Inv(s')
  {
    hide Locals, Holders, Locks, Local, Contents, Settling, PoppingNow;
    LinksLinked(s, s', t, a, v);
    LinksHolders(s, s', t, a, v);
    LinksLocals(s, s', t, a, v);
    LinksContents(s, s', t, a, v);
    LocksKept(s, s', t, EnqSetTail(a));
    SettlingKept(s, s', t, EnqSetTail(a));
  }

  // ----- The tail -----

  ghost predicate SetsTail(s: State, s': State, t: ThreadId, a: Address) {
    && t in s.threads && s.threads[t] == EnqSetTail(a)
    && s' == s.(threads := s.threads[t := EnqUnlock], tail := a)
  }

  lemma SetsTailLocals(s: State, s': State, t: ThreadId, a: Address)
    requires Locals(s) && Locks(s) && SetsTail(s, s', t, a)
    ensures Locals(s')
  {
    forall u | u in s'.threads
      ensures Local(s', s'.threads[u])
    {
      if u != t {
        assert Local(s, s.threads[u]);
        assert !Producing(s.threads[u]);
      }
    }
  }

  lemma SetsTailInv(s: State, s': State, t: ThreadId, a: Address)
    requires Inv(s) && SetsTail(s, s', t, a) && a == s.chain[|s.chain| - 1]
    ensures Inv(s')
  {
    hide Linked, Contents, Holders, Locals, Locks, Local, Settling, PoppingNow;
    SetsTailLocals(s, s', t, a);
    SetsTailHolders(s, s', t, a);
    LocksKept(s, s', t, EnqUnlock);
    PoppingKept(s, s', t, EnqUnlock);
    ChainKept(s, s');
  }

  lemma SetsTailHolders(s: State, s': State, t: ThreadId, a: Address)
    requires Holders(s) && SetsTail(s, s', t, a)
    ensures Holders(s')
  {
  }

  // ----- The head -----

  ghost predicate Advances(s: State, s': State, t: ThreadId, n: Address, v: Value) {
    && t in s.threads && s.threads[t] == DeqAdvance(s.head, n, v, v)
    && |s.chain| > 1 && n == s.chain[1] && s.head in s.heap
    && s'.heap == s.heap[s.head := Node(s.heap[s.head].value, s.heap[s.head].next, Thread(t))]
    && s' == s.(threads := s.threads[t := DeqUnlock(s.head, v, v)], head := n, chain := s.chain[1..], heap := s'.heap)
  }

  lemma AdvancesLinked(s: State, s': State, t: ThreadId, n: Address, v: Value)
    requires Linked(s) && Advances(s, s', t, n, v)
    ensures Linked(s')
  {
    forall i | 0 <= i < |s'.chain|
      ensures s'.chain[i] in s'.heap && s'.heap[s'.chain[i]].next == NextIn(s'.chain, i)
              && s'.heap[s'.chain[i]].holder == Queue
    {
      assert s'.chain[i] == s.chain[i + 1] && NextIn(s'.chain, i) == NextIn(s.chain, i + 1);
    }
  }

  lemma HeadOfChain(s: State)
    requires Linked(s)
    ensures s.head in s.heap && s.heap[s.head].holder == Queue && s.chain == [s.head] + s.chain[1..]
  {}

  lemma AdvancesHolders(s: State, s': State, t: ThreadId, n: Address, v: Value)
    requires Linked(s) && Holders(s) && Advances(s, s', t, n, v)
    ensures Holders(s')
  {
    hide Owned, Linked;
    HeadOfChain(s);
    OwnedAdvance(s.head, n, v);
    forall b | b in s'.heap && s'.heap[b].holder == Queue
      ensures b in s'.chain
    {
      assert b != s.head && b in s.chain;
    }
    forall u | u in s'.threads && Owned(s'.threads[u]).To?
      ensures var b := Owned(s'.threads[u]).addr; b in s'.heap && s'.heap[b].holder == Thread(u)
    {
      assert u != t ==> s'.threads[u] == s.threads[u] && Owned(s.threads[u]) != To(s.head);
    }
  }

  lemma OwnedAdvance(h: Address, n: Address, v: Value)
    ensures Owned(DeqAdvance(h, n, v, v)) == Nil && Owned(DeqUnlock(h, v, v)) == To(h)
  {}

  lemma AdvancesLocals(s: State, s': State, t: ThreadId, n: Address, v: Value)
    requires Locals(s) && Locks(s) && Advances(s, s', t, n, v)
    ensures Locals(s')
  {
    forall u | u in s'.threads
      ensures Local(s', s'.threads[u])
    {
      if u != t {
        assert Local(s, s.threads[u]);
        assert !Consuming(s.threads[u]);
      }
    }
  }

  lemma AdvancesContents(s: State, s': State, t: ThreadId, n: Address, v: Value)
    requires Contents(s) && Locks(s) && Advances(s, s', t, n, v)
    ensures Contents(s')
  {
    hide Locks, PoppingNow;
    PoppingKept(s, s', t, DeqUnlock(s.head, v, v));
    forall i | 1 <= i < |s'.chain|
      ensures s'.chain[i] in s'.heap && s'.heap[s'.chain[i]].value == s'.enqueued[|s'.enqueued| - |s'.chain| + i]
    {
      assert s'.chain[i] == s.chain[i + 1];
    }
  }

  lemma AdvancesInv(s: State, s': State, t: ThreadId, n: Address, v: Value)
    requires Inv(s) && Advances(s, s', t, n, v)
    ensures Inv(s')
  {
    hide Locals, Holders, Locks, Local, Contents, Settling, PoppingNow, Linked;
    AdvancesLinked(s, s', t, n, v);
    AdvancesHolders(s, s', t, n, v);
    AdvancesLocals(s, s', t, n, v);
    AdvancesContents(s, s', t, n, v);
    LocksKept(s, s', t, DeqUnlock(s.head, v, v));
    SettlingKept(s, s', t, DeqUnlock(s.head, v, v));
  }

  // ----- The deletion -----

  ghost predicate Deletes(s: State, s': State, t: ThreadId, h: Address, v: Value) {
    && t in s.threads && s.threads[t] == DeqDelete(h, v, v)
    && h in s.heap && s.heap[h].holder == Thread(t)
    && s' == s.(threads := s.threads[t := Idle], heap := s.heap - {h})
  }

  lemma DeletesHolders(s: State, s': State, t: ThreadId, h: Address, v: Value)
    requires Holders(s) && Deletes(s, s', t, h, v)
    ensures Holders(s')
  {
    hide Owned;
    OwnedDelete(h, v);
  }

  lemma OwnedDelete(h: Address, v: Value)
    ensures Owned(DeqDelete(h, v, v)) == To(h) && Owned(Idle) == Nil
  {}

  lemma DeletesLocals(s: State, s': State, t: ThreadId, h: Address, v: Value)
    requires Locals(s) && Holders(s) && Linked(s) && Deletes(s, s', t, h, v)
    ensures Locals(s')
  {
    forall u | u in s'.threads
      ensures Local(s', s'.threads[u])
    {
      if u != t {
        assert Local(s, s.threads[u]);
        assert Owned(s.threads[u]) != To(h);
        assert h !in s.chain;
      }
    }
  }

  lemma DeletesInv(s: State, s': State, t: ThreadId, h: Address, v: Value)
    requires Inv(s) && Deletes(s, s', t, h, v)
    ensures Inv(s')
  {
    hide Contents, Locals, Holders, Locks, Local, Settling, PoppingNow;
    assert SameChain(s, s');
    DeletesHolders(s, s', t, h, v);
    DeletesLocals(s, s', t, h, v);
    LocksKept(s, s', t, Idle);
    SettlingKept(s, s', t, Idle);
    PoppingKept(s, s', t, Idle);
    ChainKept(s, s');
  }

  // ----- Every step -----

  /** What the lock holder and the contents say about a consumer that is about to look behind the dummy node. */
  lemma AtFront(s: State, t: ThreadId)
    requires Inv(s) && t in s.threads && s.threads[t].DeqReadNext?
    ensures s.head in s.heap && s.heap[s.head].next == NextIn(s.chain, 0)
    ensures s.taken == |s.enqueued| + 1 - |s.chain|
    ensures |s.chain| > 1 ==> s.chain[1] in s.heap && s.heap[s.chain[1]].value == s.enqueued[s.taken]
  {
    hide Holders, Locals, Tail;
    assert !PoppingNow(s);
  }

  lemma EnqueuerQuiet(s: State, t: ThreadId, a: Action)
    requires Inv(s) && t in s.threads
    requires s.threads[t].EnqLock? || s.threads[t].EnqReadTail? || s.threads[t].EnqUnlock?
    ensures Inv(Step(s, t, a))
  {
    hide Linked, Holders, Locks, Tail, Contents;
    assert Local(s, s.threads[t]);
    var s' := Step(s, t, a);
    if s' != s {
      QuietInv(s, s', t, s'.threads[t]);
    }
  }

  lemma DequeuerQuiet(s: State, t: ThreadId, a: Action)
    requires Inv(s) && t in s.threads
    requires s.threads[t].DeqLock? || s.threads[t].DeqReadHead? || s.threads[t].DeqUnlockEmpty?
             || s.threads[t].DeqUnlock?
    ensures Inv(Step(s, t, a))
  {
    hide Linked, Holders, Locks, Tail, Contents;
    assert Local(s, s.threads[t]);
    var s' := Step(s, t, a);
    if s' != s {
      QuietInv(s, s', t, s'.threads[t]);
    }
  }

  lemma DeqReadStep(s: State, t: ThreadId, a: Action)
    requires Inv(s) && t in s.threads && (s.threads[t].DeqReadNext? || s.threads[t].DeqReadValue?)
    ensures Inv(Step(s, t, a))
  {
    hide Linked, Holders, Locks, Tail, Contents;
    assert Local(s, s.threads[t]);
    if s.threads[t].DeqReadNext? {
      AtFront(s, t);
    }
    var s' := Step(s, t, a);
    QuietInv(s, s', t, s'.threads[t]);
  }

  lemma IdleStep(s: State, t: ThreadId, a: Action)
    requires Inv(s) && t in s.threads && s.threads[t].Idle?
    ensures Inv(Step(s, t, a))
  {
    hide Inv, Holders, Linked, Locks, Tail, Contents, Locals;
    var s' := Step(s, t, a);
    if a.CallEnq? && a.a !in s.heap {
      AllocatesInv(s, s', t, a.a, a.v);
    } else if a.CallDeq? {
      QuietInv(s, s', t, DeqLock);
    }
  }

  lemma EnqLinkStep(s: State, t: ThreadId, a: Action)
    requires Inv(s) && t in s.threads && s.threads[t].EnqLink?
    ensures Inv(Step(s, t, a))
  {
    hide Inv;
    LinkReady(s, t);
    LinksInv(s, Step(s, t, a), t, s.threads[t].node, s.threads[t].v);
  }

  lemma LinkReady(s: State, t: ThreadId)
    requires Inv(s) && t in s.threads && s.threads[t].EnqLink?
    ensures var node, v := s.threads[t].node, s.threads[t].v;
      && s.threads[t].tl == s.tail && s.tail in s.heap && node in s.heap && node != s.tail
      && s.heap[node] == Node(v, Nil, Thread(t)) && !Settling(s) && s.heap[s.tail].holder == Queue
  {
    hide Contents;
    assert Local(s, s.threads[t]);
    assert Owned(s.threads[t]) == To(s.threads[t].node);
  }

  lemma EnqSetTailStep(s: State, t: ThreadId, a: Action)
    requires Inv(s) && t in s.threads && s.threads[t].EnqSetTail?
    ensures Inv(Step(s, t, a))
  {
    hide Linked, Holders, Locks, Tail, Contents;
    assert Local(s, s.threads[t]);
    SetsTailInv(s, Step(s, t, a), t, s.threads[t].node);
  }

  lemma DeqAdvanceStep(s: State, t: ThreadId, a: Action)
    requires Inv(s) && t in s.threads && s.threads[t].DeqAdvance?
    ensures Inv(Step(s, t, a))
  {
    hide Holders, Locks, Tail, Contents;
    assert Local(s, s.threads[t]);
    AdvancesInv(s, Step(s, t, a), t, s.threads[t].n, s.threads[t].v);
  }

  lemma DeqDeleteStep(s: State, t: ThreadId, a: Action)
    requires Inv(s) && t in s.threads && s.threads[t].DeqDelete?
    ensures Inv(Step(s, t, a))
  {
    hide Linked, Locks, Tail, Contents;
    assert Local(s, s.threads[t]);
    assert Owned(s.threads[t]) == To(s.threads[t].h);
    DeletesInv(s, Step(s, t, a), t, s.threads[t].h, s.threads[t].v);
  }

  /** Every step of every thread keeps the invariant. */
  lemma StepInv(s: State, t: ThreadId, a: Action)
    requires Inv(s) && t in s.threads
    ensures Inv(Step(s, t, a))
  {
    hide Inv, Step;
    match s.threads[t]
    case Idle => IdleStep(s, t, a);
    case EnqLock(_, _) => EnqueuerQuiet(s, t, a);
    case EnqReadTail(_, _) => EnqueuerQuiet(s, t, a);
    case EnqLink(_, _, _) => EnqLinkStep(s, t, a);
    case EnqSetTail(_) => EnqSetTailStep(s, t, a);
    case EnqUnlock => EnqueuerQuiet(s, t, a);
    case DeqLock => DequeuerQuiet(s, t, a);
    case DeqReadHead => DequeuerQuiet(s, t, a);
    case DeqReadNext(_) => DeqReadStep(s, t, a);
    case DeqUnlockEmpty => DequeuerQuiet(s, t, a);
    case DeqReadValue(_, _, _) => DeqReadStep(s, t, a);
    case DeqAdvance(_, _, _, _) => DeqAdvanceStep(s, t, a);
    case DeqUnlock(_, _, _) => DequeuerQuiet(s, t, a);
    case DeqDelete(_, _, _) => DeqDeleteStep(s, t, a);
  }
}
