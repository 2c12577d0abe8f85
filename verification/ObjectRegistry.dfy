/**
 * ObjectRegistry: reference-counted unique objects behind a read/write lock. The upgrade from reading to writing
 * releases the lock before it acquires it again (ObjectRegistry.cpp, RWlockGuard in uts/RWlock.h).
 */
module ObjectRegistry {
  import opened Counting

  type ThreadId = nat
  type EntryId = nat

  /** What the ordering tells apart: two objects are equivalent when they have the same key. */
  type Key = int

  /** A RegisteredObject: the object's key, and _refCount. */
  datatype Entry = Entry(key: Key, refCount: int)

  datatype Writer = Nobody | Held(t: ThreadId)

  /** What a thread is about to do; w tells whether it holds the lock for writing. */
  datatype Pc =
    | Idle
    | AddReadLock(k: Key)
    | AddFind(k: Key)
    | AddUpgrade(k: Key)                    // unlock, the first half of lock.wrlock()
    | AddWriteLock(k: Key)                  // and the second half
    | AddFindAgain(k: Key)
    | AddInsert(k: Key)
    | AddRef(e: EntryId, k: Key, w: bool)   // fetch_add
    | AddUnlock(e: EntryId, k: Key, w: bool)
    | RemReadLock(e: EntryId)
    | RemFind(e: EntryId)
    | RemDrop(e: EntryId)                   // fetch_sub
    | RemAddBack(e: EntryId)                // fetch_add
    | RemUpgrade(e: EntryId)
    | RemWriteLock(e: EntryId)
    | RemDropAgain(e: EntryId)              // fetch_sub
    | RemErase(e: EntryId)
    | RemUnlock(w: bool)

  /** The entries that exist, the lock, the threads, and the references that clients hold. */
  datatype State = State(
    entries: map<EntryId, Entry>, readers: set<ThreadId>, writer: Writer,
    threads: map<ThreadId, Pc>, held: multiset<EntryId>)

  /**
   * What the scheduler may pick for a thread. A search may return any matching entry, and a new entry may get any
   * address that is not in use; both are named by Go.
   */
  datatype Action = CallAdd(k: Key) | CallRemove(e: EntryId) | Go(e: EntryId)

  function Goto(s: State, t: ThreadId, pc: Pc): State {
    s.(threads := s.threads[t := pc])
  }

  predicate Present(s: State, k: Key) {
    exists e :: e in s.entries && s.entries[e].key == k
  }

  function Counted(s: State, e: EntryId, d: int): map<EntryId, Entry>
    requires e in s.entries
  {
    s.entries[e := Entry(s.entries[e].key, s.entries[e].refCount + d)]
  }

  function Unlocked(s: State, t: ThreadId, w: bool): State {
    if w then s.(writer := Nobody) else s.(readers := s.readers - {t})
  }

  function AddStep(s: State, t: ThreadId, a: Action): State
    requires t in s.threads
  {
    match s.threads[t]
    case AddReadLock(k) =>
      if s.writer != Nobody then s else Goto(s, t, AddFind(k)).(readers := s.readers + {t})
    case AddFind(k) =>
      if !Present(s, k) then Goto(s, t, AddUpgrade(k))
      else if a.Go? && a.e in s.entries && s.entries[a.e].key == k then Goto(s, t, AddRef(a.e, k, false))
      else s
    case AddUpgrade(k) =>
      Unlocked(Goto(s, t, AddWriteLock(k)), t, false)
    case AddWriteLock(k) =>
      if s.writer != Nobody || s.readers != {} then s else Goto(s, t, AddFindAgain(k)).(writer := Held(t))
    case AddFindAgain(k) =>
      if !Present(s, k) then Goto(s, t, AddInsert(k))
      else if a.Go? && a.e in s.entries && s.entries[a.e].key == k then Goto(s, t, AddRef(a.e, k, true))
      else s
    case AddInsert(k) =>
      if !a.Go? || a.e in s.entries then s
      else Goto(s, t, AddUnlock(a.e, k, true)).(entries := s.entries[a.e := Entry(k, 1)])
    case AddRef(e, k, w) =>
      if e !in s.entries then s else Goto(s, t, AddUnlock(e, k, w)).(entries := Counted(s, e, 1))
    case AddUnlock(e, k, w) =>
      Unlocked(Goto(s, t, Idle), t, w).(held := s.held + multiset{e})
    case _ => s
  }

  function RemoveStep(s: State, t: ThreadId, a: Action): State
    requires t in s.threads
  {
    match s.threads[t]
    case RemReadLock(e) =>
      if s.writer != Nobody then s else Goto(s, t, RemFind(e)).(readers := s.readers + {t})
    case RemFind(e) =>
      if e in s.entries && a.Go? && a.e in s.entries && s.entries[a.e].key == s.entries[e].key
      then Goto(s, t, RemDrop(a.e))
      else s
    case RemDrop(e) =>
      if e !in s.entries then s
      else
        var q := if s.entries[e].refCount - 1 > 0 then RemUnlock(false) else RemAddBack(e);
        Goto(s, t, q).(entries := Counted(s, e, -1))
    case RemAddBack(e) =>
      if e !in s.entries then s else Goto(s, t, RemUpgrade(e)).(entries := Counted(s, e, 1))
    case RemUpgrade(e) =>
      Unlocked(Goto(s, t, RemWriteLock(e)), t, false)
    case RemWriteLock(e) =>
      if s.writer != Nobody || s.readers != {} then s else Goto(s, t, RemDropAgain(e)).(writer := Held(t))
    case RemDropAgain(e) =>
      if e !in s.entries then s
      else
        var q := if s.entries[e].refCount - 1 == 0 then RemErase(e) else RemUnlock(true);
        Goto(s, t, q).(entries := Counted(s, e, -1))
    case RemErase(e) =>
      Goto(s, t, RemUnlock(true)).(entries := s.entries - {e})
    case RemUnlock(w) =>
      Unlocked(Goto(s, t, Idle), t, w)
    case _ => s
  }

  /** A client may only give back a reference that it was given. */
  function Step(s: State, t: ThreadId, a: Action): State
    requires t in s.threads
  {
    if s.threads[t].Idle? then
      if a.CallAdd? then Goto(s, t, AddReadLock(a.k))
      else if a.CallRemove? && a.e in s.held then Goto(s, t, RemReadLock(a.e)).(held := s.held - multiset{a.e})
      else s
    else if Adding(s.threads[t]) then AddStep(s, t, a)
    else RemoveStep(s, t, a)
  }

  predicate Adding(pc: Pc) {
    || pc.AddReadLock? || pc.AddFind? || pc.AddUpgrade? || pc.AddWriteLock? || pc.AddFindAgain? || pc.AddInsert?
    || pc.AddRef? || pc.AddUnlock?
  }

  // ----- Counting references -----

  datatype Pointer = Nil | To(e: EntryId)

  /** The reference that a call under way holds: given but not yet returned, or taken back but not yet dropped. */
  function RefOf(pc: Pc): Pointer {
    match pc
    case AddUnlock(e, _, _) => To(e)
    case RemReadLock(e) => To(e)
    case RemFind(e) => To(e)
    case RemDrop(e) => To(e)
    case RemAddBack(e) => To(e)
    case RemUpgrade(e) => To(e)
    case RemWriteLock(e) => To(e)
    case RemDropAgain(e) => To(e)
    case _ => Nil
  }

  ghost function Holders(m: map<ThreadId, Pc>, e: EntryId): set<ThreadId> {
    set t | t in m && RefOf(m[t]) == To(e)
  }

  /** Threads between the first decrement and the re-increment. */
  ghost function Transit(m: map<ThreadId, Pc>, e: EntryId): set<ThreadId> {
    set t | t in m && m[t] == RemAddBack(e)
  }

  /** All references to an entry: those that clients hold, and those of the calls under way. */
  ghost function Outstanding(s: State, e: EntryId): nat {
    s.held[e] + |Holders(s.threads, e)|
  }

  lemma HoldersMoved(m: map<ThreadId, Pc>, t: ThreadId, q: Pc, e: EntryId)
    requires t in m
    ensures |Holders(m[t := q], e)| + One(RefOf(m[t]) == To(e)) == |Holders(m, e)| + One(RefOf(q) == To(e))
  {
    hide RefOf;
    assert Holders(m[t := q], e) - {t} == Holders(m, e) - {t};
    Removed(Holders(m, e), t);
    Removed(Holders(m[t := q], e), t);
  }

  lemma TransitMoved(m: map<ThreadId, Pc>, t: ThreadId, q: Pc, e: EntryId)
    requires t in m
    ensures |Transit(m[t := q], e)| + One(m[t] == RemAddBack(e)) == |Transit(m, e)| + One(q == RemAddBack(e))
  {
    assert Transit(m[t := q], e) - {t} == Transit(m, e) - {t};
    Removed(Transit(m, e), t);
    Removed(Transit(m[t := q], e), t);
  }

  /** A thread that holds a reference, and is not in transit, is counted in the one and not in the other. */
  lemma TransitBelow(m: map<ThreadId, Pc>, t: ThreadId, e: EntryId)
    requires t in m && RefOf(m[t]) == To(e)
    ensures |Transit(m, e)| + One(m[t] != RemAddBack(e)) <= |Holders(m, e)|
  {
    var b := Holders(m, e) - (if m[t] != RemAddBack(e) then {t} else {});
    assert Transit(m, e) <= b;
    Subset(Transit(m, e), b);
    Removed(Holders(m, e), t);
  }

  // ----- The invariant -----

  predicate Reading(pc: Pc) {
    || pc.AddFind? || pc.AddUpgrade? || (pc.AddRef? && !pc.w) || (pc.AddUnlock? && !pc.w)
    || pc.RemFind? || pc.RemDrop? || pc.RemAddBack? || pc.RemUpgrade? || (pc.RemUnlock? && !pc.w)
  }

  predicate Writing(pc: Pc) {
    || pc.AddFindAgain? || pc.AddInsert? || (pc.AddRef? && pc.w) || (pc.AddUnlock? && pc.w)
    || pc.RemDropAgain? || pc.RemErase? || (pc.RemUnlock? && pc.w)
  }

  ghost predicate Locks(s: State) {
    && (forall t :: t in s.threads ==> (t in s.readers <==> Reading(s.threads[t])))
    && (forall t :: t in s.threads ==> (s.writer == Held(t) <==> Writing(s.threads[t])))
    && (s.writer.Held? ==> s.readers == {} && s.writer.t in s.threads)
    && s.readers <= s.threads.Keys
  }

  /** The counts are the references less those in transit; an entry that does not exist has no references. */
  ghost predicate Counts(s: State) {
    forall e ::
      if e in s.entries then s.entries[e].refCount == Outstanding(s, e) - |Transit(s.threads, e)|
      else Outstanding(s, e) == 0
  }

  ghost predicate Unique(s: State) {
    forall e, f :: e in s.entries && f in s.entries && s.entries[e].key == s.entries[f].key ==> e == f
  }

  ghost function Erasers(m: map<ThreadId, Pc>, e: EntryId): set<ThreadId> {
    set t | t in m && m[t] == RemErase(e)
  }

  /** An entry has references, or else is just being erased. */
  ghost predicate Needed(s: State) {
    forall e :: e in s.entries ==> (Outstanding(s, e) == 0 <==> Erasers(s.threads, e) != {})
  }

  ghost predicate Local(s: State, pc: Pc) {
    match pc
    case AddInsert(k) => !Present(s, k)
    case AddRef(e, k, _) => e in s.entries && s.entries[e].key == k
    case AddUnlock(e, k, _) => e in s.entries && s.entries[e].key == k
    case RemErase(e) => e in s.entries
    case _ => true
  }

  ghost predicate Locals(s: State) {
    forall t :: t in s.threads ==> Local(s, s.threads[t])
  }

  ghost predicate Inv(s: State) {
    Locks(s) && Counts(s) && Unique(s) && Needed(s) && Locals(s)
  }

  ghost predicate Init(s: State) {
    && s.entries == map[] && s.readers == {} && s.writer == Nobody && s.held == multiset{}
    && forall t :: t in s.threads ==> s.threads[t] == Idle
  }

  lemma InitInv(s: State)
    requires Init(s)
    ensures Inv(s)
  {
    forall e
      ensures Outstanding(s, e) == 0
    {
      assert Holders(s.threads, e) == {};
    }
  }

  // ----- The lock -----

  ghost predicate LockMoves(s: State, s': State, t: ThreadId, q: Pc) {
    && t in s.threads && s'.threads == s.threads[t := q] && !(Reading(q) && Writing(q))
    && var r, w, r', w' := Reading(s.threads[t]), Writing(s.threads[t]), Reading(q), Writing(q);
      || (s'.readers == s.readers && s'.writer == s.writer && r' == r && w' == w)
      || (s.writer == Nobody == s'.writer && s'.readers == s.readers + {t} && !r && !w && r')
      || (s'.writer == s.writer && s'.readers == s.readers - {t} && r && !w && !r' && !w')
      || (s.writer == Nobody && s'.writer == Held(t) && s'.readers == s.readers == {} && !r && !w && w')
      || (s'.writer == Nobody && s'.readers == s.readers && w && !r && !r' && !w')
  }

  lemma LocksKept(s: State, s': State, t: ThreadId, q: Pc)
    requires Locks(s) && LockMoves(s, s', t, q)
    ensures Locks(s')
  {
    hide Reading, Writing;
  }

  /** A writer is alone. */
  lemma WriterAlone(s: State, t: ThreadId, u: ThreadId)
    requires Locks(s) && t in s.threads && u in s.threads && t != u && Writing(s.threads[t])
    ensures !Writing(s.threads[u]) && !Reading(s.threads[u])
  {
    hide Reading, Writing;
  }

  // ----- Steps that keep the entries -----

  ghost predicate SameEntries(s: State, s': State, t: ThreadId, q: Pc) {
    && t in s.threads && s'.threads == s.threads[t := q] && s'.entries == s.entries
    && (forall e :: s'.held[e] + One(RefOf(q) == To(e)) == s.held[e] + One(RefOf(s.threads[t]) == To(e)))
    && !q.RemAddBack? && !s.threads[t].RemAddBack? && !q.RemErase? && !s.threads[t].RemErase?
  }

  lemma SameOutstanding(s: State, s': State, t: ThreadId, q: Pc, e: EntryId)
    requires SameEntries(s, s', t, q)
    ensures Outstanding(s', e) == Outstanding(s, e)
    ensures |Transit(s'.threads, e)| == |Transit(s.threads, e)| && Erasers(s'.threads, e) == Erasers(s.threads, e)
  {
    hide Holders, Transit, RefOf;
    HoldersMoved(s.threads, t, q, e);
    TransitMoved(s.threads, t, q, e);
  }

  lemma SameEntriesInv(s: State, s': State, t: ThreadId, q: Pc)
    requires Inv(s) && SameEntries(s, s', t, q) && LockMoves(s, s', t, q) && Local(s, q)
    ensures Inv(s')
  {
    hide Locks, Counts, Needed, SameEntries;
    LocksKept(s, s', t, q);
    SameEntriesRefs(s, s', t, q);
    forall u | u in s'.threads
      ensures Local(s', s'.threads[u])
    {
      assert Local(s, if u == t then q else s.threads[u]);
      SameLocal(s, s', s'.threads[u]);
    }
  }

  /** Locals look only at which entries there are, and at their keys. */
  ghost predicate SameKeys(s: State, s': State) {
    && (forall e :: e in s'.entries <==> e in s.entries)
    && (forall e :: e in s.entries ==> s'.entries[e].key == s.entries[e].key)
  }

  lemma SameLocal(s: State, s': State, pc: Pc)
    requires SameKeys(s, s') && Local(s, pc)
    ensures Local(s', pc)
  {}

  lemma SameEntriesRefs(s: State, s': State, t: ThreadId, q: Pc)
    requires Counts(s) && Unique(s) && Needed(s) && SameEntries(s, s', t, q)
    ensures Counts(s') && Unique(s') && Needed(s') && s'.entries == s.entries
  {
    hide Outstanding, Transit, Erasers, RefOf;
    forall e
      ensures Outstanding(s', e) == Outstanding(s, e)
      ensures |Transit(s'.threads, e)| == |Transit(s.threads, e)| && Erasers(s'.threads, e) == Erasers(s.threads, e)
    {
      SameOutstanding(s, s', t, q, e);
    }
  }

  // ----- Steps that change one reference count -----

  ghost predicate Recounts(s: State, s': State, t: ThreadId, q: Pc, x: EntryId, d: int) {
    && t in s.threads && x in s.entries && s' == s.(threads := s.threads[t := q], entries := Counted(s, x, d))
    && var p := s.threads[t];
      && (RefOf(p) == Nil || RefOf(p) == To(x)) && (RefOf(q) == Nil || RefOf(q) == To(x))
      && (p.RemAddBack? ==> p == RemAddBack(x)) && (q.RemAddBack? ==> q == RemAddBack(x))
      && !p.RemErase? && (q.RemErase? ==> q == RemErase(x))
      && d == One(RefOf(q) == To(x)) - One(RefOf(p) == To(x)) - One(q.RemAddBack?) + One(p.RemAddBack?)
  }

  lemma RecountsEach(s: State, s': State, t: ThreadId, q: Pc, x: EntryId, d: int, e: EntryId)
    requires Recounts(s, s', t, q, x, d)
    ensures Outstanding(s', e) == Outstanding(s, e)
            + (if e == x then One(RefOf(q) == To(x)) - One(RefOf(s.threads[t]) == To(x)) else 0)
    ensures |Transit(s'.threads, e)| == |Transit(s.threads, e)|
            + (if e == x then One(q.RemAddBack?) - One(s.threads[t].RemAddBack?) else 0)
    ensures Erasers(s'.threads, e) == Erasers(s.threads, e) + (if e == x && q.RemErase? then {t} else {})
  {
    hide Holders, Transit, RefOf;
    HoldersMoved(s.threads, t, q, e);
    TransitMoved(s.threads, t, q, e);
  }

  lemma RecountsRefs(s: State, s': State, t: ThreadId, q: Pc, x: EntryId, d: int)
    requires Counts(s) && Unique(s) && Needed(s) && Recounts(s, s', t, q, x, d)
    ensures Counts(s') && Unique(s')
    ensures forall e :: e in s'.entries && e != x ==> (Outstanding(s', e) == 0 <==> Erasers(s'.threads, e) != {})
  {
    hide Outstanding, Transit, Erasers, RefOf;
    forall e
      ensures Outstanding(s', e) == Outstanding(s, e)
              + (if e == x then One(RefOf(q) == To(x)) - One(RefOf(s.threads[t]) == To(x)) else 0)
      ensures |Transit(s'.threads, e)| == |Transit(s.threads, e)|
              + (if e == x then One(q.RemAddBack?) - One(s.threads[t].RemAddBack?) else 0)
      ensures Erasers(s'.threads, e) == Erasers(s.threads, e) + (if e == x && q.RemErase? then {t} else {})
    {
      RecountsEach(s, s', t, q, x, d, e);
    }
  }

  lemma RecountsInv(s: State, s': State, t: ThreadId, q: Pc, x: EntryId, d: int)
    requires Inv(s) && Recounts(s, s', t, q, x, d) && LockMoves(s, s', t, q) && Local(s, q)
    requires Outstanding(s', x) == 0 <==> Erasers(s'.threads, x) != {}
    ensures Inv(s')
  {
    hide Locks, Counts, Unique, Outstanding, Erasers, RefOf, LockMoves, Local;
    LocksKept(s, s', t, q);
    RecountsRefs(s, s', t, q, x, d);
    forall u | u in s'.threads
      ensures Local(s', s'.threads[u])
    {
      assert Local(s, if u == t then q else s.threads[u]);
      SameLocal(s, s', s'.threads[u]);
    }
  }

  lemma NoErasers(s: State, t: ThreadId, e: EntryId)
    requires Locks(s) && t in s.threads && (Reading(s.threads[t]) || Writing(s.threads[t]))
             && s.threads[t] != RemErase(e)
    ensures Erasers(s.threads, e) == {}
  {
    forall u | u in s.threads && s.threads[u] == RemErase(e)
      ensures false
    {
      WriterAlone(s, u, t);
    }
  }

  lemma NoTransit(s: State, t: ThreadId, e: EntryId)
    requires Locks(s) && t in s.threads && Writing(s.threads[t])
    ensures Transit(s.threads, e) == {}
  {
    forall u | u in s.threads && s.threads[u] == RemAddBack(e)
      ensures false
    {
      WriterAlone(s, t, u);
    }
  }

  /** A thread with a reference keeps its entry in existence, and above zero until it is in transit itself. */
  lemma Referenced(s: State, t: ThreadId, e: EntryId)
    requires Counts(s) && t in s.threads && RefOf(s.threads[t]) == To(e)
    ensures e in s.entries && Outstanding(s, e) >= 1
    ensures s.threads[t] != RemAddBack(e) ==> s.entries[e].refCount >= 1
  {
    TransitBelow(s.threads, t, e);
    assert t in Holders(s.threads, e);
  }

  // ----- The steps that change a count -----

  lemma AddRefStep(s: State, t: ThreadId, a: Action)
    requires Inv(s) && t in s.threads && s.threads[t].AddRef?
    ensures Inv(Step(s, t, a))
  {
    hide Counts, Unique, Needed, Outstanding, Erasers, Transit, Locks;
    var s' := Step(s, t, a);
    var e, k, w := s.threads[t].e, s.threads[t].k, s.threads[t].w;
    var q := AddUnlock(e, k, w);
    assert Local(s, s.threads[t]);
    NoErasers(s, t, e);
    RecountsEach(s, s', t, q, e, 1, e);
    RecountsInv(s, s', t, q, e, 1);
  }

  /** The first decrement ends the call exactly when a reference that is not in transit remains. */
  lemma RemDropStep(s: State, t: ThreadId, a: Action)
    requires Inv(s) && t in s.threads && s.threads[t].RemDrop?
    ensures Inv(Step(s, t, a))
    ensures var s', e := Step(s, t, a), s.threads[t].e;
      && t in s'.threads && e in s'.entries && s'.entries[e].refCount >= 0
      && if Outstanding(s, e) - |Transit(s.threads, e)| > 1
         then s'.threads[t] == RemUnlock(false) && Outstanding(s', e) == Outstanding(s, e) - 1
         else s'.threads[t] == RemAddBack(e) && Outstanding(s', e) == Outstanding(s, e)
  {
    hide Unique, Needed, Outstanding, Erasers, Transit, Locks;
    var s' := Step(s, t, a);
    var e := s.threads[t].e;
    Referenced(s, t, e);
    var q := if s.entries[e].refCount - 1 > 0 then RemUnlock(false) else RemAddBack(e);
    NoErasers(s, t, e);
    RecountsEach(s, s', t, q, e, -1, e);
    RecountsInv(s, s', t, q, e, -1);
  }

  lemma RemAddBackStep(s: State, t: ThreadId, a: Action)
    requires Inv(s) && t in s.threads && s.threads[t].RemAddBack?
    ensures Inv(Step(s, t, a))
  {
    hide Unique, Needed, Outstanding, Erasers, Transit, Locks;
    var s' := Step(s, t, a);
    var e := s.threads[t].e;
    Referenced(s, t, e);
    NoErasers(s, t, e);
    RecountsEach(s, s', t, RemUpgrade(e), e, 1, e);
    RecountsInv(s, s', t, RemUpgrade(e), e, 1);
  }

  /** Under the write lock the count is exact, so the entry is to be erased exactly when this was the last reference. */
  lemma RemDropAgainStep(s: State, t: ThreadId, a: Action)
    requires Inv(s) && t in s.threads && s.threads[t].RemDropAgain?
    ensures Inv(Step(s, t, a))
    ensures var s', e := Step(s, t, a), s.threads[t].e;
      && e in s.entries && s.entries[e].refCount == Outstanding(s, e) && Outstanding(s', e) == Outstanding(s, e) - 1
      && t in s'.threads && s'.threads[t] == if Outstanding(s, e) == 1 then RemErase(e) else RemUnlock(true)
  {
    hide Unique, Needed, Outstanding, Erasers, Transit, Locks;
    var s' := Step(s, t, a);
    var e := s.threads[t].e;
    Referenced(s, t, e);
    var q := if s.entries[e].refCount - 1 == 0 then RemErase(e) else RemUnlock(true);
    NoErasers(s, t, e);
    NoTransit(s, t, e);
    RecountsEach(s, s', t, q, e, -1, e);
    RecountsInv(s, s', t, q, e, -1);
  }

  // ----- The steps that add and remove an entry -----

  lemma OutsideLocal(s: State, pc: Pc)
    requires !Reading(pc) && !Writing(pc)
    ensures Local(s, pc)
  {}

  /** Where a writer changes the set of entries, nobody else is inside the lock. */
  lemma WriterLocals(s: State, s': State, t: ThreadId, q: Pc)
    requires Locks(s) && t in s.threads && Writing(s.threads[t]) && s'.threads == s.threads[t := q] && Local(s', q)
    ensures Locals(s')
  {
    hide Reading, Writing, Local, Locks;
    forall u | u in s'.threads
      ensures Local(s', s'.threads[u])
    {
      if u != t {
        WriterAlone(s, t, u);
        OutsideLocal(s', s.threads[u]);
      }
    }
  }

  ghost predicate Inserts(s: State, s': State, t: ThreadId, x: EntryId, k: Key) {
    && t in s.threads && s.threads[t] == AddInsert(k) && x !in s.entries
    && s' == s.(threads := s.threads[t := AddUnlock(x, k, true)], entries := s.entries[x := Entry(k, 1)])
  }

  lemma InsertsEach(s: State, s': State, t: ThreadId, x: EntryId, k: Key, e: EntryId)
    requires Inserts(s, s', t, x, k)
    ensures Outstanding(s', e) == Outstanding(s, e) + One(e == x)
    ensures |Transit(s'.threads, e)| == |Transit(s.threads, e)| <= |Holders(s.threads, e)|
    ensures Erasers(s'.threads, e) == Erasers(s.threads, e)
  {
    hide Holders, Transit;
    HoldersMoved(s.threads, t, AddUnlock(x, k, true), e);
    TransitMoved(s.threads, t, AddUnlock(x, k, true), e);
    TransitHolds(s.threads, e);
  }

  lemma TransitHolds(m: map<ThreadId, Pc>, e: EntryId)
    ensures |Transit(m, e)| <= |Holders(m, e)|
  {
    Subset(Transit(m, e), Holders(m, e));
  }

  lemma InsertsRefs(s: State, s': State, t: ThreadId, x: EntryId, k: Key)
    requires Counts(s) && Needed(s) && Inserts(s, s', t, x, k) && Erasers(s.threads, x) == {}
    ensures Counts(s') && Needed(s')
  {
    hide Transit, Erasers, Holders;
    forall e
      ensures Outstanding(s', e) == Outstanding(s, e) + One(e == x)
      ensures |Transit(s'.threads, e)| == |Transit(s.threads, e)| <= |Holders(s.threads, e)|
      ensures Erasers(s'.threads, e) == Erasers(s.threads, e)
    {
      InsertsEach(s, s', t, x, k, e);
    }
  }

  lemma AddInsertStep(s: State, t: ThreadId, a: Action)
    requires Inv(s) && t in s.threads && s.threads[t].AddInsert?
    ensures Inv(Step(s, t, a))
  {
    hide Counts, Needed, Locks, Outstanding, Erasers;
    var s' := Step(s, t, a);
    if s' != s {
      var k := s.threads[t].k;
      var q := AddUnlock(a.e, k, true);
      assert Local(s, s.threads[t]);
      NoErasers(s, t, a.e);
      InsertsRefs(s, s', t, a.e, k);
      WriterLocals(s, s', t, q);
      LocksKept(s, s', t, q);
    }
  }

  ghost predicate Erases(s: State, s': State, t: ThreadId, x: EntryId) {
    && t in s.threads && s.threads[t] == RemErase(x)
    && s' == s.(threads := s.threads[t := RemUnlock(true)], entries := s.entries - {x})
  }

  lemma ErasesEach(s: State, s': State, t: ThreadId, x: EntryId, e: EntryId)
    requires Erases(s, s', t, x)
    ensures Outstanding(s', e) == Outstanding(s, e)
    ensures |Transit(s'.threads, e)| == |Transit(s.threads, e)|
    ensures e != x ==> Erasers(s'.threads, e) == Erasers(s.threads, e)
  {
    hide Holders, Transit;
    HoldersMoved(s.threads, t, RemUnlock(true), e);
    TransitMoved(s.threads, t, RemUnlock(true), e);
  }

  lemma ErasesRefs(s: State, s': State, t: ThreadId, x: EntryId)
    requires Counts(s) && Needed(s) && Erases(s, s', t, x) && Outstanding(s, x) == 0
    ensures Counts(s') && Needed(s')
  {
    hide Transit, Erasers, Outstanding;
    forall e
      ensures Outstanding(s', e) == Outstanding(s, e)
      ensures |Transit(s'.threads, e)| == |Transit(s.threads, e)|
      ensures e != x ==> Erasers(s'.threads, e) == Erasers(s.threads, e)
    {
      ErasesEach(s, s', t, x, e);
    }
  }

  /** When an entry is about to be erased, nobody has a reference to it. */
  lemma EraserFree(s: State, t: ThreadId)
    requires Inv(s) && t in s.threads && s.threads[t].RemErase?
    ensures s.threads[t].e in s.entries && Outstanding(s, s.threads[t].e) == 0
  {
    hide Outstanding, Counts;
    assert Local(s, s.threads[t]);
    assert t in Erasers(s.threads, s.threads[t].e);
  }

  lemma RemEraseStep(s: State, t: ThreadId, a: Action)
    requires Inv(s) && t in s.threads && s.threads[t].RemErase?
    ensures Inv(Step(s, t, a))
  {
    hide Counts, Needed, Locks, Outstanding;
    var s' := Step(s, t, a);
    EraserFree(s, t);
    ErasesRefs(s, s', t, s.threads[t].e);
    WriterLocals(s, s', t, RemUnlock(true));
    LocksKept(s, s', t, RemUnlock(true));
  }

  // ----- Every step -----

  lemma CallStep(s: State, t: ThreadId, a: Action)
    requires Inv(s) && t in s.threads && s.threads[t].Idle?
    ensures Inv(Step(s, t, a))
  {
    hide Inv;
    var s' := Step(s, t, a);
    if s' != s {
      SameEntriesInv(s, s', t, s'.threads[t]);
    }
  }

  lemma AddLockStep(s: State, t: ThreadId, a: Action)
    requires Inv(s) && t in s.threads
    requires var p := s.threads[t]; p.AddReadLock? || p.AddFind? || p.AddUpgrade? || p.AddWriteLock? || p.AddFindAgain?
    ensures Inv(Step(s, t, a))
  {
    hide Inv, RemoveStep;
    var s' := Step(s, t, a);
    if s' != s {
      SameEntriesInv(s, s', t, s'.threads[t]);
    }
  }

  lemma AddUnlockStep(s: State, t: ThreadId, a: Action)
    requires Inv(s) && t in s.threads && s.threads[t].AddUnlock?
    ensures Inv(Step(s, t, a))
  {
    hide Inv, RemoveStep;
    SameEntriesInv(s, Step(s, t, a), t, Idle);
  }

  lemma RemLockStep(s: State, t: ThreadId, a: Action)
    requires Inv(s) && t in s.threads && (s.threads[t].RemReadLock? || s.threads[t].RemWriteLock?)
    ensures Inv(Step(s, t, a))
  {
    hide Inv, AddStep;
    var s' := Step(s, t, a);
    if s' != s {
      SameEntriesInv(s, s', t, s'.threads[t]);
    }
  }

  lemma RemUnlockStep(s: State, t: ThreadId, a: Action)
    requires Inv(s) && t in s.threads && (s.threads[t].RemUpgrade? || s.threads[t].RemUnlock?)
    ensures Inv(Step(s, t, a))
  {
    hide Inv, AddStep;
    var s' := Step(s, t, a);
    SameEntriesInv(s, s', t, s'.threads[t]);
  }

  /** The search of remove() finds the very entry that the reference is to. */
  lemma RemFindStep(s: State, t: ThreadId, a: Action)
    requires Inv(s) && t in s.threads && s.threads[t].RemFind?
    ensures Inv(Step(s, t, a))
    ensures Step(s, t, a) == s || Step(s, t, a) == Goto(s, t, RemDrop(s.threads[t].e))
    ensures s.threads[t].e in s.entries && Step(s, t, Go(s.threads[t].e)) == Goto(s, t, RemDrop(s.threads[t].e))
  {
    hide Counts, Locks, Needed, Locals, AddStep, Outstanding;
    var s' := Step(s, t, a);
    Referenced(s, t, s.threads[t].e);
    if s' != s {
      assert a.e == s.threads[t].e;
      SameEntriesInv(s, s', t, RemDrop(a.e));
    }
  }

  /** Every step of every thread keeps the invariant. */
  lemma StepInv(s: State, t: ThreadId, a: Action)
    requires Inv(s) && t in s.threads
    ensures Inv(Step(s, t, a))
  {
    hide Inv, Step;
    match s.threads[t]
    case Idle => CallStep(s, t, a);
    case AddReadLock(_) => AddLockStep(s, t, a);
    case AddFind(_) => AddLockStep(s, t, a);
    case AddUpgrade(_) => AddLockStep(s, t, a);
    case AddWriteLock(_) => AddLockStep(s, t, a);
    case AddFindAgain(_) => AddLockStep(s, t, a);
    case AddInsert(_) => AddInsertStep(s, t, a);
    case AddRef(_, _, _) => AddRefStep(s, t, a);
    case AddUnlock(_, _, _) => AddUnlockStep(s, t, a);
    case RemReadLock(_) => RemLockStep(s, t, a);
    case RemFind(_) => RemFindStep(s, t, a);
    case RemDrop(_) => RemDropStep(s, t, a);
    case RemAddBack(_) => RemAddBackStep(s, t, a);
    case RemUpgrade(_) => RemUnlockStep(s, t, a);
    case RemWriteLock(_) => RemLockStep(s, t, a);
    case RemDropAgain(_) => RemDropAgainStep(s, t, a);
    case RemErase(_) => RemEraseStep(s, t, a);
    case RemUnlock(_) => RemUnlockStep(s, t, a);
  }
}
