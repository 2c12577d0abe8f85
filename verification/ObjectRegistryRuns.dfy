/** What ObjectRegistry promises over whole runs. */
module ObjectRegistryRuns {
  import opened Counting
  import opened ObjectRegistry

  ghost predicate StepOf(s: State, s': State, t: ThreadId, a: Action) {
    t in s.threads && s' == Step(s, t, a)
  }

  ghost predicate Next(s: State, s': State) {
    exists t, a :: StepOf(s, s', t, a)
  }

  ghost predicate Run(r: seq<State>) {
    |r| > 0 && Init(r[0]) && forall i :: 0 <= i < |r| - 1 ==> Next(r[i], r[i + 1])
  }

  /** Every state of every run satisfies the invariant, so every reference that a client holds is to an entry. */
  lemma {:induction false} RunInv(r: seq<State>, i: nat)
    requires Run(r) && i < |r|
    ensures Inv(r[i]) && forall e :: e in r[i].held ==> e in r[i].entries
  {
    hide Init, Inv, Step;
    if i == 0 {
      InitInv(r[0]);
    } else {
      RunInv(r, i - 1);
      assert Next(r[i - 1], r[i]);
      var t, a :| StepOf(r[i - 1], r[i], t, a);
      StepInv(r[i - 1], t, a);
    }
    forall e | e in r[i].held
      ensures e in r[i].entries
    {
      HeldExists(r[i], e);
    }
  }

  lemma HeldExists(s: State, e: EntryId)
    requires Inv(s) && e in s.held
    ensures e in s.entries
  {
    ReferencesExist(s, e);
  }

  /** The references of clients, and of calls under way, are to entries that exist; no two entries are equivalent. */
  lemma ReferencesExist(s: State, e: EntryId)
    requires Inv(s)
    ensures Outstanding(s, e) > 0 ==> e in s.entries
    ensures e in s.entries ==> s.entries[e].refCount == Outstanding(s, e) - |Transit(s.threads, e)| >= 0
    ensures forall f :: e in s.entries && f in s.entries && s.entries[f].key == s.entries[e].key ==> f == e
  {
    hide Locks, Needed, Locals, Outstanding, Transit;
    if e in s.entries {
      OutstandingAbove(s, e);
    }
  }

  lemma OutstandingAbove(s: State, e: EntryId)
    ensures Outstanding(s, e) >= |Transit(s.threads, e)|
  {
    TransitHolds(s.threads, e);
  }

  /** Only an entry without any reference, of a client or of a call under way, is ever destroyed. */
  lemma DestroysUnreferenced(s: State, t: ThreadId, a: Action, e: EntryId)
    requires Inv(s) && t in s.threads && e in s.entries && e !in Step(s, t, a).entries
    ensures s.threads[t] == RemErase(e) && Outstanding(s, e) == 0
  {
    hide Inv, Outstanding;
    if s.threads[t].RemErase? {
      EraserFree(s, t);
    }
  }

  /** The entry, if any, that the next step of thread t reads, counts or erases. */
  function Touches(pc: Pc): Pointer {
    match pc
    case AddRef(e, _, _) => To(e)
    case AddUnlock(e, _, _) => To(e)
    case RemFind(e) => To(e)
    case RemDrop(e) => To(e)
    case RemAddBack(e) => To(e)
    case RemDropAgain(e) => To(e)
    case RemErase(e) => To(e)
    case _ => Nil
  }

  /** No step touches a destroyed entry, and no decrement finds the count at zero. */
  lemma NoUseAfterDestroy(s: State, t: ThreadId)
    requires Inv(s) && t in s.threads && Touches(s.threads[t]).To?
    ensures Touches(s.threads[t]).e in s.entries
    ensures s.threads[t].RemDrop? || s.threads[t].RemDropAgain? ==> s.entries[s.threads[t].e].refCount >= 1
  {
    hide Locks, Needed;
    assert Local(s, s.threads[t]);
    if RefOf(s.threads[t]).To? {
      Referenced(s, t, RefOf(s.threads[t]).e);
    }
  }

  /** What add() returns is equivalent to what it was given. */
  lemma AddReturnsEquivalent(s: State, t: ThreadId)
    requires Inv(s) && t in s.threads && s.threads[t].AddUnlock?
    ensures s.threads[t].e in s.entries && s.entries[s.threads[t].e].key == s.threads[t].k
  {
    assert Local(s, s.threads[t]);
  }

  /**
   * With no call under way, the entries are exactly those that clients hold references to, so the entry of a dropped
   * last reference is gone, and every count is exact.
   */
  lemma IdleEntries(s: State, e: EntryId)
    requires Inv(s) && forall t :: t in s.threads ==> s.threads[t] == Idle
    ensures e in s.entries <==> e in s.held
    ensures e in s.entries ==> s.entries[e].refCount == s.held[e]
  {
    hide Locks, Locals;
    assert Holders(s.threads, e) == {} && Transit(s.threads, e) == {} && Erasers(s.threads, e) == {};
  }

  // ----- Freedom from deadlock -----

  predicate Waiting(pc: Pc) {
    pc.AddReadLock? || pc.AddWriteLock? || pc.RemReadLock? || pc.RemWriteLock?
  }

  /** How many effective steps a call has before it, at most. */
  function Weight(pc: Pc): nat {
    match pc
    case Idle => 0
    case AddReadLock(_) => 8
    case AddFind(_) => 7
    case AddUpgrade(_) => 6
    case AddWriteLock(_) => 5
    case AddFindAgain(_) => 4
    case AddInsert(_) => 3
    case AddRef(_, _, _) => 2
    case AddUnlock(_, _, _) => 1
    case RemReadLock(_) => 9
    case RemFind(_) => 8
    case RemDrop(_) => 7
    case RemAddBack(_) => 6
    case RemUpgrade(_) => 5
    case RemWriteLock(_) => 4
    case RemDropAgain(_) => 3
    case RemErase(_) => 2
    case RemUnlock(_) => 1
  }

  ghost function Work(m: map<ThreadId, Pc>): nat {
    Total(m, Weight)
  }

  predicate Calls(a: Action) {
    a.CallAdd? || a.CallRemove?
  }

  /** A step that changes the state, other than a new call, brings its call strictly closer to its return. */
  lemma StepWork(s: State, t: ThreadId, a: Action)
    requires t in s.threads && !Calls(a)
    ensures Step(s, t, a) == s || Work(Step(s, t, a).threads) < Work(s.threads)
  {
    hide Step, Weight;
    var s' := Step(s, t, a);
    if Adding(s.threads[t]) {
      AddingLighter(s, t, a);
    } else {
      RemovingLighter(s, t, a);
    }
    if s' != s {
      TotalMoved(s.threads, t, s'.threads[t], Weight);
    }
  }

  ghost predicate Lighter(s: State, s': State, t: ThreadId) {
    && t in s.threads && t in s'.threads
    && s'.threads == s.threads[t := s'.threads[t]] && Weight(s'.threads[t]) < Weight(s.threads[t])
  }

  lemma AddingLighter(s: State, t: ThreadId, a: Action)
    requires t in s.threads && Adding(s.threads[t])
    ensures Step(s, t, a) == s || Lighter(s, Step(s, t, a), t)
  {
    hide RemoveStep, Present;
  }

  lemma RemovingLighter(s: State, t: ThreadId, a: Action)
    requires t in s.threads && !Adding(s.threads[t]) && !Calls(a)
    ensures Step(s, t, a) == s || Lighter(s, Step(s, t, a), t)
  {
    hide AddStep;
  }

  /** Whenever a call is under way, some thread can take a step that brings its call closer to its return. */
  lemma NoDeadlock(s: State, u: ThreadId) returns (t: ThreadId, a: Action)
    requires Inv(s) && u in s.threads && !s.threads[u].Idle?
    ensures t in s.threads && !Calls(a) && Work(Step(s, t, a).threads) < Work(s.threads)
  {
    hide Step, Work;
    t := u;
    if s.writer.Held? {
      t := s.writer.t;
      WritingWorks(s.threads[t]);
    } else if s.readers != {} {
      t :| t in s.readers;
      WritingWorks(s.threads[t]);
    }
    a := Effective(s, t);
    StepWork(s, t, a);
  }

  /** One step after another, without new calls. */
  ghost predicate GoRun(r: seq<State>) {
    |r| > 0 && forall i :: 0 <= i < |r| - 1 ==> GoStep(r[i], r[i + 1])
  }

  ghost predicate GoStep(s: State, s': State) {
    exists t, a :: !Calls(a) && StepOf(s, s', t, a)
  }

  /** No call is under way, and the entries are exactly those that clients hold references to, with exact counts. */
  ghost predicate Settled(s: State) {
    && (forall t :: t in s.threads ==> s.threads[t] == Idle)
    && (forall e :: e in s.entries <==> e in s.held)
    && (forall e :: e in s.entries ==> s.entries[e].refCount == s.held[e])
  }

  /**
   * From every reachable state the calls under way can all be brought to return, without new calls; and then every
   * entry whose last reference was dropped is gone.
   */
  lemma {:induction false} Drain(s: State) returns (r: seq<State>)
    requires Inv(s)
    ensures GoRun(r) && r[0] == s && Settled(r[|r| - 1])
    decreases Work(s.threads)
  {
    hide Inv, Work, Step;
    if u :| u in s.threads && s.threads[u] != Idle {
      var t, a := NoDeadlock(s, u);
      var s' := Step(s, t, a);
      StepInv(s, t, a);
      var rest := Drain(s');
      r := [s] + rest;
      assert StepOf(s, s', t, a) && GoStep(s, s');
      assert forall i :: 1 <= i < |r| - 1 ==> r[i] == rest[i - 1] && r[i + 1] == rest[i];
    } else {
      r := [s];
      forall e
        ensures e in s.entries <==> e in s.held
        ensures e in s.entries ==> s.entries[e].refCount == s.held[e]
      {
        IdleEntries(s, e);
      }
    }
  }

  lemma WritingWorks(pc: Pc)
    requires Reading(pc) || Writing(pc)
    ensures !Waiting(pc) && !pc.Idle?
  {}

  lemma Effective(s: State, t: ThreadId) returns (a: Action)
    requires Inv(s) && t in s.threads && !s.threads[t].Idle?
    requires Waiting(s.threads[t]) ==> s.writer == Nobody && s.readers == {}
    ensures a.Go? && t in Step(s, t, a).threads && Step(s, t, a).threads[t] != s.threads[t]
  {
    var p := s.threads[t];
    var e := NewId(s.entries);
    if Touches(p).To? {
      NoUseAfterDestroy(s, t);
      e := Touches(p).e;
    } else if (p.AddFind? || p.AddFindAgain?) && Present(s, p.k) {
      e :| e in s.entries && s.entries[e].key == p.k;
    }
    a := Go(e);
    Moves(s, t, e);
  }

  lemma Moves(s: State, t: ThreadId, e: EntryId)
    requires t in s.threads && !s.threads[t].Idle?
    requires var p := s.threads[t];
      && (Waiting(p) ==> s.writer == Nobody && s.readers == {})
      && (Touches(p).To? ==> Touches(p) == To(e) && e in s.entries)
      && ((p.AddFind? || p.AddFindAgain?) && Present(s, p.k) ==> e in s.entries && s.entries[e].key == p.k)
      && (p.AddInsert? ==> e !in s.entries)
    ensures t in Step(s, t, Go(e)).threads && Step(s, t, Go(e)).threads[t] != s.threads[t]
  {}

  lemma NewId(m: map<EntryId, Entry>) returns (e: EntryId)
    ensures e !in m
  {
    e := Above(m.Keys);
  }

  lemma {:induction false} Above(ids: set<EntryId>) returns (e: EntryId)
    ensures forall i: EntryId :: i in ids ==> i < e
  {
    if ids == {} {
      e := 0;
    } else {
      var i :| i in ids;
      var f := Above(ids - {i});
      e := if i < f then f else i + 1;
      assert forall j :: j in ids ==> j == i || j in ids - {i};
    }
  }
}
