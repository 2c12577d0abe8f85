/**
 * What each call of ObjectRegistry does, over whole runs: add() adds exactly one reference, to an entry equivalent to
 * the caller's object, and remove() drops exactly the one that it was given.
 */
module ObjectRegistryHistory {
  import opened Counting
  import opened ObjectRegistry
  import opened ObjectRegistryRuns

  // ----- Runs with their moves -----

  datatype Move = Move(t: ThreadId, a: Action)

  /** A run with the moves between its states. */
  datatype Log = Log(states: seq<State>, moves: seq<Move>)

  ghost predicate IsLog(r: Log) {
    && |r.states| == |r.moves| + 1 && Init(r.states[0])
    && forall i :: 0 <= i < |r.moves| ==> StepOf(r.states[i], r.states[i + 1], r.moves[i].t, r.moves[i].a)
  }

  lemma LogInv(r: Log, i: nat)
    requires IsLog(r) && i < |r.states|
    ensures Inv(r.states[i])
  {
    hide Init, Inv, Step;
    forall k | 0 <= k < |r.moves|
      ensures Next(r.states[k], r.states[k + 1])
    {
      assert StepOf(r.states[k], r.states[k + 1], r.moves[k].t, r.moves[k].a);
    }
    RunInv(r.states, i);
  }

  // ----- What a step does to the references -----

  /** The references to e become d more, and all others stay as they are. */
  ghost predicate Refers(s: State, s': State, e: EntryId, d: int) {
    forall f :: Outstanding(s', f) == Outstanding(s, f) + if f == e then d else 0
  }

  ghost predicate SameRefs(s: State, s': State) {
    forall f :: Outstanding(s', f) == Outstanding(s, f)
  }

  /** References are held by clients, and by the calls themselves. */
  lemma OutstandingMoved(s: State, s': State, t: ThreadId, q: Pc, e: EntryId)
    requires t in s.threads && s'.threads == s.threads[t := q]
    ensures Outstanding(s', e) == Outstanding(s, e) + s'.held[e] - s.held[e]
                                  + One(RefOf(q) == To(e)) - One(RefOf(s.threads[t]) == To(e))
  {
    hide Holders, RefOf;
    HoldersMoved(s.threads, t, q, e);
  }

  // ----- What a call has done so far -----

  datatype Stage =
    | NoCall
    | WillAdd(k: Key)
    | DidAdd(e: EntryId, k: Key)
    | WillRemove(e: EntryId)
    | DidRemove(e: EntryId)

  /** Where a call stands; a remover that has dropped its reference does not tell which it was, so e0 does. */
  function StageOf(pc: Pc, e0: EntryId): Stage {
    match pc
    case Idle => NoCall
    case AddReadLock(k) => WillAdd(k)
    case AddFind(k) => WillAdd(k)
    case AddUpgrade(k) => WillAdd(k)
    case AddWriteLock(k) => WillAdd(k)
    case AddFindAgain(k) => WillAdd(k)
    case AddInsert(k) => WillAdd(k)
    case AddRef(_, k, _) => WillAdd(k)
    case AddUnlock(e, k, _) => DidAdd(e, k)
    case RemReadLock(e) => WillRemove(e)
    case RemFind(e) => WillRemove(e)
    case RemDrop(e) => WillRemove(e)
    case RemAddBack(e) => WillRemove(e)
    case RemUpgrade(e) => WillRemove(e)
    case RemWriteLock(e) => WillRemove(e)
    case RemDropAgain(e) => WillRemove(e)
    case RemErase(e) => DidRemove(e)
    case RemUnlock(_) => DidRemove(e0)
  }

  ghost function StageIn(s: State, t: ThreadId, e0: EntryId): Stage
    requires t in s.threads
  {
    StageOf(s.threads[t], e0)
  }

  /** A step in which a call adds its reference, or drops it. */
  ghost predicate ChangesRef(s: State, s': State, g: Stage, g': Stage) {
    || (g.WillAdd? && g'.DidAdd? && g'.k == g.k && Refers(s, s', g'.e, 1))
    || (g.WillRemove? && g' == DidRemove(g.e) && Refers(s, s', g.e, -1))
  }

  /** What one step of a call does, if the call does not return with it. */
  ghost predicate Proceeds(s: State, s': State, t: ThreadId, e0: EntryId) {
    && t in s.threads && t in s'.threads && s'.held == s.held
    && var g, g' := StageIn(s, t, e0), StageIn(s', t, e0);
      if g' == g then SameRefs(s, s') else ChangesRef(s, s', g, g')
  }

  /** How a step moves its thread and the references that the thread holds. */
  lemma AddingStage(s: State, t: ThreadId, a: Action, e0: EntryId)
    requires t in s.threads && Adding(s.threads[t]) && !s.threads[t].AddUnlock?
    ensures var s', p := Step(s, t, a), s.threads[t];
      && t in s'.threads && s'.threads == s.threads[t := s'.threads[t]] && s'.held == s.held && s'.threads[t] != Idle
      && var q := s'.threads[t];
        if StageOf(q, e0) == StageOf(p, e0) then RefOf(q) == RefOf(p)
        else RefOf(p) == Nil && StageOf(q, e0) == DidAdd(RefOf(q).e, StageOf(p, e0).k) && RefOf(q).To?
  {
    hide RemoveStep, Present;
  }

  lemma RemovingStage(s: State, t: ThreadId, a: Action, e0: EntryId)
    requires Inv(s) && t in s.threads && !Adding(s.threads[t]) && s.threads[t] != Idle && !s.threads[t].RemUnlock?
    requires StageIn(s, t, e0) == WillRemove(e0) || StageIn(s, t, e0) == DidRemove(e0)
    ensures var s', p := Step(s, t, a), s.threads[t];
      && t in s'.threads && s'.threads == s.threads[t := s'.threads[t]] && s'.held == s.held && s'.threads[t] != Idle
      && var q := s'.threads[t];
        if StageOf(q, e0) == StageOf(p, e0) then RefOf(q) == RefOf(p)
        else
          && StageOf(p, e0) == WillRemove(e0) && RefOf(p) == To(e0)
          && StageOf(q, e0) == DidRemove(e0) && RefOf(q) == Nil
  {
    hide AddStep, Inv;
    if s.threads[t].RemFind? {
      RemFindStep(s, t, a);
    }
  }

  lemma StepProceeds(s: State, t: ThreadId, a: Action, e0: EntryId)
    requires Inv(s) && t in s.threads && s.threads[t] != Idle && !s.threads[t].AddUnlock? && !s.threads[t].RemUnlock?
    requires StageIn(s, t, e0).WillRemove? || StageIn(s, t, e0).DidRemove? ==> StageIn(s, t, e0).e == e0
    ensures Proceeds(s, Step(s, t, a), t, e0) && Step(s, t, a).threads[t] != Idle
  {
    hide Inv, Step, Outstanding, RefOf, Adding;
    var s' := Step(s, t, a);
    Kinds(s.threads[t], e0);
    if Adding(s.threads[t]) {
      AddingStage(s, t, a, e0);
    } else {
      RemovingStage(s, t, a, e0);
    }
    forall f
      ensures Outstanding(s', f) == Outstanding(s, f)
                                    + One(RefOf(s'.threads[t]) == To(f)) - One(RefOf(s.threads[t]) == To(f))
    {
      OutstandingMoved(s, s', t, s'.threads[t], f);
    }
  }

  lemma Kinds(pc: Pc, e0: EntryId)
    ensures Adding(pc) <==> StageOf(pc, e0).WillAdd? || StageOf(pc, e0).DidAdd?
    ensures pc == Idle <==> StageOf(pc, e0) == NoCall
  {}

  // ----- Calls -----

  /** A thread that is idle can call; it gives back a reference only if some client holds one. */
  lemma CallAccepted(s: State, t: ThreadId, k: Key, e: EntryId)
    requires t in s.threads && s.threads[t] == Idle
    ensures Step(s, t, CallAdd(k)) == Goto(s, t, AddReadLock(k))
    ensures e in s.held ==>
      Step(s, t, CallRemove(e)) == Goto(s, t, RemReadLock(e)).(held := s.held - multiset{e})
  {}

  /** Thread t calls in move c, and is still in that call in state k. */
  ghost predicate InCall(r: Log, t: ThreadId, c: nat, k: nat) {
    && c < k < |r.states| == |r.moves| + 1 && r.moves[c].t == t
    && (forall i :: c <= i <= k ==> t in r.states[i].threads)
    && r.states[c].threads[t] == Idle && forall i :: c < i <= k ==> r.states[i].threads[t] != Idle
  }

  /** The call returns in move d. */
  ghost predicate Returns(r: Log, t: ThreadId, c: nat, d: nat) {
    && InCall(r, t, c, d) && d < |r.moves| && r.moves[d].t == t
    && t in r.states[d + 1].threads && r.states[d + 1].threads[t] == Idle
  }

  /** From move c up to move k, thread t changes no references, except perhaps in move p. */
  ghost predicate OnlyRef(r: Log, t: ThreadId, c: nat, k: nat, p: int)
    requires k <= |r.moves| < |r.states|
  {
    forall q :: c <= q < k && q != p && r.moves[q].t == t ==> SameRefs(r.states[q], r.states[q + 1])
  }

  /** From move c up to move k, thread t changes nothing in what clients hold. */
  ghost predicate HeldKept(r: Log, t: ThreadId, c: nat, k: nat)
    requires k <= |r.moves| < |r.states|
  {
    forall q :: c <= q < k && r.moves[q].t == t ==> r.states[q + 1].held == r.states[q].held
  }

  /** The entry that a call of remove() is given. */
  function Given(a: Action): EntryId {
    if a.CallRemove? then a.e else 0
  }

  /** What the call has done up to state k: nothing yet, or one addition or removal, in move p. */
  ghost predicate SoFar(r: Log, t: ThreadId, c: nat, k: nat, p: int)
    requires InCall(r, t, c, k)
  {
    && InCall(r, t, c, c + 1) && HeldKept(r, t, c + 1, k)
    && var e0 := Given(r.moves[c].a);
      var g0, g := StageIn(r.states[c + 1], t, e0), StageIn(r.states[k], t, e0);
      && (g0.WillAdd? || g0 == WillRemove(e0))
      && if g == g0 then OnlyRef(r, t, c, k, -1)
         else
           && c < p < k && r.moves[p].t == t
           && ChangesRef(r.states[p], r.states[p + 1], g0, g) && OnlyRef(r, t, c, k, p)
  }

  lemma CallBegins(r: Log, t: ThreadId, c: nat)
    requires IsLog(r) && InCall(r, t, c, c + 1)
    ensures SameRefs(r.states[c], r.states[c + 1])
    ensures match r.moves[c].a
            case CallAdd(k) => r.states[c + 1].threads[t] == AddReadLock(k) && r.states[c + 1].held == r.states[c].held
            case CallRemove(e) => e in r.states[c].held && r.states[c + 1].threads[t] == RemReadLock(e)
                                  && r.states[c + 1].held == r.states[c].held - multiset{e}
            case Go(_) => false
  {
    hide Init, Outstanding;
    var s, s', a := r.states[c], r.states[c + 1], r.moves[c].a;
    assert StepOf(s, s', t, a);
    forall f
      ensures Outstanding(s', f) == Outstanding(s, f)
    {
      OutstandingMoved(s, s', t, s'.threads[t], f);
    }
  }

  /** A step of another thread leaves the place of thread t. */
  lemma OthersKeep(s: State, s': State, t: ThreadId, a: Action, u: ThreadId)
    requires StepOf(s, s', t, a) && u in s.threads && u != t
    ensures u in s'.threads && s'.threads[u] == s.threads[u]
  {
    if Adding(s.threads[t]) {
      AddingFrame(s, t, a, u);
    }
  }

  lemma AddingFrame(s: State, t: ThreadId, a: Action, u: ThreadId)
    requires t in s.threads && u in s.threads && u != t && Adding(s.threads[t])
    ensures u in Step(s, t, a).threads && Step(s, t, a).threads[u] == s.threads[u]
  {
    hide RemoveStep, Present;
  }

  lemma NotUnlocked(s: State, s': State, t: ThreadId, a: Action)
    requires StepOf(s, s', t, a) && t in s'.threads && s'.threads[t] != Idle
    ensures !s.threads[t].AddUnlock? && !s.threads[t].RemUnlock?
  {}

  lemma MoveProceeds(r: Log, t: ThreadId, i: nat, e0: EntryId)
    requires IsLog(r) && i < |r.moves| && t in r.states[i].threads && t in r.states[i + 1].threads
    requires r.states[i].threads[t] != Idle && r.states[i + 1].threads[t] != Idle
    requires var g := StageIn(r.states[i], t, e0); g.WillRemove? || g.DidRemove? ==> g.e == e0
    ensures var s, s' := r.states[i], r.states[i + 1];
      if r.moves[i].t == t then Proceeds(s, s', t, e0) else s'.threads[t] == s.threads[t]
  {
    hide Init, Inv, Step, Proceeds;
    var m := r.moves[i];
    assert StepOf(r.states[i], r.states[i + 1], m.t, m.a);
    if m.t != t {
      OthersKeep(r.states[i], r.states[i + 1], m.t, m.a, t);
    } else {
      LogInv(r, i);
      NotUnlocked(r.states[i], r.states[i + 1], t, m.a);
      StepProceeds(r.states[i], t, m.a, e0);
    }
  }

  lemma OnlyLonger(r: Log, t: ThreadId, c: nat, k: nat, p: int)
    requires 0 < k <= |r.moves| < |r.states| && OnlyRef(r, t, c, k - 1, p)
    requires r.moves[k - 1].t == t ==> SameRefs(r.states[k - 1], r.states[k])
    ensures OnlyRef(r, t, c, k, p)
  {}

  lemma OnlyNow(r: Log, t: ThreadId, c: nat, k: nat)
    requires 0 < k <= |r.moves| < |r.states| && OnlyRef(r, t, c, k - 1, -1)
    ensures OnlyRef(r, t, c, k, k - 1)
  {}

  lemma HeldLonger(r: Log, t: ThreadId, c: nat, k: nat)
    requires 0 < k <= |r.moves| < |r.states| && HeldKept(r, t, c, k - 1)
    requires r.moves[k - 1].t == t ==> r.states[k].held == r.states[k - 1].held
    ensures HeldKept(r, t, c, k)
  {}

  lemma FirstMove(r: Log, t: ThreadId, c: nat)
    requires c < |r.moves| < |r.states| && SameRefs(r.states[c], r.states[c + 1])
    ensures OnlyRef(r, t, c, c + 1, -1) && HeldKept(r, t, c + 1, c + 1)
  {}

  lemma FirstStage(pc: Pc, e0: EntryId)
    ensures pc.AddReadLock? ==> StageOf(pc, e0) == WillAdd(pc.k)
    ensures pc.RemReadLock? ==> StageOf(pc, e0) == WillRemove(pc.e)
  {}

  lemma ChangeEnds(s: State, s': State, g: Stage, g': Stage)
    requires ChangesRef(s, s', g, g')
    ensures (g.WillAdd? && g'.DidAdd?) || (g.WillRemove? && g' == DidRemove(g.e))
  {}

  lemma {:induction false} CallSoFar(r: Log, t: ThreadId, c: nat, k: nat) returns (p: int)
    requires IsLog(r) && InCall(r, t, c, k)
    ensures SoFar(r, t, c, k, p)
    decreases k
  {
    hide IsLog, SameRefs, ChangesRef, OnlyRef, HeldKept, StageOf;
    if k == c + 1 {
      p := -1;
      CallBegins(r, t, c);
      FirstMove(r, t, c);
      FirstStage(r.states[k].threads[t], Given(r.moves[c].a));
    } else {
      p := CallSoFar(r, t, c, k - 1);
      var e0 := Given(r.moves[c].a);
      var s, s' := r.states[k - 1], r.states[k];
      var g0, g, g' := StageIn(r.states[c + 1], t, e0), StageIn(s, t, e0), StageIn(s', t, e0);
      if g != g0 {
        ChangeEnds(r.states[p], r.states[p + 1], g0, g);
      }
      MoveProceeds(r, t, k - 1, e0);
      HeldLonger(r, t, c + 1, k);
      if g' != g {
        ChangeEnds(s, s', g, g');
        p := k - 1;
        OnlyNow(r, t, c, k);
      } else {
        OnlyLonger(r, t, c, k, if g == g0 then -1 else p);
      }
    }
  }

  /**
   * Every call of add() that returns has added exactly one reference, strictly between its call and its return, and to
   * an entry that exists when it returns and is equivalent to the caller's object; the caller is given this reference.
   */
  lemma AddDone(r: Log, t: ThreadId, c: nat, d: nat) returns (p: int, e: EntryId)
    requires IsLog(r) && Returns(r, t, c, d) && r.moves[c].a.CallAdd?
    ensures c < p < d && r.moves[p].t == t && Refers(r.states[p], r.states[p + 1], e, 1) && OnlyRef(r, t, c, d + 1, p)
    ensures e in r.states[d + 1].entries && r.states[d + 1].entries[e].key == r.moves[c].a.k
    ensures HeldKept(r, t, c, d) && r.states[d + 1].held == r.states[d].held + multiset{e}
  {
    hide IsLog, SameRefs, OnlyRef, HeldKept, Refers;
    p := CallSoFar(r, t, c, d);
    CallBegins(r, t, c);
    CallEnds(r, t, d);
    var e0 := Given(r.moves[c].a);
    ChangeEnds(r.states[p], r.states[p + 1], StageIn(r.states[c + 1], t, e0), StageIn(r.states[d], t, e0));
    e := r.states[d].threads[t].e;
    OnlyLonger(r, t, c, d + 1, p);
    HeldEarlier(r, t, c, d);
  }

  lemma HeldEarlier(r: Log, t: ThreadId, c: nat, k: nat)
    requires c < k <= |r.moves| < |r.states| && HeldKept(r, t, c + 1, k) && r.states[c + 1].held == r.states[c].held
    ensures HeldKept(r, t, c, k)
  {}

  /**
   * Every call of remove() was given a reference that a client held, and by its return has dropped exactly this one,
   * strictly between its call and its return; nothing else that clients hold has changed.
   */
  lemma RemoveDone(r: Log, t: ThreadId, c: nat, d: nat) returns (p: int)
    requires IsLog(r) && Returns(r, t, c, d) && r.moves[c].a.CallRemove?
    ensures var e := r.moves[c].a.e;
      && e in r.states[c].held && r.states[c + 1].held == r.states[c].held - multiset{e} && HeldKept(r, t, c + 1, d + 1)
      && c < p < d && r.moves[p].t == t && Refers(r.states[p], r.states[p + 1], e, -1) && OnlyRef(r, t, c, d + 1, p)
  {
    hide IsLog, SameRefs, OnlyRef, HeldKept, Refers;
    p := CallSoFar(r, t, c, d);
    CallBegins(r, t, c);
    CallEnds(r, t, d);
    OnlyLonger(r, t, c, d + 1, p);
    HeldLonger(r, t, c + 1, d + 1);
  }

  /** How a call returns. */
  lemma CallEnds(r: Log, t: ThreadId, d: nat)
    requires IsLog(r) && d < |r.moves| && r.moves[d].t == t && t in r.states[d].threads && t in r.states[d + 1].threads
    requires r.states[d].threads[t] != Idle && r.states[d + 1].threads[t] == Idle
    ensures SameRefs(r.states[d], r.states[d + 1])
    ensures match r.states[d].threads[t]
            case AddUnlock(e, k, _) =>
              && e in r.states[d + 1].entries && r.states[d + 1].entries[e].key == k
              && r.states[d + 1].held == r.states[d].held + multiset{e}
            case RemUnlock(_) => r.states[d + 1].held == r.states[d].held
            case _ => false
  {
    hide Init, Inv, Outstanding;
    var s, s', a := r.states[d], r.states[d + 1], r.moves[d].a;
    assert StepOf(s, s', t, a);
    LogInv(r, d);
    Unlocks(s, s', t, a);
    if s.threads[t].AddUnlock? {
      AddReturnsEquivalent(s, t);
    }
    forall f
      ensures Outstanding(s', f) == Outstanding(s, f)
    {
      OutstandingMoved(s, s', t, Idle, f);
    }
  }

  lemma Unlocks(s: State, s': State, t: ThreadId, a: Action)
    requires StepOf(s, s', t, a) && s.threads[t] != Idle && t in s'.threads && s'.threads[t] == Idle
    ensures s.threads[t].AddUnlock? || s.threads[t].RemUnlock?
    ensures s'.threads == s.threads[t := Idle] && s'.entries == s.entries
    ensures s'.held == if s.threads[t].AddUnlock? then s.held + multiset{s.threads[t].e} else s.held
  {}
}
