/** Progress and order of the queue. */
module CookieQueue {
  // Who is let through next, and who is never passed. The lemmas hold in every run; only that
  // the head itself is never kept waiting depends on arrivals, and exactly on which.

  import opened Wrappers
  import opened CookieAdmission
  import opened CookieAdmissionRuns

  // ---------------------------------------------------------------------
  // Progress
  // ---------------------------------------------------------------------

  /** The execution has been let through and has neither released nor run out of time. */
  predicate HoldsAdmission(s: State, id: ExecutionId) {
    LiveReader(s.handles, s.now, id) || (s.t.owner == Some(id) && LeaseLive(s.t, s.now))
  }

  /** The next poll of a waiting execution lets it through. */
  predicate PollSucceeds(s: State, id: ExecutionId) {
    && Enabled(s, Poll(id))
    && HoldsAdmission(Next(s, Poll(id)), id)
  }

  lemma {:induction false} HeadExists(waiters: map<ExecutionId, Waiter>) returns (head: ExecutionId)
    requires waiters != map[]
    ensures IsHead(waiters, head)
    decreases |waiters|
  {
    var any :| any in waiters;
    var rest := waiters - {any};
    if rest == map[] {
      head := any;
      assert forall id :: id in waiters ==> id == any || id in rest;
    } else {
      head := HeadExists(rest);
      assert forall id :: id in waiters ==> id == any || id in rest;
      if RowBefore(waiters, any, head) {
        head := any;
      }
    }
  }

  /** While no lease is live, the head of the queue holds an admission or its next poll succeeds. */
  lemma FreeHeadProgresses(s: State, head: ExecutionId)
    requires RowsAgree(s) && IsHead(Clean(s.t, s.now).waiters, head) && !LeaseLive(s.t, s.now)
    ensures HoldsAdmission(s, head) || PollSucceeds(s, head)
  {
    CleanKeepsRows(s);
    assert RowMatches(s.(t := Clean(s.t, s.now)), head);
  }

  /**
   There is no deadlock in any run: if rows remain after cleaning, someone holds a live
   lease, or the head of the queue holds an admission or is let through by its next poll.
   */
  lemma NoDeadlock(s: State, actions: seq<Action>) returns (head: ExecutionId)
    requires Initial(s) && Runs(s, actions)
    requires Clean(After(s, actions).t, After(s, actions).now).waiters != map[]
    ensures var end := After(s, actions);
            && IsHead(Clean(end.t, end.now).waiters, head)
            && (LeaseLive(end.t, end.now) || HoldsAdmission(end, head) || PollSucceeds(end, head))
  {
    RunKeepsRows(s, actions);
    var end := After(s, actions);
    head := HeadExists(Clean(end.t, end.now).waiters);
    if !LeaseLive(end.t, end.now) {
      FreeHeadProgresses(end, head);
    }
  }

  // ---------------------------------------------------------------------
  // When the head itself is never kept waiting
  // ---------------------------------------------------------------------

  /** Nobody still in force sorts before the stored owner of the lease. */
  ghost predicate OwnerFirst(s: State) {
    s.t.owner.Some? ==>
      s.t.owner.value in s.t.waiters
      && forall id :: id in s.t.waiters && id != s.t.owner.value && s.now < s.t.waiters[id].expiresAt ==>
           RowBefore(s.t.waiters, s.t.owner.value, id)
  }

  /** An arrival before its deadline sorts behind the holder of a live lease. */
  ghost predicate QueuesBehindOwner(s: State, a: Action) {
    a.Enqueue? && s.now < a.deadline && LeaseLive(s.t, s.now) && s.t.owner.value in s.t.waiters ==>
      KeyBefore(s.t.waiters[s.t.owner.value].enqueuedAt, s.t.owner.value, s.now, a.id)
  }

  ghost predicate OwnerFirstRun(s: State, actions: seq<Action>)
    requires Runs(s, actions)
    decreases |actions|
  {
    actions == [] || (QueuesBehindOwner(s, actions[0]) && OwnerFirstRun(Next(s, actions[0]), actions[1..]))
  }

  lemma EnqueueKeepsOwnerFirst(s: State, a: Action)
    requires RowsAgree(s) && OwnerFirst(s) && a.Enqueue? && Enabled(s, a) && QueuesBehindOwner(s, a)
    ensures OwnerFirst(Next(s, a))
  {
  }

  lemma PollKeepsOwnerFirst(s: State, a: Action)
    requires RowsAgree(s) && OwnerFirst(s) && a.Poll? && Enabled(s, a)
    ensures OwnerFirst(Next(s, a))
  {
  }

  lemma OtherStepKeepsOwnerFirst(s: State, a: Action)
    requires RowsAgree(s) && OwnerFirst(s) && !a.Enqueue? && !a.Poll? && Enabled(s, a)
    ensures OwnerFirst(Next(s, a))
  {
  }

  lemma StepKeepsOwnerFirst(s: State, a: Action)
    requires RowsAgree(s) && OwnerFirst(s) && Enabled(s, a) && QueuesBehindOwner(s, a)
    ensures OwnerFirst(Next(s, a))
  {
    match a
    case Enqueue(_, _, _) => EnqueueKeepsOwnerFirst(s, a);
    case Poll(_) => PollKeepsOwnerFirst(s, a);
    case _ => OtherStepKeepsOwnerFirst(s, a);
  }

  lemma {:induction false} RunKeepsOwnerFirst(s: State, actions: seq<Action>)
    requires RowsAgree(s) && OwnerFirst(s) && Runs(s, actions) && OwnerFirstRun(s, actions)
    ensures RowsAgree(After(s, actions)) && OwnerFirst(After(s, actions))
    decreases |actions|
  {
    if actions != [] {
      StepKeepsRows(s, actions[0]);
      StepKeepsOwnerFirst(s, actions[0]);
      RunKeepsOwnerFirst(Next(s, actions[0]), actions[1..]);
    }
  }

  /** The head of the queue, if there is one, holds an admission or is let through by its next poll. */
  ghost predicate HeadProgresses(s: State) {
    forall head :: IsHead(Clean(s.t, s.now).waiters, head) ==> HoldsAdmission(s, head) || PollSucceeds(s, head)
  }

  lemma OwnerFirstProgresses(s: State)
    requires RowsAgree(s) && OwnerFirst(s)
    ensures HeadProgresses(s)
  {
    forall head | IsHead(Clean(s.t, s.now).waiters, head)
      ensures HoldsAdmission(s, head) || PollSucceeds(s, head)
    {
      if LeaseLive(s.t, s.now) {
        assert s.t.owner.value in Clean(s.t, s.now).waiters;
      } else {
        FreeHeadProgresses(s, head);
      }
    }
  }

  /** If arrivals sort behind the holder of a live lease, the head always holds or is let through next. */
  lemma HeadAlwaysProgresses(s: State, actions: seq<Action>)
    requires Initial(s) && Runs(s, actions) && OwnerFirstRun(s, actions)
    ensures HeadProgresses(After(s, actions))
  {
    RunKeepsOwnerFirst(s, actions);
    OwnerFirstProgresses(After(s, actions));
  }

  /** While another execution holds a live lease, no poll of a waiting one succeeds. */
  lemma WaitsForLease(s: State, id: ExecutionId)
    requires id in s.handles && s.handles[id].Waiting? && LeaseLive(s.t, s.now) && s.t.owner != Some(id)
    ensures !HoldsAdmission(s, id) && !PollSucceeds(s, id)
  {
  }

  /** An arrival that sorts before the holder of a live lease is a head that has to wait. */
  lemma ArrivalBeforeOwnerWaits(s: State, a: Action)
    requires RowsAgree(s) && OwnerFirst(s) && Enabled(s, a) && !QueuesBehindOwner(s, a)
    ensures !HeadProgresses(Next(s, a))
  {
    var s', owner := Next(s, a), s.t.owner.value;
    EnqueueKeepsRows(s, a);
    assert s'.t.owner == Some(owner) && owner in s'.t.waiters && LeaseLive(s'.t, s'.now);
    assert RowBefore(s'.t.waiters, a.id, owner);
    var rows := Clean(s'.t, s'.now).waiters;
    forall id | id in rows && id != a.id
      ensures RowBefore(rows, a.id, id)
    {
      assert id != owner ==> RowBefore(s.t.waiters, owner, id);
    }
    assert IsHead(rows, a.id);
    WaitsForLease(s', a.id);
  }

  /** However things go on with arrivals behind the holder, the head is never kept waiting. */
  ghost predicate ProgressesFrom(s: State) {
    forall more :: Runs(s, more) && OwnerFirstRun(s, more) ==> HeadProgresses(After(s, more))
  }

  lemma OwnerFirstGoesOn(s: State)
    requires RowsAgree(s) && OwnerFirst(s)
    ensures ProgressesFrom(s)
  {
    forall more | Runs(s, more) && OwnerFirstRun(s, more)
      ensures HeadProgresses(After(s, more))
    {
      RunKeepsOwnerFirst(s, more);
      OwnerFirstProgresses(After(s, more));
    }
  }

  lemma ProgressesNow(s: State)
    requires ProgressesFrom(s)
    ensures HeadProgresses(s)
  {
    var none: seq<Action> := [];
    assert Runs(s, none) && OwnerFirstRun(s, none);
  }

  /**
   The condition on arrivals is exact: in any state reached so far, an arrival meets it if
   and only if the head is never kept waiting in any continuation that meets it too.
   */
  lemma ArrivalSafeIffBehindOwner(initial: State, before: seq<Action>, a: Action)
    requires Initial(initial) && Runs(initial, before) && OwnerFirstRun(initial, before)
    requires a.Enqueue? && Enabled(After(initial, before), a)
    ensures QueuesBehindOwner(After(initial, before), a) <==> ProgressesFrom(Next(After(initial, before), a))
  {
    RunKeepsOwnerFirst(initial, before);
    var s := After(initial, before);
    if QueuesBehindOwner(s, a) {
      StepKeepsRows(s, a);
      StepKeepsOwnerFirst(s, a);
      OwnerFirstGoesOn(Next(s, a));
    } else if ProgressesFrom(Next(s, a)) {
      ProgressesNow(Next(s, a));
      ArrivalBeforeOwnerWaits(s, a);
    }
  }

  // ---------------------------------------------------------------------
  // No barging
  // ---------------------------------------------------------------------

  predicate InQueue(s: State, w: ExecutionId) {
    w in s.handles && s.handles[w].Waiting? && s.now < s.handles[w].deadline
  }

  /** `x` stays behind the waiting `w`: only a reader behind a reader may have been let through. */
  ghost predicate Behind(s: State, w: ExecutionId, x: ExecutionId)
    requires w in s.handles && s.handles[w].Waiting?
  {
    && x in s.handles && !s.handles[x].Writer?
    && (s.handles[x].Reader? ==> s.handles[w].mode == Optimistic)
    && (x in s.t.waiters && w in s.t.waiters ==> RowBefore(s.t.waiters, w, x))
  }

  lemma StepNeverOvertakes(s: State, a: Action, w: ExecutionId, x: ExecutionId)
    requires RowsAgree(s) && Enabled(s, a)
    requires w != x && InQueue(s, w) && InQueue(Next(s, a), w) && Behind(s, w, x)
    ensures Behind(Next(s, a), w, x)
  {
    CleanKeepsRows(s);
    assert w in Clean(s.t, s.now).waiters;
  }

  lemma {:induction false} RunNeverOvertakes(s: State, actions: seq<Action>, w: ExecutionId, x: ExecutionId)
    requires RowsAgree(s) && Runs(s, actions)
    requires w != x && InQueue(s, w) && InQueue(After(s, actions), w) && Behind(s, w, x)
    ensures Behind(After(s, actions), w, x)
    decreases |actions|
  {
    if actions != [] {
      var s' := Next(s, actions[0]);
      QueuedStaysQueued(s', actions[1..], w);
      StepKeepsRows(s, actions[0]);
      StepNeverOvertakes(s, actions[0], w, x);
      RunNeverOvertakes(s', actions[1..], w, x);
    }
  }

  lemma {:induction false} QueuedStaysQueued(s: State, actions: seq<Action>, w: ExecutionId)
    requires Runs(s, actions) && w in s.handles && InQueue(After(s, actions), w)
    ensures InQueue(s, w) && s.handles[w] == After(s, actions).handles[w]
    decreases |actions|
  {
    if actions != [] {
      QueuedStaysQueued(Next(s, actions[0]), actions[1..], w);
    }
  }

  /** What `x` may have got by the end of a run in which `w` still waits before it. */
  predicate NotPassed(end: State, w: ExecutionId, x: ExecutionId) {
    w in end.handles && end.handles[w].Waiting? && x in end.handles ==>
      !end.handles[x].Writer? && (end.handles[w].mode == Serialized ==> !end.handles[x].Reader?)
  }

  /**
   No barging in any run: while `w` keeps waiting, an execution `x` that waits behind it
   never gets the exclusive lease, and gets no admission at all if `w` waits for the
   exclusive lease.
   */
  lemma NeverOvertaken(initial: State, before: seq<Action>, actions: seq<Action>, w: ExecutionId, x: ExecutionId)
    requires Initial(initial) && Runs(initial, before) && Runs(After(initial, before), actions)
    requires var s := After(initial, before);
             && w in s.t.waiters && x in s.t.waiters && RowBefore(s.t.waiters, w, x)
             && w in s.handles && x in s.handles && s.handles[x].Waiting?
    requires InQueue(After(After(initial, before), actions), w)
    ensures NotPassed(After(After(initial, before), actions), w, x)
  {
    RunKeepsRows(initial, before);
    var s := After(initial, before);
    QueuedStaysQueued(s, actions, w);
    RunNeverOvertakes(s, actions, w, x);
  }

  /** An execution that arrives with a key behind that of the waiting `w` never passes it. */
  lemma ArrivalNeverOvertakes(initial: State, before: seq<Action>, arrival: Action, more: seq<Action>, w: ExecutionId)
    requires Initial(initial) && Runs(initial, before) && arrival.Enqueue?
    requires var s := After(initial, before);
             && Enabled(s, arrival) && Runs(Next(s, arrival), more)
             && w in s.t.waiters && w in s.handles
             && KeyBefore(s.t.waiters[w].enqueuedAt, w, s.now, arrival.id)
             && InQueue(After(Next(s, arrival), more), w)
    ensures NotPassed(After(Next(After(initial, before), arrival), more), w, arrival.id)
  {
    RunKeepsRows(initial, before);
    var s := After(initial, before);
    StepKeepsRows(s, arrival);
    QueuedStaysQueued(Next(s, arrival), more, w);
    RunNeverOvertakes(Next(s, arrival), more, w, arrival.id);
  }
}
