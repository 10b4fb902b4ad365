/** Exclusion of readers and writers. */
module CookieExclusion {
  // An exclusive lease beside a shared admission: when it cannot happen, and exactly which
  // arrivals let it happen.

  import opened Wrappers
  import opened CookieAdmission
  import opened CookieAdmissionRuns

  ghost predicate Exclusion(s: State) {
    LeaseLive(s.t, s.now) ==> forall r :: !LiveReader(s.handles, s.now, r)
  }

  /**
   A writer that queues up sorts behind every live reader. With one clock this can
   only fail inside the millisecond in which the reader itself queued, on the
   comparison of the two execution ids. A writer already past its deadline is exempt.
   */
  ghost predicate QueuesBehindReaders(s: State, a: Action) {
    a.Enqueue? && a.mode == Serialized && s.now < a.deadline ==>
      forall r :: LiveReader(s.handles, s.now, r) && r in s.t.waiters ==> KeyBefore(s.t.waiters[r].enqueuedAt, r, s.now, a.id)
  }

  ghost predicate OrderlyRun(s: State, actions: seq<Action>)
    requires Runs(s, actions)
    decreases |actions|
  {
    actions == [] || (QueuesBehindReaders(s, actions[0]) && OrderlyRun(Next(s, actions[0]), actions[1..]))
  }

  /** Live readers are queued before every writer still in force, and there is no owner beside them. */
  ghost predicate ReadersFirst(s: State) {
    && (forall r :: LiveReader(s.handles, s.now, r) ==> r in s.t.waiters)
    && (s.t.owner.Some? ==> forall r :: !LiveReader(s.handles, s.now, r))
    && (forall r, w :: LiveReader(s.handles, s.now, r) && r in s.t.waiters && w in s.t.waiters
                       && s.t.waiters[w].mode == Serialized && s.now < s.t.waiters[w].expiresAt
                       ==> RowBefore(s.t.waiters, r, w))
  }

  ghost predicate Inv(s: State) {
    RowsAgree(s) && ReadersFirst(s)
  }

  lemma CleanKeepsInv(s: State)
    requires Inv(s)
    ensures Inv(s.(t := Clean(s.t, s.now)))
    ensures forall r :: LiveReader(s.handles, s.now, r) ==> r in Clean(s.t, s.now).waiters
  {
  }

  lemma NewReaders(s: State, a: Action)
    requires Enabled(s, a)
    ensures forall r :: LiveReader(Next(s, a).handles, Next(s, a).now, r) ==>
                          LiveReader(s.handles, s.now, r) || (a == Poll(r) && Admissible(s.t, s.now, r))
  {
  }

  lemma EnqueueKeepsReaders(s: State, a: Action)
    requires Inv(s) && a.Enqueue? && Enabled(s, a) && QueuesBehindReaders(s, a)
    ensures ReadersFirst(Next(s, a))
  {
    CleanKeepsInv(s);
    NewReaders(s, a);
  }

  lemma PollKeepsReaders(s: State, a: Action)
    requires Inv(s) && a.Poll? && Enabled(s, a)
    ensures ReadersFirst(Next(s, a))
  {
    CleanKeepsInv(s);
    NewReaders(s, a);
    if s.handles[a.id].mode == Serialized && Acquirable(s.t, s.now, a.id) {
      GrantExcludesReaders(s, a.id);
    }
  }

  /** A live reader's row precedes every writer's row, so a writer at the head means there is none. */
  lemma GrantExcludesReaders(s: State, id: ExecutionId)
    requires Inv(s) && Acquirable(s.t, s.now, id)
    ensures forall r :: !LiveReader(s.handles, s.now, r)
    ensures Clean(s.t, s.now).owner == None
  {
    CleanKeepsInv(s);
    assert forall r :: LiveReader(s.handles, s.now, r) ==> RowBefore(Clean(s.t, s.now).waiters, r, id);
  }

  lemma UseKeepsInv(s: State, a: Action)
    requires Inv(s) && (a.Heartbeat? || a.Verify? || a.Commit?) && Enabled(s, a)
    ensures Inv(Next(s, a))
  {
    NewReaders(s, a);
    UseKeepsRows(s, a);
  }

  lemma LeaveKeepsReaders(s: State, a: Action)
    requires Inv(s) && (a.Tick? || a.GiveUp? || a.Release?) && Enabled(s, a)
    ensures ReadersFirst(Next(s, a))
  {
    NewReaders(s, a);
  }

  lemma StepKeepsInv(s: State, a: Action)
    requires Inv(s) && Enabled(s, a) && QueuesBehindReaders(s, a)
    ensures Inv(Next(s, a))
  {
    match a
    case Enqueue(_, _, _) => EnqueueKeepsRows(s, a); EnqueueKeepsReaders(s, a);
    case Poll(_) => PollKeepsRows(s, a); PollKeepsReaders(s, a);
    case Heartbeat(_, _) => UseKeepsInv(s, a);
    case Verify(_) => UseKeepsInv(s, a);
    case Commit(_) => UseKeepsInv(s, a);
    case _ => LeaveKeepsRows(s, a); LeaveKeepsReaders(s, a);
  }

  lemma {:induction false} RunKeepsInv(s: State, actions: seq<Action>)
    requires Inv(s) && Runs(s, actions) && OrderlyRun(s, actions)
    ensures Inv(After(s, actions))
    decreases |actions|
  {
    if actions != [] {
      StepKeepsInv(s, actions[0]);
      RunKeepsInv(Next(s, actions[0]), actions[1..]);
    }
  }

  /** In every reachable state a live lease and a live shared admission never coexist. */
  lemma ExclusionHolds(s: State, actions: seq<Action>)
    requires Initial(s) && Runs(s, actions) && OrderlyRun(s, actions)
    ensures Exclusion(After(s, actions))
  {
    RunKeepsInv(s, actions);
  }

  // ---------------------------------------------------------------------
  // The enqueue condition is exact
  // ---------------------------------------------------------------------

  /** A waiting writer whose row sorts before a live reader, with only readers before it. */
  ghost predicate Overtaking(s: State, w: ExecutionId, r: ExecutionId) {
    && w in s.t.waiters && w in s.handles && s.handles[w].Waiting? && s.handles[w].mode == Serialized
    && r in s.t.waiters && LiveReader(s.handles, s.now, r) && RowBefore(s.t.waiters, w, r)
    && s.t.owner == None
    && (forall id :: id in s.t.waiters ==> RowMatches(s, id) && s.now < s.t.waiters[id].expiresAt)
    && (forall id :: id in s.t.waiters && id != w && s.t.waiters[id].mode == Serialized ==> RowBefore(s.t.waiters, w, id))
  }

  function Ahead(s: State, w: ExecutionId): set<ExecutionId>
    requires w in s.t.waiters
  {
    set id | id in s.t.waiters && id != w && RowBefore(s.t.waiters, id, w)
  }

  lemma CleanChangesNothing(s: State)
    requires s.t.owner == None && forall id :: id in s.t.waiters ==> s.now < s.t.waiters[id].expiresAt
    ensures Clean(s.t, s.now).waiters == s.t.waiters && Clean(s.t, s.now).owner == None
  {
  }

  lemma AdmitReaderAhead(s: State, w: ExecutionId, r: ExecutionId, x: ExecutionId)
    requires Overtaking(s, w, r) && x in Ahead(s, w) && s.handles[x].Waiting?
    ensures Enabled(s, Poll(x)) && Overtaking(Next(s, Poll(x)), w, r)
    ensures Next(s, Poll(x)).t.waiters == s.t.waiters
    ensures Next(s, Poll(x)).handles[x].Reader?
  {
    CleanChangesNothing(s);
    assert RowMatches(s, x);
    assert Admissible(s.t, s.now, x);
  }

  lemma ReleaseReaderAhead(s: State, w: ExecutionId, r: ExecutionId, x: ExecutionId)
    requires Overtaking(s, w, r) && x in Ahead(s, w) && s.handles[x].Reader?
    ensures Enabled(s, Release(x)) && Overtaking(Next(s, Release(x)), w, r)
    ensures Ahead(Next(s, Release(x)), w) == Ahead(s, w) - {x}
  {
    assert RowMatches(s, x);
  }

  /** Let the readers ahead come and go; then the writer is granted beside the live reader. */
  lemma {:induction false} OvertakingBreaksExclusion(s: State, w: ExecutionId, r: ExecutionId) returns (actions: seq<Action>)
    requires Overtaking(s, w, r)
    ensures Runs(s, actions) && OrderlyRun(s, actions) && !Exclusion(After(s, actions))
    decreases |Ahead(s, w)|, if exists x :: x in Ahead(s, w) && s.handles[x].Reader? then 0 else 1
  {
    assert RowMatches(s, w);
    if x :| x in Ahead(s, w) && s.handles[x].Reader? {
      ReleaseReaderAhead(s, w, r, x);
      var rest := OvertakingBreaksExclusion(Next(s, Release(x)), w, r);
      actions := [Release(x)] + rest;
      assert actions[1..] == rest;
    } else if x :| x in Ahead(s, w) {
      assert RowMatches(s, x);
      AdmitReaderAhead(s, w, r, x);
      assert x in Ahead(Next(s, Poll(x)), w);
      assert Ahead(Next(s, Poll(x)), w) == Ahead(s, w);
      var rest := OvertakingBreaksExclusion(Next(s, Poll(x)), w, r);
      actions := [Poll(x)] + rest;
      assert actions[1..] == rest;
    } else {
      CleanChangesNothing(s);
      actions := [Poll(w)];
      assert forall id :: id in s.t.waiters && id != w ==> id !in Ahead(s, w);
      assert IsHead(s.t.waiters, w);
      assert actions[1..] == [];
      assert LiveReader(After(s, actions).handles, After(s, actions).now, r);
    }
  }

  lemma EnqueueStartsOvertaking(s: State, a: Action) returns (r: ExecutionId)
    requires Inv(s) && Enabled(s, a) && a.Enqueue? && !QueuesBehindReaders(s, a)
    ensures Overtaking(Next(s, a), a.id, r)
  {
    r :| LiveReader(s.handles, s.now, r) && r in s.t.waiters && !KeyBefore(s.t.waiters[r].enqueuedAt, r, s.now, a.id);
    var s' := Next(s, a);
    EnqueueKeepsRows(s, a);
    CleanKeepsInv(s);
    forall id | id in s'.t.waiters && id != a.id && s'.t.waiters[id].mode == Serialized
      ensures RowBefore(s'.t.waiters, a.id, id)
    {
      assert RowBefore(s.t.waiters, r, id);
    }
  }

  /**
   The order condition on arrivals is exact: in any state reached so far, an arrival
   meets it if and only if no orderly continuation lets a live lease and a live
   shared admission coexist.
   */
  lemma EnqueueSafeIffBehindReaders(initial: State, before: seq<Action>, a: Action)
    requires Initial(initial) && Runs(initial, before) && OrderlyRun(initial, before)
    requires a.Enqueue? && Enabled(After(initial, before), a)
    ensures var s := After(initial, before);
            QueuesBehindReaders(s, a) <==>
            forall more :: Runs(Next(s, a), more) && OrderlyRun(Next(s, a), more) ==> Exclusion(After(Next(s, a), more))
  {
    RunKeepsInv(initial, before);
    var s := After(initial, before);
    if QueuesBehindReaders(s, a) {
      StepKeepsInv(s, a);
      forall more | Runs(Next(s, a), more) && OrderlyRun(Next(s, a), more)
        ensures Exclusion(After(Next(s, a), more))
      {
        RunKeepsInv(Next(s, a), more);
      }
    } else {
      var r := EnqueueStartsOvertaking(s, a);
      var more := OvertakingBreaksExclusion(Next(s, a), a.id, r);
    }
  }

  const READER_ROW := Waiter(Optimistic, 0, 100)
  const WRITER_ROW := Waiter(Serialized, 0, 100)

  /** Reader 5 is admitted and writer 3 queues, all in millisecond 0. */
  const TIED := State(
    0,
    Table(None, 0, None, map[5 := READER_ROW, 3 := WRITER_ROW]),
    map[5 := Reader(100, false), 3 := Waiting(Serialized, 100)],
    [Admit(5)])

  lemma TieIsReached()
    ensures var start := State(0, INITIAL_TABLE, map[], []);
            var arrivals := [Enqueue(5, Optimistic, 100), Poll(5), Enqueue(3, Serialized, 100)];
            Initial(start) && Runs(start, arrivals) && After(start, arrivals) == TIED
  {
    var s0 := State(0, INITIAL_TABLE, map[], []);
    var s1 := State(0, Table(None, 0, None, map[5 := READER_ROW]), map[5 := Waiting(Optimistic, 100)], []);
    var s2 := State(0, s1.t, map[5 := Reader(100, false)], [Admit(5)]);
    assert Clean(s1.t, 0) == s1.t;
    assert Next(s0, Enqueue(5, Optimistic, 100)) == s1;
    assert Next(s1, Poll(5)) == s2;
    assert Next(s2, Enqueue(3, Serialized, 100)) == TIED;
    var three := [Enqueue(5, Optimistic, 100), Poll(5), Enqueue(3, Serialized, 100)];
    assert three[1..] == [Poll(5), Enqueue(3, Serialized, 100)];
    assert three[1..][1..] == [Enqueue(3, Serialized, 100)];
    assert three[1..][1..][1..] == [];
  }

  /** One poll later the writer holds a live lease beside the live reader. */
  lemma TieBreaksExclusion()
    ensures Runs(TIED, [Poll(3)]) && !Exclusion(After(TIED, [Poll(3)]))
  {
    assert Clean(TIED.t, 0) == TIED.t;
    assert IsHead(TIED.t.waiters, 3);
    var s' := Next(TIED, Poll(3));
    assert LiveReader(s'.handles, s'.now, 5);
    assert [Poll(3)][1..] == [];
  }
}
