/** What one step does, row by row. */
module CookieSteps {
  // Which rows count, who is admitted and what the lease becomes, told on the stored rows.

  import opened Wrappers
  import opened CookieAdmission
  import opened CookieAdmissionRuns

  /** The lease of a stored owner that has run out. */
  predicate OwnerLapsed(s: State) {
    s.t.owner.Some? && s.t.leaseExpiresAt.GetOr(0) <= s.now
  }

  /** A row before its deadline that does not belong to an owner whose lease has run out. */
  predicate LiveRow(s: State, id: ExecutionId) {
    && id in s.t.waiters && s.now < s.t.waiters[id].expiresAt
    && !(OwnerLapsed(s) && s.t.owner == Some(id))
  }

  predicate LeaseRuns(s: State) {
    s.t.owner.Some? && s.now < s.t.leaseExpiresAt.GetOr(0)
  }

  /** The row of `a` was queued earlier, or at the same time with a smaller id. */
  predicate Earlier(s: State, a: ExecutionId, b: ExecutionId)
    requires a in s.t.waiters && b in s.t.waiters
  {
    var x, y := s.t.waiters[a].enqueuedAt, s.t.waiters[b].enqueuedAt;
    x < y || (x == y && a < b)
  }

  /** Nothing but live rows and a running lease is left. */
  predicate Swept(s: State, t: Table) {
    && (forall id :: id in t.waiters ==> LiveRow(s, id) && t.waiters[id] == s.t.waiters[id])
    && (forall id :: id in s.t.waiters && LiveRow(s, id) ==> id in t.waiters)
    && t.fence == s.t.fence
    && t.owner == (if OwnerLapsed(s) then None else s.t.owner)
    && t.leaseExpiresAt == if OwnerLapsed(s) then None else s.t.leaseExpiresAt
  }

  lemma CleaningSweeps(s: State)
    ensures Swept(s, Clean(s.t, s.now))
  {
  }

  /** An arrival queues its row at the present time; otherwise only dead rows go. */
  lemma ArrivalQueues(s: State, id: ExecutionId, mode: Mode, deadline: int)
    requires Enabled(s, Enqueue(id, mode, deadline))
    ensures var s', row := Next(s, Enqueue(id, mode, deadline)), Waiter(mode, s.now, deadline);
            && id in s'.t.waiters && s'.t.waiters[id] == row
            && Swept(s, s'.t.(waiters := s'.t.waiters - {id}))
            && s'.handles == s.handles[id := Waiting(mode, deadline)] && s'.now == s.now && s'.log == s.log
  {
    CleaningSweeps(s);
  }

  /** A poll of an optimistic execution admits it exactly if no lease runs and no live serialized row stands before its own. */
  lemma PollAdmitsIff(s: State, id: ExecutionId)
    requires Enabled(s, Poll(id)) && s.handles[id].mode == Optimistic
    ensures var s' := Next(s, Poll(id));
            && Swept(s, s'.t)
            && (s'.handles[id].Reader?
                <==> && LiveRow(s, id) && !LeaseRuns(s)
                     && forall w :: w in s.t.waiters && LiveRow(s, w) && s.t.waiters[w].mode == Serialized ==> !Earlier(s, w, id))
            && s'.handles == (if s'.handles[id].Reader? then s.handles[id := Reader(s.handles[id].deadline, false)] else s.handles)
  {
    CleaningSweeps(s);
    var c := Clean(s.t, s.now);
    assert forall w :: w in c.waiters <==> w in s.t.waiters && LiveRow(s, w);
  }

  /** A poll of a serialized execution grants the lease exactly if none runs and its live serialized row stands before all others. */
  lemma PollGrantsIff(s: State, id: ExecutionId)
    requires Enabled(s, Poll(id)) && s.handles[id].mode == Serialized
    ensures Next(s, Poll(id)).handles[id].Writer?
            <==> && LiveRow(s, id) && s.t.waiters[id].mode == Serialized && !LeaseRuns(s)
                 && forall w :: w in s.t.waiters && LiveRow(s, w) && w != id ==> Earlier(s, id, w)
  {
    CleaningSweeps(s);
    var c := Clean(s.t, s.now);
    assert forall w :: w in c.waiters <==> w in s.t.waiters && LiveRow(s, w);
    assert forall a, b :: a in c.waiters && b in c.waiters ==> (RowBefore(c.waiters, a, b) <==> Earlier(s, a, b));
  }

  /** A grant raises the fence by one and leases for 15 seconds, or to the deadline; a refused poll only sweeps. */
  lemma GrantIs(s: State, id: ExecutionId)
    requires Enabled(s, Poll(id)) && s.handles[id].mode == Serialized
    ensures var s', deadline := Next(s, Poll(id)), s.handles[id].deadline;
            if s'.handles[id].Writer? then
              && Swept(s, s'.t.(owner := if OwnerLapsed(s) then None else s.t.owner, fence := s.t.fence,
                                leaseExpiresAt := if OwnerLapsed(s) then None else s.t.leaseExpiresAt))
              && s'.t.owner == Some(id) && s'.t.fence == s.t.fence + 1
              && s'.t.leaseExpiresAt == Some(if s.now + 15_000 < deadline then s.now + 15_000 else deadline)
              && s'.handles == s.handles[id := Writer(s.t.fence + 1, deadline, true, false)]
            else Swept(s, s'.t) && s'.handles == s.handles
  {
    CleaningSweeps(s);
  }

  /** Releasing removes the row, and the lease exactly if it is still the one that was granted. */
  lemma ReleaseIs(s: State, id: ExecutionId)
    requires Enabled(s, Release(id))
    ensures var s', h := Next(s, Release(id)), s.handles[id];
            && s'.t.waiters == s.t.waiters - {id} && s'.t.fence == s.t.fence
            && s'.handles == s.handles[id := h.(released := true)] && s'.now == s.now && s'.log == s.log
            && (if h.Writer? && s.t.owner == Some(id) && s.t.fence == h.fence
                then s'.t.owner == None && s'.t.leaseExpiresAt == None
                else s'.t.owner == s.t.owner && s'.t.leaseExpiresAt == s.t.leaseExpiresAt)
  {
  }

  /** An execution that gives up removes its row and nothing else. */
  lemma GivingUpIs(s: State, id: ExecutionId)
    requires Enabled(s, GiveUp(id))
    ensures var s' := Next(s, GiveUp(id));
            s' == State(s.now, Table(s.t.owner, s.t.fence, s.t.leaseExpiresAt, s.t.waiters - {id}), s.handles[id := GaveUp], s.log)
  {
  }

  // ---------------------------------------------------------------------
  // In every run
  // ---------------------------------------------------------------------

  /** In every run a waiting execution before its deadline has a live row, with its mode. */
  lemma WaitingHasLiveRow(initial: State, actions: seq<Action>, id: ExecutionId)
    requires Initial(initial) && Runs(initial, actions)
    requires var s := After(initial, actions); id in s.handles && s.handles[id].Waiting? && s.now < s.handles[id].deadline
    ensures var s := After(initial, actions); LiveRow(s, id) && s.t.waiters[id].mode == s.handles[id].mode
  {
    RunKeepsRows(initial, actions);
    var s := After(initial, actions);
    assert RowMatches(s, id);
  }

  /** In every run, readers are admitted together: without a lease and without waiting writers every poll of a reader succeeds. */
  lemma ReadersGoTogether(initial: State, actions: seq<Action>, id: ExecutionId)
    requires Initial(initial) && Runs(initial, actions)
    requires var s := After(initial, actions);
             && id in s.handles && s.handles[id].Waiting? && s.handles[id].mode == Optimistic && s.now < s.handles[id].deadline
             && !LeaseRuns(s) && forall w :: w in s.t.waiters && LiveRow(s, w) ==> s.t.waiters[w].mode == Optimistic
    ensures Next(After(initial, actions), Poll(id)).handles[id] == Reader(After(initial, actions).handles[id].deadline, false)
  {
    WaitingHasLiveRow(initial, actions, id);
    PollAdmitsIff(After(initial, actions), id);
  }

  /** In every run, when the holder of the lease releases it, no lease is left. */
  lemma ReleaseEndsLease(initial: State, actions: seq<Action>, id: ExecutionId)
    requires Initial(initial) && Runs(initial, actions)
    requires var s := After(initial, actions); Enabled(s, Release(id)) && s.handles[id].Writer? && s.t.owner == Some(id)
    ensures Next(After(initial, actions), Release(id)).t.owner == None
  {
    RunKeepsRows(initial, actions);
    var s := After(initial, actions);
    assert RowMatches(s, id);
  }
}
