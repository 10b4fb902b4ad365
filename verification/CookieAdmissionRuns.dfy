/** Runs of cookie-jar admission. */
module CookieAdmissionRuns {
  // Executions queue, poll, renew, commit and release against one jar, in any interleaving under
  // one clock; a renewal may reach the database late.

  import opened Wrappers
  import opened CookieAdmission

  /** What an execution knows about its own call to `acquire`. */
  datatype Handle =
    | Waiting(mode: Mode, deadline: int)
    | Reader(deadline: int, released: bool)
    | Writer(fence: nat, deadline: int, valid: bool, released: bool)
    | GaveUp

  datatype Event =
    | Admit(id: ExecutionId)
    | Grant(id: ExecutionId, fence: nat)
    | Apply(id: ExecutionId, mode: Mode)

  datatype State = State(now: int, t: Table, handles: map<ExecutionId, Handle>, log: seq<Event>)

  datatype Action =
    | Tick(later: int)
    | Enqueue(id: ExecutionId, mode: Mode, deadline: int)
    | Poll(id: ExecutionId)
    | GiveUp(id: ExecutionId)
    | Heartbeat(id: ExecutionId, failed: bool)
    | Verify(id: ExecutionId)
    | Commit(id: ExecutionId)
    | Release(id: ExecutionId)

  /** When the code can take a step. An execution calls `acquire` once, and uses its handle until it releases it. */
  predicate Enabled(s: State, a: Action) {
    match a
    case Tick(later) => s.now <= later
    case Enqueue(id, _, _) => id !in s.handles && id !in s.t.waiters
    case Poll(id) => id in s.handles && s.handles[id].Waiting?
    case GiveUp(id) => id in s.handles && s.handles[id].Waiting? && s.handles[id].deadline <= s.now
    // A renewal already under way may reach the database after the release.
    case Heartbeat(id, _) => id in s.handles && s.handles[id].Writer?
    case Verify(id) => Held(s, id)
    case Commit(id) => Held(s, id)
    case Release(id) => Held(s, id)
  }

  predicate Held(s: State, id: ExecutionId) {
    id in s.handles && (s.handles[id].Reader? || s.handles[id].Writer?) && !s.handles[id].released
  }

  /** Whether the handle's `assertValid` and `verify` both return. */
  predicate Passes(s: State, id: ExecutionId)
    requires Held(s, id)
  {
    match s.handles[id]
    case Reader(deadline, _) => s.now < deadline
    case Writer(fence, deadline, valid, _) => valid && Verified(s.t, s.now, id, fence, deadline)
  }

  /** A failed check marks a serialized handle as lost for good. */
  function Checked(s: State, id: ExecutionId): State
    requires Held(s, id)
  {
    if s.handles[id].Writer? && !Passes(s, id)
    then s.(handles := s.handles[id := s.handles[id].(valid := false)])
    else s
  }

  function Next(s: State, a: Action): State
    requires Enabled(s, a)
  {
    match a
    case Tick(later) => s.(now := later)
    case Enqueue(id, mode, deadline) =>
      s.(t := Enqueued(s.t, s.now, id, mode, deadline), handles := s.handles[id := Waiting(mode, deadline)])
    case Poll(id) =>
      var deadline := s.handles[id].deadline;
      if s.handles[id].mode == Optimistic then
        if Admissible(s.t, s.now, id)
        then State(s.now, Clean(s.t, s.now), s.handles[id := Reader(deadline, false)], s.log + [Admit(id)])
        else s.(t := Clean(s.t, s.now))
      else
        if Acquirable(s.t, s.now, id)
        then State(s.now, Granted(s.t, s.now, id, deadline),
                   s.handles[id := Writer(s.t.fence + 1, deadline, true, false)],
                   s.log + [Grant(id, s.t.fence + 1)])
        else s.(t := Clean(s.t, s.now))
    case GiveUp(id) => s.(t := Without(s.t, id), handles := s.handles[id := GaveUp])
    case Heartbeat(id, failed) =>
      var h := s.handles[id];
      if !failed && Renewable(s.t, s.now, id, h.fence, h.deadline)
      then s.(t := s.t.(leaseExpiresAt := Some(Min(s.now + LEASE_DURATION_MS, h.deadline))))
      else s.(handles := s.handles[id := h.(valid := false)])
    case Verify(id) => Checked(s, id)
    case Commit(id) =>
      if Passes(s, id)
      then s.(log := s.log + [Apply(id, if s.handles[id].Writer? then Serialized else Optimistic)])
      else Checked(s, id)
    case Release(id) =>
      var h := s.handles[id];
      s.(t := if h.Writer? then Freed(s.t, id, h.fence) else Without(s.t, id),
         handles := s.handles[id := h.(released := true)])
  }

  predicate Runs(s: State, actions: seq<Action>)
    decreases |actions|
  {
    actions == [] || (Enabled(s, actions[0]) && Runs(Next(s, actions[0]), actions[1..]))
  }

  function After(s: State, actions: seq<Action>): State
    requires Runs(s, actions)
    decreases |actions|
  {
    if actions == [] then s else After(Next(s, actions[0]), actions[1..])
  }

  const INITIAL_TABLE := Table(None, 0, None, map[])

  predicate Initial(s: State) {
    s.t == INITIAL_TABLE && s.handles == map[] && s.log == []
  }

  /** An admission that was neither released nor passed its deadline. */
  predicate LiveReader(handles: map<ExecutionId, Handle>, now: int, id: ExecutionId) {
    id in handles && handles[id].Reader? && !handles[id].released && now < handles[id].deadline
  }

  // ---------------------------------------------------------------------
  // Rows, handles and the lease agree in every run
  // ---------------------------------------------------------------------

  predicate RowMatches(s: State, id: ExecutionId)
    requires id in s.t.waiters
  {
    var row := s.t.waiters[id];
    && row.enqueuedAt <= s.now
    && id in s.handles
    && match s.handles[id]
       case Waiting(mode, deadline) => row.mode == mode && row.expiresAt == deadline
       case Reader(deadline, released) => row.mode == Optimistic && row.expiresAt == deadline && !released
       case Writer(fence, deadline, _, released) =>
         row.mode == Serialized && row.expiresAt == deadline && !released && s.t.owner == Some(id) && s.t.fence == fence
       case GaveUp => false
  }

  predicate OwnerHasRow(s: State) {
    s.t.owner.Some? ==>
      var o := s.t.owner.value;
      o in s.t.waiters && o in s.handles && s.handles[o].Writer?
      && s.t.leaseExpiresAt.Some? && s.t.leaseExpiresAt.value <= s.t.waiters[o].expiresAt
  }

  /** Rows, handles and the stored lease agree with one another. */
  ghost predicate RowsAgree(s: State) {
    && (forall id :: id in s.t.waiters ==> RowMatches(s, id))
    && OwnerHasRow(s)
    && (forall id :: id in s.handles && s.handles[id].Waiting? && s.now < s.handles[id].deadline ==> id in s.t.waiters)
  }

  lemma EnqueueKeepsRows(s: State, a: Action)
    requires RowsAgree(s) && a.Enqueue? && Enabled(s, a)
    ensures RowsAgree(Next(s, a))
  {
  }

  lemma CleanKeepsRows(s: State)
    requires RowsAgree(s)
    ensures RowsAgree(s.(t := Clean(s.t, s.now)))
  {
  }

  lemma AdmitKeepsRows(s: State, id: ExecutionId, deadline: int)
    requires RowsAgree(s) && id in s.handles && s.handles[id] == Waiting(Optimistic, deadline)
    ensures RowsAgree(s.(handles := s.handles[id := Reader(deadline, false)]))
  {
  }

  lemma GrantKeepsRows(s: State, id: ExecutionId, deadline: int)
    requires RowsAgree(s) && id in s.handles && s.handles[id] == Waiting(Serialized, deadline)
    requires s.t.owner == None && id in s.t.waiters
    ensures var fence := s.t.fence + 1;
            RowsAgree(s.(t := Table(Some(id), fence, Some(Min(s.now + LEASE_DURATION_MS, deadline)), s.t.waiters),
                         handles := s.handles[id := Writer(fence, deadline, true, false)]))
  {
  }

  lemma PollKeepsRows(s: State, a: Action)
    requires RowsAgree(s) && a.Poll? && Enabled(s, a)
    ensures RowsAgree(Next(s, a))
  {
    CleanKeepsRows(s);
    var c := s.(t := Clean(s.t, s.now));
    var deadline := s.handles[a.id].deadline;
    if s.handles[a.id].mode == Optimistic {
      AdmitKeepsRows(c, a.id, deadline);
    } else if Acquirable(s.t, s.now, a.id) {
      GrantKeepsRows(c, a.id, deadline);
    }
  }

  lemma LeaveKeepsRows(s: State, a: Action)
    requires RowsAgree(s) && (a.Tick? || a.GiveUp? || a.Release?) && Enabled(s, a)
    ensures RowsAgree(Next(s, a))
  {
  }

  lemma UseKeepsRows(s: State, a: Action)
    requires RowsAgree(s) && (a.Heartbeat? || a.Verify? || a.Commit?) && Enabled(s, a)
    ensures RowsAgree(Next(s, a))
  {
  }

  /** Every step keeps the rows in agreement, whatever the order of arrivals. */
  lemma StepKeepsRows(s: State, a: Action)
    requires RowsAgree(s) && Enabled(s, a)
    ensures RowsAgree(Next(s, a))
  {
    match a
    case Enqueue(_, _, _) => EnqueueKeepsRows(s, a);
    case Poll(_) => PollKeepsRows(s, a);
    case Heartbeat(_, _) => UseKeepsRows(s, a);
    case Verify(_) => UseKeepsRows(s, a);
    case Commit(_) => UseKeepsRows(s, a);
    case _ => LeaveKeepsRows(s, a);
  }

  lemma {:induction false} RunKeepsRows(s: State, actions: seq<Action>)
    requires RowsAgree(s) && Runs(s, actions)
    ensures RowsAgree(After(s, actions))
    decreases |actions|
  {
    if actions != [] {
      StepKeepsRows(s, actions[0]);
      RunKeepsRows(Next(s, actions[0]), actions[1..]);
    }
  }
}
