/** What heartbeats are for. */
module CookieHeartbeat {
  // How long an exclusive holder keeps its lease: as long as it beats in time, and no longer
  // than one lease after it stops.

  import opened Wrappers
  import opened CookieAdmission
  import opened CookieAdmissionRuns

  /** A serialized handle that has not been released and passes its checks. */
  predicate Holds(s: State, id: ExecutionId) {
    Held(s, id) && s.handles[id].Writer? && Passes(s, id)
  }

  /** The lease runs at least 15 seconds from time `last`, or to the deadline of the holder. */
  predicate LeasedSince(s: State, id: ExecutionId, last: int) {
    Holds(s, id) && Min(last + 15_000, s.handles[id].deadline) <= s.t.leaseExpiresAt.GetOr(0)
  }

  /** When a step leaves the holder in time: no release, no failed heartbeat, and no wait to its deadline or for a whole lease. */
  predicate InTime(s: State, a: Action, id: ExecutionId, last: int)
    requires id in s.handles && s.handles[id].Writer?
  {
    && (a.Release? ==> a.id != id)
    && (a.Heartbeat? && a.id == id ==> !a.failed)
    && (a.Tick? ==> a.later < s.handles[id].deadline && a.later < last + 15_000)
  }

  /** The time of the last heartbeat after the step. */
  function LastBeat(s: State, a: Action, id: ExecutionId, last: int): int {
    if a.Heartbeat? && a.id == id then s.now else last
  }

  ghost predicate BeatsInTime(s: State, actions: seq<Action>, id: ExecutionId, last: int)
    requires Runs(s, actions)
    decreases |actions|
  {
    actions == []
    || (&& id in s.handles && s.handles[id].Writer? && InTime(s, actions[0], id, last)
        && BeatsInTime(Next(s, actions[0]), actions[1..], id, LastBeat(s, actions[0], id, last)))
  }

  /** A heartbeat of a holder extends its lease to 15 seconds from now, or to its deadline, and changes nothing else. */
  lemma BeatExtends(s: State, id: ExecutionId)
    requires Holds(s, id)
    ensures var deadline := s.handles[id].deadline;
            Next(s, Heartbeat(id, false))
            == s.(t := s.t.(leaseExpiresAt := Some(if s.now + 15_000 < deadline then s.now + 15_000 else deadline)))
    ensures Holds(Next(s, Heartbeat(id, false)), id)
  {
  }

  /** What others do leaves the holder of a live lease alone. */
  lemma OthersKeepLease(s: State, a: Action, id: ExecutionId)
    requires Holds(s, id) && Enabled(s, a) && !a.Tick? && !(a.Release? && a.id == id) && !(a.Heartbeat? && a.id == id)
    ensures var s' := Next(s, a);
            && Holds(s', id) && s'.handles[id] == s.handles[id]
            && s'.t.leaseExpiresAt == s.t.leaseExpiresAt && s'.now == s.now
  {
  }

  lemma StepKeepsLease(s: State, a: Action, id: ExecutionId, last: int)
    requires LeasedSince(s, id, last) && Enabled(s, a) && InTime(s, a, id, last)
    ensures LeasedSince(Next(s, a), id, LastBeat(s, a, id, last))
  {
    if a.Heartbeat? && a.id == id {
      BeatExtends(s, id);
    } else if !a.Tick? {
      OthersKeepLease(s, a, id);
    }
  }

  /**
   A holder that beats in time keeps its lease: whatever others do, as long as it does not
   release, none of its heartbeats fails, and the clock reaches neither its deadline nor 15
   seconds since its last heartbeat, it still passes its checks.
   */
  lemma {:induction false} BeatingKeepsLease(s: State, actions: seq<Action>, id: ExecutionId, last: int)
    requires LeasedSince(s, id, last) && Runs(s, actions) && BeatsInTime(s, actions, id, last)
    ensures Holds(After(s, actions), id)
    decreases |actions|
  {
    if actions != [] {
      StepKeepsLease(s, actions[0], id, last);
      BeatingKeepsLease(Next(s, actions[0]), actions[1..], id, LastBeat(s, actions[0], id, last));
    }
  }

  /** The same from the grant on, in every run. */
  lemma GrantedWriterKeepsLease(initial: State, before: seq<Action>, id: ExecutionId, more: seq<Action>)
    requires Initial(initial) && Runs(initial, before)
    requires var s := After(initial, before);
             && Enabled(s, Poll(id)) && s.handles[id].mode == Serialized && Next(s, Poll(id)).handles[id].Writer?
             && Runs(Next(s, Poll(id)), more) && BeatsInTime(Next(s, Poll(id)), more, id, s.now)
    ensures Holds(After(Next(After(initial, before), Poll(id)), more), id)
  {
    RunKeepsRows(initial, before);
    var s := After(initial, before);
    assert RowMatches(s, id);
    BeatingKeepsLease(Next(s, Poll(id)), more, id, s.now);
  }

  // ---------------------------------------------------------------------
  // How long at most
  // ---------------------------------------------------------------------

  /** No lease runs longer than 15 seconds from now. */
  predicate LeaseIsShort(s: State) {
    s.t.owner.Some? ==> s.t.leaseExpiresAt.GetOr(0) <= s.now + 15_000
  }

  /** Steps among which there is no heartbeat of this execution. */
  ghost predicate Silent(s: State, actions: seq<Action>, id: ExecutionId)
    requires Runs(s, actions)
    decreases |actions|
  {
    actions == []
    || (!(actions[0].Heartbeat? && actions[0].id == id) && Silent(Next(s, actions[0]), actions[1..], id))
  }

  lemma {:induction false} LeasesAreShort(s: State, actions: seq<Action>)
    requires RowsAgree(s) && LeaseIsShort(s) && Runs(s, actions)
    ensures RowsAgree(After(s, actions)) && LeaseIsShort(After(s, actions))
    decreases |actions|
  {
    if actions != [] {
      StepKeepsRows(s, actions[0]);
      LeasesAreShort(Next(s, actions[0]), actions[1..]);
    }
  }

  /** The lease of a silent writer ends when it would have ended. */
  lemma {:induction false} SilentLeaseEnds(s: State, actions: seq<Action>, id: ExecutionId, end: int)
    requires Runs(s, actions) && Silent(s, actions, id)
    requires id in s.handles && s.handles[id].Writer? && (s.t.owner == Some(id) ==> s.t.leaseExpiresAt.GetOr(0) <= end)
    ensures var t := After(s, actions);
            id in t.handles && t.handles[id].Writer? && (t.t.owner == Some(id) ==> t.t.leaseExpiresAt.GetOr(0) <= end)
    decreases |actions|
  {
    if actions != [] {
      SilentLeaseEnds(Next(s, actions[0]), actions[1..], id, end);
    }
  }

  /** In every run a writer that stops beating has lost its lease 15 seconds later. */
  lemma SilentHolderLapses(initial: State, before: seq<Action>, more: seq<Action>, id: ExecutionId)
    requires Initial(initial) && Runs(initial, before)
    requires var s := After(initial, before);
             && id in s.handles && s.handles[id].Writer?
             && Runs(s, more) && Silent(s, more, id) && After(s, more).now >= s.now + 15_000
    ensures !Holds(After(After(initial, before), more), id)
  {
    LeasesAreShort(initial, before);
    var s := After(initial, before);
    SilentLeaseEnds(s, more, id, s.now + 15_000);
  }

  // ---------------------------------------------------------------------
  // Lost for good, and readers
  // ---------------------------------------------------------------------

  /** A heartbeat that fails, comes late or belongs to no current owner loses the handle. */
  lemma RefusedBeatLoses(s: State, id: ExecutionId, failed: bool)
    requires id in s.handles && s.handles[id].Writer?
    requires failed || s.handles[id].deadline <= s.now || s.t.owner != Some(id) || s.t.fence != s.handles[id].fence
    ensures var s' := Next(s, Heartbeat(id, failed));
            s' == s.(handles := s.handles[id := s.handles[id].(valid := false)])
  {
  }

  /** A lost handle never passes again. */
  lemma {:induction false} LostStaysLost(s: State, actions: seq<Action>, id: ExecutionId)
    requires Runs(s, actions) && id in s.handles && s.handles[id].Writer? && !s.handles[id].valid
    ensures !Holds(After(s, actions), id)
    ensures id in After(s, actions).handles && After(s, actions).handles[id].Writer? && !After(s, actions).handles[id].valid
    decreases |actions|
  {
    if actions != [] {
      LostStaysLost(Next(s, actions[0]), actions[1..], id);
    }
  }

  /** A reader that does not release passes exactly until its deadline, whatever others do. */
  lemma {:induction false} ReaderPassesUntilDeadline(s: State, actions: seq<Action>, id: ExecutionId, deadline: int)
    requires Runs(s, actions) && id in s.handles && s.handles[id] == Reader(deadline, false)
    requires Release(id) !in actions
    ensures Held(After(s, actions), id) && (Passes(After(s, actions), id) <==> After(s, actions).now < deadline)
    decreases |actions|
  {
    if actions != [] {
      assert actions[0] != Release(id) && forall a :: a in actions[1..] ==> a in actions;
      ReaderPassesUntilDeadline(Next(s, actions[0]), actions[1..], id, deadline);
    }
  }
}
