/** Fencing of exclusive writers. */
module CookieFencing {
  // Grants and writes over whole runs. Fences protect writers from each other in every run;
  // only keeping readers out depends on the order of arrivals.

  import opened Wrappers
  import opened CookieAdmission
  import opened CookieAdmissionRuns
  import opened CookieExclusion

  /** A grant, or a write under the exclusive lease. */
  predicate Exclusive(e: Event) {
    e.Grant? || (e.Apply? && e.mode == Serialized)
  }

  /** What may be logged while `id` holds the lease: its own writes, and perhaps what readers do. */
  predicate Allowed(e: Event, id: ExecutionId, readers: bool) {
    e == Apply(id, Serialized) || (readers && !Exclusive(e))
  }

  /** Grant number `g` went to `id`, and only what is allowed was logged since. */
  ghost predicate HeldSince(log: seq<Event>, g: int, id: ExecutionId, fence: nat, readers: bool) {
    0 <= g < |log| && log[g] == Grant(id, fence) && forall k :: g < k < |log| ==> Allowed(log[k], id, readers)
  }

  ghost predicate FencesRise(log: seq<Event>) {
    forall i, j :: 0 <= i < j < |log| && log[i].Grant? && log[j].Grant? ==> log[i].fence < log[j].fence
  }

  /** Each exclusive write follows a grant to its writer, with nothing between but what is allowed. */
  ghost predicate Isolated(log: seq<Event>, readers: bool) {
    forall k :: 0 <= k < |log| && log[k].Apply? && log[k].mode == Serialized ==>
      exists g, fence :: HeldSince(log[..k], g, log[k].id, fence, readers)
  }

  ghost predicate LogInv(s: State, readers: bool) {
    && FencesRise(s.log)
    && (forall i :: 0 <= i < |s.log| && s.log[i].Grant? ==> s.log[i].fence <= s.t.fence)
    && (s.t.owner.Some? ==> exists g :: HeldSince(s.log, g, s.t.owner.value, s.t.fence, readers))
    && Isolated(s.log, readers)
  }

  lemma IsolatedSnoc(log: seq<Event>, e: Event, readers: bool)
    requires Isolated(log, readers)
    requires e.Apply? && e.mode == Serialized ==> exists g, fence :: HeldSince(log, g, e.id, fence, readers)
    ensures Isolated(log + [e], readers)
  {
    var extended := log + [e];
    forall k | 0 <= k < |extended| && extended[k].Apply? && extended[k].mode == Serialized
      ensures exists g, fence :: HeldSince(extended[..k], g, extended[k].id, fence, readers)
    {
      if k == |log| {
        assert extended[..k] == log;
      } else {
        assert extended[..k] == log[..k];
      }
    }
  }

  /** A step that logs nothing keeps the owner with its fence, or leaves no owner. */
  lemma SilentStep(s: State, a: Action)
    requires Enabled(s, a) && Next(s, a).log == s.log
    ensures Next(s, a).t.fence == s.t.fence
    ensures Next(s, a).t.owner == s.t.owner || Next(s, a).t.owner == None
  {
  }

  /** The step from `s` to `s'` logs `e`, with what that says about the owner. */
  ghost predicate Logs(s: State, s': State, e: Event, readers: bool) {
    && s'.log == s.log + [e]
    && match e
       case Admit(_) => s'.t.owner == None && s'.t.fence == s.t.fence
       case Grant(id, fence) => s'.t.owner == Some(id) && s'.t.fence == fence == s.t.fence + 1
       case Apply(id, mode) =>
         && s'.t == s.t
         && (mode == Serialized ==> s.t.owner == Some(id))
         && (s.t.owner.Some? ==> Allowed(e, s.t.owner.value, readers))
  }

  lemma PollLogs(s: State, id: ExecutionId, readers: bool) returns (e: Event)
    requires Enabled(s, Poll(id)) && Next(s, Poll(id)).log != s.log
    ensures Logs(s, Next(s, Poll(id)), e, readers)
  {
    if s.handles[id].mode == Optimistic {
      e := Admit(id);
      assert !LeaseLive(Clean(s.t, s.now), s.now);
    } else {
      e := Grant(id, s.t.fence + 1);
    }
  }

  /** A write under the lease is the owner's; a reader's write meets no owner if readers come first. */
  lemma CommitLogs(s: State, id: ExecutionId, readers: bool) returns (e: Event)
    requires readers || ReadersFirst(s)
    requires Enabled(s, Commit(id)) && Next(s, Commit(id)).log != s.log
    ensures Logs(s, Next(s, Commit(id)), e, readers)
  {
    e := Apply(id, if s.handles[id].Writer? then Serialized else Optimistic);
    assert Passes(s, id);
    assert s.handles[id].Reader? ==> LiveReader(s.handles, s.now, id);
  }

  lemma LogGrows(s: State, s': State, e: Event, readers: bool)
    requires LogInv(s, readers) && Logs(s, s', e, readers)
    ensures LogInv(s', readers)
  {
    IsolatedSnoc(s.log, e, readers);
    if e.Grant? {
      assert HeldSince(s'.log, |s.log|, e.id, e.fence, readers);
    }
    if e.Apply? && s.t.owner.Some? {
      var g :| HeldSince(s.log, g, s.t.owner.value, s.t.fence, readers);
      assert HeldSince(s'.log, g, s.t.owner.value, s.t.fence, readers);
    }
  }

  lemma StepKeepsLogInv(s: State, a: Action, readers: bool)
    requires LogInv(s, readers) && Enabled(s, a) && (readers || ReadersFirst(s))
    ensures LogInv(Next(s, a), readers)
  {
    var s' := Next(s, a);
    if s'.log == s.log {
      SilentStep(s, a);
    } else if a.Poll? {
      var e := PollLogs(s, a.id, readers);
      LogGrows(s, s', e, readers);
    } else {
      var e := CommitLogs(s, a.id, readers);
      LogGrows(s, s', e, readers);
    }
  }

  lemma {:induction false} RunKeepsFences(s: State, actions: seq<Action>)
    requires LogInv(s, true) && Runs(s, actions)
    ensures LogInv(After(s, actions), true)
    decreases |actions|
  {
    if actions != [] {
      StepKeepsLogInv(s, actions[0], true);
      RunKeepsFences(Next(s, actions[0]), actions[1..]);
    }
  }

  lemma {:induction false} OrderlyRunKeepsLogInv(s: State, actions: seq<Action>)
    requires Inv(s) && LogInv(s, false) && Runs(s, actions) && OrderlyRun(s, actions)
    ensures LogInv(After(s, actions), false)
    decreases |actions|
  {
    if actions != [] {
      StepKeepsInv(s, actions[0]);
      StepKeepsLogInv(s, actions[0], false);
      OrderlyRunKeepsLogInv(Next(s, actions[0]), actions[1..]);
    }
  }

  /**
   In every run fences rise, and between the grant of a holder and each of its writes
   there is no other grant and no other exclusive write.
   */
  lemma WritersAreFenced(s: State, actions: seq<Action>)
    requires Initial(s) && Runs(s, actions)
    ensures FencesRise(After(s, actions).log)
    ensures Isolated(After(s, actions).log, true)
  {
    RunKeepsFences(s, actions);
  }

  /** In every run a serialized handle that still verifies owns the latest grant of the whole run. */
  lemma VerifiedHandleHasLatestGrant(s: State, actions: seq<Action>, id: ExecutionId)
    requires Initial(s) && Runs(s, actions)
    requires Held(After(s, actions), id) && After(s, actions).handles[id].Writer? && Passes(After(s, actions), id)
    ensures exists g :: HeldSince(After(s, actions).log, g, id, After(s, actions).handles[id].fence, true)
  {
    RunKeepsFences(s, actions);
  }

  /** If writers queue behind live readers, readers do nothing either between a grant and the writes under it. */
  lemma ReadersStayOut(s: State, actions: seq<Action>)
    requires Initial(s) && Runs(s, actions) && OrderlyRun(s, actions)
    ensures Isolated(After(s, actions).log, false)
  {
    OrderlyRunKeepsLogInv(s, actions);
  }
}
