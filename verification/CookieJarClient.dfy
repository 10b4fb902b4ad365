/** One execution in `acquire`: each method takes one step of the protocol. */
module CookieJarClient {
  // The closure variables behind the handle of one execution, and the transactions it runs.

  import opened Wrappers
  import opened CookieAdmission
  import opened CookieAdmissionRuns

  class Execution {
    const id: ExecutionId
    const rows: CookieJarRows
    var handle: Option<Handle>

    constructor (rows: CookieJarRows, id: ExecutionId)
      ensures this.rows == rows && this.id == id && handle == None
    {
      this.rows, this.id, handle := rows, id, None;
    }

    /** The rows and this execution's handle, as a state of the protocol at time `now`. */
    function Here(now: int): State
      reads this, rows
    {
      State(now, rows.Rows(), if handle.Some? then map[id := handle.value] else map[], [])
    }

    predicate At(s: State)
      reads this, rows
    {
      rows.Rows() == s.t && Here(s.now).handles == s.handles
    }

    method JoinQueue(now: int, mode: Mode, deadline: int)
      requires Enabled(Here(now), Enqueue(id, mode, deadline))
      modifies this, rows
      ensures At(Next(old(Here(now)), Enqueue(id, mode, deadline)))
    {
      rows.Enqueue(now, id, mode, deadline);
      handle := Some(Waiting(mode, deadline));
      assert Here(now).handles == map[][id := Waiting(mode, deadline)];
    }

    /** One turn of the polling loop. */
    method PollOnce(now: int)
      requires Enabled(Here(now), Poll(id))
      modifies this, rows
      ensures At(Next(old(Here(now)), Poll(id)))
    {
      var deadline := handle.value.deadline;
      if handle.value.mode == Optimistic {
        var admitted := rows.TryAdmitOptimistic(now, id);
        if admitted {
          handle := Some(Reader(deadline, false));
        }
      } else {
        var fence := rows.TryAcquire(now, id, deadline);
        if fence.Some? {
          handle := Some(Writer(fence.value, deadline, true, false));
        }
      }
      assert Here(now).handles == old(Here(now)).handles[id := handle.value];
    }

    /** The polling loop ended at the deadline without an admission. */
    method TimeOut(now: int)
      requires Enabled(Here(now), GiveUp(id))
      modifies this, rows
      ensures At(Next(old(Here(now)), GiveUp(id)))
    {
      rows.RemoveWaiter(id);
      handle := Some(GaveUp);
      assert Here(now).handles == old(Here(now)).handles[id := GaveUp];
    }

    method Beat(now: int, databaseFailed: bool)
      requires Enabled(Here(now), Heartbeat(id, databaseFailed))
      modifies this, rows
      ensures At(Next(old(Here(now)), Heartbeat(id, databaseFailed)))
    {
      var h := handle.value;
      var renewed := false;
      if !databaseFailed {
        renewed := rows.Renew(now, id, h.fence, h.deadline);
      }
      if !renewed {
        handle := Some(h.(valid := false));
      }
      assert Here(now).handles == old(Here(now)).handles[id := handle.value];
    }

    /** `assertValid` followed by `verify` against the rows of the caller's transaction. */
    method Check(now: int) returns (passed: bool)
      requires Held(Here(now), id)
      modifies this
      ensures passed == Passes(old(Here(now)), id)
      ensures At(Next(old(Here(now)), Verify(id)))
    {
      match handle.value
      case Reader(deadline, _) =>
        passed := now < deadline;
      case Writer(fence, deadline, valid, released) =>
        passed := valid && now < deadline;
        if passed {
          passed := !(rows.leaseOwner == None || rows.leaseOwner.value != id || rows.leaseFence != fence || rows.leaseExpiresAt.GetOr(0) <= now);
        }
        if !passed {
          handle := Some(Writer(fence, deadline, false, released));
        }
        assert Here(now).handles == old(Here(now)).handles[id := handle.value];
    }

    /** Releasing twice is harmless. */
    method Finish(now: int)
      requires handle.Some? && (handle.value.Reader? || handle.value.Writer?)
      modifies this, rows
      ensures old(handle.value.released) ==> At(old(Here(now)))
      ensures !old(handle.value.released) ==> At(Next(old(Here(now)), Release(id)))
    {
      var h := handle.value;
      if h.released {
        return;
      }
      handle := Some(h.(released := true));
      if h.Writer? {
        rows.ReleaseLease(id, h.fence);
      } else {
        rows.RemoveWaiter(id);
      }
      assert Here(now).handles == old(Here(now)).handles[id := handle.value];
    }
  }
}
