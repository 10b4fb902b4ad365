/** Rows and transactions of cookie-jar admission. */
module CookieAdmission {
  // A queue table of waiting executions, an expiring exclusive lease with a fence counter, and
  // the transactions on them; every database transaction of the source is one atomic step.

  import opened Wrappers

  const LEASE_DURATION_MS := 15_000

  /** A 16-byte identifier read as an unsigned big-endian number, so `<` is the byte order. */
  type ExecutionId = nat

  datatype Mode = Optimistic | Serialized

  /** One row of the queue table. */
  datatype Waiter = Waiter(mode: Mode, enqueuedAt: int, expiresAt: int)

  /** The lease columns of the jar row and its queue rows. */
  datatype Table = Table(
    owner: Option<ExecutionId>,
    fence: nat,
    leaseExpiresAt: Option<int>,
    waiters: map<ExecutionId, Waiter>
  )

  /** The order of the queue: enqueue time first, then execution id. */
  predicate KeyBefore(atA: int, a: ExecutionId, atB: int, b: ExecutionId) {
    atA < atB || (atA == atB && a < b)
  }

  predicate RowBefore(waiters: map<ExecutionId, Waiter>, a: ExecutionId, b: ExecutionId)
    requires a in waiters && b in waiters
  {
    KeyBefore(waiters[a].enqueuedAt, a, waiters[b].enqueuedAt, b)
  }

  predicate IsHead(waiters: map<ExecutionId, Waiter>, id: ExecutionId) {
    id in waiters && forall other: ExecutionId :: other in waiters && other != id ==> RowBefore(waiters, id, other)
  }

  predicate EarlierWriter(waiters: map<ExecutionId, Waiter>, writer: ExecutionId, id: ExecutionId)
    requires id in waiters
  {
    writer in waiters && waiters[writer].mode == Serialized && RowBefore(waiters, writer, id)
  }

  predicate LeaseLive(t: Table, now: int) {
    t.owner.Some? && t.leaseExpiresAt.GetOr(0) > now
  }

  /** A stored owner whose lease time has passed. */
  predicate LeaseLapsed(t: Table, now: int) {
    t.owner.Some? && t.leaseExpiresAt.GetOr(0) <= now
  }

  // ---------------------------------------------------------------------
  // What each transaction does to the table
  // ---------------------------------------------------------------------

  function Clean(t: Table, now: int): Table {
    var lapsed := LeaseLapsed(t, now);
    Table(
      if lapsed then None else t.owner,
      t.fence,
      if lapsed then None else t.leaseExpiresAt,
      map id | id in t.waiters && now < t.waiters[id].expiresAt && !(lapsed && t.owner == Some(id)) :: t.waiters[id])
  }

  function Enqueued(t: Table, now: int, id: ExecutionId, mode: Mode, deadline: int): Table {
    var c := Clean(t, now);
    if id in c.waiters then c else c.(waiters := c.waiters[id := Waiter(mode, now, deadline)])
  }

  predicate Admissible(t: Table, now: int, id: ExecutionId) {
    var c := Clean(t, now);
    id in c.waiters && !LeaseLive(c, now) && forall w :: w in c.waiters ==> !EarlierWriter(c.waiters, w, id)
  }

  predicate Acquirable(t: Table, now: int, id: ExecutionId) {
    var c := Clean(t, now);
    IsHead(c.waiters, id) && c.waiters[id].mode == Serialized && !LeaseLive(c, now)
  }

  function Min(a: int, b: int): int {
    if a < b then a else b
  }

  function Granted(t: Table, now: int, id: ExecutionId, deadline: int): Table {
    Clean(t, now).(owner := Some(id), fence := t.fence + 1, leaseExpiresAt := Some(Min(now + LEASE_DURATION_MS, deadline)))
  }

  predicate Renewable(t: Table, now: int, id: ExecutionId, fence: nat, deadline: int) {
    now < deadline && t.owner == Some(id) && t.fence == fence
  }

  function Without(t: Table, id: ExecutionId): Table {
    t.(waiters := t.waiters - {id})
  }

  function Freed(t: Table, id: ExecutionId, fence: nat): Table {
    var w := Without(t, id);
    if t.owner == Some(id) && t.fence == fence then w.(owner := None, leaseExpiresAt := None) else w
  }

  /** The check a serialized handle makes inside the transaction that uses it. */
  predicate Verified(t: Table, now: int, id: ExecutionId, fence: nat, deadline: int) {
    now < deadline && t.owner == Some(id) && t.fence == fence && LeaseLive(t, now)
  }

  // ---------------------------------------------------------------------
  // The stored rows, changed statement by statement
  // ---------------------------------------------------------------------

  class CookieJarRows {
    var leaseOwner: Option<ExecutionId>
    var leaseFence: nat
    var leaseExpiresAt: Option<int>
    var waiters: map<ExecutionId, Waiter>

    constructor ()
      ensures Rows() == Table(None, 0, None, map[])
    {
      leaseOwner, leaseFence, leaseExpiresAt, waiters := None, 0, None, map[];
    }

    function Rows(): Table
      reads this
    {
      Table(leaseOwner, leaseFence, leaseExpiresAt, waiters)
    }

    method CleanAdmission(now: int)
      modifies this
      ensures Rows() == Clean(old(Rows()), now)
    {
      var owner, expires := leaseOwner, leaseExpiresAt;
      waiters := map id | id in waiters && !(waiters[id].expiresAt <= now) :: waiters[id];
      if owner.Some? && expires.GetOr(0) <= now {
        waiters := waiters - {owner.value};
        if leaseOwner == owner {
          leaseOwner, leaseExpiresAt := None, None;
        }
      }
      assert Rows().waiters == Clean(old(Rows()), now).waiters;
    }

    method Enqueue(now: int, id: ExecutionId, mode: Mode, deadline: int)
      modifies this
      ensures Rows() == Enqueued(old(Rows()), now, id, mode, deadline)
    {
      CleanAdmission(now);
      if id !in waiters {
        waiters := waiters[id := Waiter(mode, now, deadline)];
      }
    }

    method TryAdmitOptimistic(now: int, id: ExecutionId) returns (admitted: bool)
      modifies this
      ensures Rows() == Clean(old(Rows()), now)
      ensures admitted == Admissible(old(Rows()), now, id)
    {
      CleanAdmission(now);
      if id !in waiters {
        return false;
      }
      if leaseOwner.Some? && leaseExpiresAt.GetOr(0) > now {
        return false;
      }
      var row := waiters[id];
      return !exists w ::
          && w in waiters
          && waiters[w].mode == Serialized
          && (waiters[w].enqueuedAt < row.enqueuedAt || (waiters[w].enqueuedAt == row.enqueuedAt && w < id));
    }

    method TryAcquire(now: int, id: ExecutionId, deadline: int) returns (fence: Option<nat>)
      modifies this
      ensures var before := old(Rows());
              if Acquirable(before, now, id)
              then fence == Some(before.fence + 1) && Rows() == Granted(before, now, id, deadline)
              else fence == None && Rows() == Clean(before, now)
    {
      CleanAdmission(now);
      var first := Head();
      if first != Some(id) || waiters[id].mode != Serialized {
        return None;
      }
      if leaseOwner.Some? && leaseExpiresAt.GetOr(0) > now {
        return None;
      }
      var next := leaseFence + 1;
      leaseOwner, leaseFence, leaseExpiresAt := Some(id), next, Some(Min(now + LEASE_DURATION_MS, deadline));
      return Some(next);
    }

    /** The first row in queue order, if any. */
    method Head() returns (first: Option<ExecutionId>)
      ensures first == None <==> waiters == map[]
      ensures forall id: ExecutionId :: first == Some(id) <==> IsHead(waiters, id)
    {
      first := None;
      var rest := waiters.Keys;
      while rest != {}
        invariant rest <= waiters.Keys
        invariant first == None <==> rest == waiters.Keys
        invariant first.Some? ==> first.value in waiters && first.value !in rest
        invariant first.Some? ==>
                    forall id: ExecutionId :: id in waiters && id !in rest && id != first.value ==> RowBefore(waiters, first.value, id)
      {
        var id :| id in rest;
        rest := rest - {id};
        if first == None || RowBefore(waiters, id, first.value) {
          first := Some(id);
        }
      }
      assert waiters.Keys == {} <==> waiters == map[];
    }

    method Renew(now: int, id: ExecutionId, fence: nat, deadline: int) returns (renewed: bool)
      modifies this
      ensures renewed == Renewable(old(Rows()), now, id, fence, deadline)
      ensures Rows() == if renewed
                        then old(Rows()).(leaseExpiresAt := Some(Min(now + LEASE_DURATION_MS, deadline)))
                        else old(Rows())
    {
      if now >= deadline {
        return false;
      }
      renewed := leaseOwner == Some(id) && leaseFence == fence;
      if renewed {
        leaseExpiresAt := Some(Min(now + LEASE_DURATION_MS, deadline));
      }
    }

    method RemoveWaiter(id: ExecutionId)
      modifies this
      ensures Rows() == Without(old(Rows()), id)
    {
      waiters := waiters - {id};
    }

    method ReleaseLease(id: ExecutionId, fence: nat)
      modifies this
      ensures Rows() == Freed(old(Rows()), id, fence)
    {
      waiters := waiters - {id};
      if leaseOwner == Some(id) && leaseFence == fence {
        leaseOwner, leaseExpiresAt := None, None;
      }
    }
  }
}
