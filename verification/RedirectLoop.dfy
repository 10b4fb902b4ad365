/** The loop that follows redirects, bounded. */
module RedirectLoop {
  import opened Wrappers
  import opened RedirectRequest
  import opened RedirectChains

  const MAX_RESPONSE_BYTES: nat := 1_073_741_824
  const MAX_REDIRECTS_HARD_LIMIT: nat := 50

  /** A validated policy. */
  predicate PolicyValid(policy: Policy) {
    policy.maxRedirects <= MAX_REDIRECTS_HARD_LIMIT
  }

  datatype Response = Response(status: nat, headers: seq<ResponseHeader>, bodyBytes: nat)

  /**
   What the outside does with one exchange: the deadline has passed, the transport fails,
   or a response comes; then the stored body may differ, or the next exchange may not be
   created.
   */
  datatype Exchange =
    | Expired
    | TransportFails
    | Answered(response: Response, storedBytes: nat, storedIntact: bool, nextCreated: bool)

  /** The exchange as a function of its number and its hop. */
  type World = (nat, Hop) -> Exchange

  datatype End =
    | Completed(decision: Decision)
    | TimedOut
    | BudgetUsedUp
    | TransportFailed
    | StoredBodyDiffers
    | NextNotCreated

  /** One row of the executions table: its exchange number and the hop it was made for. */
  datatype Row = Row(exchangeSequence: nat, hop: Hop)

  /** The decision of one exchange under the byte budget. */
  function Budgeted(decision: Decision, aggregate: nat, bodyBytes: nat): Decision {
    if decision.Follow? && aggregate + bodyBytes >= MAX_RESPONSE_BYTES then Failed(ResponseSizeLimit) else decision
  }

  /** The rows number the hops of a chain of redirects from 0. */
  ghost predicate RowsOfChain(rows: seq<Row>, first: Hop) {
    && rows != [] && rows[0].hop == first
    && (forall i: nat {:trigger Numbered(rows, i)} :: i < |rows| ==> Numbered(rows, i))
    && IsChain(Hops(rows))
  }

  predicate Numbered(rows: seq<Row>, i: nat)
    requires i < |rows|
  {
    rows[i].exchangeSequence == i
  }

  function Hops(rows: seq<Row>): seq<Hop> {
    if rows == [] then [] else Hops(rows[..|rows| - 1]) + [rows[|rows| - 1].hop]
  }

  lemma {:induction false} HopAt(rows: seq<Row>, i: nat)
    requires i < |rows|
    ensures |Hops(rows)| == |rows| && Hops(rows)[i] == rows[i].hop
  {
    var n := |rows| - 1;
    if i < n {
      HopAt(rows[..n], i);
    } else if n > 0 {
      HopAt(rows[..n], 0);
    }
  }

  lemma ChainGrows(rows: seq<Row>, first: Hop, next: Hop)
    requires RowsOfChain(rows, first) && Follows(rows[|rows| - 1].hop, next)
    ensures RowsOfChain(rows + [Row(|rows|, next)], first)
  {
    var more := rows + [Row(|rows|, next)];
    assert more[..|rows|] == rows;
    HopAt(rows, |rows| - 1);
    forall i: nat | i < |more|
      ensures Numbered(more, i)
    {
      assert i < |rows| ==> Numbered(rows, i);
    }
    forall i: nat | i + 1 < |Hops(more)|
      ensures LinkedAt(Hops(more), i)
    {
      HopAt(more, i);
      HopAt(more, i + 1);
      if i + 1 < |rows| {
        HopAt(rows, i);
        assert LinkedAt(Hops(rows), i);
      }
    }
  }

  /** Bytes of the bodies stored so far. */
  function Stored(sizes: seq<nat>): nat {
    if sizes == [] then 0 else Stored(sizes[..|sizes| - 1]) + sizes[|sizes| - 1]
  }

  /** How an exchange ends the run, after the bytes stored before; `None` when its redirect is followed. */
  function Concluded(exchange: Exchange, row: Row, aggregate: nat, policy: Policy, resolve: Resolver): Option<End> {
    match exchange
    case Expired => Some(TimedOut)
    case TransportFails => Some(TransportFailed)
    case Answered(response, storedBytes, storedIntact, nextCreated) =>
      var decision := Budgeted(DecisionOf(response, row, policy, resolve), aggregate, response.bodyBytes);
      if !decision.Follow? then Some(Completed(decision))
      else if storedBytes != response.bodyBytes || !storedIntact then Some(StoredBodyDiffers)
      else if !nextCreated then Some(NextNotCreated)
      else None
  }

  /** The decision on a response to the hop of a row: as many redirects were followed as the row's number says. */
  function DecisionOf(response: Response, row: Row, policy: Policy, resolve: Resolver): Decision {
    DecisionFor(response.status, response.headers, row.hop.request, row.hop.script, policy, row.exchangeSequence, resolve)
  }

  /** An exchange leads on exactly if a followed redirect stays below the byte limit, is stored intact and gets its next exchange. */
  lemma LeadsOnIff(exchange: Exchange, row: Row, aggregate: nat, policy: Policy, resolve: Resolver)
    ensures Concluded(exchange, row, aggregate, policy, resolve) == None
            <==> && exchange.Answered?
                 && DecisionOf(exchange.response, row, policy, resolve).Follow?
                 && aggregate + exchange.response.bodyBytes < 1_073_741_824
                 && exchange.storedBytes == exchange.response.bodyBytes && exchange.storedIntact && exchange.nextCreated
  {
  }

  /** How else an exchange ends the run: every end has its own condition. */
  lemma EndsIff(exchange: Exchange, row: Row, aggregate: nat, policy: Policy, resolve: Resolver)
    ensures var end := Concluded(exchange, row, aggregate, policy, resolve);
            && (end == Some(TimedOut) <==> exchange == Expired)
            && (end == Some(TransportFailed) <==> exchange == TransportFails)
            && end != Some(BudgetUsedUp)
    ensures exchange.Answered? ==>
              var end, d := Concluded(exchange, row, aggregate, policy, resolve), DecisionOf(exchange.response, row, policy, resolve);
              var fits := d.Follow? && aggregate + exchange.response.bodyBytes < 1_073_741_824;
              var intact := exchange.storedBytes == exchange.response.bodyBytes && exchange.storedIntact;
              && (end == Some(Completed(Failed(ResponseSizeLimit))) <==> d.Follow? && !fits)
              && (!d.Follow? ==> end == Some(Completed(d)))
              && (end == Some(StoredBodyDiffers) <==> fits && !intact)
              && (end == Some(NextNotCreated) <==> fits && intact && !exchange.nextCreated)
  {
  }

  /** The exchange of a row led to the next row, and this many bytes were stored for it. */
  predicate Linked(row: Row, next: Row, aggregate: nat, size: nat, policy: Policy, resolve: Resolver, world: World) {
    var exchange := world(row.exchangeSequence, row.hop);
    && Concluded(exchange, row, aggregate, policy, resolve) == None
    && size == exchange.response.bodyBytes
    && var decision := DecisionOf(exchange.response, row, policy, resolve);
       decision.Follow? && next.hop == Hop(decision.request, decision.script)
  }

  predicate LinkHolds(rows: seq<Row>, stored: seq<nat>, i: nat, policy: Policy, resolve: Resolver, world: World)
    requires i + 1 < |rows| && i < |stored|
  {
    Linked(rows[i], rows[i + 1], Stored(stored[..i]), stored[i], policy, resolve, world)
  }

  ghost predicate AllLinked(rows: seq<Row>, stored: seq<nat>, policy: Policy, resolve: Resolver, world: World) {
    |rows| <= |stored| + 1
    && forall i: nat {:trigger LinkHolds(rows, stored, i, policy, resolve, world)} ::
         i + 1 < |rows| ==> LinkHolds(rows, stored, i, policy, resolve, world)
  }

  lemma LinksGrow(rows: seq<Row>, stored: seq<nat>, next: Row, size: nat, policy: Policy, resolve: Resolver, world: World)
    requires |rows| == |stored| + 1 && AllLinked(rows, stored, policy, resolve, world)
    requires Linked(rows[|rows| - 1], next, Stored(stored), size, policy, resolve, world)
    ensures AllLinked(rows + [next], stored + [size], policy, resolve, world)
  {
    forall i: nat | i < |rows|
      ensures LinkHolds(rows + [next], stored + [size], i, policy, resolve, world)
    {
      assert (stored + [size])[..i] == stored[..i];
      if i == |stored| {
        assert stored[..i] == stored;
      } else {
        assert LinkHolds(rows, stored, i, policy, resolve, world);
      }
    }
  }

  /**
   One turn of the loop: sends the hop of a row and decides on the response. Either the
   run ends, or the response is stored and the next hop is made from it.
   */
  method ExchangeOnce(row: Row, aggregate: nat, policy: Policy, resolve: Resolver, world: World)
    returns (end: Option<End>, next: Hop, size: nat)
    requires aggregate < MAX_RESPONSE_BYTES
    ensures end == Concluded(world(row.exchangeSequence, row.hop), row, aggregate, policy, resolve)
    ensures end == None ==>
              && Linked(row, Row(row.exchangeSequence + 1, next), aggregate, size, policy, resolve, world)
              && Follows(row.hop, next) && row.exchangeSequence < policy.maxRedirects
    ensures end == None || end == Some(NextNotCreated) ==> aggregate + size < MAX_RESPONSE_BYTES
  {
    next, size := row.hop, 0;
    var exchange := world(row.exchangeSequence, row.hop);
    if exchange.Expired? {
      return Some(TimedOut), next, size;
    }
    if MAX_RESPONSE_BYTES - aggregate <= 0 {
      return Some(BudgetUsedUp), next, size;
    }
    if exchange.TransportFails? {
      return Some(TransportFailed), next, size;
    }
    var response := exchange.response;
    var decision :=
      RedirectDecision(response.status, response.headers, row.hop.request, row.hop.script, policy, row.exchangeSequence, resolve);
    if decision.Follow? && aggregate + response.bodyBytes >= MAX_RESPONSE_BYTES {
      decision := Failed(ResponseSizeLimit);
    }
    if !decision.Follow? {
      return Some(Completed(decision)), next, size;
    }
    if exchange.storedBytes != response.bodyBytes || !exchange.storedIntact {
      return Some(StoredBodyDiffers), next, size;
    }
    size := exchange.storedBytes;
    if !exchange.nextCreated {
      return Some(NextNotCreated), next, size;
    }
    next := Hop(decision.request, decision.script);
    assert FollowsBy(row.hop, next, Step(response.status, response.headers, policy, row.exchangeSequence, resolve));
    end := None;
  }

  /** The rows written so far, and the sizes stored for all but the last. */
  ghost predicate Underway(rows: seq<Row>, stored: seq<nat>, first: Hop, policy: Policy, resolve: Resolver, world: World) {
    && RowsOfChain(rows, first) && |rows| == |stored| + 1 && |stored| <= policy.maxRedirects
    && Stored(stored) < MAX_RESPONSE_BYTES && AllLinked(rows, stored, policy, resolve, world)
  }

  /** The run has ended: rows, sizes and outcome as they are returned. */
  ghost predicate Ended(rows: seq<Row>, stored: seq<nat>, first: Hop, policy: Policy, resolve: Resolver, world: World, end: End) {
    && RowsOfChain(rows, first) && |rows| <= policy.maxRedirects + 1
    && (|stored| + 1 == |rows| || (end == NextNotCreated && |stored| == |rows|))
    && AllLinked(rows, stored, policy, resolve, world)
    && Stored(stored) < MAX_RESPONSE_BYTES
    && var n := |rows| - 1;
       Concluded(world(n, rows[n].hop), rows[n], Stored(stored[..n]), policy, resolve) == Some(end)
  }

  lemma RunEnds(rows: seq<Row>, stored: seq<nat>, first: Hop, policy: Policy, resolve: Resolver, world: World, end: End)
    requires Underway(rows, stored, first, policy, resolve, world)
    requires Concluded(world(|rows| - 1, rows[|rows| - 1].hop), rows[|rows| - 1], Stored(stored), policy, resolve) == Some(end)
    ensures Ended(rows, stored, first, policy, resolve, world, end)
  {
    assert stored[..|stored|] == stored;
  }

  lemma RunEndsStored(
    rows: seq<Row>, stored: seq<nat>, size: nat, first: Hop, policy: Policy, resolve: Resolver, world: World)
    requires Underway(rows, stored, first, policy, resolve, world) && Stored(stored) + size < MAX_RESPONSE_BYTES
    requires Concluded(world(|rows| - 1, rows[|rows| - 1].hop), rows[|rows| - 1], Stored(stored), policy, resolve) == Some(NextNotCreated)
    ensures Ended(rows, stored + [size], first, policy, resolve, world, NextNotCreated)
  {
    OtherSizes(rows, stored, size, policy, resolve, world);
    StoredGrows(stored, size);
  }

  /** One turn of the loop with what it writes. */
  method Turn(
    rows: seq<Row>, stored: seq<nat>, aggregate: nat, ghost first: Hop, policy: Policy, resolve: Resolver, world: World)
    returns (rows': seq<Row>, stored': seq<nat>, ended: Option<End>)
    requires Underway(rows, stored, first, policy, resolve, world) && aggregate == Stored(stored)
    ensures ended == None ==>
              Underway(rows', stored', first, policy, resolve, world) && |rows'| == |rows| + 1
              && Stored(stored') == aggregate + stored'[|rows| - 1]
    ensures ended.Some? ==> Ended(rows', stored', first, policy, resolve, world, ended.value)
  {
    var row := rows[|rows| - 1];
    assert Numbered(rows, |rows| - 1);
    var end, next, size := ExchangeOnce(row, aggregate, policy, resolve, world);
    if end.Some? && end.value != NextNotCreated {
      RunEnds(rows, stored, first, policy, resolve, world, end.value);
      return rows, stored, end;
    }
    if end.Some? {
      RunEndsStored(rows, stored, size, first, policy, resolve, world);
      return rows, stored + [size], end;
    }
    UnderwayGrows(rows, stored, first, next, size, policy, resolve, world);
    StoredGrows(stored, size);
    return rows + [Row(|rows|, next)], stored + [size], None;
  }

  /**
   Follows redirects until something else happens. The loop ends after at most the
   allowed number of redirects; the rows written number the chain from 0 to at most 50,
   each made from the response to the one before; the bytes stored for followed
   responses stay below the budget, so the loop's own check of the remaining budget
   never fails; the outcome is what the last exchange comes to.
   */
  method FollowRedirects(first: Hop, policy: Policy, resolve: Resolver, world: World)
    returns (rows: seq<Row>, stored: seq<nat>, end: End)
    requires PolicyValid(policy)
    ensures Ended(rows, stored, first, policy, resolve, world, end)
    ensures |rows| - 1 <= 50 && end != BudgetUsedUp
  {
    var aggregateResponseBytes, followedRedirects := 0, 0;
    rows, stored := [Row(0, first)], [];
    Starts(first, policy, resolve, world);
    while true
      invariant Underway(rows, stored, first, policy, resolve, world) && followedRedirects == |stored|
      invariant aggregateResponseBytes == Stored(stored)
      decreases policy.maxRedirects - followedRedirects
    {
      var ended;
      rows, stored, ended := Turn(rows, stored, aggregateResponseBytes, first, policy, resolve, world);
      if ended.Some? {
        return rows, stored, ended.value;
      }
      aggregateResponseBytes := aggregateResponseBytes + stored[followedRedirects];
      followedRedirects := followedRedirects + 1;
    }
  }

  lemma Starts(first: Hop, policy: Policy, resolve: Resolver, world: World)
    ensures Underway([Row(0, first)], [], first, policy, resolve, world)
  {
    var rows := [Row(0, first)];
    assert rows[..0] == [];
  }

  lemma UnderwayGrows(
    rows: seq<Row>, stored: seq<nat>, first: Hop, next: Hop, size: nat, policy: Policy, resolve: Resolver, world: World)
    requires Underway(rows, stored, first, policy, resolve, world) && |stored| < policy.maxRedirects
    requires Follows(rows[|rows| - 1].hop, next) && Stored(stored) + size < MAX_RESPONSE_BYTES
    requires Linked(rows[|rows| - 1], Row(|rows|, next), Stored(stored), size, policy, resolve, world)
    ensures Underway(rows + [Row(|rows|, next)], stored + [size], first, policy, resolve, world)
  {
    ChainGrows(rows, first, next);
    LinksGrow(rows, stored, Row(|rows|, next), size, policy, resolve, world);
    StoredGrows(stored, size);
  }

  lemma StoredGrows(stored: seq<nat>, size: nat)
    ensures stored[..|stored|] == stored && (stored + [size])[..|stored|] == stored
    ensures Stored([]) == 0 && Stored(stored + [size]) == Stored(stored) + size
  {
    assert (stored + [size])[..|stored|] == stored;
  }

  /** One more stored size does not change the links that there are. */
  lemma OtherSizes(rows: seq<Row>, stored: seq<nat>, size: nat, policy: Policy, resolve: Resolver, world: World)
    requires |rows| == |stored| + 1 && AllLinked(rows, stored, policy, resolve, world)
    ensures AllLinked(rows, stored + [size], policy, resolve, world)
  {
    forall i: nat | i + 1 < |rows|
      ensures LinkHolds(rows, stored + [size], i, policy, resolve, world)
    {
      assert (stored + [size])[..i] == stored[..i];
      assert LinkHolds(rows, stored, i, policy, resolve, world);
    }
  }
}
