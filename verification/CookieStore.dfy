/** The jar row and responses to it. */
module CookieStore {
  // The transactions on one jar, each one step of the revision protocol, and the retry loop
  // around them while others act as they like.

  import opened CookieRevision

  const OPTIMISTIC_RESPONSE_RETRIES := 8

  datatype Outcome = Applied | Unchanged | Conflict

  lemma {:induction false} RunsOn(s: State, first: seq<Action>, more: seq<Action>)
    requires Runs(s, first) && Runs(After(s, first), more)
    ensures Runs(s, first + more) && After(s, first + more) == After(After(s, first), more)
    decreases |first|
  {
    if first == [] {
      assert first + more == more;
    } else {
      assert (first + more)[1..] == first[1..] + more;
      RunsOn(Next(s, first[0]), first[1..], more);
    }
  }

  lemma RunsOne(s: State, a: Action)
    requires Enabled(s, a)
    ensures Runs(s, [a]) && After(s, [a]) == Next(s, a)
  {
    assert [a][1..] == [];
  }

  /** The run leads from one state to the other. */
  ghost predicate Leads(s: State, actions: seq<Action>, t: State) {
    Runs(s, actions) && After(s, actions) == t
  }

  lemma LeadsOn(s: State, first: seq<Action>, t: State, a: Action, u: State)
    requires Leads(s, first, t) && Enabled(t, a) && u == Next(t, a)
    ensures Leads(s, first + [a], u)
  {
    RunsOne(t, a);
    RunsOn(s, first, [a]);
  }

  predicate By(a: Action, who: nat) {
    (a.Read? || a.Write?) && a.who == who
  }

  ghost predicate ByOthers(actions: seq<Action>, who: nat) {
    forall i :: 0 <= i < |actions| ==> !By(actions[i], who)
  }

  lemma ByOthersMore(actions: seq<Action>, a: Action, who: nat)
    requires ByOthers(actions, who) && !By(a, who)
    ensures ByOthers(actions + [a], who)
  {
  }

  /** Execution `who` made no change from position `from` on. */
  ghost predicate NoneBy(changes: seq<Change>, who: nat, from: nat) {
    forall k :: from <= k < |changes| && changes[k].Response? ==> changes[k].who != who
  }

  lemma OthersChange(s: State, a: Action, who: nat, from: nat)
    requires Enabled(s, a) && !By(a, who) && NoneBy(s.changes, who, from)
    ensures NoneBy(Next(s, a).changes, who, from)
  {
  }

  /** What the outcome of a response says about the changes before and after it. */
  ghost predicate Reported(initial: Contents, before: seq<Change>, after: seq<Change>, who: nat, op: Operation, outcome: Outcome) {
    before <= after &&
    match outcome
    case Applied =>
      && after != []
      && var k := |after| - 1;
         && before <= after[..k] && NoneBy(after[..k], who, |before|)
         && after[k] == Response(who, op) && op(Replay(initial, after, k)) != Replay(initial, after, k)
    case Unchanged =>
      NoneBy(after, who, |before|)
      && exists k :: |before| <= k <= |after| && op(Replay(initial, after, k)) == Replay(initial, after, k)
    case Conflict => NoneBy(after, who, |before|) && |before| < |after|
  }

  /** Attempts that failed before do not spoil what a later one reports. */
  lemma ReportedLater(
    initial: Contents, start: seq<Change>, before: seq<Change>, after: seq<Change>, who: nat, op: Operation, outcome: Outcome)
    requires start <= before && NoneBy(before, who, |start|) && Reported(initial, before, after, who, op, outcome)
    ensures Reported(initial, start, after, who, op, outcome)
  {
    if outcome == Unchanged {
      var k :| |before| <= k <= |after| && op(Replay(initial, after, k)) == Replay(initial, after, k);
      assert |start| <= k;
    }
  }

  /** An attempt read `start`, others made it `before`, and the write made that `after`. */
  lemma AttemptReports(
    initial: Contents, start: seq<Change>, before: seq<Change>, after: seq<Change>, who: nat, op: Operation, outcome: Outcome)
    requires start <= before && NoneBy(before, who, |start|)
    requires outcome == if op(Replay(initial, start, |start|)) == Replay(initial, start, |start|) then Unchanged
                        else if |start| == |before| then Applied else Conflict
    requires after == if outcome == Applied then before + [Response(who, op)] else before
    ensures Reported(initial, start, after, who, op, outcome)
  {
    ReplayPrefix(initial, start, after, |start|);
    if outcome == Applied {
      assert before == start && after[..|after| - 1] == before;
    }
  }

  class JarStore {
    ghost const initial: Contents
    var contents: Contents
    var revision: nat
    /** What each execution has read and not forgotten. */
    var snapshots: map<nat, Snapshot>
    ghost var changes: seq<Change>
    ghost var idle: seq<Idle>

    constructor (initial: Contents)
      ensures Valid() && this.initial == initial && Jar() == Start(initial)
    {
      this.initial := initial;
      contents, revision, snapshots, changes, idle := initial, 0, map[], [], [];
    }

    ghost function Jar(): State
      reads this
    {
      State(contents, revision, snapshots, changes, idle)
    }

    ghost predicate Valid()
      reads this
    {
      Inv(initial, Jar())
    }

    method ReadSnapshot(who: nat)
      requires Valid()
      modifies this`snapshots
      ensures Valid() && Jar() == Next(old(Jar()), Read(who))
    {
      snapshots := snapshots[who := Snapshot(contents, revision)];
    }

    /** Compare-and-set of the revision together with the new contents. */
    method AdvanceRevision(expected: nat, result: Contents, ghost change: Change) returns (advanced: bool)
      requires Valid()
      requires expected == revision ==> result == Effect(change, contents) && result != contents
      modifies this`contents, this`revision, this`changes
      ensures Valid() && advanced == (expected == old(revision))
      ensures Jar() == if advanced
                       then old(Jar()).(contents := result, revision := expected + 1, changes := old(changes) + [change])
                       else old(Jar())
    {
      advanced := expected == revision;
      if advanced {
        ChangeKeepsInv(initial, Jar(), change);
        contents, revision := result, expected + 1;
        changes := changes + [change];
      }
    }

    /** Applies a response to what the execution read, and writes the result if nothing was committed since. */
    method WriteResponse(who: nat, op: Operation) returns (outcome: Outcome)
      requires Valid() && who in snapshots
      modifies this
      ensures Valid() && Jar() == Next(old(Jar()), Write(who, op))
      ensures var seen := old(snapshots[who]);
              outcome == if op(seen.contents) == seen.contents then Unchanged
                         else if seen.revision == old(revision) then Applied else Conflict
    {
      var seen := snapshots[who];
      var result := op(seen.contents);
      if result == seen.contents {
        idle := idle + [Idle(op, seen.revision)];
        return Unchanged;
      }
      var advanced := AdvanceRevision(seen.revision, result, Response(who, op));
      outcome := if advanced then Applied else Conflict;
    }

    /** Deletes cookies at a given revision; deleting nothing changes nothing. */
    method RemoveCookies(expected: nat, ids: set<string>)
      requires Valid()
      modifies this
      ensures Valid() && Jar() == Next(old(Jar()), Remove(expected, ids))
    {
      if expected != revision || ids !! contents.Keys {
        return;
      }
      ghost var id :| id in ids && id in contents;
      assert id !in contents - ids;
      var advanced := AdvanceRevision(expected, contents - ids, Removal(ids));
    }

    /** Takes one step of the protocol. */
    method Perform(a: Action)
      requires Valid() && Enabled(Jar(), a)
      modifies this
      ensures Valid() && Jar() == Next(old(Jar()), a) && old(changes) <= changes
    {
      StepKeepsInv(initial, Jar(), a);
      match a {
        case Read(who) =>
          ReadSnapshot(who);
        case Write(who, op) =>
          var _ := WriteResponse(who, op);
        case Remove(expected, ids) =>
          RemoveCookies(expected, ids);
      }
    }

    /** One possible step of another execution, after those taken before. */
    method OtherActs(who: nat, a: Action, ghost start: State, ghost before: seq<Action>) returns (ghost taken: seq<Action>)
      requires Valid() && Enabled(Jar(), a) && !By(a, who)
      requires Leads(start, before, Jar()) && ByOthers(before, who) && NoneBy(changes, who, |start.changes|)
      modifies this
      ensures Valid() && Leads(start, taken, Jar()) && ByOthers(taken, who) && NoneBy(changes, who, |start.changes|)
      ensures old(changes) <= changes
      ensures who in old(snapshots) ==> who in snapshots && snapshots[who] == old(snapshots[who])
    {
      OthersChange(Jar(), a, who, |start.changes|);
      Perform(a);
      LeadsOn(start, before, old(Jar()), a, Jar());
      ByOthersMore(before, a, who);
      taken := before + [a];
    }

    /** The steps of others in their order, as far as each is possible. */
    method OthersAct(who: nat, others: seq<Action>) returns (ghost taken: seq<Action>)
      requires Valid()
      modifies this
      ensures Valid() && Leads(old(Jar()), taken, Jar()) && ByOthers(taken, who)
      ensures old(changes) <= changes && NoneBy(changes, who, |old(changes)|)
      ensures who in old(snapshots) ==> who in snapshots && snapshots[who] == old(snapshots[who])
    {
      taken := [];
      for i := 0 to |others|
        invariant Valid() && Leads(old(Jar()), taken, Jar()) && ByOthers(taken, who)
        invariant old(changes) <= changes && NoneBy(changes, who, |old(changes)|)
        invariant who in old(snapshots) ==> who in snapshots && snapshots[who] == old(snapshots[who])
      {
        if !By(others[i], who) && (others[i].Write? ==> others[i].who in snapshots) {
          taken := OtherActs(who, others[i], old(Jar()), taken);
        }
      }
    }

    /** One attempt: read, let others act, write. */
    method Attempt(who: nat, op: Operation, others: seq<Action>) returns (outcome: Outcome, ghost taken: seq<Action>)
      requires Valid()
      modifies this
      ensures Valid() && Leads(old(Jar()), taken, Jar())
      ensures Reported(initial, old(changes), changes, who, op, outcome)
    {
      ghost var start := Jar();
      ReadSnapshot(who);
      RunsOne(start, Read(who));
      ghost var between := OthersAct(who, others);
      RunsOn(start, [Read(who)], between);
      ghost var before := Jar();
      outcome := WriteResponse(who, op);
      LeadsOn(start, [Read(who)] + between, before, Write(who, op), Jar());
      taken := [Read(who)] + between + [Write(who, op)];
      AttemptReports(initial, start.changes, before.changes, changes, who, op, outcome);
    }

    /**
     Applies one response, retrying an optimistic execution against a fresh snapshot, while
     others act between reading and writing as they like. All of it is a run of the protocol;
     the response enters the history at most once, exactly when the outcome says so and only
     where it has an effect; a conflict takes one other commit per attempt.
     */
    method ApplyResponse(who: nat, op: Operation, serialized: bool, others: nat -> seq<Action>)
      returns (outcome: Outcome, ghost taken: seq<Action>)
      requires Valid()
      modifies this
      ensures Valid() && Leads(old(Jar()), taken, Jar())
      ensures Reported(initial, old(changes), changes, who, op, outcome)
      ensures outcome == Conflict ==> |changes| >= |old(changes)| + if serialized then 1 else OPTIMISTIC_RESPONSE_RETRIES
    {
      ghost var start := Jar();
      taken, outcome := [], Conflict;
      var attempt := 0;
      while attempt < OPTIMISTIC_RESPONSE_RETRIES
        invariant attempt <= OPTIMISTIC_RESPONSE_RETRIES && (serialized ==> attempt == 0)
        invariant Valid() && Leads(start, taken, Jar())
        invariant start.changes <= changes && NoneBy(changes, who, |start.changes|)
        invariant |changes| >= |start.changes| + attempt && (attempt > 0 ==> outcome == Conflict)
      {
        ghost var before := changes;
        ghost var tried;
        outcome, tried := Attempt(who, op, others(attempt));
        RunsOn(start, taken, tried);
        taken := taken + tried;
        ReportedLater(initial, start.changes, before, changes, who, op, outcome);
        if outcome != Conflict || serialized || attempt == OPTIMISTIC_RESPONSE_RETRIES - 1 {
          return;
        }
        attempt := attempt + 1;
      }
    }
  }
}
