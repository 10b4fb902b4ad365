/** Revisions as compare-and-set guards. */
module CookieRevision {
  // Reading a snapshot and writing the result are separate steps here, so other writers may come
  // between them; responses and management commands go through the same revision check.

  import opened CookieChanges

  datatype Content = Content(payload: string, metadata: string)

  /** The compared part of a jar: one content per cookie identity. */
  type Contents = map<string, Content>

  function ContentsOf(cookies: seq<Cookie>): Contents {
    var m := ByIdentity(cookies);
    map id | id in m :: Content(m[id].payload, m[id].metadata)
  }

  /** The source's comparison of rows with cookies is equality of these contents. */
  lemma ComparisonIsEquality(rows: seq<Cookie>, stored: seq<Cookie>)
    requires UniqueIdentities(rows) && UniqueIdentities(stored)
    ensures SameCookieState(rows, stored) <==> ContentsOf(rows) == ContentsOf(stored)
  {
    SameStateIsSameJar(rows, stored);
    var a, b := ContentsOf(rows), ContentsOf(stored);
    var previous, next := ByIdentity(rows), ByIdentity(stored);
    assert a.Keys == previous.Keys && b.Keys == next.Keys;
    if a == b {
      assert forall k :: k in previous ==> a[k] == b[k];
    }
  }

  type Operation = Contents -> Contents

  datatype Change = Response(who: nat, op: Operation) | Removal(ids: set<string>)

  function Effect(change: Change, c: Contents): Contents {
    match change
    case Response(_, op) => op(c)
    case Removal(ids) => c - ids
  }

  /** The contents after the first `k` changes. */
  function Replay(initial: Contents, changes: seq<Change>, k: nat): Contents
    requires k <= |changes|
  {
    if k == 0 then initial else Effect(changes[k - 1], Replay(initial, changes, k - 1))
  }

  lemma {:induction false} ReplayPrefix(initial: Contents, changes: seq<Change>, more: seq<Change>, k: nat)
    requires changes <= more && k <= |changes|
    ensures Replay(initial, more, k) == Replay(initial, changes, k)
  {
    if k != 0 {
      ReplayPrefix(initial, changes, more, k - 1);
    }
  }

  datatype Snapshot = Snapshot(contents: Contents, revision: nat)

  /** A response that was applied to a snapshot and found to change nothing. */
  datatype Idle = Idle(op: Operation, revision: nat)

  datatype State = State(
    contents: Contents,
    revision: nat,
    snapshots: map<nat, Snapshot>,
    changes: seq<Change>,
    idle: seq<Idle>)

  datatype Action =
    | Read(who: nat)
    | Write(who: nat, op: Operation)
    | Remove(expected: nat, ids: set<string>)

  predicate Enabled(s: State, a: Action) {
    a.Write? ==> a.who in s.snapshots
  }

  /** A write whose snapshot is stale conflicts and rolls back, leaving everything as it was. */
  function Next(s: State, a: Action): State
    requires Enabled(s, a)
  {
    match a
    case Read(who) => s.(snapshots := s.snapshots[who := Snapshot(s.contents, s.revision)])
    case Write(who, op) =>
      var seen := s.snapshots[who];
      var result := op(seen.contents);
      if result == seen.contents then s.(idle := s.idle + [Idle(op, seen.revision)])
      else if seen.revision != s.revision then s
      else s.(contents := result, revision := s.revision + 1, changes := s.changes + [Response(who, op)])
    case Remove(expected, ids) =>
      if expected != s.revision || ids !! s.contents.Keys then s
      else s.(contents := s.contents - ids, revision := s.revision + 1, changes := s.changes + [Removal(ids)])
  }

  /** A removal takes effect exactly at the expected revision and if it names a cookie of the jar. */
  lemma RemovalIs(s: State, expected: nat, ids: set<string>)
    ensures var s' := Next(s, Remove(expected, ids));
            if expected == s.revision && exists id :: id in ids && id in s.contents then
              && s'.revision == s.revision + 1 && s'.changes == s.changes + [Removal(ids)]
              && (forall id :: id in s'.contents <==> id in s.contents && id !in ids)
              && forall id :: id in s'.contents ==> s'.contents[id] == s.contents[id]
            else s' == s
  {
    if id :| id in ids && id in s.contents {
      assert !(ids !! s.contents.Keys);
    } else {
      assert ids !! s.contents.Keys;
    }
  }

  /** A response takes effect exactly if it changes what was read and nothing was committed since. */
  lemma WritingIs(s: State, who: nat, op: Operation)
    requires who in s.snapshots
    ensures var s', seen := Next(s, Write(who, op)), s.snapshots[who];
            && (s'.revision != s.revision <==> op(seen.contents) != seen.contents && seen.revision == s.revision)
            && (s'.revision != s.revision ==>
                  s'.revision == s.revision + 1 && s'.contents == op(seen.contents) && s'.changes == s.changes + [Response(who, op)])
            && (s'.revision == s.revision ==> s'.contents == s.contents && s'.changes == s.changes)
            && (s'.idle != s.idle <==> op(seen.contents) == seen.contents)
  {
  }

  predicate Runs(s: State, actions: seq<Action>)
    decreases |actions|
  {
    actions == [] || (Enabled(s, actions[0]) && Runs(Next(s, actions[0]), actions[1..]))
  }

  function After(s: State, actions: seq<Action>): State
    requires Runs(s, actions)
    decreases |actions|
  {
    if actions == [] then s else After(Next(s, actions[0]), actions[1..])
  }

  function Start(initial: Contents): State {
    State(initial, 0, map[], [], [])
  }

  ghost predicate Inv(initial: Contents, s: State) {
    && s.contents == Replay(initial, s.changes, |s.changes|)
    && s.revision == |s.changes|
    && (forall e :: e in s.snapshots ==>
          s.snapshots[e].revision <= |s.changes| && s.snapshots[e].contents == Replay(initial, s.changes, s.snapshots[e].revision))
    && (forall i :: 0 <= i < |s.idle| ==>
          s.idle[i].revision <= |s.changes|
          && s.idle[i].op(Replay(initial, s.changes, s.idle[i].revision)) == Replay(initial, s.changes, s.idle[i].revision))
    && (forall k :: 0 <= k < |s.changes| ==> Replay(initial, s.changes, k + 1) != Replay(initial, s.changes, k))
  }

  lemma ChangeKeepsInv(initial: Contents, s: State, change: Change)
    requires Inv(initial, s) && Effect(change, s.contents) != s.contents
    ensures Inv(initial, s.(contents := Effect(change, s.contents), revision := s.revision + 1, changes := s.changes + [change]))
  {
    var changes' := s.changes + [change];
    forall k: nat | k <= |s.changes|
      ensures Replay(initial, changes', k) == Replay(initial, s.changes, k)
    {
      ReplayPrefix(initial, s.changes, changes', k);
    }
  }

  lemma StepKeepsInv(initial: Contents, s: State, a: Action)
    requires Inv(initial, s) && Enabled(s, a)
    ensures Inv(initial, Next(s, a))
    ensures s.changes <= Next(s, a).changes
  {
    match a
    case Read(_) =>
    case Write(who, op) =>
      var seen := s.snapshots[who];
      if op(seen.contents) != seen.contents && seen.revision == s.revision {
        ChangeKeepsInv(initial, s, Response(who, op));
      }
    case Remove(_, ids) =>
      if id :| id in ids && id in s.contents {
        assert id !in s.contents - ids;
        ChangeKeepsInv(initial, s, Removal(ids));
      }
  }

  lemma {:induction false} RunKeepsInv(initial: Contents, s: State, actions: seq<Action>)
    requires Inv(initial, s) && Runs(s, actions)
    ensures Inv(initial, After(s, actions))
    decreases |actions|
  {
    if actions != [] {
      StepKeepsInv(initial, s, actions[0]);
      RunKeepsInv(initial, Next(s, actions[0]), actions[1..]);
    }
  }

  /**
   No update is lost: however reads and writes interleave, the jar is the replay of all
   committed changes in revision order, every committed change had an effect, and a
   response reported as unchanged really had no effect at the revision it read.
   */
  lemma NoLostUpdate(initial: Contents, actions: seq<Action>)
    requires Runs(Start(initial), actions)
    ensures var s := After(Start(initial), actions);
            && s.contents == Replay(initial, s.changes, |s.changes|)
            && s.revision == |s.changes|
            && (forall k :: 0 <= k < |s.changes| ==> Replay(initial, s.changes, k + 1) != Replay(initial, s.changes, k))
            && (forall i :: 0 <= i < |s.idle| ==>
                  s.idle[i].revision <= s.revision
                  && s.idle[i].op(Replay(initial, s.changes, s.idle[i].revision)) == Replay(initial, s.changes, s.idle[i].revision))
  {
    RunKeepsInv(initial, Start(initial), actions);
  }

  /** Over any two points of a run, equal revisions mean equal contents. */
  lemma {:induction false} EqualRevisionEqualContents(initial: Contents, s: State, actions: seq<Action>)
    requires Inv(initial, s) && Runs(s, actions)
    ensures s.changes <= After(s, actions).changes
    ensures s.revision == After(s, actions).revision ==> s.contents == After(s, actions).contents
    decreases |actions|
  {
    RunKeepsInv(initial, s, actions);
    if actions != [] {
      StepKeepsInv(initial, s, actions[0]);
      EqualRevisionEqualContents(initial, Next(s, actions[0]), actions[1..]);
      assert s.changes <= Next(s, actions[0]).changes;
    }
  }
}
