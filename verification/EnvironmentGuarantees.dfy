/** What guarded include graphs promise. */
module EnvironmentGuarantees {
  import opened Wrappers
  import opened EnvironmentGraph
  import opened EnvironmentStore
  import opened EnvironmentProfile
  import opened EnvironmentComposition

  /** Included environments exist. */
  ghost predicate Closed(g: IncludeGraph) {
    forall n :: n in g.includes ==> AllIn(g.includes[n], g.environments)
  }

  /** The error of an expansion started along a walk names a real cycle. */
  lemma {:induction false} ErrorIsCycle(g: IncludeGraph, id: EntityId, path: seq<EntityId>)
    requires Closed(g) && id in g.environments && IsWalk(g.includes, path + [id])
    ensures match Expansion(g, id, path)
            case Ok(_) => true
            case Err(CycleFound(c)) => ClosedWalk(g.includes, c) && Reaches(g.includes, (path + [id])[0], c[0])
            case Err(Missing(_)) => false
    decreases |g.environments - Members(path)|, 0
  {
    var start := IndexOf(path, id);
    if start >= 0 {
      PathCloses(g.includes, path, id, start);
    } else {
      PathGrows(g, path, id);
      ErrorsAreCycles(g, id, Targets(g.includes, id), path);
    }
  }

  lemma {:induction false} ErrorsAreCycles(g: IncludeGraph, id: EntityId, ids: seq<EntityId>, path: seq<EntityId>)
    requires Closed(g) && id in g.environments && id !in path && IsWalk(g.includes, path + [id])
    requires forall t :: t in ids ==> t in Targets(g.includes, id)
    ensures match Expansions(g, ids, path + [id])
            case Ok(_) => true
            case Err(CycleFound(c)) => ClosedWalk(g.includes, c) && Reaches(g.includes, (path + [id])[0], c[0])
            case Err(Missing(_)) => false
    decreases |g.environments - Members(path + [id])|, |ids| + 1
  {
    if ids != [] {
      var last := ids[|ids| - 1];
      ErrorsAreCycles(g, id, ids[..|ids| - 1], path);
      WalkExtends(g.includes, path, id, last);
      assert last in g.environments;
      ErrorIsCycle(g, last, path + [id]);
      assert (path + [id] + [last])[0] == (path + [id])[0];
    }
  }

  lemma {:induction false} TargetsExpand(g: IncludeGraph, ids: seq<EntityId>, k: nat, path: seq<EntityId>)
    requires k < |ids| && Expansions(g, ids, path).Ok?
    ensures Expansion(g, ids[k], path).Ok?
    decreases |ids|
  {
    if k < |ids| - 1 {
      assert ids[..|ids| - 1][k] == ids[k];
      TargetsExpand(g, ids[..|ids| - 1], k, path);
    }
  }

  /** An expansion that succeeds follows every walk, each node under the walk taken to it. */
  lemma {:induction false} ExpansionFollowsWalk(g: IncludeGraph, w: seq<EntityId>, i: nat)
    requires i < |w| && IsWalk(g.includes, w) && Expansion(g, w[0], []).Ok?
    ensures Expansion(g, w[i], w[..i]).Ok?
  {
    if i == 0 {
      assert w[..0] == [];
    } else {
      ExpansionFollowsWalk(g, w, i - 1);
      var targets := Targets(g.includes, w[i - 1]);
      assert w[i - 1 + 1] in targets;
      var k :| 0 <= k < |targets| && targets[k] == w[i];
      assert w[..i] == w[..i - 1] + [w[i - 1]];
      TargetsExpand(g, targets, k, w[..i]);
    }
  }

  lemma FollowedWalkNeverRepeats(g: IncludeGraph, w: seq<EntityId>, i: nat, j: nat)
    requires i < j < |w| && IsWalk(g.includes, w) && Expansion(g, w[0], []).Ok?
    ensures w[i] != w[j]
  {
    ExpansionFollowsWalk(g, w, j);
    assert w[..j][i] == w[i];
  }

  lemma WalksJoin(edges: Edges, v: seq<EntityId>, w: seq<EntityId>)
    requires |v| >= 1 && |w| >= 1 && v[|v| - 1] == w[0] && IsWalk(edges, v) && IsWalk(edges, w)
    ensures IsWalk(edges, v + w[1..])
  {
    var j := v + w[1..];
    forall i | 0 <= i < |j| - 1
      ensures j[i + 1] in Targets(edges, j[i])
    {
      if i < |v| - 1 {
        assert v[i + 1] in Targets(edges, v[i]);
      } else {
        assert w[i - |v| + 1 + 1] in Targets(edges, w[i - |v| + 1]);
      }
    }
  }

  /**
   Composing an environment succeeds if and only if no include cycle can be reached
   from it; otherwise the error shows such a cycle.
   */
  lemma ComposesIffNoCycle(g: IncludeGraph, id: EntityId)
    requires Closed(g) && id in g.environments
    ensures Expansion(g, id, []).Ok? <==> !CycleReachable(g.includes, id)
    ensures Expansion(g, id, []).Err? ==>
              var e := Expansion(g, id, []).error;
              e.CycleFound? && ClosedWalk(g.includes, e.cycle) && Reaches(g.includes, id, e.cycle[0])
  {
    ErrorIsCycle(g, id, []);
    if Expansion(g, id, []).Ok? {
      forall c | ClosedWalk(g.includes, c)
        ensures !Reaches(g.includes, id, c[0])
      {
        if v :| Leads(g.includes, v, id, c[0]) {
          var w := v + c[1..];
          WalksJoin(g.includes, v, c);
          assert w[|w| - 1] == c[|c| - 1] && w[|v| - 1] == v[|v| - 1];
          FollowedWalkNeverRepeats(g, w, |v| - 1, |w| - 1);
        }
      }
    }
  }

  /** After any history of commands, composing any stored environment succeeds. */
  lemma StoredGraphAlwaysComposes(commands: seq<Command>, id: EntityId)
    requires id in ExecutedAll(IncludeGraph({}, map[]), commands).environments
    ensures Expansion(ExecutedAll(IncludeGraph({}, map[]), commands), id, []).Ok?
  {
    NoEdgesNoCycle();
    HistoryKeepsWellFormed(IncludeGraph({}, map[]), commands);
    ComposesIffNoCycle(ExecutedAll(IncludeGraph({}, map[]), commands), id);
  }

  /** A successful expansion does not depend on how much of the path is remembered. */
  lemma {:induction false} ShorterPathSameExpansion(g: IncludeGraph, id: EntityId, long: seq<EntityId>, short: seq<EntityId>)
    requires Expansion(g, id, long).Ok? && Members(short) <= Members(long)
    ensures Expansion(g, id, short) == Expansion(g, id, long)
    decreases |g.environments - Members(long)|, 0
  {
    assert id !in long;
    PathGrows(g, long, id);
    assert forall x :: x in short ==> x in Members(short);
    assert Members(short + [id]) <= Members(long + [id]) by {
      assert Members(long + [id]) == Members(long) + {id} && Members(short + [id]) == Members(short) + {id};
    }
    ShorterPathSameExpansions(g, Targets(g.includes, id), long + [id], short + [id]);
  }

  lemma {:induction false} ShorterPathSameExpansions(g: IncludeGraph, ids: seq<EntityId>, long: seq<EntityId>, short: seq<EntityId>)
    requires Expansions(g, ids, long).Ok? && Members(short) <= Members(long)
    ensures Expansions(g, ids, short) == Expansions(g, ids, long)
    decreases |g.environments - Members(long)|, |ids| + 1
  {
    if ids != [] {
      ShorterPathSameExpansions(g, ids[..|ids| - 1], long, short);
      ShorterPathSameExpansion(g, ids[|ids| - 1], long, short);
    }
  }

  /** The inherited profile with the environment's own variables on top is the full profile. */
  lemma InheritedThenOwnIsComposed(g: IncludeGraph, own: Declarations, id: EntityId)
    requires Expansion(g, id, []).Ok?
    ensures Expansions(g, Targets(g.includes, id), []).Ok?
    ensures Composed(own, Expansion(g, id, []))
            == Ok(Overlaid(Composed(own, Expansions(g, Targets(g.includes, id), [])).value, own, id))
  {
    assert [] + [id] == [id];
    ShorterPathSameExpansions(g, Targets(g.includes, id), [id], []);
    FinishesExpansion(g, own, id, [], Expansions(g, Targets(g.includes, id), [id]).value);
  }
}
