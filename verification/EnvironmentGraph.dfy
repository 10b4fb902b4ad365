/** Include graphs and their cycle search. */
module EnvironmentGraph {
  import opened Wrappers

  type EntityId = nat

  /** The ordered include list of each environment that has one. */
  type Edges = map<EntityId, seq<EntityId>>

  function Targets(edges: Edges, id: EntityId): seq<EntityId> {
    if id in edges then edges[id] else []
  }

  ghost predicate IsWalk(edges: Edges, w: seq<EntityId>) {
    forall i :: 0 <= i < |w| - 1 ==> w[i + 1] in Targets(edges, w[i])
  }

  /** A walk that comes back to where it started. */
  ghost predicate ClosedWalk(edges: Edges, w: seq<EntityId>) {
    |w| >= 2 && w[0] == w[|w| - 1] && IsWalk(edges, w)
  }

  ghost predicate Leads(edges: Edges, w: seq<EntityId>, from: EntityId, to: EntityId) {
    |w| >= 1 && w[0] == from && w[|w| - 1] == to && IsWalk(edges, w)
  }

  ghost predicate Reaches(edges: Edges, from: EntityId, to: EntityId) {
    exists w :: Leads(edges, w, from, to)
  }

  ghost predicate CycleReachable(edges: Edges, from: EntityId) {
    exists c :: ClosedWalk(edges, c) && Reaches(edges, from, c[0])
  }

  ghost predicate Acyclic(edges: Edges) {
    forall c :: !ClosedWalk(edges, c)
  }

  ghost predicate Distinct(s: seq<EntityId>) {
    forall i, j :: 0 <= i < j < |s| ==> s[i] != s[j]
  }

  function Members(ids: seq<EntityId>): set<EntityId> {
    set x | x in ids
  }

  predicate AllIn(s: seq<EntityId>, nodes: set<EntityId>) {
    forall x :: x in s ==> x in nodes
  }

  lemma {:induction false} DistinctFits(s: seq<EntityId>, universe: set<EntityId>)
    requires Distinct(s) && forall x :: x in s ==> x in universe
    ensures |s| <= |universe|
  {
    if s != [] {
      var last := s[|s| - 1];
      DistinctFits(s[..|s| - 1], universe - {last});
    }
  }

  function IndexOf(s: seq<EntityId>, x: EntityId): (i: int)
    ensures i == -1 <==> x !in s
    ensures i != -1 ==> 0 <= i < |s| && s[i] == x && x !in s[..i]
  {
    if s == [] then -1
    else if s[0] == x then 0
    else
      var i := IndexOf(s[1..], x);
      if i == -1 then -1 else
        assert s[..i + 1] == [s[0]] + s[1..][..i];
        i + 1
  }

  // ---------------------------------------------------------------------
  // The depth-first search
  // ---------------------------------------------------------------------

  /** Every node of `rank` has all its targets in `rank`, at lower ranks. */
  ghost predicate Ranked(edges: Edges, rank: map<EntityId, nat>) {
    forall n {:trigger Lowers(edges, rank, n)} :: n in rank ==> Lowers(edges, rank, n)
  }

  ghost predicate Lowers(edges: Edges, rank: map<EntityId, nat>, n: EntityId)
    requires n in rank
  {
    forall t :: t in Targets(edges, n) ==> t in rank && rank[t] < rank[n]
  }

  lemma RankedGrows(edges: Edges, rank: map<EntityId, nat>, id: EntityId, top: nat)
    requires Ranked(edges, rank) && id !in rank
    requires forall n :: n in rank ==> rank[n] < top
    requires AllIn(Targets(edges, id), rank.Keys)
    ensures Ranked(edges, rank[id := top])
  {
    var rank' := rank[id := top];
    forall n | n in rank'
      ensures Lowers(edges, rank', n)
    {
      assert n != id ==> Lowers(edges, rank, n);
    }
  }

  lemma {:induction false} WalkDescends(edges: Edges, rank: map<EntityId, nat>, w: seq<EntityId>, i: nat)
    requires Ranked(edges, rank) && IsWalk(edges, w) && i < |w| && w[0] in rank
    ensures w[i] in rank && rank[w[i]] + i <= rank[w[0]]
  {
    if i != 0 {
      WalkDescends(edges, rank, w, i - 1);
      assert Lowers(edges, rank, w[i - 1]);
      assert w[i - 1 + 1] in Targets(edges, w[i - 1]);
    }
  }

  lemma RankedHasNoCycle(edges: Edges, rank: map<EntityId, nat>, from: EntityId)
    requires Ranked(edges, rank) && from in rank
    ensures !CycleReachable(edges, from)
  {
    forall c | ClosedWalk(edges, c)
      ensures !Reaches(edges, from, c[0])
    {
      if w :| Leads(edges, w, from, c[0]) {
        WalkDescends(edges, rank, w, |w| - 1);
        WalkDescends(edges, rank, c, |c| - 1);
      }
    }
  }

  /** A node met again on the current path closes a cycle that the path's start reaches. */
  lemma PathCloses(edges: Edges, path: seq<EntityId>, current: EntityId, k: nat)
    requires k < |path| && path[k] == current && IsWalk(edges, path + [current])
    ensures ClosedWalk(edges, path[k..] + [current])
    ensures Reaches(edges, path[0], current)
  {
    assert path[k..] + [current] == (path + [current])[k..];
    var toK := (path + [current])[..k + 1];
    assert Leads(edges, toK, path[0], current);
  }

  lemma WalkExtends(edges: Edges, path: seq<EntityId>, current: EntityId, next: EntityId)
    requires IsWalk(edges, path + [current]) && next in Targets(edges, current)
    ensures IsWalk(edges, path + [current] + [next])
  {
    var w := path + [current] + [next];
    forall i | 0 <= i < |w| - 1
      ensures w[i + 1] in Targets(edges, w[i])
    {
      if i < |path| {
        assert (path + [current])[i + 1] in Targets(edges, (path + [current])[i]);
      }
    }
  }

  class CycleFinder {
    const edges: Edges
    var stack: seq<EntityId>
    var complete: set<EntityId>
    ghost var rank: map<EntityId, nat>
    ghost const universe: set<EntityId>

    constructor (edges: Edges, start: EntityId)
      ensures this.edges == edges && stack == [] && complete == {} && Valid() && start in universe
    {
      this.edges := edges;
      stack, complete, rank := [], {}, map[];
      universe := {start} + (set n, t | n in edges && t in edges[n] :: t);
    }

    ghost predicate Valid()
      reads this
    {
      && (forall n, t :: n in edges && t in edges[n] ==> t in universe)
      && (forall x :: x in stack ==> x in universe && x !in complete)
      && Distinct(stack)
      && rank.Keys == complete
      && Ranked(edges, rank)
      && (forall n :: n in rank ==> rank[n] < |complete|)
    }

    function PathStart(current: EntityId): EntityId
      reads this
    {
      if stack == [] then current else stack[0]
    }

    /** Either the node and all below it are found free of cycles, or the path back to a node is returned. */
    method Visit(current: EntityId) returns (cycle: Option<seq<EntityId>>)
      requires Valid() && current in universe && IsWalk(edges, stack + [current])
      modifies this
      ensures cycle == None ==> Valid() && stack == old(stack) && current in complete && old(complete) <= complete
      ensures cycle.Some? ==>
                ClosedWalk(edges, cycle.value) && Reaches(edges, old(PathStart(current)), cycle.value[0])
      decreases |universe| - |stack|, 0
    {
      var cycleStart := IndexOf(stack, current);
      if cycleStart >= 0 {
        PathCloses(edges, stack, current, cycleStart);
        return Some(stack[cycleStart..] + [current]);
      }
      if current in complete {
        return None;
      }
      DistinctFits(stack + [current], universe);
      ghost var before := stack;
      stack := stack + [current];
      cycle := VisitTargets(before, current);
      if cycle == None {
        Leave(current);
        assert stack == before;
      }
    }

    /** Visits the targets of the node on top of the path in turn, up to the first cycle. */
    method VisitTargets(ghost before: seq<EntityId>, current: EntityId) returns (cycle: Option<seq<EntityId>>)
      requires Valid() && stack == before + [current] && IsWalk(edges, stack)
      modifies this
      ensures cycle == None ==>
                Valid() && stack == old(stack) && AllIn(Targets(edges, current), complete) && old(complete) <= complete
      ensures cycle.Some? ==>
                ClosedWalk(edges, cycle.value) && Reaches(edges, old(stack[0]), cycle.value[0])
      decreases |universe| - |stack|, 1
    {
      var included := Targets(edges, current);
      for i := 0 to |included|
        invariant Valid() && stack == old(stack) && old(complete) <= complete
        invariant AllIn(included[..i], complete)
      {
        assert included[..i + 1] == included[..i] + [included[i]];
        WalkExtends(edges, before, current, included[i]);
        assert included[i] in universe;
        cycle := Visit(included[i]);
        if cycle != None {
          return cycle;
        }
      }
      assert included[..|included|] == included;
      return None;
    }

    /** Pops a node whose targets are all complete. */
    method Leave(current: EntityId)
      requires Valid() && stack != [] && stack[|stack| - 1] == current
      requires AllIn(Targets(edges, current), complete)
      modifies this
      ensures Valid() && stack == old(stack[..|stack| - 1]) && complete == old(complete) + {current}
    {
      stack := stack[..|stack| - 1];
      RankedGrows(edges, rank, current, |complete|);
      rank := rank[current := |complete|];
      complete := complete + {current};
    }
  }

  /**
   Sound and complete: nothing is reported exactly when the start reaches no cycle, and
   what is reported is a real closed walk that the start reaches.
   */
  method FindEnvironmentCycle(start: EntityId, edges: Edges) returns (cycle: Option<seq<EntityId>>)
    ensures cycle == None <==> !CycleReachable(edges, start)
    ensures cycle.Some? ==> ClosedWalk(edges, cycle.value) && Reaches(edges, start, cycle.value[0])
  {
    var finder := new CycleFinder(edges, start);
    cycle := finder.Visit(start);
    if cycle == None {
      RankedHasNoCycle(edges, finder.rank, start);
    }
  }
}
