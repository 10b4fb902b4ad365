/** Environments, their rows and commands. */
module EnvironmentStore {
  // The environments of one workspace with their include rows. Authorisation, names, variables
  // and revisions play no part here.

  import opened Wrappers
  import opened EnvironmentGraph

  datatype IncludeGraph = IncludeGraph(environments: set<EntityId>, includes: Edges)

  /** Include rows join existing environments, and following them never comes back. */
  ghost predicate WellFormed(g: IncludeGraph) {
    && (forall n :: n in g.includes ==> n in g.environments && AllIn(g.includes[n], g.environments))
    && Acyclic(g.includes)
  }

  function WithIncludes(includes: Edges, id: EntityId, included: seq<EntityId>): Edges {
    if included == [] then includes - {id} else includes[id := included]
  }

  datatype Command =
    | Create(id: EntityId, included: seq<EntityId>)
    | Update(id: EntityId, submitted: Option<seq<EntityId>>)
    | Delete(id: EntityId)

  datatype Failure = Duplicate | NotFound | Cyclic(cycle: seq<EntityId>) | InUse

  /** The include list an environment is asked to take on is acceptable in a graph that already has it. */
  ghost predicate Acceptable(g: IncludeGraph, id: EntityId, included: seq<EntityId>) {
    Distinct(included) && id in g.environments && AllIn(included, g.environments) && Acyclic(WithIncludes(g.includes, id, included))
  }

  ghost predicate Accepted(g: IncludeGraph, command: Command) {
    match command
    case Create(id, included) => Acceptable(g.(environments := g.environments + {id}), id, included)
    case Update(id, included) => id in g.environments && (included.Some? ==> Acceptable(g, id, included.value))
    case Delete(id) => id in g.environments && forall n :: n in g.includes ==> id !in g.includes[n]
  }

  /** The effect of a command; a refused command changes nothing. */
  ghost function Executed(g: IncludeGraph, command: Command): IncludeGraph {
    if !Accepted(g, command) then g
    else match command
      case Create(id, included) => IncludeGraph(g.environments + {id}, WithIncludes(g.includes, id, included))
      case Update(id, None) => g
      case Update(id, Some(included)) => g.(includes := WithIncludes(g.includes, id, included))
      case Delete(id) => IncludeGraph(g.environments - {id}, g.includes - {id})
  }

  /** What an accepted command leaves behind: one environment more or fewer, one list of includes replaced. */
  lemma CommandIs(g: IncludeGraph, command: Command, n: EntityId)
    requires Accepted(g, command)
    ensures n in Executed(g, command).environments
            <==> (command.Create? && n == command.id) || (n in g.environments && !(command.Delete? && n == command.id))
    ensures Targets(Executed(g, command).includes, n)
            == if n != command.id || (command.Update? && command.submitted == None) then Targets(g.includes, n)
               else if command.Create? then command.included
               else if command.Update? then command.submitted.value
               else []
  {
    if command.Update? && command.submitted.Some? {
      assert Executed(g, command).includes == WithIncludes(g.includes, command.id, command.submitted.value);
    }
  }

  /** A cycle that was not there before runs through the environment whose list changed. */
  lemma NewCycleMeetsChangedNode(edges: Edges, id: EntityId, included: seq<EntityId>, c: seq<EntityId>)
    requires ClosedWalk(WithIncludes(edges, id, included), c)
    ensures ClosedWalk(edges, c) || CycleReachable(WithIncludes(edges, id, included), id)
  {
    var after := WithIncludes(edges, id, included);
    if i :| 0 <= i < |c| && c[i] == id {
      assert Leads(after, c[i..], id, c[0]);
    } else {
      forall i | 0 <= i < |c| - 1
        ensures c[i + 1] in Targets(edges, c[i])
      {
        assert c[i] != id && Targets(edges, c[i]) == Targets(after, c[i]);
      }
    }
  }

  /** In an acyclic graph, searching from the changed environment finds any new cycle. */
  lemma ChangedNodeGuardsGraph(edges: Edges, id: EntityId, included: seq<EntityId>)
    requires Acyclic(edges)
    ensures Acyclic(WithIncludes(edges, id, included)) <==> !CycleReachable(WithIncludes(edges, id, included), id)
  {
    forall c | ClosedWalk(WithIncludes(edges, id, included), c)
      ensures CycleReachable(WithIncludes(edges, id, included), id)
    {
      NewCycleMeetsChangedNode(edges, id, included, c);
    }
  }

  lemma FewerEdgesStayAcyclic(edges: Edges, id: EntityId)
    requires Acyclic(edges)
    ensures Acyclic(edges - {id})
  {
    assert forall c :: ClosedWalk(edges - {id}, c) ==> ClosedWalk(edges, c);
  }

  lemma NoEdgesNoCycle()
    ensures Acyclic(map[])
  {
    assert forall c :: ClosedWalk(map[], c) ==> c[0 + 1] in Targets(map[], c[0]);
  }

  lemma CommandKeepsWellFormed(g: IncludeGraph, command: Command)
    requires WellFormed(g)
    ensures WellFormed(Executed(g, command))
  {
    if command.Delete? {
      FewerEdgesStayAcyclic(g.includes, command.id);
    }
  }

  ghost function ExecutedAll(g: IncludeGraph, commands: seq<Command>): IncludeGraph
    decreases |commands|
  {
    if commands == [] then g else ExecutedAll(Executed(g, commands[0]), commands[1..])
  }

  /** Every history of commands, accepted or refused, leaves the whole graph acyclic and closed. */
  lemma {:induction false} HistoryKeepsWellFormed(g: IncludeGraph, commands: seq<Command>)
    requires WellFormed(g)
    ensures WellFormed(ExecutedAll(g, commands))
    decreases |commands|
  {
    if commands != [] {
      CommandKeepsWellFormed(g, commands[0]);
      HistoryKeepsWellFormed(Executed(g, commands[0]), commands[1..]);
    }
  }

  class EnvironmentRows {
    var environments: set<EntityId>
    var includes: Edges

    constructor ()
      ensures Graph() == IncludeGraph({}, map[]) && WellFormed(Graph())
    {
      environments, includes := {}, map[];
      NoEdgesNoCycle();
    }

    function Graph(): IncludeGraph
      reads this
    {
      IncludeGraph(environments, includes)
    }

    /** Takes on the list exactly when it is acceptable; each refusal names its cause and leaves the rows alone. */
    method ReplaceIncludes(id: EntityId, included: seq<EntityId>) returns (failure: Option<Failure>)
      requires WellFormed(Graph())
      modifies this`includes
      ensures failure == None <==> Acceptable(old(Graph()), id, included)
      ensures includes == if failure == None then WithIncludes(old(includes), id, included) else old(includes)
      ensures failure == None ==> Targets(includes, id) == included
      ensures forall n :: n != id || failure != None ==> Targets(includes, n) == Targets(old(includes), n)
      ensures failure == Some(Duplicate) <==> !Distinct(included)
      ensures failure == Some(NotFound) <==> Distinct(included) && !(id in environments && AllIn(included, environments))
      ensures failure.Some? && failure.value.Cyclic? ==>
                ClosedWalk(WithIncludes(old(includes), id, included), failure.value.cycle)
      ensures failure != Some(InUse)
    {
      DistinctByCount(included);
      if |Members(included)| != |included| {
        return Some(Duplicate);
      }
      if id !in environments || exists x :: x in included && x !in environments {
        return Some(NotFound);
      }
      var edges := includes[id := included];
      var cycle := FindEnvironmentCycle(id, edges);
      SameTargets(includes, id, included);
      ChangedNodeGuardsGraph(includes, id, included);
      if cycle != None {
        return Some(Cyclic(cycle.value));
      }
      includes := includes - {id};
      if |included| > 0 {
        includes := includes[id := included];
      }
      assert includes == WithIncludes(old(includes), id, included);
      return None;
    }

    method CreateEnvironment(id: EntityId, included: seq<EntityId>) returns (failure: Option<Failure>)
      requires WellFormed(Graph()) && id !in environments
      modifies this
      ensures failure == None <==> Accepted(old(Graph()), Create(id, included))
      ensures Graph() == Executed(old(Graph()), Create(id, included)) && WellFormed(Graph())
    {
      CommandKeepsWellFormed(Graph(), Create(id, included));
      var before := environments;
      environments := environments + {id};
      failure := ReplaceIncludes(id, included);
      if failure != None {
        environments := before;
      }
    }

    method UpdateEnvironment(id: EntityId, included: Option<seq<EntityId>>) returns (failure: Option<Failure>)
      requires WellFormed(Graph())
      modifies this`includes
      ensures failure == None <==> Accepted(old(Graph()), Update(id, included))
      ensures id !in environments ==> failure == Some(NotFound)
      ensures Graph() == Executed(old(Graph()), Update(id, included)) && WellFormed(Graph())
    {
      CommandKeepsWellFormed(Graph(), Update(id, included));
      if id !in environments {
        return Some(NotFound);
      }
      failure := None;
      if included.Some? {
        failure := ReplaceIncludes(id, included.value);
      }
    }

    method DeleteEnvironment(id: EntityId) returns (failure: Option<Failure>)
      requires WellFormed(Graph())
      modifies this
      ensures failure == None <==> Accepted(old(Graph()), Delete(id))
      ensures failure == Some(NotFound) <==> id !in old(environments)
      ensures failure == Some(InUse) <==> id in old(environments) && exists n :: n in old(includes) && id in old(includes)[n]
      ensures Graph() == Executed(old(Graph()), Delete(id)) && WellFormed(Graph())
    {
      CommandKeepsWellFormed(Graph(), Delete(id));
      if id !in environments {
        return Some(NotFound);
      }
      var dependents := set n | n in includes && id in includes[n];
      if dependents != {} {
        assert exists n :: n in dependents;
        return Some(InUse);
      }
      assert forall n :: n in includes ==> n !in dependents;
      environments := environments - {id};
      includes := includes - {id};
      return None;
    }
  }

  /** Giving the search an empty list for the changed node is the same as no row at all. */
  lemma SameTargets(edges: Edges, id: EntityId, included: seq<EntityId>)
    ensures forall c :: ClosedWalk(edges[id := included], c) <==> ClosedWalk(WithIncludes(edges, id, included), c)
    ensures CycleReachable(edges[id := included], id) <==> CycleReachable(WithIncludes(edges, id, included), id)
  {
    var a, b := edges[id := included], WithIncludes(edges, id, included);
    assert forall n :: Targets(a, n) == Targets(b, n);
    forall w
      ensures IsWalk(a, w) <==> IsWalk(b, w)
    {
    }
    forall from, to
      ensures Reaches(a, from, to) <==> Reaches(b, from, to)
    {
      if w :| Leads(a, w, from, to) {
        assert Leads(b, w, from, to);
      }
      if w :| Leads(b, w, from, to) {
        assert Leads(a, w, from, to);
      }
    }
  }

  lemma {:induction false} DistinctByCount(s: seq<EntityId>)
    ensures |Members(s)| == |s| <==> Distinct(s)
    ensures |Members(s)| <= |s|
  {
    if s != [] {
      var init, last := s[..|s| - 1], s[|s| - 1];
      DistinctByCount(init);
      assert Members(s) == Members(init) + {last};
      if last in init {
        assert Members(s) == Members(init);
        var i :| 0 <= i < |init| && init[i] == last;
        assert s[i] == s[|s| - 1];
      } else {
        assert Distinct(s) <==> Distinct(init);
      }
    }
  }
}
