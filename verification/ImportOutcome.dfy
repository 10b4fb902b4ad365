/** What lifting leaves in the scopes and requests of a plan, told by contents. */
module ImportOutcome {
  import opened Wrappers
  import opened Sequences
  import opened ImportPlans
  import opened ImportLifting
  import opened ImportNormalize
  import opened ImportMeaning
  import opened ImportDuplicates

  /** The last declaration of a name is the one at the greatest position. */
  lemma {:induction false} LastIsLatest(variables: seq<Variable>, i: nat)
    requires i < |variables| && forall j :: i < j < |variables| ==> variables[j].name != variables[i].name
    ensures Declares(variables, variables[i].name) && LastOf(variables, variables[i].name) == variables[i]
  {
    var n := |variables| - 1;
    assert variables == variables[..n] + [variables[n]];
    LastAppended(variables[..n], variables[n], variables[i].name);
    if i < n {
      LastIsLatest(variables[..n], i);
    }
  }

  // ---------------------------------------------------------------------
  // Nearest scopes
  // ---------------------------------------------------------------------

  /** A scope and the scopes around it, the nearest first and the root last. */
  ghost function Around(parents: Parents, at: Scope): (scopes: seq<Scope>)
    requires Rooted(parents, at)
  {
    var keys := Ladder(parents, at);
    seq(|keys|, i requires 0 <= i < |keys| => Some(keys[i])) + [None]
  }

  lemma AroundStep(parents: Parents, key: Key)
    requires Rooted(parents, Some(key))
    ensures Rooted(parents, ParentOf(parents, key))
    ensures Around(parents, Some(key)) == [Some(key)] + Around(parents, ParentOf(parents, key))
  {
    ParentIsLower(parents, key);
  }

  lemma AroundStarts(parents: Parents, at: Scope)
    requires Rooted(parents, at)
    ensures Around(parents, at)[0] == at
    ensures at == None ==> Around(parents, at) == [None]
  {
    if at.Some? {
      AroundStep(parents, at.value);
    }
  }

  /** The nearest scope around `at` that declares the name is scope number `i`. */
  ghost predicate Nearest(parents: Parents, lists: Lists, at: Scope, name: string, i: nat)
    requires Rooted(parents, at)
  {
    var scopes := Around(parents, at);
    && i < |scopes| && Declares(ListOf(lists, scopes[i]), name)
    && forall j :: 0 <= j < i ==> !Declares(ListOf(lists, scopes[j]), name)
  }

  lemma NearestAbove(parents: Parents, lists: Lists, key: Key, name: string, i: nat)
    requires Rooted(parents, Some(key)) && Nearest(parents, lists, Some(key), name, i) && i > 0
    ensures var parent := ParentOf(parents, key);
            && Rooted(parents, parent) && Nearest(parents, lists, parent, name, i - 1)
            && Around(parents, parent)[i - 1] == Around(parents, Some(key))[i]
  {
    AroundStep(parents, key);
    var inner, outer := Around(parents, Some(key)), Around(parents, ParentOf(parents, key));
    assert forall j :: 0 <= j < |outer| ==> outer[j] == inner[j + 1];
  }

  /** A name is bound to the last declaration of the nearest scope that declares it. */
  lemma {:induction false} NearestDeclarationWins(parents: Parents, lists: Lists, at: Scope, name: string, i: nat)
    requires Rooted(parents, at) && Nearest(parents, lists, at, name, i)
    ensures name in BindingsAt(parents, lists, at)
    ensures BindingsAt(parents, lists, at)[name] == LastOf(ListOf(lists, Around(parents, at)[i]), name)
    decreases i
  {
    var list, outer := ListOf(lists, at), InheritedAt(parents, lists, at);
    AroundStarts(parents, at);
    if i == 0 {
      OwnBinding(outer, list, name);
    } else {
      NearestAbove(parents, lists, at.value, name, i);
      NearestDeclarationWins(parents, lists, ParentOf(parents, at.value), name, i - 1);
      OverlayDecides(outer, list, name);
    }
  }

  /** A name that no scope around declares is not bound. */
  lemma {:induction false} UndeclaredIsUnbound(parents: Parents, lists: Lists, at: Scope, name: string)
    requires Rooted(parents, at) && forall s :: s in Around(parents, at) ==> !Declares(ListOf(lists, s), name)
    ensures name !in BindingsAt(parents, lists, at)
    decreases Height(parents, at)
  {
    var list, outer := ListOf(lists, at), InheritedAt(parents, lists, at);
    OverlayDecides(outer, list, name);
    AroundStarts(parents, at);
    assert at in Around(parents, at);
    if at.Some? {
      ParentIsLower(parents, at.value);
      AroundStep(parents, at.value);
      assert forall s :: s in Around(parents, ParentOf(parents, at.value)) ==> s in Around(parents, at);
      UndeclaredIsUnbound(parents, lists, ParentOf(parents, at.value), name);
    }
  }

  // ---------------------------------------------------------------------
  // What scopes receive
  // ---------------------------------------------------------------------

  /** The lifted declarations of a scope that inherits the given bindings. */
  ghost predicate IsLifted(declared: seq<Variable>, local: seq<Variable>, inherited: Bindings, added: seq<Variable>) {
    && (forall name {:trigger Declares(added, name)} :: Declares(added, name) <==>
          && Declares(declared, name) && !Declares(local, name)
          && !(name in inherited && SameContent(inherited[name], Baseline(declared, name))))
    && (forall v :: v in added ==> Declares(declared, v.name) && v == Baseline(declared, v.name))
    && (forall i, j :: 0 <= i < j < |added| ==> SeenBefore(NameEach(declared), added[i].name, added[j].name))
  }

  lemma {:induction false} LiftedInOrder(declared: seq<Variable>, names: seq<string>, local: seq<Variable>, inherited: Bindings)
    requires forall i, j :: 0 <= i < j < |names| ==> SeenBefore(NameEach(declared), names[i], names[j])
    ensures var added := Lifted(declared, names, local, inherited);
            && (forall v :: v in added ==> v.name in names)
            && forall i, j :: 0 <= i < j < |added| ==> SeenBefore(NameEach(declared), added[i].name, added[j].name)
  {
    if names != [] {
      var n := |names| - 1;
      LiftedInOrder(declared, names[..n], local, inherited);
      var before := Lifted(declared, names[..n], local, inherited);
      forall i | 0 <= i < |before|
        ensures SeenBefore(NameEach(declared), before[i].name, names[n])
      {
        assert before[i] in before;
      }
    }
  }

  lemma AdditionsAreLifted(declared: seq<Variable>, local: seq<Variable>, inherited: Bindings)
    ensures IsLifted(declared, local, inherited, Additions(declared, local, inherited))
  {
    forall name
      ensures Declares(Additions(declared, local, inherited), name) <==> Lifts(declared, local, inherited, name)
    {
      AdditionsDeclare(declared, local, inherited, name);
    }
    LiftedAreBaselines(declared, NamesOf(declared), local, inherited);
    NamesFirstSeen(declared);
    LiftedInOrder(declared, NamesOf(declared), local, inherited);
  }

  /**
   A scope with requests keeps its declarations and receives, for every name its requests
   declare and it does not, what most of them declare, unless it inherits the same.
   */
  lemma ScopeReceives(plan: Plan, k: nat)
    requires PlanValid(plan) && k < |ScopesOf(plan.requests)|
    ensures var scope, parents := ScopesOf(plan.requests)[k], ParentsOf(plan.collections);
            var before, after := ListOf(ListsOf(plan), scope), ListOf(ListsOf(Normalized(plan)), scope);
            && Rooted(parents, scope)
            && before <= after
            && IsLifted(Declared(RequestsIn(plan.requests, scope)), before, Outer(parents, Pass(plan)[k], scope), after[|before|..])
  {
    var pass, scope := Pass(plan), ScopesOf(plan.requests)[k];
    ListAtEnd(plan, pass, k);
    var local, inherited := ListOf(ListsOf(plan), scope), Outer(ParentsOf(plan.collections), pass[k], scope);
    var declared := Declared(RequestsIn(plan.requests, scope));
    AdditionsAreLifted(declared, local, inherited);
    DropPrefix(local, Additions(declared, local, inherited));
  }

  /** A scope ends with the list that its own step gave it. */
  lemma ListAtEnd(plan: Plan, pass: seq<Lists>, k: nat)
    requires PlanValid(plan) && IsPass(plan, pass) && k < |ScopesOf(plan.requests)|
    ensures var scope, parents := ScopesOf(plan.requests)[k], ParentsOf(plan.collections);
            var local := ListOf(ListsOf(plan), scope);
            && Rooted(parents, scope)
            && ListOf(ListsOf(AfterPass(plan, pass)), scope)
               == local + Additions(Declared(RequestsIn(plan.requests, scope)), local, Outer(parents, pass[k], scope))
  {
    var scope := ScopesOf(plan.requests)[k];
    SeenAfterStep(plan, pass, k);
    OnlyStepActs(plan, pass, k);
  }

  lemma OnlyStepActs(plan: Plan, pass: seq<Lists>, k: nat)
    requires PlanValid(plan) && IsPass(plan, pass) && k < |ScopesOf(plan.requests)|
    ensures var scope := ScopesOf(plan.requests)[k];
            && ListOf(ListsOf(plan), scope) == ListOf(pass[k], scope)
            && ListOf(ListsOf(AfterPass(plan, pass)), scope) == ListOf(pass[k + 1], scope)
  {
    var scope := ScopesOf(plan.requests)[k];
    ScopesDistinct(plan.requests);
    Frozen(plan, pass, 0, k, scope);
    Frozen(plan, pass, k + 1, |pass| - 1, scope);
    EndLists(plan, pass, scope);
  }

  /** A scope without requests keeps its declarations. */
  lemma IdleScopeKeeps(plan: Plan, scope: Scope)
    requires PlanValid(plan) && scope !in ScopesOf(plan.requests)
    ensures ListOf(ListsOf(Normalized(plan)), scope) == ListOf(ListsOf(plan), scope)
  {
    var pass := Pass(plan);
    forall i | 0 <= i < |pass| - 1
      ensures ScopesOf(plan.requests)[i] != scope
    {
      assert ScopesOf(plan.requests)[i] in ScopesOf(plan.requests);
    }
    Frozen(plan, pass, 0, |pass| - 1, scope);
    EndLists(plan, pass, scope);
  }

  /** The requests of a scope are taken in the order of the plan. */
  lemma {:induction false} ScopeInOrder(requests: seq<Request>, scope: Scope) returns (at: seq<nat>)
    ensures Picks(requests, RequestsIn(requests, scope), at)
    ensures forall j :: 0 <= j < |requests| ==> (j in at <==> requests[j].scope == scope)
  {
    at := [];
    if requests != [] {
      var n := |requests| - 1;
      var init, last := requests[..n], requests[n];
      var before := ScopeInOrder(init, scope);
      var take := last.scope == scope;
      at := if take then before + [n] else before;
      assert requests == init + [last];
      PickNext(init, RequestsIn(init, scope), before, last, take, requests, RequestsIn(requests, scope), at);
      forall j | 0 <= j < n
        ensures requests[j] == init[j]
      {
      }
    }
  }

  /** Their declarations are taken request by request. */
  lemma {:induction false} DeclaredInOrder(a: seq<Request>, r: Request, b: seq<Request>)
    ensures Declared(a + [r] + b) == Declared(a) + r.variables + Declared(b)
  {
    if b == [] {
      assert a + [r] + b == a + [r] && (a + [r])[..|a|] == a;
    } else {
      var n := |b| - 1;
      assert (a + [r] + b)[..|a| + 1 + n] == a + [r] + b[..n];
      DeclaredInOrder(a, r, b[..n]);
    }
  }

  function ScopeEach(requests: seq<Request>): (scopes: seq<Scope>)
    ensures |scopes| == |requests|
  {
    seq(|requests|, i requires 0 <= i < |requests| => requests[i].scope)
  }

  /** The scopes are processed in the order of their first requests. */
  lemma {:induction false} ScopesFirstSeen(requests: seq<Request>)
    ensures InFirstSeenOrder(ScopesOf(requests), ScopeEach(requests))
  {
    if requests != [] {
      var n := |requests| - 1;
      ScopesFirstSeen(requests[..n]);
      assert ScopeEach(requests) == ScopeEach(requests[..n]) + [requests[n].scope];
      FirstSeenNext(ScopesOf(requests[..n]), ScopeEach(requests[..n]), requests[n].scope, ScopesOf(requests), ScopeEach(requests));
    }
  }

  // ---------------------------------------------------------------------
  // What requests keep
  // ---------------------------------------------------------------------

  lemma {:induction false} KeptPicks(variables: seq<Variable>, bindings: Bindings) returns (at: seq<nat>)
    ensures Picks(variables, Kept(variables, bindings), at)
    ensures forall j :: 0 <= j < |variables| ==> (j in at <==> !Redundant(variables[j], bindings))
  {
    at := [];
    if variables != [] {
      var n := |variables| - 1;
      var init, last := variables[..n], variables[n];
      var before := KeptPicks(init, bindings);
      var take := !Redundant(last, bindings);
      at := if take then before + [n] else before;
      assert variables == init + [last];
      PickNext(init, Kept(init, bindings), before, last, take, variables, Kept(variables, bindings), at);
      forall j | 0 <= j < n
        ensures variables[j] == init[j]
      {
      }
    }
  }

  /** The declaration differs from what its scope shows under its name. */
  ghost predicate Differs(plan: Plan, r: Request, v: Variable)
    requires r in plan.requests && v in r.variables
  {
    RequestDeclares(plan.requests, r, v.name);
    !SameContent(Shown(plan, r.scope, v.name), v)
  }

  lemma RedundantIffShown(plan: Plan, i: nat, v: Variable)
    requires PlanValid(plan) && i < |plan.requests| && v in plan.requests[i].variables
    ensures Redundant(v, SeenBy(plan, i)) <==> !Differs(plan, plan.requests[i], v)
  {
    var r := plan.requests[i];
    RequestDeclares(plan.requests, r, v.name);
    ScopesHoldRequests(plan.requests);
    SeenIsShown(plan, r.scope, v.name);
  }

  /** A request keeps, in their order, exactly the declarations that differ from what its scope shows. */
  lemma RequestKeepsDiffering(plan: Plan, i: nat) returns (at: seq<nat>)
    requires PlanValid(plan) && i < |plan.requests|
    ensures |Normalized(plan).requests| == |plan.requests|
    ensures var r, after := plan.requests[i], Normalized(plan).requests[i];
            && after == r.(variables := after.variables)
            && Picks(r.variables, after.variables, at)
            && forall j :: 0 <= j < |r.variables| ==> (j in at <==> Differs(plan, r, r.variables[j]))
  {
    var r := plan.requests[i];
    ScopesHoldRequests(plan.requests);
    at := KeptPicks(r.variables, SeenBy(plan, i));
    forall j | 0 <= j < |r.variables|
      ensures j in at <==> Differs(plan, r, r.variables[j])
    {
      RedundantIffShown(plan, i, r.variables[j]);
    }
  }
}
