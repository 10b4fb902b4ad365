/** Lifting request variables to collections: the loops, scope by scope. */
module ImportNormalize {
  // The loops of the registry are proved to compute `Normalized`, which processes the scopes one
  // by one.

  import opened Wrappers
  import opened ImportPlans
  import opened ImportLifting

  function Declared(requests: seq<Request>): seq<Variable> {
    if requests == [] then [] else Declared(requests[..|requests| - 1]) + requests[|requests| - 1].variables
  }

  function RequestsIn(requests: seq<Request>, scope: Scope): seq<Request> {
    if requests == [] then []
    else
      var last := requests[|requests| - 1];
      RequestsIn(requests[..|requests| - 1], scope) + if last.scope == scope then [last] else []
  }

  lemma {:induction false} RequestsInScope(requests: seq<Request>, scope: Scope)
    ensures forall r :: r in RequestsIn(requests, scope) <==> r in requests && r.scope == scope
  {
    if requests != [] {
      var init := requests[..|requests| - 1];
      assert requests == init + [requests[|requests| - 1]];
      RequestsInScope(init, scope);
    }
  }

  /** The scopes that hold requests, in the order in which they are first seen. */
  function ScopesOf(requests: seq<Request>): seq<Scope> {
    if requests == [] then []
    else
      var last := requests[|requests| - 1].scope;
      var before := ScopesOf(requests[..|requests| - 1]);
      if last in before then before else before + [last]
  }

  lemma {:induction false} ScopesHoldRequests(requests: seq<Request>)
    ensures forall r :: r in requests ==> r.scope in ScopesOf(requests)
    ensures forall s :: s in ScopesOf(requests) ==> exists r :: r in requests && r.scope == s
  {
    if requests != [] {
      var init, last := requests[..|requests| - 1], requests[|requests| - 1];
      ScopesHoldRequests(init);
      assert requests == init + [last];
      forall s | s in ScopesOf(requests)
        ensures exists r :: r in requests && r.scope == s
      {
        if s in ScopesOf(init) {
          var r :| r in init && r.scope == s;
          assert r in requests;
        } else {
          assert last in requests;
        }
      }
    }
  }

  lemma {:induction false} ScopesDistinct(requests: seq<Request>)
    ensures forall i, j :: 0 <= i < j < |ScopesOf(requests)| ==> ScopesOf(requests)[i] != ScopesOf(requests)[j]
  {
    if requests != [] {
      ScopesDistinct(requests[..|requests| - 1]);
    }
  }

  /** What a scope inherits; the root scope is compared with its own declarations. */
  ghost function Outer(parents: Parents, lists: Lists, scope: Scope): Bindings
    requires Rooted(parents, scope)
  {
    if scope == None then BindingsAt(parents, lists, None) else InheritedAt(parents, lists, scope)
  }

  ghost function LiftScope(plan: Plan, lists: Lists, scope: Scope): Lists
    requires Rooted(ParentsOf(plan.collections), scope)
  {
    var local := ListOf(lists, scope);
    var inherited := Outer(ParentsOf(plan.collections), lists, scope);
    lists[scope := local + Additions(Declared(RequestsIn(plan.requests, scope)), local, inherited)]
  }

  lemma ScopeRooted(plan: Plan, scope: Scope)
    requires CollectionsValid(plan) && scope in ScopesOf(plan.requests)
    ensures Rooted(ParentsOf(plan.collections), scope)
  {
    ScopesHoldRequests(plan.requests);
    var r :| r in plan.requests && r.scope == scope;
    RequestRooted(plan, r);
  }

  /** The states of a fold, from the start on. */
  function States<S, I>(step: (S, I) -> S, start: S, inputs: seq<I>): (states: seq<S>)
    ensures |states| == |inputs| + 1
  {
    if inputs == [] then [start]
    else
      var n := |inputs| - 1;
      var before := States(step, start, inputs[..n]);
      before + [step(before[n], inputs[n])]
  }

  lemma {:induction false} StatesStep<S, I>(step: (S, I) -> S, start: S, inputs: seq<I>, k: nat)
    requires k < |inputs|
    ensures States(step, start, inputs)[0] == start
    ensures States(step, start, inputs)[k + 1] == step(States(step, start, inputs)[k], inputs[k])
  {
    var n := |inputs| - 1;
    if k < n {
      StatesStep(step, start, inputs[..n], k);
    } else if n > 0 {
      StatesStep(step, start, inputs[..n], 0);
    }
  }

  /** One step of the pass: from the `k`-th to the next state of the declarations. */
  ghost predicate PassStep(plan: Plan, pass: seq<Lists>, k: nat)
    requires k < |ScopesOf(plan.requests)| && |pass| == |ScopesOf(plan.requests)| + 1
  {
    var scope := ScopesOf(plan.requests)[k];
    Rooted(ParentsOf(plan.collections), scope) && pass[k + 1] == LiftScope(plan, pass[k], scope)
  }

  /** The declarations of all scopes before the pass and after each scope. */
  ghost predicate IsPass(plan: Plan, pass: seq<Lists>) {
    && |pass| == |ScopesOf(plan.requests)| + 1
    && pass[0] == ListsOf(plan)
    && forall k: nat {:trigger PassStep(plan, pass, k)} :: k < |ScopesOf(plan.requests)| ==> PassStep(plan, pass, k)
  }

  ghost function Lifting(plan: Plan): (Lists, Scope) -> Lists {
    (lists, scope) => if Rooted(ParentsOf(plan.collections), scope) then LiftScope(plan, lists, scope) else lists
  }

  ghost function Pass(plan: Plan): (pass: seq<Lists>)
    requires CollectionsValid(plan)
    ensures IsPass(plan, pass)
  {
    var scopes := ScopesOf(plan.requests);
    var pass := States(Lifting(plan), ListsOf(plan), scopes);
    assert IsPass(plan, pass) by {
      forall k: nat | k < |scopes|
        ensures PassStep(plan, pass, k)
      {
        StatesStep(Lifting(plan), ListsOf(plan), scopes, k);
        ScopeRooted(plan, scopes[k]);
      }
      if scopes != [] {
        StatesStep(Lifting(plan), ListsOf(plan), scopes, 0);
      }
    }
    pass
  }

  predicate Redundant(v: Variable, bindings: Bindings) {
    v.name in bindings && SameContent(bindings[v.name], v)
  }

  /** A request keeps the declarations that differ from what it sees without them. */
  function Kept(variables: seq<Variable>, bindings: Bindings): seq<Variable> {
    if variables == [] then []
    else
      var last := variables[|variables| - 1];
      Kept(variables[..|variables| - 1], bindings) + if Redundant(last, bindings) then [] else [last]
  }

  ghost function Position(plan: Plan, scope: Scope): (i: nat)
    requires scope in ScopesOf(plan.requests)
    ensures i < |ScopesOf(plan.requests)| && ScopesOf(plan.requests)[i] == scope
  {
    var i: nat :| i < |ScopesOf(plan.requests)| && ScopesOf(plan.requests)[i] == scope;
    i
  }

  /** What the requests of a scope see right after it was processed. */
  ghost function SeenIn(plan: Plan, pass: seq<Lists>, scope: Scope): Bindings
    requires scope in ScopesOf(plan.requests) && |pass| == |ScopesOf(plan.requests)| + 1
  {
    var parents := ParentsOf(plan.collections);
    if Rooted(parents, scope) then BindingsAt(parents, pass[Position(plan, scope) + 1], scope) else map[]
  }

  ghost function SeenByScope(plan: Plan, pass: seq<Lists>): map<Scope, Bindings>
    requires |pass| == |ScopesOf(plan.requests)| + 1
  {
    map s | s in ScopesOf(plan.requests) :: SeenIn(plan, pass, s)
  }

  /** A request of the plan, given what its scope sees. */
  function NormalizedRequest(seen: map<Scope, Bindings>, r: Request): Request {
    if r.scope in seen then r.(variables := Kept(r.variables, seen[r.scope])) else r
  }

  function NormalizedRequests(seen: map<Scope, Bindings>, requests: seq<Request>): (out: seq<Request>)
    ensures |out| == |requests|
  {
    seq(|requests|, i requires 0 <= i < |requests| => NormalizedRequest(seen, requests[i]))
  }

  function WithLists(collections: seq<Collection>, lists: Lists): (out: seq<Collection>)
    ensures |out| == |collections|
  {
    seq(|collections|, i requires 0 <= i < |collections| =>
      collections[i].(variables := ListOf(lists, Some(collections[i].key))))
  }

  /** The plan that a pass over its scopes leaves. */
  ghost function AfterPass(plan: Plan, pass: seq<Lists>): Plan
    requires |pass| == |ScopesOf(plan.requests)| + 1
  {
    var lists := pass[|pass| - 1];
    Plan(plan.pathPrefix, ListOf(lists, None), WithLists(plan.collections, lists),
         NormalizedRequests(SeenByScope(plan, pass), plan.requests))
  }

  ghost function Normalized(plan: Plan): Plan
    requires CollectionsValid(plan)
  {
    AfterPass(plan, Pass(plan))
  }

  // ---------------------------------------------------------------------
  // The loops
  // ---------------------------------------------------------------------

  method SetAll(base: Bindings, variables: seq<Variable>) returns (bindings: Bindings)
    ensures bindings == Overlay(base, variables)
  {
    bindings := base;
    for i := 0 to |variables|
      invariant bindings == Overlay(base, variables[..i])
    {
      assert variables[..i + 1][..i] == variables[..i];
      bindings := bindings[variables[i].name := variables[i]];
    }
    assert variables[..|variables|] == variables;
  }

  /** Root-to-parent declarations inherited by one scope. */
  method InheritedScopeVariables(scope: Scope, parents: Parents, lists: Lists) returns (effective: Bindings)
    requires Rooted(parents, scope)
    ensures effective == Outer(parents, lists, scope)
  {
    var ancestorKeys := [];
    if scope.Some? {
      ParentIsLower(parents, scope.value);
    }
    var start := if scope == None then None else ParentOf(parents, scope.value);
    var parentKey := start;
    while parentKey != None
      invariant Rooted(parents, parentKey) && Rooted(parents, start)
      invariant Ladder(parents, start) == ancestorKeys + Ladder(parents, parentKey)
      decreases Height(parents, parentKey)
    {
      ParentIsLower(parents, parentKey.value);
      ancestorKeys := ancestorKeys + [parentKey.value];
      parentKey := ParentOf(parents, parentKey.value);
    }
    assert Climbs(parents, None, 0);
    effective := SetAll(map[], ListOf(lists, None));
    var i := |ancestorKeys|;
    ghost var at := None;
    while i > 0
      invariant 0 <= i <= |ancestorKeys| && Ladder(parents, start) == ancestorKeys
      invariant at == if i == |ancestorKeys| then None else Some(ancestorKeys[i])
      invariant Rooted(parents, at) && effective == BindingsAt(parents, lists, at)
    {
      i := i - 1;
      LadderStep(parents, start, i);
      at := Some(ancestorKeys[i]);
      effective := SetAll(effective, ListOf(lists, Some(ancestorKeys[i])));
    }
    if start.Some? {
      assert Ladder(parents, start)[0] == start.value;
    }
  }

  type Candidates = map<string, seq<Candidate>>

  ghost predicate CountedName(declared: seq<Variable>, candidates: Candidates, name: string) {
    if name in candidates then Declares(declared, name) && Tally(declared, name, candidates[name])
    else !Declares(declared, name)
  }

  /** The names in first-seen order, each with its tally. */
  ghost predicate Counted(declared: seq<Variable>, names: seq<string>, candidates: Candidates) {
    && names == NamesOf(declared)
    && forall name {:trigger CountedName(declared, candidates, name)} :: CountedName(declared, candidates, name)
  }

  lemma OtherNameCounted(declared: seq<Variable>, candidates: Candidates, v: Variable, more: seq<Candidate>, name: string)
    requires CountedName(declared, candidates, name) && name != v.name
    ensures CountedName(declared + [v], candidates[v.name := more], name)
  {
    DeclaresLast(declared, v, name);
    if name in candidates {
      OtherTallyStays(declared, v, name, candidates[name]);
    }
  }

  lemma NamesGrow(declared: seq<Variable>, v: Variable)
    ensures NamesOf(declared + [v]) == if Declares(declared, v.name) then NamesOf(declared) else NamesOf(declared) + [v.name]
  {
    assert (declared + [v])[..|declared|] == declared;
    NamesAreDeclared(declared);
  }

  lemma NameCounted(declared: seq<Variable>, names: seq<string>, candidates: Candidates, v: Variable, more: seq<Candidate>)
    requires Counted(declared, names, candidates) && Tally(declared + [v], v.name, more)
    ensures Counted(declared + [v], if v.name in candidates then names else names + [v.name], candidates[v.name := more])
  {
    NamesGrow(declared, v);
    DeclaresLast(declared, v, v.name);
    assert CountedName(declared, candidates, v.name);
    var declared', candidates' := declared + [v], candidates[v.name := more];
    forall name
      ensures CountedName(declared', candidates', name)
    {
      assert CountedName(declared, candidates, name);
      if name != v.name {
        OtherNameCounted(declared, candidates, v, more, name);
      }
    }
  }

  /** Counts, per name, the declarations of the requests by signature. */
  method CountCandidates(requests: seq<Request>) returns (names: seq<string>, candidates: Candidates)
    ensures Counted(Declared(requests), names, candidates)
  {
    names, candidates := [], map[];
    var order: nat := 0;
    for i := 0 to |requests|
      invariant order == |Declared(requests[..i])| && Counted(Declared(requests[..i]), names, candidates)
    {
      names, candidates, order := CountRequest(names, candidates, requests[i].variables, Declared(requests[..i]), order);
      assert requests[..i + 1][..i] == requests[..i];
    }
    assert requests[..|requests|] == requests;
  }

  method CountRequest(
    names0: seq<string>, candidates0: Candidates, variables: seq<Variable>, ghost before: seq<Variable>, order0: nat)
    returns (names: seq<string>, candidates: Candidates, order: nat)
    requires order0 == |before| && Counted(before, names0, candidates0)
    ensures order == |before + variables| && Counted(before + variables, names, candidates)
  {
    names, candidates, order := names0, candidates0, order0;
    assert before + variables[..0] == before;
    for j := 0 to |variables|
      invariant order == |before + variables[..j]| && Counted(before + variables[..j], names, candidates)
    {
      var variable := variables[j];
      ghost var declared := before + variables[..j];
      var named := if variable.name in candidates then candidates[variable.name] else [];
      NothingNamed(declared, names, candidates, variable.name);
      var more := AddCandidate(named, variable, declared, order);
      NameCounted(declared, names, candidates, variable, more);
      assert declared + [variable] == before + variables[..j + 1];
      names := if variable.name in candidates then names else names + [variable.name];
      candidates := candidates[variable.name := more];
      order := order + 1;
    }
    assert variables[..|variables|] == variables;
  }

  lemma NothingNamed(declared: seq<Variable>, names: seq<string>, candidates: Candidates, name: string)
    requires Counted(declared, names, candidates)
    ensures Tally(declared, name, if name in candidates then candidates[name] else [])
  {
    assert CountedName(declared, candidates, name);
  }

  /** Lifts the baselines of one scope. */
  method LiftVariables(requests: seq<Request>, local: seq<Variable>, inherited: Bindings) returns (baselines: seq<Variable>)
    ensures baselines == local + Additions(Declared(requests), local, inherited)
  {
    var names, candidates := CountCandidates(requests);
    baselines := LiftNames(names, candidates, local, inherited, Declared(requests));
  }

  method LiftNames(
    names: seq<string>, candidates: Candidates, local: seq<Variable>, inherited: Bindings, ghost declared: seq<Variable>)
    returns (baselines: seq<Variable>)
    requires Counted(declared, names, candidates)
    ensures baselines == local + Lifted(declared, names, local, inherited)
  {
    var localByName := SetAll(map[], local);
    LocalNames(local);
    baselines := local;
    for i := 0 to |names|
      invariant baselines == local + Lifted(declared, names[..i], local, inherited)
      invariant Unmet(names, i, localByName, local)
    {
      var name := names[i];
      LiftedNext(declared, names, i, local, inherited);
      var selected := LiftName(names, candidates, name, name in localByName, inherited, declared, local);
      ghost var before := localByName;
      if selected.Some? {
        baselines := baselines + [selected.value];
        localByName := localByName[name := selected.value];
      }
      StillUnmet(names, i, before, localByName, local, declared);
    }
    assert names[..|names|] == names;
  }

  /** Whether a name from the `i`-th on is known is still as in the scope itself. */
  predicate Unmet(names: seq<string>, i: nat, localByName: Bindings, local: seq<Variable>) {
    forall k {:trigger names[k]} :: i <= k < |names| ==> (names[k] in localByName <==> Declares(local, names[k]))
  }

  lemma StillUnmet(
    names: seq<string>, i: nat, before: Bindings, after: Bindings, local: seq<Variable>, declared: seq<Variable>)
    requires i < |names| && names == NamesOf(declared) && Unmet(names, i, before, local)
    requires forall name :: name != names[i] ==> (name in after <==> name in before)
    ensures Unmet(names, i + 1, after, local)
  {
    NamesDistinct(declared);
  }

  /** The declaration to lift for one name, if any. */
  method LiftName(
    names: seq<string>, candidates: Candidates, name: string, known: bool, inherited: Bindings,
    ghost declared: seq<Variable>, ghost local: seq<Variable>)
    returns (lifted: Option<Variable>)
    requires Counted(declared, names, candidates) && name in names && (known <==> Declares(local, name))
    ensures lifted == if Lifts(declared, local, inherited, name) then Some(Baseline(declared, name)) else None
  {
    NamedIsTallied(declared, names, candidates, name);
    if known {
      return None;
    }
    var selected := SelectCandidate(candidates[name], declared, name);
    if name !in inherited || VariableSignature(inherited[name]) != VariableSignature(selected) {
      ContentsDiffer(inherited, name, selected);
      return Some(selected);
    }
    SignatureIsContent(inherited[name], selected);
    lifted := None;
  }

  lemma ContentsDiffer(inherited: Bindings, name: string, selected: Variable)
    requires name in inherited ==> VariableSignature(inherited[name]) != VariableSignature(selected)
    ensures name in inherited ==> !SameContent(inherited[name], selected)
  {
    if name in inherited {
      SignatureIsContent(inherited[name], selected);
    }
  }

  lemma LiftedNext(declared: seq<Variable>, names: seq<string>, i: nat, local: seq<Variable>, inherited: Bindings)
    requires i < |names|
    ensures Lifted(declared, names[..i + 1], local, inherited)
            == Lifted(declared, names[..i], local, inherited)
               + if Lifts(declared, local, inherited, names[i]) then [Baseline(declared, names[i])] else []
  {
    assert names[..i + 1][..i] == names[..i];
  }

  lemma LocalNames(local: seq<Variable>)
    ensures forall name :: name in Overlay(map[], local) <==> Declares(local, name)
  {
    forall name
      ensures name in Overlay(map[], local) <==> Declares(local, name)
    {
      OverlayDecides(map[], local, name);
    }
  }

  lemma NamedIsTallied(declared: seq<Variable>, names: seq<string>, candidates: Candidates, name: string)
    requires Counted(declared, names, candidates) && name in names
    ensures Declares(declared, name) && name in candidates && candidates[name] != [] && Tally(declared, name, candidates[name])
  {
    assert CountedName(declared, candidates, name);
    NamesAreDeclared(declared);
    var v :| v in declared && v.name == name;
    assert HasSignature(candidates[name], VariableSignature(v));
  }

  ghost predicate GroupedScope(requests: seq<Request>, scopes: seq<Scope>, groups: map<Scope, seq<Request>>, s: Scope) {
    && (s in groups <==> s in scopes)
    && RequestsIn(requests, s) == (if s in groups then groups[s] else [])
  }

  ghost predicate Grouped(requests: seq<Request>, scopes: seq<Scope>, groups: map<Scope, seq<Request>>) {
    && scopes == ScopesOf(requests)
    && forall s {:trigger GroupedScope(requests, scopes, groups, s)} :: GroupedScope(requests, scopes, groups, s)
  }

  lemma GroupsGrow(requests: seq<Request>, r: Request, scopes: seq<Scope>, groups: map<Scope, seq<Request>>)
    requires Grouped(requests, scopes, groups)
    ensures var scoped := if r.scope in groups then groups[r.scope] else [];
            Grouped(requests + [r], if r.scope in groups then scopes else scopes + [r.scope], groups[r.scope := scoped + [r]])
  {
    assert (requests + [r])[..|requests|] == requests;
    assert GroupedScope(requests, scopes, groups, r.scope);
    var scopes' := if r.scope in groups then scopes else scopes + [r.scope];
    var groups' := groups[r.scope := RequestsIn(requests, r.scope) + [r]];
    forall s
      ensures GroupedScope(requests + [r], scopes', groups', s)
    {
      assert GroupedScope(requests, scopes, groups, s);
    }
  }

  /** Groups the requests by scope, the scopes in first-seen order. */
  method GroupByScope(requests: seq<Request>) returns (scopes: seq<Scope>, groups: map<Scope, seq<Request>>)
    ensures Grouped(requests, scopes, groups)
  {
    scopes, groups := [], map[];
    for i := 0 to |requests|
      invariant Grouped(requests[..i], scopes, groups)
    {
      var request := requests[i];
      GroupsGrow(requests[..i], request, scopes, groups);
      assert requests[..i + 1] == requests[..i] + [request];
      var scoped := if request.scope in groups then groups[request.scope] else [];
      scopes := if request.scope in groups then scopes else scopes + [request.scope];
      groups := groups[request.scope := scoped + [request]];
    }
    assert requests[..|requests|] == requests;
  }

  // ---------------------------------------------------------------------
  // The whole pass
  // ---------------------------------------------------------------------

  /** Declarations of a scope do not reach the scopes above it. */
  lemma {:induction false} HigherUnaffected(parents: Parents, lists: Lists, scope: Scope, list: seq<Variable>, upper: Scope)
    requires Rooted(parents, scope) && Rooted(parents, upper) && Height(parents, upper) < Height(parents, scope)
    ensures BindingsAt(parents, lists[scope := list], upper) == BindingsAt(parents, lists, upper)
    decreases Height(parents, upper)
  {
    if upper.Some? {
      ParentIsLower(parents, upper.value);
      HigherUnaffected(parents, lists, scope, list, ParentOf(parents, upper.value));
    }
  }

  lemma OverlayTwice(list: seq<Variable>, added: seq<Variable>)
    ensures Overlay(Overlay(map[], list), list + added) == Overlay(map[], list + added)
  {
    var base, all := Overlay(map[], list), list + added;
    forall name
      ensures name in Overlay(base, all) <==> name in Overlay(map[], all)
      ensures name in Overlay(map[], all) ==> Overlay(base, all)[name] == Overlay(map[], all)[name]
    {
      OverlayDecides(map[], list, name);
      OverlayDecides(map[], all, name);
      OverlayDecides(base, all, name);
      if Declares(list, name) {
        var v :| v in list && v.name == name;
        assert v in all;
      }
      if Declares(all, name) {
        OverlayHides(base, map[], all, name);
      }
    }
  }

  /** The overlay of the pass is what the requests of the scope see once it is processed. */
  lemma EffectiveAfterLift(plan: Plan, lists: Lists, scope: Scope)
    requires Rooted(ParentsOf(plan.collections), scope)
    ensures var parents, after := ParentsOf(plan.collections), LiftScope(plan, lists, scope);
            Overlay(Outer(parents, lists, scope), ListOf(after, scope)) == BindingsAt(parents, after, scope)
  {
    var parents, after := ParentsOf(plan.collections), LiftScope(plan, lists, scope);
    if scope == None {
      var list := ListOf(lists, None);
      assert InheritedAt(parents, lists, None) == map[] && InheritedAt(parents, after, None) == map[];
      OverlayTwice(list, Additions(Declared(RequestsIn(plan.requests, None)), list, Outer(parents, lists, None)));
    } else {
      ParentIsLower(parents, scope.value);
      HigherUnaffected(parents, lists, scope, after[scope], ParentOf(parents, scope.value));
    }
  }

  method InitialLists(plan: Plan) returns (lists: Lists)
    ensures lists == ListsOf(plan)
  {
    lists := map[None := plan.variables];
    for i := 0 to |plan.collections|
      invariant lists == CollectionLists(plan.variables, plan.collections[..i])
    {
      assert plan.collections[..i + 1][..i] == plan.collections[..i];
      lists := lists[Some(plan.collections[i].key) := plan.collections[i].variables];
    }
    assert plan.collections[..|plan.collections|] == plan.collections;
  }

  predicate KeptAs(r: Request, effective: Bindings, normalized: map<string, Request>) {
    r.itemId in normalized && normalized[r.itemId] == r.(variables := Kept(r.variables, effective))
  }

  /** The declarations of one request whose signature differs from what its scope shows. */
  method DifferingFrom(effective: Bindings, variables: seq<Variable>) returns (kept: seq<Variable>)
    ensures kept == Kept(variables, effective)
  {
    kept := [];
    for i := 0 to |variables|
      invariant kept == Kept(variables[..i], effective)
    {
      var v := variables[i];
      assert variables[..i + 1][..i] == variables[..i];
      if v.name in effective {
        SignatureIsContent(effective[v.name], v);
      }
      if v.name !in effective || VariableSignature(effective[v.name]) != VariableSignature(v) {
        kept := kept + [v];
      }
    }
    assert variables[..|variables|] == variables;
  }

  /** Rewrites the requests of one scope. */
  method KeepDifferent(normalized0: map<string, Request>, requests: seq<Request>, effective: Bindings)
    returns (normalized: map<string, Request>)
    requires forall r, q :: r in requests && q in requests && r.itemId == q.itemId ==> r == q
    ensures forall r :: r in requests ==> KeptAs(r, effective, normalized)
    ensures forall id :: id in normalized0 && (forall r :: r in requests ==> r.itemId != id) ==>
              id in normalized && normalized[id] == normalized0[id]
  {
    normalized := normalized0;
    for i := 0 to |requests|
      invariant forall r :: r in requests[..i] ==> KeptAs(r, effective, normalized)
      invariant forall id :: id in normalized0 && (forall r :: r in requests ==> r.itemId != id) ==>
                  id in normalized && normalized[id] == normalized0[id]
    {
      var request := requests[i];
      assert requests[..i + 1] == requests[..i] + [request];
      var variables := DifferingFrom(effective, request.variables);
      normalized := normalized[request.itemId := request.(variables := variables)];
    }
    assert requests[..|requests|] == requests;
  }

  ghost predicate IsRewritten(seen: map<Scope, Bindings>, r: Request, normalized: map<string, Request>) {
    r.itemId in normalized && normalized[r.itemId] == NormalizedRequest(seen, r)
  }

  /** The requests of the given scopes are rewritten. */
  ghost predicate Rewritten(requests: seq<Request>, done: seq<Scope>, seen: map<Scope, Bindings>, normalized: map<string, Request>) {
    forall r {:trigger r in requests} :: r in requests && r.scope in done ==> IsRewritten(seen, r, normalized)
  }

  lemma SameItemSameRequest(requests: seq<Request>, inside: seq<Request>)
    requires ItemIdsUnique(requests) && (forall r :: r in inside ==> r in requests)
    ensures forall r, q :: r in inside && q in inside && r.itemId == q.itemId ==> r == q
  {
    forall r, q | r in inside && q in inside && r.itemId == q.itemId
      ensures r == q
    {
      var i :| 0 <= i < |requests| && requests[i] == r;
      var j :| 0 <= j < |requests| && requests[j] == q;
    }
  }

  lemma OneMoreRewritten(
    requests: seq<Request>, done: seq<Scope>, scope: Scope, inside: seq<Request>, seen: map<Scope, Bindings>,
    normalized: map<string, Request>, rewritten: map<string, Request>)
    requires ItemIdsUnique(requests) && inside == RequestsIn(requests, scope) && scope in seen
    requires Rewritten(requests, done, seen, normalized)
    requires forall r :: r in inside ==> KeptAs(r, seen[scope], rewritten)
    requires forall id :: id in normalized && (forall r :: r in inside ==> r.itemId != id) ==>
               id in rewritten && rewritten[id] == normalized[id]
    ensures Rewritten(requests, done + [scope], seen, rewritten)
  {
    RequestsInScope(requests, scope);
    SameItemSameRequest(requests, requests);
    forall r | r in requests && r.scope in done + [scope]
      ensures IsRewritten(seen, r, rewritten)
    {
      if r.scope == scope {
        assert KeptAs(r, seen[scope], rewritten);
      } else {
        assert IsRewritten(seen, r, normalized);
      }
    }
  }

  /** `rewritten` holds the requests of one scope as they are kept, and otherwise what `normalized` holds. */
  ghost predicate ScopeRewritten(
    inside: seq<Request>, effective: Bindings, normalized: map<string, Request>, rewritten: map<string, Request>)
  {
    && (forall r :: r in inside ==> KeptAs(r, effective, rewritten))
    && (forall id :: id in normalized && (forall r :: r in inside ==> r.itemId != id) ==>
          id in rewritten && rewritten[id] == normalized[id])
  }

  /** Processes one scope: lifts its baselines, then rewrites its requests. */
  method ProcessScope(plan: Plan, scope: Scope, requests: seq<Request>, lists: Lists, normalized: map<string, Request>)
    returns (lists': Lists, normalized': map<string, Request>)
    requires ItemIdsUnique(plan.requests) && Rooted(ParentsOf(plan.collections), scope)
    requires requests == RequestsIn(plan.requests, scope)
    ensures lists' == LiftScope(plan, lists, scope)
    ensures ScopeRewritten(requests, BindingsAt(ParentsOf(plan.collections), lists', scope), normalized, normalized')
  {
    RequestsInScope(plan.requests, scope);
    SameItemSameRequest(plan.requests, requests);
    var inherited := InheritedScopeVariables(scope, ParentsOf(plan.collections), lists);
    var baselines := LiftVariables(requests, ListOf(lists, scope), inherited);
    lists' := lists[scope := baselines];
    EffectiveAfterLift(plan, lists, scope);
    var effective := SetAll(inherited, baselines);
    normalized' := KeepDifferent(normalized, requests, effective);
  }

  lemma SeenAfterStep(plan: Plan, pass: seq<Lists>, k: nat)
    requires IsPass(plan, pass) && k < |ScopesOf(plan.requests)|
    ensures var scope, parents := ScopesOf(plan.requests)[k], ParentsOf(plan.collections);
            && Rooted(parents, scope) && pass[k + 1] == LiftScope(plan, pass[k], scope)
            && SeenIn(plan, pass, scope) == BindingsAt(parents, pass[k + 1], scope)
  {
    assert PassStep(plan, pass, k);
    PositionIs(plan, k);
  }

  lemma PositionIs(plan: Plan, k: nat)
    requires k < |ScopesOf(plan.requests)|
    ensures Position(plan, ScopesOf(plan.requests)[k]) == k
  {
    ScopesDistinct(plan.requests);
  }

  lemma RewritesNext(
    requests: seq<Request>, k: nat, seen: map<Scope, Bindings>, effective: Bindings,
    normalized: map<string, Request>, rewritten: map<string, Request>)
    requires ItemIdsUnique(requests) && k < |ScopesOf(requests)|
    requires ScopesOf(requests)[k] in seen && seen[ScopesOf(requests)[k]] == effective
    requires Rewritten(requests, ScopesOf(requests)[..k], seen, normalized)
    requires ScopeRewritten(RequestsIn(requests, ScopesOf(requests)[k]), effective, normalized, rewritten)
    ensures Rewritten(requests, ScopesOf(requests)[..k + 1], seen, rewritten)
  {
    var scopes := ScopesOf(requests);
    OneMoreRewritten(requests, scopes[..k], scopes[k], RequestsIn(requests, scopes[k]), seen, normalized, rewritten);
    assert scopes[..k + 1] == scopes[..k] + [scopes[k]];
  }

  /** What the loop holds once it has processed `k` scopes. */
  ghost predicate Reached(plan: Plan, pass: seq<Lists>, seen: map<Scope, Bindings>, k: nat, lists: Lists, normalized: map<string, Request>) {
    && k <= |ScopesOf(plan.requests)| && k < |pass|
    && lists == pass[k] && Rewritten(plan.requests, ScopesOf(plan.requests)[..k], seen, normalized)
  }

  /** Processes the scope number `k`. */
  method NextScope(
    plan: Plan, ghost pass: seq<Lists>, ghost seen: map<Scope, Bindings>, scopes: seq<Scope>, groups: map<Scope, seq<Request>>,
    k: nat, lists: Lists, normalized: map<string, Request>)
    returns (lists': Lists, normalized': map<string, Request>)
    requires PlanValid(plan) && IsPass(plan, pass) && seen == SeenByScope(plan, pass)
    requires Grouped(plan.requests, scopes, groups) && k < |scopes| && Reached(plan, pass, seen, k, lists, normalized)
    ensures Reached(plan, pass, seen, k + 1, lists', normalized')
  {
    var scope := scopes[k];
    SeenAfterStep(plan, pass, k);
    assert GroupedScope(plan.requests, scopes, groups, scope);
    lists', normalized' := ProcessScope(plan, scope, groups[scope], lists, normalized);
    RewritesNext(plan.requests, k, seen, seen[scope], normalized, normalized');
  }

  /** Processes every scope that holds requests, in first-seen order. */
  method NormalizeScopes(plan: Plan, ghost pass: seq<Lists>, ghost seen: map<Scope, Bindings>)
    returns (scopeVariables: Lists, normalized: map<string, Request>)
    requires PlanValid(plan) && IsPass(plan, pass) && seen == SeenByScope(plan, pass)
    ensures scopeVariables == pass[|pass| - 1] && Rewritten(plan.requests, ScopesOf(plan.requests), seen, normalized)
  {
    scopeVariables := InitialLists(plan);
    normalized := map[];
    var scopes, groups := GroupByScope(plan.requests);
    for k := 0 to |scopes|
      invariant Reached(plan, pass, seen, k, scopeVariables, normalized)
    {
      scopeVariables, normalized := NextScope(plan, pass, seen, scopes, groups, k, scopeVariables, normalized);
    }
    assert scopes[..|scopes|] == scopes;
  }

  method NormalizeImportVariables(plan: Plan) returns (result: Plan)
    requires PlanValid(plan)
    ensures result == Normalized(plan)
  {
    ghost var pass := Pass(plan);
    ghost var seen := SeenByScope(plan, pass);
    var scopeVariables, normalized := NormalizeScopes(plan, pass, seen);
    var requests := AllRewritten(plan.requests, normalized, seen);
    result := Plan(plan.pathPrefix, ListOf(scopeVariables, None), WithLists(plan.collections, scopeVariables), requests);
  }

  method AllRewritten(requests: seq<Request>, normalized: map<string, Request>, ghost seen: map<Scope, Bindings>)
    returns (out: seq<Request>)
    requires Rewritten(requests, ScopesOf(requests), seen, normalized)
    ensures out == NormalizedRequests(seen, requests)
  {
    ScopesHoldRequests(requests);
    out := [];
    for i := 0 to |requests|
      invariant out == NormalizedRequests(seen, requests)[..i]
    {
      var r := requests[i];
      assert r in requests && IsRewritten(seen, r, normalized);
      out := out + [if r.itemId in normalized then normalized[r.itemId] else r];
    }
  }
}
