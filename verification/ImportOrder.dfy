/** Whether lifting can be trusted depends on the order of first requests. */
module ImportOrder {
  import opened Wrappers
  import opened ImportPlans
  import opened ImportLifting
  import opened ImportNormalize
  import opened ImportMeaning

  /** The plans agree on all but the variables. */
  predicate SameShape(a: Plan, b: Plan) {
    && |a.collections| == |b.collections| && |a.requests| == |b.requests|
    && (forall i {:trigger a.collections[i]} {:trigger b.collections[i]} :: 0 <= i < |a.collections| ==>
          a.collections[i].key == b.collections[i].key && a.collections[i].parent == b.collections[i].parent)
    && (forall i {:trigger a.requests[i]} {:trigger b.requests[i]} :: 0 <= i < |a.requests| ==>
          a.requests[i].itemId == b.requests[i].itemId && a.requests[i].scope == b.requests[i].scope)
  }

  lemma {:induction false} SameParentsOf(a: seq<Collection>, b: seq<Collection>)
    requires |a| == |b|
    requires forall i {:trigger a[i]} {:trigger b[i]} :: 0 <= i < |a| ==> a[i].key == b[i].key && a[i].parent == b[i].parent
    ensures ParentsOf(a) == ParentsOf(b)
  {
    if a != [] {
      SameParentsOf(a[..|a| - 1], b[..|b| - 1]);
    }
  }

  lemma {:induction false} SameScopesOf(a: seq<Request>, b: seq<Request>)
    requires |a| == |b|
    requires forall i {:trigger a[i]} {:trigger b[i]} :: 0 <= i < |a| ==> a[i].scope == b[i].scope
    ensures ScopesOf(a) == ScopesOf(b)
  {
    if a != [] {
      SameScopesOf(a[..|a| - 1], b[..|b| - 1]);
    }
  }

  /** Validity and the order of scopes depend on the shape alone. */
  lemma ShapeDecides(a: Plan, b: Plan)
    requires PlanValid(a) && SameShape(a, b)
    ensures ParentsOf(a.collections) == ParentsOf(b.collections) && ScopesOf(a.requests) == ScopesOf(b.requests)
    ensures PlanValid(b)
    ensures AncestorsFirst(a) <==> AncestorsFirst(b)
  {
    SameParentsOf(a.collections, b.collections);
    SameScopesOf(a.requests, b.requests);
    ShapeValid(a, b);
    forall i: nat, j: nat
      ensures IsAncestor(a, j, i) <==> IsAncestor(b, j, i)
    {
    }
  }

  lemma ShapeValid(a: Plan, b: Plan)
    requires PlanValid(a) && SameShape(a, b) && ParentsOf(a.collections) == ParentsOf(b.collections)
    ensures PlanValid(b)
  {
    forall c | c in b.collections && c.parent.Some?
      ensures c.parent.value in ParentsOf(b.collections)
    {
      var i :| 0 <= i < |b.collections| && b.collections[i] == c;
      assert a.collections[i] in a.collections;
    }
    forall r | r in b.requests && r.scope.Some?
      ensures r.scope.value in ParentsOf(b.collections)
    {
      var i :| 0 <= i < |b.requests| && b.requests[i] == r;
      assert a.requests[i] in a.requests;
    }
  }

  // ---------------------------------------------------------------------
  // Contents that lose their meaning
  // ---------------------------------------------------------------------

  const FIRST: Variable := Variable("v", None, Value("1"))
  const SECOND: Variable := Variable("v", None, Value("2"))

  /** The root and the lower scope declare one value, the upper scope another. */
  function Declaration(scope: Scope, lower: Scope, upper: Scope): seq<Variable> {
    if scope == lower then [FIRST] else if scope == upper then [SECOND] else []
  }

  function Conflict(plan: Plan, lower: Scope, upper: Scope): Plan {
    Plan(plan.pathPrefix, [FIRST],
         seq(|plan.collections|, i requires 0 <= i < |plan.collections| => plan.collections[i].(variables := [])),
         seq(|plan.requests|, i requires 0 <= i < |plan.requests| =>
           plan.requests[i].(variables := Declaration(plan.requests[i].scope, lower, upper))))
  }

  /** Every request declares what its scope says. */
  predicate DeclaresByScope(requests: seq<Request>, lower: Scope, upper: Scope) {
    forall r :: r in requests ==> r.variables == Declaration(r.scope, lower, upper)
  }

  lemma ConflictDeclares(plan: Plan, lower: Scope, upper: Scope)
    ensures DeclaresByScope(Conflict(plan, lower, upper).requests, lower, upper)
    ensures SameShape(plan, Conflict(plan, lower, upper)) && OneMeaning(Conflict(plan, lower, upper))
  {
    var c := Conflict(plan, lower, upper);
    forall r | r in c.requests
      ensures r.variables == Declaration(r.scope, lower, upper)
    {
      var i :| 0 <= i < |c.requests| && c.requests[i] == r;
    }
  }

  lemma DeclaredNext(requests: seq<Request>, scope: Scope)
    requires requests != []
    ensures var init, last := requests[..|requests| - 1], requests[|requests| - 1];
            Declared(RequestsIn(requests, scope))
            == Declared(RequestsIn(init, scope)) + if last.scope == scope then last.variables else []
  {
    var inside, last := RequestsIn(requests[..|requests| - 1], scope), requests[|requests| - 1];
    assert (inside + [last])[..|inside|] == inside;
    assert inside + [] == inside;
  }

  lemma {:induction false} DeclaredInScope(requests: seq<Request>, lower: Scope, upper: Scope, scope: Scope)
    requires DeclaresByScope(requests, lower, upper)
    ensures forall v :: v in Declared(RequestsIn(requests, scope)) ==> [v] == Declaration(scope, lower, upper)
    ensures scope in ScopesOf(requests) && Declaration(scope, lower, upper) != [] ==> Declared(RequestsIn(requests, scope)) != []
  {
    if requests != [] {
      var init, last := requests[..|requests| - 1], requests[|requests| - 1];
      assert requests == init + [last];
      assert last in requests && forall r :: r in init ==> r in requests;
      DeclaredInScope(init, lower, upper, scope);
      DeclaredNext(requests, scope);
    }
  }

  lemma {:induction false} SingleName(declared: seq<Variable>, v: Variable)
    requires declared != [] && forall x :: x in declared ==> x == v
    ensures NamesOf(declared) == [v.name] && Declares(declared, v.name) && Baseline(declared, v.name) == v
  {
    assert declared[0] in declared;
    SingleNames(declared, v);
  }

  lemma {:induction false} SingleNames(declared: seq<Variable>, v: Variable)
    requires declared != [] && forall x :: x in declared ==> x == v
    ensures NamesOf(declared) == [v.name]
  {
    var init := declared[..|declared| - 1];
    assert declared[|declared| - 1] in declared && forall x :: x in init ==> x in declared;
    if init != [] {
      SingleNames(init, v);
    }
  }

  /** All collections but one have no declarations, and the root has the given ones. */
  ghost predicate OnlyAt(lists: Lists, root: seq<Variable>, upper: Scope, list: seq<Variable>) {
    forall s {:trigger ListOf(lists, s)} :: ListOf(lists, s) == if s == None then root else if s == upper then list else []
  }

  lemma {:induction false} NothingBetween(parents: Parents, lists: Lists, at: Scope, upper: Scope)
    requires Rooted(parents, at) && OnlyAt(lists, [FIRST], upper, [])
    ensures BindingsAt(parents, lists, at) == map["v" := FIRST]
    decreases Height(parents, at)
  {
    if at.Some? {
      ParentIsLower(parents, at.value);
      NothingBetween(parents, lists, ParentOf(parents, at.value), upper);
    } else {
      assert InheritedAt(parents, lists, None) == map[];
      OverlayOne(map[], FIRST);
    }
  }

  lemma OverlayOne(base: Bindings, v: Variable)
    ensures Overlay(base, [v]) == base[v.name := v]
  {
    assert [v][..0] == [];
  }

  lemma {:induction false} UpperDecides(parents: Parents, lists: Lists, at: Scope, upper: Key)
    requires Rooted(parents, at) && OnlyAt(lists, [FIRST], Some(upper), [SECOND])
    requires at == Some(upper) || Above(parents, upper, at)
    ensures var b := BindingsAt(parents, lists, at); "v" in b && b["v"] == SECOND
    decreases Height(parents, at)
  {
    ParentIsLower(parents, at.value);
    if at == Some(upper) {
      OverlayOne(InheritedAt(parents, lists, at), SECOND);
    } else {
      UpperDecides(parents, lists, ParentOf(parents, at.value), upper);
    }
  }

  /** A scope that declares nothing in its requests lifts nothing. */
  lemma {:induction false} NoNamesNoAdditions(declared: seq<Variable>, local: seq<Variable>, inherited: Bindings)
    requires forall name :: !Lifts(declared, local, inherited, name)
    ensures Additions(declared, local, inherited) == []
  {
    var added := Additions(declared, local, inherited);
    if added != [] {
      assert added[0] in added;
      assert Declares(added, added[0].name);
      AdditionsDeclare(declared, local, inherited, added[0].name);
    }
  }

  /** What the scopes of the conflicting plan lift. */
  lemma ConflictLifts(declared: seq<Variable>, inherited: Bindings, scope: Scope, lower: Scope, upper: Scope, local: seq<Variable>)
    requires forall v :: v in declared ==> [v] == Declaration(scope, lower, upper)
    requires scope == upper && scope != lower ==> declared != [] && local == []
    requires scope == lower || scope == upper ==> inherited == map["v" := FIRST]
    ensures Additions(declared, local, inherited) == if scope == upper && scope != lower then [SECOND] else []
  {
    if scope == upper && scope != lower {
      SingleName(declared, SECOND);
      assert Lifts(declared, local, inherited, "v");
      LiftedOne(declared, "v", local, inherited);
    } else {
      forall name
        ensures !Lifts(declared, local, inherited, name)
      {
        if Declares(declared, name) {
          var v :| v in declared && v.name == name;
          assert v == FIRST;
          SingleName(declared, FIRST);
        }
      }
      NoNamesNoAdditions(declared, local, inherited);
    }
  }

  lemma LiftedOne(declared: seq<Variable>, name: string, local: seq<Variable>, inherited: Bindings)
    requires Lifts(declared, local, inherited, name)
    ensures Lifted(declared, [name], local, inherited) == [Baseline(declared, name)]
  {
    assert [name][..0] == [];
  }

  /** What one step of the pass over the conflicting plan does to the lists. */
  lemma ConflictStep(plan: Plan, lists: Lists, scope: Scope, lower: Key, upper: Key, now: seq<Variable>)
    requires Rooted(ParentsOf(plan.collections), scope) && scope in ScopesOf(plan.requests) && lower != upper
    requires DeclaresByScope(plan.requests, Some(lower), Some(upper))
    requires OnlyAt(lists, [FIRST], Some(upper), now)
    requires scope == Some(lower) || scope == Some(upper) ==> now == []
    ensures OnlyAt(LiftScope(plan, lists, scope), [FIRST], Some(upper), if scope == Some(upper) then [SECOND] else now)
  {
    var parents := ParentsOf(plan.collections);
    var declared := Declared(RequestsIn(plan.requests, scope));
    var local, inherited := ListOf(lists, scope), Outer(parents, lists, scope);
    DeclaredInScope(plan.requests, Some(lower), Some(upper), scope);
    if scope == Some(lower) || scope == Some(upper) {
      ParentIsLower(parents, scope.value);
      NothingBetween(parents, lists, ParentOf(parents, scope.value), Some(upper));
    }
    ConflictLifts(declared, inherited, scope, Some(lower), Some(upper), local);
    var after := LiftScope(plan, lists, scope);
    assert ListOf(after, scope) == local + Additions(declared, local, inherited);
    assert forall s :: s != scope ==> ListOf(after, s) == ListOf(lists, s);
  }

  lemma {:induction false} ConflictStart(root: seq<Variable>, collections: seq<Collection>, s: Scope)
    requires forall c :: c in collections ==> c.variables == []
    ensures ListOf(CollectionLists(root, collections), s) == if s == None then root else []
  {
    if collections != [] {
      var init := collections[..|collections| - 1];
      assert collections[|collections| - 1] in collections && forall c :: c in init ==> c in collections;
      ConflictStart(root, init, s);
    }
  }

  /** Through the whole pass only the upper collection changes, when it is processed. */
  lemma {:induction false} ConflictPass(plan: Plan, pass: seq<Lists>, i: nat, j: nat, lower: Key, upper: Key, k: nat)
    requires IsPass(plan, pass) && k < |pass| && i < j < |ScopesOf(plan.requests)| && lower != upper
    requires ScopesOf(plan.requests)[i] == Some(lower) && ScopesOf(plan.requests)[j] == Some(upper)
    requires DeclaresByScope(plan.requests, Some(lower), Some(upper))
    requires plan.variables == [FIRST] && forall c :: c in plan.collections ==> c.variables == []
    ensures OnlyAt(pass[k], [FIRST], Some(upper), if k <= j then [] else [SECOND])
  {
    if k == 0 {
      forall s
        ensures ListOf(pass[0], s) == if s == None then [FIRST] else []
      {
        ConflictStart(plan.variables, plan.collections, s);
      }
    } else {
      ConflictPass(plan, pass, i, j, lower, upper, k - 1);
      ConflictNext(plan, pass, i, j, lower, upper, k - 1);
    }
  }

  lemma ConflictNext(plan: Plan, pass: seq<Lists>, i: nat, j: nat, lower: Key, upper: Key, k: nat)
    requires IsPass(plan, pass) && k < |pass| - 1 && i < j < |ScopesOf(plan.requests)| && lower != upper
    requires ScopesOf(plan.requests)[i] == Some(lower) && ScopesOf(plan.requests)[j] == Some(upper)
    requires DeclaresByScope(plan.requests, Some(lower), Some(upper))
    requires OnlyAt(pass[k], [FIRST], Some(upper), if k <= j then [] else [SECOND])
    ensures OnlyAt(pass[k + 1], [FIRST], Some(upper), if k + 1 <= j then [] else [SECOND])
  {
    var scopes := ScopesOf(plan.requests);
    assert scopes[k] == scopes[i] ==> k == i by { ScopesDistinct(plan.requests); }
    assert scopes[k] == scopes[j] ==> k == j by { ScopesDistinct(plan.requests); }
    assert PassStep(plan, pass, k);
    ConflictStep(plan, pass[k], scopes[k], lower, upper, if k <= j then [] else [SECOND]);
  }

  /** When a collection comes after a scope below it, some contents of that shape lose their meaning. */
  lemma ConflictLosesMeaning(plan: Plan, i: nat, j: nat)
    requires PlanValid(plan) && IsAncestor(plan, j, i) && i < j
    ensures var c := Conflict(plan, ScopesOf(plan.requests)[i], ScopesOf(plan.requests)[j]);
            SameShape(plan, c) && OneMeaning(c) && PlanValid(c) && !MeaningKept(c)
  {
    var scopes := ScopesOf(plan.requests);
    var c := Conflict(plan, scopes[i], scopes[j]);
    ConflictDeclares(plan, scopes[i], scopes[j]);
    ShapeDecides(plan, c);
    ScopesDistinct(plan.requests);
    var q := RequestInScope(c.requests, i);
    assert IsAncestor(c, j, i);
    ConflictRequest(c, i, j, scopes[i].value, scopes[j].value, q);
    assert !RequestKept(c, q);
  }

  lemma RequestInScope(requests: seq<Request>, i: nat) returns (q: nat)
    requires i < |ScopesOf(requests)|
    ensures q < |requests| && requests[q].scope == ScopesOf(requests)[i]
  {
    ScopesHoldRequests(requests);
    assert ScopesOf(requests)[i] in ScopesOf(requests);
    var r :| r in requests && r.scope == ScopesOf(requests)[i];
    q :| q < |requests| && requests[q] == r;
  }

  lemma ConflictRequest(c: Plan, i: nat, j: nat, lower: Key, upper: Key, q: nat)
    requires PlanValid(c) && IsAncestor(c, j, i) && i < j && q < |c.requests| && c.requests[q].scope == Some(lower) && lower != upper
    requires ScopesOf(c.requests)[i] == Some(lower) && ScopesOf(c.requests)[j] == Some(upper)
    requires DeclaresByScope(c.requests, Some(lower), Some(upper))
    requires c.variables == [FIRST] && forall k :: k in c.collections ==> k.variables == []
    ensures !RequestKept(c, q)
  {
    var r, parents, pass, after := c.requests[q], ParentsOf(c.collections), Pass(c), Normalized(c);
    assert r in c.requests && r.variables == [FIRST] && r.variables[0] == FIRST;
    BindingsAfter(c, q);
    ConflictPass(c, pass, i, j, lower, upper, i + 1);
    ConflictPass(c, pass, i, j, lower, upper, |pass| - 1);
    SeenAfterStep(c, pass, i);
    NothingBetween(parents, pass[i + 1], r.scope, Some(upper));
    UpperDecides(parents, pass[|pass| - 1], r.scope, upper);
    KeptNone(SeenBy(c, q));
    OverlayOne(BindingsAt(parents, ListsOf(c), r.scope), FIRST);
    assert Declares(r.variables, "v");
    assert !SameBinding(BindingsOf(c, r), BindingsOf(after, after.requests[q]), "v");
  }

  lemma KeptNone(seen: Bindings)
    requires seen == map["v" := FIRST]
    ensures Kept([FIRST], seen) == []
  {
    assert [FIRST][..0] == [];
  }

  /**
   Lifting keeps what every declared name means, whatever the contents of the plan,
   exactly when every collection is first seen before the scopes below it.
   */
  lemma OrderDecides(plan: Plan)
    requires PlanValid(plan)
    ensures (forall other :: SameShape(plan, other) && OneMeaning(other) ==> PlanValid(other) && MeaningKept(other))
            <==> AncestorsFirst(plan)
  {
    if AncestorsFirst(plan) {
      forall other | SameShape(plan, other) && OneMeaning(other)
        ensures PlanValid(other) && MeaningKept(other)
      {
        ShapeDecides(plan, other);
        LiftingKeepsMeaning(other);
      }
    } else {
      var j: nat, i: nat :| IsAncestor(plan, j, i) && j >= i;
      ScopeIsNotAbove(plan, i);
      ConflictLosesMeaning(plan, i, j);
    }
  }

  lemma ScopeIsNotAbove(plan: Plan, i: nat)
    requires CollectionsValid(plan)
    ensures !IsAncestor(plan, i, i)
  {
    if IsAncestor(plan, i, i) {
      var scope := ScopesOf(plan.requests)[i];
      ScopeRooted(plan, scope);
      AboveIsLower(ParentsOf(plan.collections), scope.value, scope);
    }
  }

  /** A collection above a scope is nearer to the root. */
  lemma {:induction false} AboveIsLower(parents: Parents, upper: Key, scope: Scope)
    requires Rooted(parents, scope) && Above(parents, upper, scope)
    ensures Rooted(parents, Some(upper)) && Height(parents, Some(upper)) < Height(parents, scope)
    decreases Height(parents, scope)
  {
    ParentIsLower(parents, scope.value);
    if ParentOf(parents, scope.value) != Some(upper) {
      AboveIsLower(parents, upper, ParentOf(parents, scope.value));
    }
  }
}
