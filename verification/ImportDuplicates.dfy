/** Names that one request declares twice. */
module ImportDuplicates {
  // Exactly when lifting keeps what a declared name means, in terms of the plan alone.

  import opened Wrappers
  import opened ImportPlans
  import opened ImportLifting
  import opened ImportNormalize
  import opened ImportMeaning

  lemma {:induction false} RequestDeclares(requests: seq<Request>, r: Request, name: string)
    requires r in requests && Declares(r.variables, name)
    ensures Declares(Declared(RequestsIn(requests, r.scope)), name)
  {
    var init, last := requests[..|requests| - 1], requests[|requests| - 1];
    var inside := RequestsIn(init, r.scope);
    assert requests == init + [last];
    if last.scope == r.scope {
      assert (inside + [last])[..|inside|] == inside;
      if last == r {
        DeclaresEither(Declared(inside), last.variables, name);
      } else {
        RequestDeclares(init, r, name);
        DeclaresEither(Declared(inside), last.variables, name);
      }
    } else {
      assert inside + [] == inside;
      RequestDeclares(init, r, name);
    }
  }

  lemma DeclaresEither(a: seq<Variable>, b: seq<Variable>, name: string)
    ensures Declares(a + b, name) <==> Declares(a, name) || Declares(b, name)
  {
    assert forall v :: v in a + b <==> v in a || v in b;
  }

  /**
   What the requests of a scope are shown under a name that one of them declares: what
   the scope itself declares last, else what most of its requests declare.
   */
  ghost function Shown(plan: Plan, scope: Scope, name: string): Variable
    requires Declares(Declared(RequestsIn(plan.requests, scope)), name)
  {
    var list := ListOf(ListsOf(plan), scope);
    if Declares(list, name) then LastOf(list, name) else Baseline(Declared(RequestsIn(plan.requests, scope)), name)
  }

  lemma OwnListIsSeen(plan: Plan, scope: Scope, name: string)
    requires PlanValid(plan) && scope in ScopesOf(plan.requests) && Declares(ListOf(ListsOf(plan), scope), name)
    ensures var seen := SeenIn(plan, Pass(plan), scope);
            name in seen && seen[name] == LastOf(ListOf(ListsOf(plan), scope), name)
  {
    var pass, k, list := Pass(plan), Position(plan, scope), ListOf(ListsOf(plan), scope);
    ScopesDistinct(plan.requests);
    SeenAfterStep(plan, pass, k);
    Frozen(plan, pass, 0, k, scope);
    StepAppends(plan, pass, k, scope);
    var added :| Appends(Declared(RequestsIn(plan.requests, scope)), pass[k], pass[k + 1], scope, scope, added);
    var base := InheritedAt(ParentsOf(plan.collections), pass[k + 1], scope);
    OwnBinding(base, list, name);
    AppendOthers(base, list, added, name);
  }

  lemma SeenIsShown(plan: Plan, scope: Scope, name: string)
    requires PlanValid(plan) && scope in ScopesOf(plan.requests)
    requires Declares(Declared(RequestsIn(plan.requests, scope)), name)
    ensures var seen := SeenIn(plan, Pass(plan), scope);
            name in seen && SameContent(seen[name], Shown(plan, scope, name))
  {
    if Declares(ListOf(ListsOf(plan), scope), name) {
      OwnListIsSeen(plan, scope, name);
    } else {
      MostFrequentIsSeen(plan, scope, name);
    }
  }

  /** If the last declaration is what the scope shows, all of them are. */
  predicate DroppedTogether(variables: seq<Variable>, name: string, last: Variable, shown: Variable) {
    SameContent(last, shown) ==>
      forall v :: v in variables && v.name == name ==> SameContent(v, shown)
  }

  /** Request `i` and its declared name meet the condition. */
  ghost predicate KeepsName(plan: Plan, i: nat, name: string)
    requires i < |plan.requests| && Declares(plan.requests[i].variables, name)
  {
    var r := plan.requests[i];
    RequestDeclares(plan.requests, r, name);
    DroppedTogether(r.variables, name, LastOf(r.variables, name), Shown(plan, r.scope, name))
  }

  /** A request binds a name that it declares as before exactly if it does not drop its last declaration of several. */
  lemma DeclaredNameKeptIff(plan: Plan, i: nat, name: string)
    requires PlanValid(plan) && AncestorsFirst(plan) && i < |plan.requests| && Declares(plan.requests[i].variables, name)
    ensures var r, after := plan.requests[i], Normalized(plan);
            && Rooted(ParentsOf(plan.collections), r.scope)
            && |after.requests| == |plan.requests| && after.requests[i].scope == r.scope
            && Rooted(ParentsOf(after.collections), r.scope)
            && (SameBinding(BindingsOf(plan, r), BindingsOf(after, after.requests[i]), name) <==> KeepsName(plan, i, name))
  {
    var r, seen := plan.requests[i], SeenBy(plan, i);
    RequestDeclares(plan.requests, r, name);
    ScopesHoldRequests(plan.requests);
    SeenIsShown(plan, r.scope, name);
    NameKeptIff(plan, i, name);
    RedundantIfShown(r.variables, name, seen, Shown(plan, r.scope, name));
  }

  lemma RedundantIfShown(variables: seq<Variable>, name: string, seen: Bindings, shown: Variable)
    requires Declares(variables, name) && name in seen && SameContent(seen[name], shown)
    ensures (Redundant(LastOf(variables, name), seen) ==> AllRedundant(variables, seen, name))
            <==> DroppedTogether(variables, name, LastOf(variables, name), shown)
  {
  }

  ghost predicate KeepsNames(plan: Plan, i: nat)
    requires i < |plan.requests|
  {
    forall name {:trigger Declares(plan.requests[i].variables, name)} ::
      Declares(plan.requests[i].variables, name) ==> KeepsName(plan, i, name)
  }

  lemma RequestKeptIff(plan: Plan, i: nat)
    requires PlanValid(plan) && AncestorsFirst(plan) && i < |plan.requests|
    ensures RequestKept(plan, i) <==> KeepsNames(plan, i)
  {
    var r := plan.requests[i];
    BindingsAfter(plan, i);
    forall name | Declares(r.variables, name)
      ensures SameBinding(BindingsOf(plan, r), BindingsOf(Normalized(plan), Normalized(plan).requests[i]), name) <==> KeepsName(plan, i, name)
    {
      DeclaredNameKeptIff(plan, i, name);
    }
  }

  /** With ancestors first, lifting keeps the meaning of a plan exactly if every request meets the condition on its names. */
  lemma MeaningKeptIff(plan: Plan)
    requires PlanValid(plan) && AncestorsFirst(plan)
    ensures MeaningKept(plan) <==> forall i: nat {:trigger KeepsNames(plan, i)} :: i < |plan.requests| ==> KeepsNames(plan, i)
  {
    forall i: nat | i < |plan.requests|
      ensures RequestKept(plan, i) <==> KeepsNames(plan, i)
    {
      RequestKeptIff(plan, i);
    }
  }

  /** A root declaration, and one request that declares the name otherwise first and then like the root. */
  function Repeating(first: Variable, last: Variable): Plan {
    Plan("", [last], [], [Request("item", None, "", [first, last])])
  }

  /** Dropping only the second of two different declarations changes what the request means. */
  lemma RepeatingLosesMeaning(first: Variable, last: Variable)
    requires first.name == last.name && !SameContent(first, last)
    ensures PlanValid(Repeating(first, last)) && !MeaningKept(Repeating(first, last))
  {
    var plan := Repeating(first, last);
    RepeatingIsOrdered(first, last);
    LastOfTwo(first, last);
    RepeatingShows(first, last);
    assert !KeepsName(plan, 0, last.name);
    assert !KeepsNames(plan, 0);
    MeaningKeptIff(plan);
  }

  lemma LastOfTwo(first: Variable, last: Variable)
    requires first.name == last.name
    ensures first in [first, last] && Declares([first, last], last.name) && LastOf([first, last], last.name) == last
    ensures Declares([last], last.name) && LastOf([last], last.name) == last
  {
    assert [first] + [last] == [first, last] && [] + [last] == [last];
    LastAppended([first], last, last.name);
    LastAppended([], last, last.name);
  }

  lemma RepeatingShows(first: Variable, last: Variable)
    requires first.name == last.name
    ensures Declares(Declared(RequestsIn(Repeating(first, last).requests, None)), last.name)
    ensures Shown(Repeating(first, last), None, last.name) == last
  {
    var plan := Repeating(first, last);
    LastOfTwo(first, last);
    RequestDeclares(plan.requests, plan.requests[0], last.name);
    assert ListOf(ListsOf(plan), None) == [last];
  }

  lemma RepeatingIsOrdered(first: Variable, last: Variable)
    ensures PlanValid(Repeating(first, last)) && AncestorsFirst(Repeating(first, last))
  {
    var plan := Repeating(first, last);
    assert ParentsOf(plan.collections) == map[];
    var r := plan.requests[0];
    assert plan.requests[..0] == [] && ScopesOf(plan.requests) == [] + [None];
  }
}
