/** What lifting does to the names that requests declare. */
module ImportMeaning {
  import opened Wrappers
  import opened ImportPlans
  import opened ImportLifting
  import opened ImportNormalize

  /** A name is bound alike: to declarations of the same content, or in neither. */
  ghost predicate SameBinding(a: Bindings, b: Bindings, name: string) {
    && (name in a <==> name in b)
    && (name in a && name in b ==> SameContent(a[name], b[name]))
  }

  /** Request `i` binds every name it declares as before. */
  ghost predicate RequestKept(plan: Plan, i: nat)
    requires PlanValid(plan) && i < |plan.requests|
  {
    var r, after := plan.requests[i], Normalized(plan);
    && Rooted(ParentsOf(plan.collections), r.scope)
    && Rooted(ParentsOf(after.collections), after.requests[i].scope)
    && forall name {:trigger Declares(r.variables, name)} :: Declares(r.variables, name) ==>
         SameBinding(BindingsOf(plan, r), BindingsOf(after, after.requests[i]), name)
  }

  ghost predicate MeaningKept(plan: Plan)
    requires PlanValid(plan)
  {
    forall i: nat {:trigger RequestKept(plan, i)} :: i < |plan.requests| ==> RequestKept(plan, i)
  }

  /** The list does not declare one name in two ways. */
  predicate OneWay(variables: seq<Variable>) {
    forall v, w :: v in variables && w in variables && v.name == w.name ==> SameContent(v, w)
  }

  /** No request declares one name in two ways. */
  predicate OneMeaning(plan: Plan) {
    forall r :: r in plan.requests ==> OneWay(r.variables)
  }

  /** Every collection is first seen before the scopes below it; the root may be seen anywhere. */
  ghost predicate AncestorsFirst(plan: Plan)
    requires CollectionsValid(plan)
  {
    var scopes := ScopesOf(plan.requests);
    forall i: nat, j: nat {:trigger IsAncestor(plan, j, i)} :: i < |scopes| && j < |scopes| && IsAncestor(plan, j, i) ==> j < i
  }

  /** Scope number `j` is a collection above scope number `i`. */
  ghost predicate IsAncestor(plan: Plan, j: nat, i: nat)
    requires CollectionsValid(plan)
  {
    var scopes := ScopesOf(plan.requests);
    && i < |scopes| && j < |scopes| && scopes[j].Some?
    && (ScopeRooted(plan, scopes[i]);
        Above(ParentsOf(plan.collections), scopes[j].value, scopes[i]))
  }

  // ---------------------------------------------------------------------
  // The lists along the pass
  // ---------------------------------------------------------------------

  /** A step that processes `scope` appends to its list only, and no name that the list declares. */
  ghost predicate Appends(declared: seq<Variable>, before: Lists, after: Lists, scope: Scope, s: Scope, added: seq<Variable>) {
    && ListOf(after, s) == ListOf(before, s) + added
    && (scope != s ==> added == [])
    && (forall name {:trigger Declares(added, name)} :: Declares(ListOf(before, s), name) ==> !Declares(added, name))
    && (forall v :: v in added ==> v in declared)
  }

  ghost predicate AppendsSome(plan: Plan, before: Lists, after: Lists, scope: Scope, s: Scope) {
    exists added :: Appends(Declared(RequestsIn(plan.requests, s)), before, after, scope, s, added)
  }

  lemma {:induction false} LiftedAreDeclared(declared: seq<Variable>, names: seq<string>, local: seq<Variable>, inherited: Bindings)
    ensures forall v :: v in Lifted(declared, names, local, inherited) ==> v in declared
  {
    if names != [] {
      LiftedAreDeclared(declared, names[..|names| - 1], local, inherited);
    }
  }

  lemma LiftAppends(plan: Plan, lists: Lists, scope: Scope, s: Scope)
    requires Rooted(ParentsOf(plan.collections), scope)
    ensures AppendsSome(plan, lists, LiftScope(plan, lists, scope), scope, s)
  {
    var after := LiftScope(plan, lists, scope);
    var declared, local := Declared(RequestsIn(plan.requests, s)), ListOf(lists, s);
    if scope == s {
      var inherited := Outer(ParentsOf(plan.collections), lists, s);
      var added := Additions(declared, local, inherited);
      forall name
        ensures Declares(local, name) ==> !Declares(added, name)
      {
        AdditionsDeclare(declared, local, inherited, name);
      }
      LiftedAreDeclared(declared, NamesOf(declared), local, inherited);
      assert Appends(declared, lists, after, scope, s, added);
    } else {
      assert Appends(declared, lists, after, scope, s, []);
    }
  }

  lemma StepAppends(plan: Plan, pass: seq<Lists>, k: nat, s: Scope)
    requires IsPass(plan, pass) && k < |ScopesOf(plan.requests)|
    ensures AppendsSome(plan, pass[k], pass[k + 1], ScopesOf(plan.requests)[k], s)
  {
    assert PassStep(plan, pass, k);
    LiftAppends(plan, pass[k], ScopesOf(plan.requests)[k], s);
  }

  lemma OtherStep(plan: Plan, pass: seq<Lists>, k: nat, s: Scope)
    requires IsPass(plan, pass) && k < |ScopesOf(plan.requests)| && ScopesOf(plan.requests)[k] != s
    ensures ListOf(pass[k + 1], s) == ListOf(pass[k], s)
  {
    assert PassStep(plan, pass, k);
  }

  /** A scope that is not processed keeps its list. */
  lemma {:induction false} Frozen(plan: Plan, pass: seq<Lists>, k: nat, m: nat, s: Scope)
    requires IsPass(plan, pass) && k <= m < |pass|
    requires forall i :: k <= i < m ==> ScopesOf(plan.requests)[i] != s
    ensures ListOf(pass[m], s) == ListOf(pass[k], s)
    decreases m
  {
    if k < m {
      Frozen(plan, pass, k, m - 1, s);
      OtherStep(plan, pass, m - 1, s);
    }
  }

  /** What an overlay binds is not changed by appending declarations of other names. */
  lemma AppendOthers(base: Bindings, list: seq<Variable>, added: seq<Variable>, name: string)
    requires !Declares(added, name)
    ensures name in Overlay(base, list) <==> name in Overlay(base, list + added)
    ensures name in Overlay(base, list) ==> Overlay(base, list + added)[name] == Overlay(base, list)[name]
  {
    OverlayAppends(base, list, added);
    OverlayDecides(Overlay(base, list), added, name);
  }

  /** A name that the first list declares is bound alike by both. */
  predicate BoundAlike(before: seq<Variable>, after: seq<Variable>, name: string) {
    && Declares(after, name)
    && name in Overlay(map[], before) && name in Overlay(map[], after)
    && Overlay(map[], before)[name] == Overlay(map[], after)[name]
  }

  lemma AppendedBoundAlike(list: seq<Variable>, added: seq<Variable>, name: string)
    requires Declares(list, name) && !Declares(added, name)
    ensures BoundAlike(list, list + added, name)
  {
    OverlayDecides(map[], list, name);
    AppendOthers(map[], list, added, name);
    OverlayDecides(map[], list + added, name);
  }

  lemma RootStep(plan: Plan, pass: seq<Lists>, k: nat, name: string)
    requires IsPass(plan, pass) && k < |ScopesOf(plan.requests)| && Declares(ListOf(pass[k], None), name)
    ensures BoundAlike(ListOf(pass[k], None), ListOf(pass[k + 1], None), name)
  {
    StepAppends(plan, pass, k, None);
    var added :| Appends(Declared(RequestsIn(plan.requests, None)), pass[k], pass[k + 1], ScopesOf(plan.requests)[k], None, added);
    AppendedBoundAlike(ListOf(pass[k], None), added, name);
  }

  /** What the root declares itself stays bound alike. */
  lemma {:induction false} RootKeeps(plan: Plan, pass: seq<Lists>, k: nat, m: nat, name: string)
    requires IsPass(plan, pass) && k <= m < |pass|
    requires Declares(ListOf(pass[k], None), name)
    ensures BoundAlike(ListOf(pass[k], None), ListOf(pass[m], None), name)
    decreases m
  {
    OverlayDecides(map[], ListOf(pass[k], None), name);
    if k < m {
      RootKeeps(plan, pass, k, m - 1, name);
      RootStep(plan, pass, m - 1, name);
    }
  }

  /** From step `k` on, neither the scope nor a collection above it is processed. */
  ghost predicate Settled(plan: Plan, k: nat, at: Scope)
    requires Rooted(ParentsOf(plan.collections), at)
  {
    var scopes := ScopesOf(plan.requests);
    forall i: nat {:trigger scopes[i]} :: k <= i < |scopes| && scopes[i].Some? ==>
      scopes[i] != at && !Above(ParentsOf(plan.collections), scopes[i].value, at)
  }

  /** What a settled scope binds stays bound alike to the end. */
  lemma {:induction false} SettledKeeps(plan: Plan, pass: seq<Lists>, k: nat, at: Scope, name: string)
    requires IsPass(plan, pass) && Rooted(ParentsOf(plan.collections), at)
    requires k < |pass| && Settled(plan, k, at) && name in BindingsAt(ParentsOf(plan.collections), pass[k], at)
    ensures var parents, end := ParentsOf(plan.collections), pass[|pass| - 1];
            name in BindingsAt(parents, end, at) && BindingsAt(parents, end, at)[name] == BindingsAt(parents, pass[k], at)[name]
    decreases Height(ParentsOf(plan.collections), at)
  {
    var parents, n := ParentsOf(plan.collections), |pass| - 1;
    var list, now, end := ListOf(pass[k], at), InheritedAt(parents, pass[k], at), InheritedAt(parents, pass[n], at);
    OverlayDecides(now, list, name);
    if at == None {
      RootKeeps(plan, pass, k, n, name);
    } else {
      Frozen(plan, pass, k, n, at);
      ParentIsLower(parents, at.value);
      if Declares(list, name) {
        OverlayHides(now, end, list, name);
      } else {
        SettledKeeps(plan, pass, k, ParentOf(parents, at.value), name);
        OverlayDecides(end, list, name);
      }
    }
  }

  // ---------------------------------------------------------------------
  // The normalized plan
  // ---------------------------------------------------------------------

  lemma {:induction false} SameParents(collections: seq<Collection>, lists: Lists)
    ensures ParentsOf(WithLists(collections, lists)) == ParentsOf(collections)
  {
    if collections != [] {
      var n := |collections| - 1;
      assert WithLists(collections, lists)[..n] == WithLists(collections[..n], lists);
      SameParents(collections[..n], lists);
    }
  }

  lemma {:induction false} ListWritten(root: seq<Variable>, collections: seq<Collection>, lists: Lists, key: Key)
    ensures ListOf(CollectionLists(root, WithLists(collections, lists)), None) == root
    ensures ListOf(CollectionLists(root, WithLists(collections, lists)), Some(key))
            == if key in ParentsOf(collections) then ListOf(lists, Some(key)) else []
  {
    if collections != [] {
      var n := |collections| - 1;
      assert WithLists(collections, lists)[..n] == WithLists(collections[..n], lists);
      ListWritten(root, collections[..n], lists, key);
    }
  }

  lemma {:induction false} UnknownHasNoList(root: seq<Variable>, collections: seq<Collection>, key: Key)
    requires key !in ParentsOf(collections)
    ensures ListOf(CollectionLists(root, collections), Some(key)) == []
  {
    if collections != [] {
      UnknownHasNoList(root, collections[..|collections| - 1], key);
    }
  }

  /** The normalized plan holds the lists at the end of the pass. */
  lemma EndLists(plan: Plan, pass: seq<Lists>, s: Scope)
    requires CollectionsValid(plan) && IsPass(plan, pass)
    ensures ListOf(ListsOf(AfterPass(plan, pass)), s) == ListOf(pass[|pass| - 1], s)
  {
    var lists := pass[|pass| - 1];
    ListWritten(ListOf(lists, None), plan.collections, lists, if s.Some? then s.value else "");
    if s.Some? && s.value !in ParentsOf(plan.collections) {
      ScopesHoldRequests(plan.requests);
      forall i | 0 <= i < |pass| - 1
        ensures ScopesOf(plan.requests)[i] != s
      {
        assert ScopesOf(plan.requests)[i] in ScopesOf(plan.requests);
      }
      Frozen(plan, pass, 0, |pass| - 1, s);
      UnknownHasNoList(plan.variables, plan.collections, s.value);
    }
  }

  lemma {:induction false} SameListsBindAlike(parents: Parents, a: Lists, b: Lists, at: Scope)
    requires Rooted(parents, at) && forall s :: ListOf(a, s) == ListOf(b, s)
    ensures BindingsAt(parents, a, at) == BindingsAt(parents, b, at)
    decreases Height(parents, at)
  {
    if at.Some? {
      ParentIsLower(parents, at.value);
      SameListsBindAlike(parents, a, b, ParentOf(parents, at.value));
    }
  }

  /** What the scope of request `i` sees right after it was processed. */
  ghost function SeenBy(plan: Plan, i: nat): Bindings
    requires CollectionsValid(plan) && i < |plan.requests|
  {
    ScopesHoldRequests(plan.requests);
    SeenByScope(plan, Pass(plan))[plan.requests[i].scope]
  }

  /** The bindings of a normalized request: what its scope sees in the end, below what it kept. */
  lemma BindingsAfter(plan: Plan, i: nat)
    requires PlanValid(plan) && i < |plan.requests|
    ensures var r, after, pass := plan.requests[i], Normalized(plan), Pass(plan);
            && Rooted(ParentsOf(plan.collections), r.scope)
            && |after.requests| == |plan.requests|
            && after.requests[i].scope == r.scope
            && ParentsOf(after.collections) == ParentsOf(plan.collections)
            && BindingsOf(after, after.requests[i])
               == Overlay(BindingsAt(ParentsOf(plan.collections), pass[|pass| - 1], r.scope), Kept(r.variables, SeenBy(plan, i)))
  {
    var r, after, pass := plan.requests[i], Normalized(plan), Pass(plan);
    RequestRooted(plan, r);
    ScopesHoldRequests(plan.requests);
    SameParents(plan.collections, pass[|pass| - 1]);
    forall s
      ensures ListOf(ListsOf(after), s) == ListOf(pass[|pass| - 1], s)
    {
      EndLists(plan, pass, s);
    }
    SameListsBindAlike(ParentsOf(plan.collections), ListsOf(after), pass[|pass| - 1], r.scope);
  }

  lemma SettledAfter(plan: Plan, k: nat)
    requires CollectionsValid(plan) && AncestorsFirst(plan) && k < |ScopesOf(plan.requests)|
    ensures Rooted(ParentsOf(plan.collections), ScopesOf(plan.requests)[k])
    ensures Settled(plan, k + 1, ScopesOf(plan.requests)[k])
  {
    var scopes := ScopesOf(plan.requests);
    ScopeRooted(plan, scopes[k]);
    ScopesDistinct(plan.requests);
    forall j: nat | k + 1 <= j < |scopes| && scopes[j].Some?
      ensures scopes[j] != scopes[k] && !Above(ParentsOf(plan.collections), scopes[j].value, scopes[k])
    {
      assert !IsAncestor(plan, j, k);
    }
  }

  /** With ancestors first, the end of the pass still shows a scope what it saw. */
  lemma SeenToTheEnd(plan: Plan, pass: seq<Lists>, scope: Scope, name: string)
    requires CollectionsValid(plan) && IsPass(plan, pass) && AncestorsFirst(plan)
    requires scope in ScopesOf(plan.requests) && name in SeenIn(plan, pass, scope)
    ensures Rooted(ParentsOf(plan.collections), scope)
    ensures var end := BindingsAt(ParentsOf(plan.collections), pass[|pass| - 1], scope);
            name in end && end[name] == SeenIn(plan, pass, scope)[name]
  {
    var k := Position(plan, scope);
    SettledAfter(plan, k);
    SettledKeeps(plan, pass, k + 1, scope, name);
  }

  // ---------------------------------------------------------------------
  // When the meaning is kept
  // ---------------------------------------------------------------------

  lemma {:induction false} KeptHolds(variables: seq<Variable>, bindings: Bindings, v: Variable)
    ensures v in Kept(variables, bindings) <==> v in variables && !Redundant(v, bindings)
  {
    if variables != [] {
      var init, last := variables[..|variables| - 1], variables[|variables| - 1];
      assert variables == init + [last];
      KeptHolds(init, bindings, v);
    }
  }

  /** The declaration of a name that counts: the last one. */
  ghost function LastOf(variables: seq<Variable>, name: string): (v: Variable)
    requires Declares(variables, name)
    ensures v in variables && v.name == name
  {
    OverlayDecides(map[], variables, name);
    Overlay(map[], variables)[name]
  }

  /** The last declaration survives the filter when it differs from what the scope shows. */
  lemma {:induction false} LastKept(variables: seq<Variable>, bindings: Bindings, name: string)
    requires Declares(variables, name) && !Redundant(LastOf(variables, name), bindings)
    ensures Declares(Kept(variables, bindings), name)
    ensures LastOf(Kept(variables, bindings), name) == LastOf(variables, name)
  {
    var init, last := variables[..|variables| - 1], variables[|variables| - 1];
    assert variables == init + [last];
    LastAppended(init, last, name);
    if last.name != name {
      LastKept(init, bindings, name);
    }
    assert Kept(variables, bindings) == if Redundant(last, bindings) then Kept(init, bindings) else Kept(init, bindings) + [last];
    LastAppended(Kept(init, bindings), last, name);
  }

  lemma LastAppended(variables: seq<Variable>, last: Variable, name: string)
    ensures Declares(variables + [last], name) <==> Declares(variables, name) || last.name == name
    ensures last.name == name ==> LastOf(variables + [last], name) == last
    ensures last.name != name && Declares(variables, name) ==> LastOf(variables + [last], name) == LastOf(variables, name)
  {
    DeclaresLast(variables, last, name);
    assert (variables + [last])[..|variables|] == variables;
  }

  /** All declarations of the name in the list are what the scope shows anyway. */
  predicate AllRedundant(variables: seq<Variable>, bindings: Bindings, name: string) {
    forall v :: v in variables && v.name == name ==> Redundant(v, bindings)
  }

  lemma OwnBinding(base: Bindings, variables: seq<Variable>, name: string)
    requires Declares(variables, name)
    ensures name in Overlay(base, variables) && Overlay(base, variables)[name] == LastOf(variables, name)
  {
    OverlayHides(base, map[], variables, name);
  }

  /** The filter keeps what a name means exactly unless it drops the last declaration but not all. */
  lemma FilterKeepsMeaningIff(variables: seq<Variable>, before: Bindings, seen: Bindings, end: Bindings, name: string)
    requires Declares(variables, name)
    requires name in seen ==> name in end && end[name] == seen[name]
    ensures SameBinding(Overlay(before, variables), Overlay(end, Kept(variables, seen)), name)
            <==> (Redundant(LastOf(variables, name), seen) ==> AllRedundant(variables, seen, name))
  {
    var kept, last := Kept(variables, seen), LastOf(variables, name);
    OwnBinding(before, variables, name);
    if !Redundant(last, seen) {
      LastKept(variables, seen, name);
      OwnBinding(end, kept, name);
    } else if AllRedundant(variables, seen, name) {
      assert !Declares(kept, name) by {
        if v :| v in kept && v.name == name {
          KeptHolds(variables, seen, v);
        }
      }
      OverlayDecides(end, kept, name);
    } else {
      DroppedLastChanges(variables, seen, end, name);
    }
  }

  /** Dropping the last declaration of a name but not all changes what it means. */
  lemma DroppedLastChanges(variables: seq<Variable>, seen: Bindings, end: Bindings, name: string)
    requires Declares(variables, name) && Redundant(LastOf(variables, name), seen) && !AllRedundant(variables, seen, name)
    ensures var kept := Kept(variables, seen);
            name in Overlay(end, kept) && !SameContent(LastOf(variables, name), Overlay(end, kept)[name])
  {
    var kept := Kept(variables, seen);
    var v :| v in variables && v.name == name && !Redundant(v, seen);
    KeptHolds(variables, seen, v);
    assert Declares(kept, name);
    OwnBinding(end, kept, name);
    KeptHolds(variables, seen, LastOf(kept, name));
  }

  /** With ancestors first, when one request binds one declared name as before. */
  lemma NameKeptIff(plan: Plan, i: nat, name: string)
    requires PlanValid(plan) && AncestorsFirst(plan) && i < |plan.requests| && Declares(plan.requests[i].variables, name)
    ensures var r, after, seen := plan.requests[i], Normalized(plan), SeenBy(plan, i);
            && Rooted(ParentsOf(plan.collections), r.scope)
            && |after.requests| == |plan.requests| && after.requests[i].scope == r.scope
            && Rooted(ParentsOf(after.collections), r.scope)
            && (SameBinding(BindingsOf(plan, r), BindingsOf(after, after.requests[i]), name)
                <==> (Redundant(LastOf(r.variables, name), seen) ==> AllRedundant(r.variables, seen, name)))
  {
    var r, pass, seen, parents := plan.requests[i], Pass(plan), SeenBy(plan, i), ParentsOf(plan.collections);
    BindingsAfter(plan, i);
    ScopesHoldRequests(plan.requests);
    if name in seen {
      SeenToTheEnd(plan, pass, r.scope, name);
    }
    FilterKeepsMeaningIff(r.variables, BindingsAt(parents, ListsOf(plan), r.scope), seen, BindingsAt(parents, pass[|pass| - 1], r.scope), name);
  }

  lemma OneWayDropsAll(variables: seq<Variable>, bindings: Bindings, name: string)
    requires Declares(variables, name) && OneWay(variables)
    ensures Redundant(LastOf(variables, name), bindings) ==> AllRedundant(variables, bindings, name)
  {
    var last := LastOf(variables, name);
    forall v | v in variables && v.name == name && Redundant(last, bindings)
      ensures Redundant(v, bindings)
    {
      assert SameContent(last, v);
    }
  }

  lemma RequestKeepsMeaning(plan: Plan, i: nat)
    requires PlanValid(plan) && AncestorsFirst(plan) && i < |plan.requests| && OneWay(plan.requests[i].variables)
    ensures RequestKept(plan, i)
  {
    var r := plan.requests[i];
    BindingsAfter(plan, i);
    forall name | Declares(r.variables, name)
      ensures SameBinding(BindingsOf(plan, r), BindingsOf(Normalized(plan), Normalized(plan).requests[i]), name)
    {
      NameKeptIff(plan, i, name);
      OneWayDropsAll(r.variables, SeenBy(plan, i), name);
    }
  }

  /** With ancestors first, requests that declare each name in one way keep what every declared name means. */
  lemma LiftingKeepsMeaning(plan: Plan)
    requires PlanValid(plan) && AncestorsFirst(plan) && OneMeaning(plan)
    ensures MeaningKept(plan)
  {
    forall i: nat | i < |plan.requests|
      ensures RequestKept(plan, i)
    {
      RequestKeepsMeaning(plan, i);
    }
  }

  // ---------------------------------------------------------------------
  // What is lifted
  // ---------------------------------------------------------------------

  /** After a lift, a name the scope did not declare shows the winner among its requests. */
  lemma LiftShowsBaseline(declared: seq<Variable>, local: seq<Variable>, inherited: Bindings, name: string)
    requires Declares(declared, name) && !Declares(local, name)
    ensures var seen := Overlay(inherited, local + Additions(declared, local, inherited));
            name in seen && SameContent(seen[name], Baseline(declared, name))
  {
    var added := Additions(declared, local, inherited);
    OverlayAppends(inherited, local, added);
    AdditionsDeclare(declared, local, inherited, name);
    OverlayDecides(inherited, local, name);
    OverlayDecides(Overlay(inherited, local), added, name);
    LiftedAreBaselines(declared, NamesOf(declared), local, inherited);
  }

  lemma {:induction false} LiftedAreBaselines(declared: seq<Variable>, names: seq<string>, local: seq<Variable>, inherited: Bindings)
    ensures forall v :: v in Lifted(declared, names, local, inherited) ==> Declares(declared, v.name) && v == Baseline(declared, v.name)
  {
    if names != [] {
      LiftedAreBaselines(declared, names[..|names| - 1], local, inherited);
    }
  }

  /**
   Once its scope was processed, a request sees under every name that its scope did not
   declare the declaration most requests of the scope make, the earliest on a tie.
   */
  lemma MostFrequentIsSeen(plan: Plan, scope: Scope, name: string)
    requires PlanValid(plan) && scope in ScopesOf(plan.requests)
    requires Declares(Declared(RequestsIn(plan.requests, scope)), name) && !Declares(ListOf(ListsOf(plan), scope), name)
    ensures var declared, seen := Declared(RequestsIn(plan.requests, scope)), SeenIn(plan, Pass(plan), scope);
            && name in seen && SameContent(seen[name], Baseline(declared, name))
            && IsBaseline(declared, name, BaselineIndex(declared, name))
  {
    var pass, k := Pass(plan), Position(plan, scope);
    ScopesDistinct(plan.requests);
    SeenAfterStep(plan, pass, k);
    Frozen(plan, pass, 0, k, scope);
    EffectiveAfterLift(plan, pass[k], scope);
    LiftShowsBaseline(Declared(RequestsIn(plan.requests, scope)), ListOf(pass[k], scope), Outer(ParentsOf(plan.collections), pass[k], scope), name);
  }
}
