/** Pruning keeps what requests refer to, and no more. */
module ImportPruning {
  import opened Wrappers
  import opened ImportPlans
  import opened ImportSelection

  /** Both bind the name to the same declaration, or neither binds it. */
  predicate SameVariable(a: Bindings, b: Bindings, name: string) {
    && (name in a <==> name in b)
    && (name in a && name in b ==> a[name] == b[name])
  }

  // ---------------------------------------------------------------------
  // Collections
  // ---------------------------------------------------------------------

  lemma {:induction false} RetainedCollection(plan: Plan, selected: seq<Request>, keys: set<Key>, collections: seq<Collection>, key: Key)
    requires AllRooted(plan, selected)
    ensures var before, after := ParentsOf(collections), ParentsOf(Retained(plan, selected, keys, collections));
            (key in after <==> key in before && key in keys) && (key in after ==> after[key] == before[key])
  {
    if collections != [] {
      var init, last := collections[..|collections| - 1], collections[|collections| - 1];
      RetainedCollection(plan, selected, keys, init, key);
      var before := Retained(plan, selected, keys, init);
      if last.key in keys {
        var kept := last.(variables := RequiredOnly(plan, selected, Some(last.key), last.variables));
        assert (before + [kept])[..|before|] == before;
        assert Retained(plan, selected, keys, collections) == before + [kept];
      } else {
        assert Retained(plan, selected, keys, collections) == before;
      }
    }
  }

  lemma {:induction false} RetainedList(
    plan: Plan, selected: seq<Request>, keys: set<Key>, root: seq<Variable>, root': seq<Variable>, collections: seq<Collection>, key: Key)
    requires AllRooted(plan, selected) && key in keys
    ensures ListOf(CollectionLists(root', Retained(plan, selected, keys, collections)), None) == root'
    ensures ListOf(CollectionLists(root', Retained(plan, selected, keys, collections)), Some(key))
            == RequiredOnly(plan, selected, Some(key), ListOf(CollectionLists(root, collections), Some(key)))
  {
    if collections != [] {
      var init, last := collections[..|collections| - 1], collections[|collections| - 1];
      RetainedList(plan, selected, keys, root, root', init, key);
      var before := Retained(plan, selected, keys, init);
      if last.key in keys {
        var kept := last.(variables := RequiredOnly(plan, selected, Some(last.key), last.variables));
        assert (before + [kept])[..|before|] == before;
        assert Retained(plan, selected, keys, collections) == before + [kept];
      } else {
        assert Retained(plan, selected, keys, collections) == before;
      }
    }
  }

  lemma {:induction false} RetainedKey(parents: Parents, selected: seq<Request>, key: Key)
    requires forall r :: r in selected ==> Rooted(parents, r.scope)
    ensures key in RetainedKeys(parents, selected) <==> exists r :: r in selected && key in Ladder(parents, r.scope)
  {
    if selected != [] {
      var init, last := selected[..|selected| - 1], selected[|selected| - 1];
      assert selected == init + [last] && last in selected;
      RetainedKey(parents, init, key);
    }
  }

  /** A plan keeps exactly the collections above its selected requests, under the same parents. */
  lemma RetainsExactlyAncestors(plan: Plan, selected: seq<Request>, key: Key)
    requires AllRooted(plan, selected)
    ensures var before, after := ParentsOf(plan.collections), ParentsOf(Pruned(plan, selected).collections);
            && (key in after <==> key in before && exists r :: r in selected && key in Ladder(before, r.scope))
            && (key in after ==> after[key] == before[key])
  {
    var before := ParentsOf(plan.collections);
    RetainedKey(before, selected, key);
    RetainedCollection(plan, selected, RetainedKeys(before, selected), plan.collections, key);
  }

  /** Scopes whose way up is the same in both forests. */
  lemma {:induction false} ClimbAlike(a: Parents, b: Parents, at: Scope)
    requires Rooted(a, at) && forall k :: k in Ladder(a, at) ==> ParentOf(a, k) == ParentOf(b, k)
    ensures Rooted(b, at) && Ladder(b, at) == Ladder(a, at)
    decreases Height(a, at)
  {
    if at == None {
      assert Climbs(b, None, 0);
    } else {
      ParentIsLower(a, at.value);
      var parent := ParentOf(a, at.value);
      ClimbAlike(a, b, parent);
      assert Climbs(b, at, Height(b, parent) + 1);
      ParentIsLower(b, at.value);
    }
  }

  lemma {:induction false} LadderKnown(plan: Plan, at: Scope)
    requires Rooted(ParentsOf(plan.collections), at) && Known(plan, at)
    ensures forall k :: k in Ladder(ParentsOf(plan.collections), at) ==> k in ParentsOf(plan.collections)
    decreases Height(ParentsOf(plan.collections), at)
  {
    if at.Some? {
      KnownUpward(plan, at.value);
      LadderKnown(plan, ParentOf(ParentsOf(plan.collections), at.value));
    }
  }

  /** The way up from a retained scope is retained. */
  ghost predicate RetainedScope(plan: Plan, selected: seq<Request>, at: Scope)
    requires AllRooted(plan, selected)
  {
    var parents := ParentsOf(plan.collections);
    && Rooted(parents, at) && Known(plan, at)
    && forall k :: k in Ladder(parents, at) ==> k in RetainedKeys(parents, selected)
  }

  lemma SelectedScopeRetained(plan: Plan, selected: seq<Request>, r: Request)
    requires AllRooted(plan, selected) && ParentsKnown(plan.collections) && r in selected
    ensures RetainedScope(plan, selected, r.scope)
  {
    var parents := ParentsOf(plan.collections);
    forall k | k in Ladder(parents, r.scope)
      ensures k in RetainedKeys(parents, selected)
    {
      RetainedKey(parents, selected, k);
    }
  }

  lemma RetainedScopeUp(plan: Plan, selected: seq<Request>, key: Key)
    requires AllRooted(plan, selected) && RetainedScope(plan, selected, Some(key))
    ensures var parents := ParentsOf(plan.collections);
            && key in RetainedKeys(parents, selected) && Rooted(parents, ParentOf(parents, key))
            && Height(parents, Some(key)) == 1 + Height(parents, ParentOf(parents, key))
            && RetainedScope(plan, selected, ParentOf(parents, key))
  {
    var parents := ParentsOf(plan.collections);
    KnownUpward(plan, key);
    assert Ladder(parents, Some(key)) == [key] + Ladder(parents, ParentOf(parents, key));
    assert key in Ladder(parents, Some(key));
  }

  lemma SameWayUp(plan: Plan, selected: seq<Request>, at: Scope)
    requires AllRooted(plan, selected) && RetainedScope(plan, selected, at)
    ensures var before, after := ParentsOf(plan.collections), ParentsOf(Pruned(plan, selected).collections);
            Rooted(after, at) && Ladder(after, at) == Ladder(before, at)
    ensures at.Some? ==> at.value in ParentsOf(Pruned(plan, selected).collections)
    ensures at.Some? ==> ParentOf(ParentsOf(Pruned(plan, selected).collections), at.value) == ParentOf(ParentsOf(plan.collections), at.value)
  {
    var before, after := ParentsOf(plan.collections), ParentsOf(Pruned(plan, selected).collections);
    LadderKnown(plan, at);
    forall k | k in Ladder(before, at)
      ensures k in after && ParentOf(before, k) == ParentOf(after, k)
    {
      RetainedCollection(plan, selected, RetainedKeys(before, selected), plan.collections, k);
    }
    ClimbAlike(before, after, at);
    if at.Some? {
      RetainedScopeUp(plan, selected, at.value);
      assert at.value in Ladder(before, at);
    }
  }

  /** The declarations of a retained scope are the required ones of before. */
  lemma RetainedLists(plan: Plan, selected: seq<Request>, at: Scope)
    requires AllRooted(plan, selected) && RetainedScope(plan, selected, at)
    ensures ListOf(ListsOf(Pruned(plan, selected)), at) == RequiredOnly(plan, selected, at, ListOf(ListsOf(plan), at))
  {
    var parents, root' := ParentsOf(plan.collections), RequiredOnly(plan, selected, None, plan.variables);
    if at.Some? {
      RetainedScopeUp(plan, selected, at.value);
      RetainedList(plan, selected, RetainedKeys(parents, selected), plan.variables, root', plan.collections, at.value);
    } else {
      RootList(plan.variables, plan.collections);
      RootList(root', Retained(plan, selected, RetainedKeys(parents, selected), plan.collections));
    }
  }

  lemma {:induction false} RootList(root: seq<Variable>, collections: seq<Collection>)
    ensures ListOf(CollectionLists(root, collections), None) == root
  {
    if collections != [] {
      RootList(root, collections[..|collections| - 1]);
    }
  }

  // ---------------------------------------------------------------------
  // Bindings
  // ---------------------------------------------------------------------

  lemma {:induction false} RequiredVariable(plan: Plan, selected: seq<Request>, scope: Scope, variables: seq<Variable>, v: Variable)
    requires AllRooted(plan, selected)
    ensures v in RequiredOnly(plan, selected, scope, variables) <==> v in variables && Required(plan, selected, scope, v.name)
  {
    if variables != [] {
      var init, last := variables[..|variables| - 1], variables[|variables| - 1];
      assert variables == init + [last];
      RequiredVariable(plan, selected, scope, init, v);
    }
  }

  /** The filter leaves all declarations of a required name. */
  lemma {:induction false} RequiredNameBound(
    plan: Plan, selected: seq<Request>, scope: Scope, variables: seq<Variable>, a: Bindings, b: Bindings, name: string)
    requires AllRooted(plan, selected) && Required(plan, selected, scope, name) && SameVariable(a, b, name)
    ensures SameVariable(Overlay(a, variables), Overlay(b, RequiredOnly(plan, selected, scope, variables)), name)
  {
    if variables != [] {
      var init, last := variables[..|variables| - 1], variables[|variables| - 1];
      RequiredNameBound(plan, selected, scope, init, a, b, name);
      var kept := RequiredOnly(plan, selected, scope, init);
      if Required(plan, selected, scope, last.name) {
        assert (kept + [last])[..|kept|] == kept;
        assert RequiredOnly(plan, selected, scope, variables) == kept + [last];
      } else {
        assert RequiredOnly(plan, selected, scope, variables) == kept;
      }
    }
  }

  /** What lies above a reached scope without the name is reached too. */
  lemma {:induction false} ReachesUp(plan: Plan, from: Scope, key: Key, name: string)
    requires Rooted(ParentsOf(plan.collections), from) && Reaches(plan, from, Some(key), name)
    requires !Declares(ListOf(ListsOf(plan), Some(key)), name)
    ensures Reaches(plan, from, ParentOf(ParentsOf(plan.collections), key), name)
    decreases Height(ParentsOf(plan.collections), from)
  {
    ParentIsLower(ParentsOf(plan.collections), from.value);
    if from != Some(key) {
      ReachesUp(plan, ParentOf(ParentsOf(plan.collections), from.value), key, name);
    }
  }

  /** A scope reached by a selected request binds a name the request mentions as before. */
  lemma {:induction false} ReachedScopeBindsAlike(plan: Plan, selected: seq<Request>, r: Request, at: Scope, name: string)
    requires AllRooted(plan, selected) && RetainedScope(plan, selected, at) && r in selected && Uses(plan, r, at, name)
    ensures var pruned := Pruned(plan, selected);
            && Rooted(ParentsOf(pruned.collections), at)
            && SameVariable(BindingsAt(ParentsOf(plan.collections), ListsOf(plan), at),
                            BindingsAt(ParentsOf(pruned.collections), ListsOf(pruned), at), name)
    decreases Height(ParentsOf(plan.collections), at)
  {
    var pruned, parents, list := Pruned(plan, selected), ParentsOf(plan.collections), ListOf(ListsOf(plan), at);
    SameWayUp(plan, selected, at);
    RetainedLists(plan, selected, at);
    assert Required(plan, selected, at, name);
    var now, later := InheritedAt(parents, ListsOf(plan), at), InheritedAt(ParentsOf(pruned.collections), ListsOf(pruned), at);
    if Declares(list, name) {
      DeclaredBoundAlike(plan, selected, at, list, now, later, name);
    } else {
      if at.Some? {
        RetainedScopeUp(plan, selected, at.value);
        ReachesUp(plan, r.scope, at.value, name);
        ReachedScopeBindsAlike(plan, selected, r, ParentOf(parents, at.value), name);
      }
      RequiredNameBound(plan, selected, at, list, now, later, name);
    }
  }

  lemma DeclaredBoundAlike(
    plan: Plan, selected: seq<Request>, scope: Scope, list: seq<Variable>, a: Bindings, b: Bindings, name: string)
    requires AllRooted(plan, selected) && Required(plan, selected, scope, name) && Declares(list, name)
    ensures SameVariable(Overlay(a, list), Overlay(b, RequiredOnly(plan, selected, scope, list)), name)
  {
    var kept := RequiredOnly(plan, selected, scope, list);
    RequiredNameBound(plan, selected, scope, list, a, a, name);
    var v :| v in list && v.name == name;
    RequiredVariable(plan, selected, scope, list, v);
    OverlayHides(a, b, kept, name);
  }

  /** Every name that a selected request mentions is bound to the same declaration as in the full plan. */
  lemma SelectionKeepsBindings(plan: Plan, selected: seq<Request>, r: Request, name: string)
    requires AllRooted(plan, selected) && ParentsKnown(plan.collections) && r in selected
    requires Mentions(SearchText(plan.pathPrefix, Chain(plan, r.scope), r), name)
    ensures Rooted(ParentsOf(Pruned(plan, selected).collections), r.scope)
    ensures SameVariable(BindingsOf(plan, r), BindingsOf(Pruned(plan, selected), r), name)
  {
    var pruned := Pruned(plan, selected);
    SelectedScopeRetained(plan, selected, r);
    SameWayUp(plan, selected, r.scope);
    var now := BindingsAt(ParentsOf(plan.collections), ListsOf(plan), r.scope);
    var later := BindingsAt(ParentsOf(pruned.collections), ListsOf(pruned), r.scope);
    if Declares(r.variables, name) {
      OverlayHides(now, later, r.variables, name);
    } else {
      ReachedScopeBindsAlike(plan, selected, r, r.scope, name);
      OverlayDecides(now, r.variables, name);
      OverlayDecides(later, r.variables, name);
    }
  }

  /** The declaration that a walk up reaches first is the one that is bound. */
  lemma {:induction false} ReachedIsBound(plan: Plan, at: Scope, scope: Scope, name: string)
    requires Rooted(ParentsOf(plan.collections), at) && Reaches(plan, at, scope, name)
    requires Declares(ListOf(ListsOf(plan), scope), name)
    ensures var b := BindingsAt(ParentsOf(plan.collections), ListsOf(plan), at);
            && name in b && name in Overlay(map[], ListOf(ListsOf(plan), scope))
            && b[name] == Overlay(map[], ListOf(ListsOf(plan), scope))[name]
    decreases Height(ParentsOf(plan.collections), at)
  {
    var parents, list := ParentsOf(plan.collections), ListOf(ListsOf(plan), at);
    if at == scope {
      OverlayHides(InheritedAt(parents, ListsOf(plan), at), map[], list, name);
    } else {
      ParentIsLower(parents, at.value);
      ReachedIsBound(plan, ParentOf(parents, at.value), scope, name);
      OverlayDecides(InheritedAt(parents, ListsOf(plan), at), list, name);
    }
  }

  /**
   A baseline is retained exactly when some selected request mentions it and is bound to
   its scope's declaration of the name, not to a nearer one.
   */
  lemma RetainsExactlyUsed(plan: Plan, selected: seq<Request>, scope: Scope, v: Variable)
    requires AllRooted(plan, selected) && RetainedScope(plan, selected, scope)
    ensures v in ListOf(ListsOf(Pruned(plan, selected)), scope)
            <==> && v in ListOf(ListsOf(plan), scope)
                 && exists r {:trigger r in selected} :: r in selected && Uses(plan, r, scope, v.name)
    ensures v in ListOf(ListsOf(Pruned(plan, selected)), scope) ==>
              exists r {:trigger r in selected} ::
                && r in selected && Uses(plan, r, scope, v.name)
                && v.name in BindingsOf(plan, r) && v.name in Overlay(map[], ListOf(ListsOf(plan), scope))
                && BindingsOf(plan, r)[v.name] == Overlay(map[], ListOf(ListsOf(plan), scope))[v.name]
  {
    RetainedLists(plan, selected, scope);
    var list := ListOf(ListsOf(plan), scope);
    RequiredVariable(plan, selected, scope, list, v);
    if v in ListOf(ListsOf(Pruned(plan, selected)), scope) {
      var r :| r in selected && Uses(plan, r, scope, v.name);
      assert Declares(list, v.name);
      ReachedIsBound(plan, r.scope, scope, v.name);
      OverlayDecides(BindingsAt(ParentsOf(plan.collections), ListsOf(plan), r.scope), r.variables, v.name);
    }
  }

  // ---------------------------------------------------------------------
  // The pruned plan
  // ---------------------------------------------------------------------

  /** The collection stands in the list, but for its variables. */
  ghost predicate StandsIn(c: Collection, collections: seq<Collection>) {
    exists b :: b in collections && b.key == c.key && b.parent == c.parent
  }

  lemma {:induction false} RetainedMember(plan: Plan, selected: seq<Request>, keys: set<Key>, collections: seq<Collection>, c: Collection)
    requires AllRooted(plan, selected) && c in Retained(plan, selected, keys, collections)
    ensures c.key in keys && StandsIn(c, collections)
  {
    var init, last := collections[..|collections| - 1], collections[|collections| - 1];
    assert last in collections && forall b :: b in init ==> b in collections;
    if c in Retained(plan, selected, keys, init) {
      RetainedMember(plan, selected, keys, init, c);
    }
  }

  lemma {:induction false} RetainedUnique(plan: Plan, selected: seq<Request>, keys: set<Key>, collections: seq<Collection>)
    requires AllRooted(plan, selected) && KeysUnique(collections)
    ensures KeysUnique(Retained(plan, selected, keys, collections))
  {
    if collections != [] {
      var init, last := collections[..|collections| - 1], collections[|collections| - 1];
      RetainedUnique(plan, selected, keys, init);
      forall c | c in Retained(plan, selected, keys, init)
        ensures c.key != last.key
      {
        RetainedMember(plan, selected, keys, init, c);
      }
    }
  }

  /** The pruned plan passes the validation of collections. */
  lemma PrunedIsValid(plan: Plan, selected: seq<Request>)
    requires CollectionsValid(plan) && AllRooted(plan, selected)
    ensures CollectionsValid(Pruned(plan, selected))
  {
    var pruned, parents := Pruned(plan, selected), ParentsOf(plan.collections);
    var keys, after := RetainedKeys(parents, selected), ParentsOf(pruned.collections);
    RetainedUnique(plan, selected, keys, plan.collections);
    forall key
      ensures key in after <==> key in parents && key in keys
      ensures key in after ==> RetainedScope(plan, selected, Some(key)) && Rooted(after, Some(key))
    {
      RetainedCollection(plan, selected, keys, plan.collections, key);
      if key in after {
        RetainedUpward(parents, selected, key);
        SameWayUp(plan, selected, Some(key));
      }
    }
    forall c | c in pruned.collections && c.parent.Some?
      ensures c.parent.value in after
    {
      RetainedMember(plan, selected, keys, plan.collections, c);
      var b :| b in plan.collections && b.key == c.key && b.parent == c.parent;
      UniqueParent(plan.collections, b);
      KeysAreCollections(pruned.collections);
      RetainedScopeUp(plan, selected, c.key);
      SameWayUp(plan, selected, c.parent);
    }
    forall r | r in pruned.requests && r.scope.Some?
      ensures r.scope.value in after
    {
      SelectedScopeRetained(plan, selected, r);
      SameWayUp(plan, selected, r.scope);
    }
  }

  lemma UniqueParent(collections: seq<Collection>, c: Collection)
    requires KeysUnique(collections) && c in collections
    ensures ParentOf(ParentsOf(collections), c.key) == c.parent
  {
    var i :| 0 <= i < |collections| && collections[i] == c;
    ParentFound(collections, i);
  }

  lemma {:induction false} RetainedByKey(plan: Plan, selected: seq<Request>, keys: set<Key>, collections: seq<Collection>, key: Key)
    requires AllRooted(plan, selected) && key in keys
    ensures var before, after := ByKey(collections), ByKey(Retained(plan, selected, keys, collections));
            (key in after <==> key in before) && (key in after ==> after[key].pathPrefix == before[key].pathPrefix)
  {
    if collections != [] {
      var init, last := collections[..|collections| - 1], collections[|collections| - 1];
      RetainedByKey(plan, selected, keys, init, key);
      var before := Retained(plan, selected, keys, init);
      if last.key in keys {
        var kept := last.(variables := RequiredOnly(plan, selected, Some(last.key), last.variables));
        assert (before + [kept])[..|before|] == before;
        assert Retained(plan, selected, keys, collections) == before + [kept];
      } else {
        assert Retained(plan, selected, keys, collections) == before;
      }
    }
  }

  lemma {:induction false} SamePrefixes(plan: Plan, selected: seq<Request>, at: Scope)
    requires AllRooted(plan, selected) && RetainedScope(plan, selected, at)
    ensures Rooted(ParentsOf(Pruned(plan, selected).collections), at)
    ensures Prefixes(Chain(Pruned(plan, selected), at)) == Prefixes(Chain(plan, at))
    decreases Height(ParentsOf(plan.collections), at)
  {
    var pruned, parents := Pruned(plan, selected), ParentsOf(plan.collections);
    SameWayUp(plan, selected, at);
    if at.Some? {
      var parent := ParentOf(parents, at.value);
      RetainedScopeUp(plan, selected, at.value);
      KnownUpward(plan, at.value);
      RetainedByKey(plan, selected, RetainedKeys(parents, selected), plan.collections, at.value);
      SamePrefixes(plan, selected, parent);
      ChainGrows(plan, at.value);
      ChainGrows(pruned, at.value);
    }
  }

  /** A selected request is searched for the same placeholders in the pruned plan. */
  lemma SelectionKeepsText(plan: Plan, selected: seq<Request>, r: Request)
    requires AllRooted(plan, selected) && ParentsKnown(plan.collections) && r in selected
    ensures Rooted(ParentsOf(Pruned(plan, selected).collections), r.scope)
    ensures SearchText(plan.pathPrefix, Chain(plan, r.scope), r)
            == SearchText(Pruned(plan, selected).pathPrefix, Chain(Pruned(plan, selected), r.scope), r)
  {
    SelectedScopeRetained(plan, selected, r);
    SamePrefixes(plan, selected, r.scope);
  }
}
