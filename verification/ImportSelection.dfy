/** Pruning a plan: retained collections and baselines. */
module ImportSelection {
  import opened Wrappers
  import opened ImportPlans

  // ---------------------------------------------------------------------
  // Collection chains and search text
  // ---------------------------------------------------------------------

  function ByKey(collections: seq<Collection>): map<Key, Collection> {
    if collections == [] then map[]
    else
      var last := collections[|collections| - 1];
      ByKey(collections[..|collections| - 1])[last.key := last]
  }

  lemma {:induction false} ByKeyAgrees(plan: Plan, key: Key)
    ensures key in ByKey(plan.collections) <==> key in ParentsOf(plan.collections)
    ensures key in ByKey(plan.collections) ==>
              var c := ByKey(plan.collections)[key];
              c.key == key && ParentOf(ParentsOf(plan.collections), key) == c.parent && ListOf(ListsOf(plan), Some(key)) == c.variables
  {
    KeyAgrees(plan.variables, plan.collections, key);
  }

  lemma {:induction false} KeyAgrees(root: seq<Variable>, collections: seq<Collection>, key: Key)
    ensures key in ByKey(collections) <==> key in ParentsOf(collections)
    ensures key in ByKey(collections) ==>
              var c := ByKey(collections)[key];
              && c.key == key && ParentOf(ParentsOf(collections), key) == c.parent
              && ListOf(CollectionLists(root, collections), Some(key)) == c.variables
  {
    if collections != [] {
      KeyAgrees(root, collections[..|collections| - 1], key);
    }
  }

  /** The collections around a scope, root-most first. */
  ghost function Chain(plan: Plan, scope: Scope): seq<Collection>
    requires Rooted(ParentsOf(plan.collections), scope)
    decreases Height(ParentsOf(plan.collections), scope)
  {
    if scope == None || scope.value !in ByKey(plan.collections) then []
    else
      ParentIsLower(ParentsOf(plan.collections), scope.value);
      Chain(plan, ParentOf(ParentsOf(plan.collections), scope.value)) + [ByKey(plan.collections)[scope.value]]
  }

  function Prefixes(chain: seq<Collection>): seq<string> {
    if chain == [] then [] else Prefixes(chain[..|chain| - 1]) + [chain[|chain| - 1].pathPrefix]
  }

  lemma ChainGrows(plan: Plan, key: Key)
    requires Rooted(ParentsOf(plan.collections), Some(key)) && key in ByKey(plan.collections)
    ensures var parent := ParentOf(ParentsOf(plan.collections), key);
            && Rooted(ParentsOf(plan.collections), parent)
            && Prefixes(Chain(plan, Some(key))) == Prefixes(Chain(plan, parent)) + [ByKey(plan.collections)[key].pathPrefix]
  {
    ParentIsLower(ParentsOf(plan.collections), key);
    LastPrefix(Chain(plan, ParentOf(ParentsOf(plan.collections), key)), ByKey(plan.collections)[key]);
  }

  lemma LastPrefix(chain: seq<Collection>, last: Collection)
    ensures Prefixes(chain + [last]) == Prefixes(chain) + [last.pathPrefix]
  {
    assert (chain + [last])[..|chain|] == chain;
  }

  function Join(parts: seq<string>): string {
    if parts == [] then ""
    else if |parts| == 1 then parts[0]
    else Join(parts[..|parts| - 1]) + "\0" + parts[|parts| - 1]
  }

  /** Everything of a request in which a placeholder may stand. */
  function SearchText(rootPathPrefix: string, chain: seq<Collection>, r: Request): string {
    Join([rootPathPrefix] + Prefixes(chain) + [r.text])
  }

  predicate Includes(text: string, part: string) {
    exists i :: 0 <= i <= |text| && StandsAt(text, i, part)
  }

  predicate StandsAt(text: string, i: int, part: string) {
    0 <= i && i + |part| <= |text| && text[i..i + |part|] == part
  }

  predicate Mentions(text: string, name: string) {
    Includes(text, "<<" + name + ">>")
  }

  // ---------------------------------------------------------------------
  // What is required
  // ---------------------------------------------------------------------

  /** Walking up from `at`, the scope is met before any other scope that declares the name. */
  ghost predicate Reaches(plan: Plan, at: Scope, scope: Scope, name: string)
    requires Rooted(ParentsOf(plan.collections), at)
    decreases Height(ParentsOf(plan.collections), at)
  {
    at == scope
    || (at.Some? && !Declares(ListOf(ListsOf(plan), at), name)
        && (ParentIsLower(ParentsOf(plan.collections), at.value);
            Reaches(plan, ParentOf(ParentsOf(plan.collections), at.value), scope, name)))
  }

  /** The request mentions the name and finds no declaration of it below the scope. */
  ghost predicate Uses(plan: Plan, r: Request, scope: Scope, name: string)
    requires Rooted(ParentsOf(plan.collections), r.scope)
  {
    && Mentions(SearchText(plan.pathPrefix, Chain(plan, r.scope), r), name)
    && !Declares(r.variables, name)
    && Reaches(plan, r.scope, scope, name)
  }

  ghost predicate AllRooted(plan: Plan, selected: seq<Request>) {
    forall r {:trigger r in selected} :: r in selected ==>
      && Rooted(ParentsOf(plan.collections), r.scope)
      && (r.scope.Some? ==> r.scope.value in ParentsOf(plan.collections))
  }

  ghost predicate Required(plan: Plan, selected: seq<Request>, scope: Scope, name: string)
    requires AllRooted(plan, selected)
  {
    exists r {:trigger r in selected} :: r in selected && Uses(plan, r, scope, name)
  }

  ghost function RequiredOnly(plan: Plan, selected: seq<Request>, scope: Scope, variables: seq<Variable>): seq<Variable>
    requires AllRooted(plan, selected)
  {
    if variables == [] then []
    else
      var last := variables[|variables| - 1];
      RequiredOnly(plan, selected, scope, variables[..|variables| - 1])
      + if Required(plan, selected, scope, last.name) then [last] else []
  }

  /** The collections on the way up from the selected requests. */
  ghost function RetainedKeys(parents: Parents, selected: seq<Request>): set<Key>
    requires forall r :: r in selected ==> Rooted(parents, r.scope)
  {
    if selected == [] then {}
    else
      var last := selected[|selected| - 1];
      RetainedKeys(parents, selected[..|selected| - 1]) + set k | k in Ladder(parents, last.scope)
  }

  ghost function Retained(plan: Plan, selected: seq<Request>, keys: set<Key>, collections: seq<Collection>): seq<Collection>
    requires AllRooted(plan, selected)
  {
    if collections == [] then []
    else
      var last := collections[|collections| - 1];
      Retained(plan, selected, keys, collections[..|collections| - 1])
      + if last.key in keys then [last.(variables := RequiredOnly(plan, selected, Some(last.key), last.variables))] else []
  }

  ghost function Pruned(plan: Plan, selected: seq<Request>): Plan
    requires AllRooted(plan, selected)
  {
    Plan(plan.pathPrefix, RequiredOnly(plan, selected, None, plan.variables),
         Retained(plan, selected, RetainedKeys(ParentsOf(plan.collections), selected), plan.collections), selected)
  }

  // ---------------------------------------------------------------------
  // The loops
  // ---------------------------------------------------------------------

  method RequestCollectionChain(plan: Plan, scope: Scope, collectionByKey: map<Key, Collection>) returns (chain: seq<Collection>)
    requires collectionByKey == ByKey(plan.collections) && Rooted(ParentsOf(plan.collections), scope)
    ensures chain == Chain(plan, scope)
  {
    ghost var parents := ParentsOf(plan.collections);
    var reversed: seq<Collection> := [];
    var key := scope;
    while key != None
      invariant Rooted(parents, key)
      invariant Chain(plan, key) + Reverse(reversed) == Chain(plan, scope)
      decreases Height(parents, key)
    {
      if key.value !in collectionByKey {
        assert Chain(plan, key) == [];
        break;
      }
      ParentIsLower(parents, key.value);
      ByKeyAgrees(plan, key.value);
      ReverseAppend(reversed, collectionByKey[key.value]);
      reversed := reversed + [collectionByKey[key.value]];
      key := collectionByKey[key.value].parent;
    }
    assert [] + Reverse(reversed) == Reverse(reversed);
    chain := Reverse(reversed);
  }

  function Reverse<T>(s: seq<T>): seq<T> {
    if s == [] then [] else [s[|s| - 1]] + Reverse(s[..|s| - 1])
  }

  lemma ReverseAppend<T>(s: seq<T>, last: T)
    ensures Reverse(s + [last]) == [last] + Reverse(s)
  {
    assert (s + [last])[..|s|] == s;
  }

  predicate AnyDeclares(chain: seq<Collection>, name: string) {
    exists c :: c in chain && Declares(c.variables, name)
  }

  /** The collections of a chain are no further from the root than its lower end. */
  lemma {:induction false} ChainIsHigher(plan: Plan, at: Scope)
    requires Rooted(ParentsOf(plan.collections), at)
    ensures var parents := ParentsOf(plan.collections);
            forall c :: c in Chain(plan, at) ==> Rooted(parents, Some(c.key)) && Height(parents, Some(c.key)) <= Height(parents, at)
    decreases Height(ParentsOf(plan.collections), at)
  {
    if at.Some? && at.value in ByKey(plan.collections) {
      ParentIsLower(ParentsOf(plan.collections), at.value);
      ByKeyAgrees(plan, at.value);
      ChainIsHigher(plan, ParentOf(ParentsOf(plan.collections), at.value));
    }
  }

  /** Every collection on the way up is known. */
  ghost predicate Known(plan: Plan, at: Scope) {
    && ParentsKnown(plan.collections)
    && (at.Some? ==> at.value in ParentsOf(plan.collections))
  }

  lemma {:induction false} MemberByKey(collections: seq<Collection>, key: Key)
    requires key in ByKey(collections)
    ensures ByKey(collections)[key] in collections
  {
    var init, last := collections[..|collections| - 1], collections[|collections| - 1];
    assert collections == init + [last];
    if key != last.key {
      MemberByKey(init, key);
    }
  }

  lemma KnownUpward(plan: Plan, key: Key)
    requires Known(plan, Some(key)) && Rooted(ParentsOf(plan.collections), Some(key))
    ensures var parent := ParentOf(ParentsOf(plan.collections), key);
            && Rooted(ParentsOf(plan.collections), parent) && Known(plan, parent)
            && Height(ParentsOf(plan.collections), Some(key)) == 1 + Height(ParentsOf(plan.collections), parent)
            && key in ByKey(plan.collections) && ByKey(plan.collections)[key].key == key
            && ListOf(ListsOf(plan), Some(key)) == ByKey(plan.collections)[key].variables
            && Chain(plan, Some(key)) == Chain(plan, parent) + [ByKey(plan.collections)[key]]
  {
    ParentIsLower(ParentsOf(plan.collections), key);
    ByKeyAgrees(plan, key);
    MemberByKey(plan.collections, key);
  }

  lemma AnyDeclaresLast(chain: seq<Collection>, last: Collection, name: string)
    ensures AnyDeclares(chain + [last], name) <==> AnyDeclares(chain, name) || Declares(last.variables, name)
  {
    assert last in chain + [last];
    forall c | c in chain
      ensures c in chain + [last]
    {
    }
  }

  /** The root is reached exactly when no collection of the chain declares the name. */
  lemma {:induction false} RootReached(plan: Plan, at: Scope, name: string)
    requires Rooted(ParentsOf(plan.collections), at) && Known(plan, at)
    ensures Reaches(plan, at, None, name) <==> !AnyDeclares(Chain(plan, at), name)
    decreases Height(ParentsOf(plan.collections), at)
  {
    if at.Some? {
      KnownUpward(plan, at.value);
      var parent := ParentOf(ParentsOf(plan.collections), at.value);
      RootReached(plan, parent, name);
      AnyDeclaresLast(Chain(plan, parent), ByKey(plan.collections)[at.value], name);
    }
  }

  /** A collection of the chain is reached exactly when none below it declares the name. */
  lemma {:induction false} CollectionReached(plan: Plan, at: Scope, i: nat, name: string)
    requires Rooted(ParentsOf(plan.collections), at) && Known(plan, at) && i < |Chain(plan, at)|
    ensures Reaches(plan, at, Some(Chain(plan, at)[i].key), name) <==> !AnyDeclares(Chain(plan, at)[i + 1..], name)
    decreases Height(ParentsOf(plan.collections), at)
  {
    KnownUpward(plan, at.value);
    var parent, chain := ParentOf(ParentsOf(plan.collections), at.value), Chain(plan, at);
    var n, last := |chain| - 1, ByKey(plan.collections)[at.value];
    if i == n {
      assert chain[i + 1..] == [];
    } else {
      assert chain[i] in Chain(plan, parent);
      ChainIsHigher(plan, parent);
      CollectionReached(plan, parent, i, name);
      AnyDeclaresLast(Chain(plan, parent)[i + 1..], last, name);
      assert chain[i + 1..] == Chain(plan, parent)[i + 1..] + [last];
    }
  }

  /** A collection outside the chain is not reached. */
  lemma {:induction false} OutsideNotReached(plan: Plan, at: Scope, key: Key, name: string)
    requires Rooted(ParentsOf(plan.collections), at) && Known(plan, at)
    requires forall c :: c in Chain(plan, at) ==> c.key != key
    ensures !Reaches(plan, at, Some(key), name)
    decreases Height(ParentsOf(plan.collections), at)
  {
    if at.Some? {
      KnownUpward(plan, at.value);
      var parent, last := ParentOf(ParentsOf(plan.collections), at.value), ByKey(plan.collections)[at.value];
      assert last in Chain(plan, at);
      assert forall c :: c in Chain(plan, parent) ==> c in Chain(plan, at);
      OutsideNotReached(plan, parent, key, name);
    }
  }

  /** Where the collection stands in the chain, or -1. */
  method FindIndex(chain: seq<Collection>, key: Key) returns (i: int)
    ensures -1 <= i < |chain|
    ensures i >= 0 ==> chain[i].key == key
    ensures i == -1 ==> forall c :: c in chain ==> c.key != key
  {
    for k := 0 to |chain|
      invariant forall j :: 0 <= j < k ==> chain[j].key != key
    {
      if chain[k].key == key {
        return k;
      }
    }
    i := -1;
  }

  /** Whether no scope nearer to the request than the given one declares the name. */
  method Unhidden(name: string, scopeKey: Scope, ghost plan: Plan, chain: seq<Collection>, ghost at: Scope) returns (reached: bool)
    requires Rooted(ParentsOf(plan.collections), at) && Known(plan, at) && chain == Chain(plan, at)
    ensures reached <==> Reaches(plan, at, scopeKey, name)
  {
    if scopeKey == None {
      RootReached(plan, at, name);
      return !AnyDeclares(chain, name);
    }
    var scopeIndex := FindIndex(chain, scopeKey.value);
    if scopeIndex < 0 {
      OutsideNotReached(plan, at, scopeKey.value, name);
      return false;
    }
    CollectionReached(plan, at, scopeIndex, name);
    reached := !AnyDeclares(chain[scopeIndex + 1..], name);
  }

  /** Whether a selected request uses a baseline of a scope without overriding it. */
  method BaselineVariableRequired(
    name: string, scopeKey: Scope, plan: Plan, selected: seq<Request>, collectionByKey: map<Key, Collection>)
    returns (required: bool)
    requires collectionByKey == ByKey(plan.collections) && AllRooted(plan, selected) && ParentsKnown(plan.collections)
    ensures required <==> Required(plan, selected, scopeKey, name)
  {
    for i := 0 to |selected|
      invariant AllRooted(plan, selected[..i]) && !Required(plan, selected[..i], scopeKey, name)
    {
      var r := selected[i];
      assert r in selected && selected[..i + 1] == selected[..i] + [r];
      var chain := RequestCollectionChain(plan, r.scope, collectionByKey);
      var reached := Unhidden(name, scopeKey, plan, chain, r.scope);
      if reached && Mentions(SearchText(plan.pathPrefix, chain, r), name) && !Declares(r.variables, name) {
        return true;
      }
    }
    assert selected[..|selected|] == selected;
    required := false;
  }

  /** Adds the collections on the way up from one request. */
  method RetainUpward(parents: Parents, ghost before: seq<Request>, r: Request, keys0: set<Key>) returns (keys: set<Key>)
    requires (forall q :: q in before ==> Rooted(parents, q.scope)) && Rooted(parents, r.scope)
    requires keys0 == RetainedKeys(parents, before)
    ensures keys == keys0 + set k | k in Ladder(parents, r.scope)
  {
    keys := keys0;
    var key := r.scope;
    while key != None && key.value !in keys
      invariant Rooted(parents, key) && keys0 <= keys
      invariant keys + (set k | k in Ladder(parents, key)) == keys0 + set k | k in Ladder(parents, r.scope)
      invariant forall k :: k in keys && k !in keys0 ==> Rooted(parents, Some(k)) && Height(parents, Some(k)) > Height(parents, key)
      decreases Height(parents, key)
    {
      ParentIsLower(parents, key.value);
      keys := keys + {key.value};
      key := ParentOf(parents, key.value);
    }
    if key.Some? {
      RetainedUpward(parents, before, key.value);
      assert (set k | k in Ladder(parents, key)) <= keys;
    } else {
      assert (set k | k in Ladder(parents, key)) == {};
    }
  }

  /** What is retained includes all collections above. */
  lemma {:induction false} RetainedUpward(parents: Parents, selected: seq<Request>, key: Key)
    requires (forall q :: q in selected ==> Rooted(parents, q.scope)) && Rooted(parents, Some(key))
    requires key in RetainedKeys(parents, selected)
    ensures forall k :: k in Ladder(parents, Some(key)) ==> k in RetainedKeys(parents, selected)
  {
    var init, last := selected[..|selected| - 1], selected[|selected| - 1];
    assert last in selected;
    if key in Ladder(parents, last.scope) {
      LadderAbove(parents, last.scope, key);
    } else {
      RetainedUpward(parents, init, key);
    }
  }

  lemma {:induction false} LadderAbove(parents: Parents, scope: Scope, key: Key)
    requires Rooted(parents, scope) && Rooted(parents, Some(key)) && key in Ladder(parents, scope)
    ensures forall k :: k in Ladder(parents, Some(key)) ==> k in Ladder(parents, scope)
    decreases Height(parents, scope)
  {
    ParentIsLower(parents, scope.value);
    if key != scope.value {
      LadderAbove(parents, ParentOf(parents, scope.value), key);
    }
  }

  method RetainRequired(plan: Plan, selected: seq<Request>, scope: Scope, variables: seq<Variable>, collectionByKey: map<Key, Collection>)
    returns (kept: seq<Variable>)
    requires collectionByKey == ByKey(plan.collections) && AllRooted(plan, selected) && ParentsKnown(plan.collections)
    ensures kept == RequiredOnly(plan, selected, scope, variables)
  {
    kept := [];
    for i := 0 to |variables|
      invariant kept == RequiredOnly(plan, selected, scope, variables[..i])
    {
      assert variables[..i + 1][..i] == variables[..i];
      var required := BaselineVariableRequired(variables[i].name, scope, plan, selected, collectionByKey);
      if required {
        kept := kept + [variables[i]];
      }
    }
    assert variables[..|variables|] == variables;
  }

  /** Retains only the selected collection branches and the baselines they use. */
  method SelectPlanContent(plan: Plan, selected: seq<Request>) returns (variables: seq<Variable>, collections: seq<Collection>)
    requires AllRooted(plan, selected) && ParentsKnown(plan.collections)
    ensures Plan(plan.pathPrefix, variables, collections, selected) == Pruned(plan, selected)
  {
    var collectionByKey, parents := ByKey(plan.collections), ParentsOf(plan.collections);
    var retainedKeys: set<Key> := {};
    for i := 0 to |selected|
      invariant forall r :: r in selected ==> Rooted(parents, r.scope)
      invariant retainedKeys == RetainedKeys(parents, selected[..i])
    {
      assert selected[..i + 1][..i] == selected[..i];
      assert selected[i] in selected;
      retainedKeys := RetainUpward(parents, selected[..i], selected[i], retainedKeys);
    }
    assert selected[..|selected|] == selected;
    collections := [];
    for i := 0 to |plan.collections|
      invariant collections == Retained(plan, selected, retainedKeys, plan.collections[..i])
    {
      var c := plan.collections[i];
      assert plan.collections[..i + 1][..i] == plan.collections[..i];
      if c.key in retainedKeys {
        var kept := RetainRequired(plan, selected, Some(c.key), c.variables, collectionByKey);
        collections := collections + [c.(variables := kept)];
      }
    }
    assert plan.collections[..|plan.collections|] == plan.collections;
    variables := RetainRequired(plan, selected, None, plan.variables, collectionByKey);
  }
}
