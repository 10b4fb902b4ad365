/** Import plans: variables, collections and requests, and the bindings that a request sees. */
module ImportPlans {
  import opened Wrappers

  type Key = string

  /** A collection, or the imported root when there is none. */
  type Scope = Option<Key>

  datatype Content =
    | Value(text: string)
    | Secret(supplied: Option<string>, clear: Option<bool>)
    | Alias(target: string)
    | Unset

  datatype Variable = Variable(name: string, description: Option<string>, content: Content)

  /** The two declare the same: a secret's clear flag that is absent counts as false. */
  predicate SameContent(a: Variable, b: Variable) {
    match a.content
    case Value(text) => b.content == Value(text)
    case Alias(target) => b.content == Alias(target)
    case Unset => b.content == Unset
    case Secret(supplied, clear) =>
      && b.content.Secret? && b.content.supplied == supplied
      && (b.content.clear == Some(true) <==> clear == Some(true))
  }

  datatype Collection = Collection(key: Key, parent: Scope, pathPrefix: string, variables: seq<Variable>)

  datatype Request = Request(itemId: string, scope: Scope, text: string, variables: seq<Variable>)

  datatype Plan = Plan(pathPrefix: string, variables: seq<Variable>, collections: seq<Collection>, requests: seq<Request>)

  // ---------------------------------------------------------------------
  // The collection forest
  // ---------------------------------------------------------------------

  type Parents = map<Key, Scope>

  function ParentsOf(collections: seq<Collection>): Parents {
    if collections == [] then map[]
    else
      var last := collections[|collections| - 1];
      ParentsOf(collections[..|collections| - 1])[last.key := last.parent]
  }

  lemma {:induction false} KeysAreCollections(collections: seq<Collection>)
    ensures forall c :: c in collections ==> c.key in ParentsOf(collections)
    ensures forall k :: k in ParentsOf(collections) ==> exists c :: c in collections && c.key == k
  {
    if collections != [] {
      var init, last := collections[..|collections| - 1], collections[|collections| - 1];
      KeysAreCollections(init);
      assert collections == init + [last];
      forall k | k in ParentsOf(collections)
        ensures exists c :: c in collections && c.key == k
      {
        if k == last.key {
          assert last in collections;
        } else {
          assert k in ParentsOf(init);
          var c :| c in init && c.key == k;
          assert c in collections;
        }
      }
    }
  }

  predicate KeysUnique(collections: seq<Collection>) {
    forall i, j :: 0 <= i < j < |collections| ==> collections[i].key != collections[j].key
  }

  lemma {:induction false} ParentFound(collections: seq<Collection>, i: nat)
    requires KeysUnique(collections) && i < |collections|
    ensures var parents, c := ParentsOf(collections), collections[i]; c.key in parents && parents[c.key] == c.parent
  {
    if i < |collections| - 1 {
      ParentFound(collections[..|collections| - 1], i);
    }
  }

  /** The scope around a collection; an unknown collection counts as lying below the root. */
  function ParentOf(parents: Parents, key: Key): Scope {
    if key in parents then parents[key] else None
  }

  /** Following parents `n` times from the scope arrives at the root. */
  ghost predicate Climbs(parents: Parents, scope: Scope, n: nat)
    decreases n
  {
    match scope
    case None => n == 0
    case Some(key) => n > 0 && Climbs(parents, ParentOf(parents, key), n - 1)
  }

  ghost predicate Rooted(parents: Parents, scope: Scope) {
    exists n: nat :: Climbs(parents, scope, n)
  }

  ghost predicate IsForest(parents: Parents) {
    forall key :: key in parents ==> Rooted(parents, Some(key))
  }

  lemma {:induction false} ClimbsOnce(parents: Parents, scope: Scope, n: nat, m: nat)
    requires Climbs(parents, scope, n) && Climbs(parents, scope, m)
    ensures n == m
    decreases n
  {
    if scope.Some? {
      ClimbsOnce(parents, ParentOf(parents, scope.value), n - 1, m - 1);
    }
  }

  ghost function Height(parents: Parents, scope: Scope): (n: nat)
    requires Rooted(parents, scope)
    ensures Climbs(parents, scope, n)
  {
    var n: nat :| Climbs(parents, scope, n);
    n
  }

  lemma ParentIsLower(parents: Parents, key: Key)
    requires Rooted(parents, Some(key))
    ensures Rooted(parents, ParentOf(parents, key))
    ensures Height(parents, Some(key)) == 1 + Height(parents, ParentOf(parents, key))
  {
    var n, parent := Height(parents, Some(key)), ParentOf(parents, key);
    assert Climbs(parents, parent, n - 1);
    ClimbsOnce(parents, parent, n - 1, Height(parents, parent));
  }

  /** The collections from a scope up to the root-most. */
  ghost function Ladder(parents: Parents, scope: Scope): seq<Key>
    requires Rooted(parents, scope)
    decreases Height(parents, scope)
  {
    if scope == None then []
    else
      ParentIsLower(parents, scope.value);
      [scope.value] + Ladder(parents, ParentOf(parents, scope.value))
  }

  lemma {:induction false} LadderStep(parents: Parents, scope: Scope, i: nat)
    requires Rooted(parents, scope) && i < |Ladder(parents, scope)|
    ensures var keys := Ladder(parents, scope);
            && Rooted(parents, Some(keys[i]))
            && ParentOf(parents, keys[i]) == if i + 1 < |keys| then Some(keys[i + 1]) else None
    decreases i
  {
    ParentIsLower(parents, scope.value);
    var parent := ParentOf(parents, scope.value);
    if i > 0 {
      LadderStep(parents, parent, i - 1);
    } else if parent.Some? {
      assert Ladder(parents, parent)[0] == parent.value;
    }
  }

  /** `upper` is a proper ancestor collection of the scope. */
  ghost predicate Above(parents: Parents, upper: Key, scope: Scope)
    requires Rooted(parents, scope)
  {
    && scope.Some?
    && (ParentIsLower(parents, scope.value);
        upper in Ladder(parents, ParentOf(parents, scope.value)))
  }

  // ---------------------------------------------------------------------
  // Bindings
  // ---------------------------------------------------------------------

  /** The declarations of each scope. */
  type Lists = map<Scope, seq<Variable>>

  function ListOf(lists: Lists, scope: Scope): seq<Variable> {
    if scope in lists then lists[scope] else []
  }

  type Bindings = map<string, Variable>

  /** The bindings after the declarations are set one after another: the last of a name wins. */
  function Overlay(base: Bindings, variables: seq<Variable>): Bindings {
    if variables == [] then base
    else
      var last := variables[|variables| - 1];
      Overlay(base, variables[..|variables| - 1])[last.name := last]
  }

  predicate Declares(variables: seq<Variable>, name: string) {
    exists v :: v in variables && v.name == name
  }

  lemma DeclaresLast(variables: seq<Variable>, last: Variable, name: string)
    ensures Declares(variables + [last], name) <==> Declares(variables, name) || last.name == name
    ensures forall v :: v in variables ==> v in variables + [last]
  {
    assert last in variables + [last];
    forall v | v in variables
      ensures v in variables + [last]
    {
    }
  }

  lemma {:induction false} OverlayAppends(base: Bindings, first: seq<Variable>, second: seq<Variable>)
    ensures Overlay(base, first + second) == Overlay(Overlay(base, first), second)
  {
    if second == [] {
      assert first + second == first;
    } else {
      var n := |second| - 1;
      assert (first + second)[..|first + second| - 1] == first + second[..n];
      OverlayAppends(base, first, second[..n]);
    }
  }

  /** A name declared in the list is bound by the list, any other name is left alone. */
  lemma {:induction false} OverlayDecides(base: Bindings, variables: seq<Variable>, name: string)
    ensures name in Overlay(base, variables) <==> Declares(variables, name) || name in base
    ensures Declares(variables, name) ==>
              Overlay(base, variables)[name] in variables && Overlay(base, variables)[name].name == name
    ensures !Declares(variables, name) && name in base ==> Overlay(base, variables)[name] == base[name]
  {
    if variables != [] {
      var init, last := variables[..|variables| - 1], variables[|variables| - 1];
      OverlayDecides(base, init, name);
      DeclaresLast(init, last, name);
      assert variables == init + [last];
    }
  }

  /** What the list declares does not depend on the bindings it overlays. */
  lemma {:induction false} OverlayHides(base: Bindings, other: Bindings, variables: seq<Variable>, name: string)
    requires Declares(variables, name)
    ensures name in Overlay(base, variables) && name in Overlay(other, variables)
    ensures Overlay(base, variables)[name] == Overlay(other, variables)[name]
  {
    var init, last := variables[..|variables| - 1], variables[|variables| - 1];
    assert variables == init + [last];
    DeclaresLast(init, last, name);
    if last.name != name {
      OverlayHides(base, other, init, name);
    }
  }

  /** What a request in the scope sees below its own declarations: the nearest scope wins. */
  ghost function BindingsAt(parents: Parents, lists: Lists, scope: Scope): Bindings
    requires Rooted(parents, scope)
    decreases Height(parents, scope)
  {
    Overlay(InheritedAt(parents, lists, scope), ListOf(lists, scope))
  }

  ghost function InheritedAt(parents: Parents, lists: Lists, scope: Scope): Bindings
    requires Rooted(parents, scope)
    decreases Height(parents, scope), 0
  {
    if scope == None then map[]
    else
      ParentIsLower(parents, scope.value);
      BindingsAt(parents, lists, ParentOf(parents, scope.value))
  }

  // ---------------------------------------------------------------------
  // Plans
  // ---------------------------------------------------------------------

  function ListsOf(plan: Plan): Lists {
    CollectionLists(plan.variables, plan.collections)
  }

  function CollectionLists(root: seq<Variable>, collections: seq<Collection>): Lists {
    if collections == [] then map[None := root]
    else
      var last := collections[|collections| - 1];
      CollectionLists(root, collections[..|collections| - 1])[Some(last.key) := last.variables]
  }

  predicate ParentsKnown(collections: seq<Collection>) {
    forall c :: c in collections && c.parent.Some? ==> c.parent.value in ParentsOf(collections)
  }

  predicate Routed(plan: Plan) {
    forall r :: r in plan.requests && r.scope.Some? ==> r.scope.value in ParentsOf(plan.collections)
  }

  /** The collections of a plan that the registry lets through. */
  ghost predicate CollectionsValid(plan: Plan) {
    && KeysUnique(plan.collections)
    && "" !in ParentsOf(plan.collections)
    && ParentsKnown(plan.collections)
    && IsForest(ParentsOf(plan.collections))
    && Routed(plan)
  }

  predicate ItemIdsUnique(requests: seq<Request>) {
    forall i, j :: 0 <= i < j < |requests| ==> requests[i].itemId != requests[j].itemId
  }

  ghost predicate PlanValid(plan: Plan) {
    CollectionsValid(plan) && ItemIdsUnique(plan.requests)
  }

  /** All bindings of a request of the plan, its own declarations nearest. */
  ghost function BindingsOf(plan: Plan, request: Request): Bindings
    requires Rooted(ParentsOf(plan.collections), request.scope)
  {
    Overlay(BindingsAt(ParentsOf(plan.collections), ListsOf(plan), request.scope), request.variables)
  }

  lemma RequestRooted(plan: Plan, request: Request)
    requires CollectionsValid(plan) && request in plan.requests
    ensures Rooted(ParentsOf(plan.collections), request.scope)
  {
    if request.scope == None {
      assert Climbs(ParentsOf(plan.collections), None, 0);
    }
  }
}
