/** Validation of collections, and the walk up from a scope. */
module ImportCollections {
  import opened Wrappers
  import opened ImportPlans

  datatype CollectionError = InvalidKeys | UnknownParent | CollectionCycle | UnknownCollection

  /** From `lower` the parents lead to `upper` in `steps` steps. */
  ghost predicate LeadsTo(parents: Parents, lower: Scope, upper: Scope, steps: nat)
    decreases steps
  {
    if steps == 0 then lower == upper
    else lower.Some? && LeadsTo(parents, ParentOf(parents, lower.value), upper, steps - 1)
  }

  lemma {:induction false} LeadsFurther(parents: Parents, lower: Scope, upper: Key, steps: nat)
    requires LeadsTo(parents, lower, Some(upper), steps)
    ensures LeadsTo(parents, lower, ParentOf(parents, upper), steps + 1)
    decreases steps
  {
    if steps > 0 {
      LeadsFurther(parents, ParentOf(parents, lower.value), upper, steps - 1);
    } else {
      assert LeadsTo(parents, ParentOf(parents, upper), ParentOf(parents, upper), 0);
    }
  }

  lemma {:induction false} LeadsBelow(parents: Parents, lower: Scope, upper: Scope, steps: nat, n: nat)
    requires LeadsTo(parents, lower, upper, steps) && Climbs(parents, lower, n)
    ensures steps <= n && Climbs(parents, upper, n - steps)
    decreases steps
  {
    if steps > 0 {
      LeadsBelow(parents, ParentOf(parents, lower.value), upper, steps - 1, n - 1);
    }
  }

  lemma {:induction false} LeadsToRoot(parents: Parents, lower: Scope, steps: nat)
    requires LeadsTo(parents, lower, None, steps)
    ensures Climbs(parents, lower, steps)
    decreases steps
  {
    if steps > 0 {
      LeadsToRoot(parents, ParentOf(parents, lower.value), steps - 1);
    }
  }

  /** The scopes above the first one, seen while walking up to `current`. */
  ghost predicate Passed(parents: Parents, seen: set<Key>, current: Scope) {
    forall key {:trigger key in seen} :: key in seen ==> PassedKey(parents, key, current)
  }

  ghost predicate PassedKey(parents: Parents, key: Key, current: Scope) {
    exists steps: nat :: steps > 0 && LeadsTo(parents, Some(key), current, steps)
  }

  lemma PassOne(parents: Parents, seen: set<Key>, current: Key)
    requires Passed(parents, seen, Some(current))
    ensures Passed(parents, seen + {current}, ParentOf(parents, current))
  {
    assert LeadsTo(parents, Some(current), Some(current), 0);
    forall key | key in seen + {current}
      ensures PassedKey(parents, key, ParentOf(parents, current))
    {
      var steps: nat :| if key in seen then steps > 0 && LeadsTo(parents, Some(key), Some(current), steps) else steps == 0;
      LeadsFurther(parents, Some(key), current, steps);
    }
  }

  /** A scope that leads back to itself never reaches the root. */
  lemma LoopHasNoRoot(parents: Parents, key: Key)
    requires PassedKey(parents, key, Some(key))
    ensures !Rooted(parents, Some(key))
  {
    var steps: nat :| steps > 0 && LeadsTo(parents, Some(key), Some(key), steps);
    if n: nat :| Climbs(parents, Some(key), n) {
      LeadsBelow(parents, Some(key), Some(key), steps, n);
      ClimbsOnce(parents, Some(key), n, n - steps);
    }
  }

  /** Walks up from a collection until the root or a collection met before. */
  method ClimbsToRoot(parents: Parents, key: Key) returns (rooted: bool)
    requires key in parents
    ensures rooted <==> Rooted(parents, Some(key))
  {
    var ancestors := {key};
    var parentKey := ParentOf(parents, key);
    ghost var steps: nat := 1;
    assert LeadsTo(parents, ParentOf(parents, key), parentKey, 0);
    PassOne(parents, {}, key);
    assert {} + {key} == ancestors;
    while parentKey != None
      invariant Passed(parents, ancestors, parentKey)
      invariant LeadsTo(parents, Some(key), parentKey, steps)
      decreases |parents.Keys - ancestors|, if parentKey.Some? then 1 else 0
    {
      if parentKey.value in ancestors {
        NeverRooted(parents, key, parentKey.value, steps);
        return false;
      }
      PassOne(parents, ancestors, parentKey.value);
      LeadsFurther(parents, Some(key), parentKey.value, steps);
      Shrinks(parents.Keys, ancestors, parentKey.value);
      ancestors := ancestors + {parentKey.value};
      parentKey := ParentOf(parents, parentKey.value);
      steps := steps + 1;
    }
    LeadsToRoot(parents, Some(key), steps);
    rooted := true;
  }

  lemma NeverRooted(parents: Parents, key: Key, again: Key, steps: nat)
    requires LeadsTo(parents, Some(key), Some(again), steps) && PassedKey(parents, again, Some(again))
    ensures !Rooted(parents, Some(key))
  {
    LoopHasNoRoot(parents, again);
    if n: nat :| Climbs(parents, Some(key), n) {
      LeadsBelow(parents, Some(key), Some(again), steps, n);
    }
  }

  lemma Shrinks(all: set<Key>, seen: set<Key>, key: Key)
    requires key !in seen
    ensures |all - (seen + {key})| == |all - seen| - if key in all then 1 else 0
  {
    if key in all {
      assert all - seen == (all - (seen + {key})) + {key};
    } else {
      assert all - seen == all - (seen + {key});
    }
  }

  /** The first `i` collections have known parents and no loop above them. */
  ghost predicate Checked(collections: seq<Collection>, i: nat)
    requires i <= |collections|
  {
    forall j {:trigger collections[j]} :: 0 <= j < i ==> CollectionChecked(collections, collections[j])
  }

  ghost predicate CollectionChecked(collections: seq<Collection>, collection: Collection) {
    var parents := ParentsOf(collections);
    (collection.parent.Some? ==> collection.parent.value in parents) && Rooted(parents, Some(collection.key))
  }

  lemma CheckedAreForest(collections: seq<Collection>)
    ensures Checked(collections, |collections|) <==> ParentsKnown(collections) && IsForest(ParentsOf(collections))
  {
    KeysAreCollections(collections);
    if Checked(collections, |collections|) {
      forall c | c in collections
        ensures CollectionChecked(collections, c)
      {
        var j :| 0 <= j < |collections| && collections[j] == c;
      }
      AllRooted(collections);
    }
  }

  lemma AllRooted(collections: seq<Collection>)
    requires forall c {:trigger CollectionChecked(collections, c)} :: c in collections ==> CollectionChecked(collections, c)
    ensures IsForest(ParentsOf(collections))
  {
    KeysAreCollections(collections);
    forall key | key in ParentsOf(collections)
      ensures Rooted(ParentsOf(collections), Some(key))
    {
      var c :| c in collections && c.key == key;
      assert CollectionChecked(collections, c);
    }
  }

  /**
   Accepts exactly the valid collections: distinct non-empty keys, known parents, no
   cycle, every request in a known collection.
   */
  method ValidateCollections(plan: Plan) returns (failure: Option<CollectionError>)
    ensures failure == None <==> CollectionsValid(plan)
    ensures failure == Some(CollectionCycle) ==> KeysUnique(plan.collections) && !IsForest(ParentsOf(plan.collections))
    ensures failure == Some(UnknownCollection) ==> IsForest(ParentsOf(plan.collections)) && !Routed(plan)
  {
    var collections, parents := plan.collections, ParentsOf(plan.collections);
    if !KeysUnique(collections) || "" in parents {
      return Some(InvalidKeys);
    }
    CheckedAreForest(collections);
    for i := 0 to |collections|
      invariant Checked(collections, i)
    {
      var collection := collections[i];
      assert collection in collections;
      ParentFound(collections, i);
      if collection.parent.Some? && collection.parent.value !in parents {
        return Some(UnknownParent);
      }
      var rooted := ClimbsToRoot(parents, collection.key);
      if !rooted {
        return Some(CollectionCycle);
      }
    }
    failure := if Routed(plan) then None else Some(UnknownCollection);
  }
}
