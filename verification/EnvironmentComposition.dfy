/** Memoised composition equal to the plain expansion. */
module EnvironmentComposition {
  // A memoised depth-first search, proved equal to expanding the include graph without a cache,
  // errors included.

  import opened Wrappers
  import opened EnvironmentGraph
  import opened EnvironmentStore
  import opened EvidenceList
  import opened EnvironmentProfile

  datatype CompositionError = CycleFound(cycle: seq<EntityId>) | Missing(id: EntityId)

  // ---------------------------------------------------------------------
  // The plain expansion
  // ---------------------------------------------------------------------

  /**
   The post-order expansion of one environment: every included environment as often as
   a path leads to it, includes before includers. `path` is the way taken so far.
   */
  function Expansion(g: IncludeGraph, id: EntityId, path: seq<EntityId>): Result<seq<EntityId>, CompositionError>
    decreases |g.environments - Members(path)|, 0
  {
    var start := IndexOf(path, id);
    if start >= 0 then Err(CycleFound(path[start..] + [id]))
    else if id !in g.environments then Err(Missing(id))
    else
      assert g.environments - Members(path + [id]) < g.environments - Members(path) by {
        assert id in g.environments - Members(path);
        assert id in Members(path + [id]);
      }
      SmallerSet(g.environments - Members(path + [id]), g.environments - Members(path));
      match Expansions(g, Targets(g.includes, id), path + [id])
      case Err(e) => Err(e)
      case Ok(word) => Ok(word + [id])
  }

  function Expansions(g: IncludeGraph, ids: seq<EntityId>, path: seq<EntityId>): Result<seq<EntityId>, CompositionError>
    decreases |g.environments - Members(path)|, |ids| + 1
  {
    if ids == [] then Ok([])
    else
      match Expansions(g, ids[..|ids| - 1], path)
      case Err(e) => Err(e)
      case Ok(before) =>
        match Expansion(g, ids[|ids| - 1], path)
        case Err(e) => Err(e)
        case Ok(last) => Ok(before + last)
  }

  lemma SmallerSet<T>(a: set<T>, b: set<T>)
    requires a < b
    ensures |a| < |b|
  {
    assert a + (b - a) == b;
  }

  /** The profile of the expansion, or its error. */
  function Composed(own: Declarations, expansion: Result<seq<EntityId>, CompositionError>): Result<Profile, CompositionError> {
    match expansion
    case Err(e) => Err(e)
    case Ok(word) => Ok(Applied(own, word))
  }

  // ---------------------------------------------------------------------
  // What the path may contain does not matter for settled environments
  // ---------------------------------------------------------------------

  /** Existing environments whose includes are all settled, at lower ranks. */
  ghost predicate Settled(g: IncludeGraph, rank: map<EntityId, nat>) {
    Ranked(g.includes, rank) && forall n :: n in rank ==> n in g.environments
  }

  /** No settled environment on the path ranks as low as `id`. */
  ghost predicate Above(rank: map<EntityId, nat>, path: seq<EntityId>, limit: nat) {
    forall m :: m in path && m in rank ==> rank[m] > limit
  }

  lemma {:induction false} SettledExpansion(g: IncludeGraph, rank: map<EntityId, nat>, id: EntityId, p: seq<EntityId>, q: seq<EntityId>)
    requires Settled(g, rank) && id in rank && Above(rank, p, rank[id]) && Above(rank, q, rank[id])
    ensures Expansion(g, id, p).Ok? && Expansion(g, id, p) == Expansion(g, id, q)
    decreases rank[id]
  {
    assert id !in p && id !in q;
    assert Lowers(g.includes, rank, id);
    SettledExpansions(g, rank, Targets(g.includes, id), rank[id], p + [id], q + [id]);
  }

  lemma {:induction false} SettledExpansions(
    g: IncludeGraph, rank: map<EntityId, nat>, ids: seq<EntityId>, limit: nat, p: seq<EntityId>, q: seq<EntityId>)
    requires Settled(g, rank) && forall t :: t in ids ==> t in rank && rank[t] < limit
    requires forall m :: (m in p || m in q) && m in rank ==> rank[m] >= limit
    ensures Expansions(g, ids, p).Ok? && Expansions(g, ids, p) == Expansions(g, ids, q)
    decreases limit, |ids|
  {
    if ids != [] {
      var last := ids[|ids| - 1];
      SettledExpansions(g, rank, ids[..|ids| - 1], limit, p, q);
      assert rank[last] < limit;
      SettledExpansion(g, rank, last, p, q);
    }
  }

  // ---------------------------------------------------------------------
  // The profile under construction
  // ---------------------------------------------------------------------

  /** The variable map, source map and evidence list that one node fills in place. */
  class ProfileBuilder {
    var variables: seq<Variable>
    var sources: map<string, EntityId>
    var evidence: seq<EntityId>

    constructor ()
      ensures Profile() == EMPTY
    {
      variables, sources, evidence := [], map[], [];
    }

    function Profile(): EnvironmentProfile.Profile
      reads this
    {
      EnvironmentProfile.Profile(variables, sources, evidence)
    }

    /** Every incoming environment stands last in the end, in the given order; the others keep theirs. */
    method MergeEvidence(incoming: seq<EntityId>)
      requires Distinct(evidence)
      modifies this`evidence
      ensures evidence == MoveAllToEnd(old(evidence), incoming) && Distinct(evidence)
    {
      for k := 0 to |incoming|
        invariant evidence == MoveAllToEnd(old(evidence), incoming[..k]) && Distinct(evidence)
      {
        var source := incoming[k];
        assert incoming[..k + 1][..k] == incoming[..k];
        MoveToEndKeepsDistinct(evidence, source);
        var existing := IndexOf(evidence, source);
        RemoveFirstIsMinus(evidence, source);
        if existing >= 0 {
          evidence := evidence[..existing] + evidence[existing + 1..];
        }
        evidence := evidence + [source];
      }
      assert incoming[..|incoming|] == incoming;
    }

    method MergeComposedProfile(profile: EnvironmentProfile.Profile)
      requires Proper(Profile()) && Proper(profile)
      modifies this
      ensures Profile() == Merged(old(Profile()), profile)
    {
      for k := 0 to |profile.variables|
        invariant variables == PutAll(old(variables), profile.variables[..k])
        invariant sources == TakenOver(old(sources), profile.variables[..k], profile.sources)
        invariant evidence == old(evidence)
      {
        var variable := profile.variables[k];
        PrefixGrows(profile.variables, k);
        TakenOverGrows(old(sources), profile.variables, profile.sources, k);
        variables := Put(variables, variable);
        if variable.name in profile.sources {
          sources := sources[variable.name := profile.sources[variable.name]];
        }
      }
      assert profile.variables[..|profile.variables|] == profile.variables;
      MergeEvidence(profile.evidence);
    }

    /** Lets the environment's own variables win and records it as the last evidence. */
    method AddOwn(own: Declarations, id: EntityId)
      requires Proper(Profile())
      modifies this
      ensures Profile() == Overlaid(old(Profile()), own, id)
    {
      var loaded := Own(own, id);
      for k := 0 to |loaded|
        invariant variables == PutAll(old(variables), loaded[..k])
        invariant sources == Sourced(old(sources), loaded[..k], id)
        invariant evidence == old(evidence)
      {
        PrefixGrows(loaded, k);
        SourcedGrows(old(sources), loaded, id, k);
        variables := Put(variables, loaded[k]);
        sources := sources[loaded[k].name := id];
      }
      assert loaded[..|loaded|] == loaded;
      MergeEvidence([id]);
      assert [id][..0] == [];
      assert MoveAllToEnd(old(evidence), []) == old(evidence);
    }
  }

  lemma PrefixGrows(vs: seq<Variable>, k: nat)
    requires k < |vs|
    ensures vs[..k + 1][..k] == vs[..k] && vs[..k + 1][k] == vs[k]
  {
  }

  lemma NamesGrow(vs: seq<Variable>, k: nat)
    requires k < |vs|
    ensures Names(vs[..k + 1]) == Names(vs[..k]) + {vs[k].name}
  {
    assert vs[..k + 1][k] == vs[k];
    assert forall i :: 0 <= i < k ==> vs[..k + 1][i] == vs[..k][i];
  }

  lemma TakenOverGrows(sources: map<string, EntityId>, vs: seq<Variable>, from: map<string, EntityId>, k: nat)
    requires k < |vs|
    ensures var before := TakenOver(sources, vs[..k], from);
            TakenOver(sources, vs[..k + 1], from) == if vs[k].name in from then before[vs[k].name := from[vs[k].name]] else before
  {
    NamesGrow(vs, k);
    OneMoreName(sources, Names(vs[..k]), vs[k].name, from);
  }

  lemma OneMoreName(sources: map<string, EntityId>, names: set<string>, name: string, from: map<string, EntityId>)
    ensures var before := sources + map n | n in names && n in from :: from[n];
            (sources + map n | n in names + {name} && n in from :: from[n])
            == if name in from then before[name := from[name]] else before
  {
  }

  lemma SourcedGrows(sources: map<string, EntityId>, vs: seq<Variable>, source: EntityId, k: nat)
    requires k < |vs|
    ensures Sourced(sources, vs[..k + 1], source) == Sourced(sources, vs[..k], source)[vs[k].name := source]
  {
    NamesGrow(vs, k);
  }

  /** In a list without repetitions, cutting out the first occurrence removes the entry. */
  lemma {:induction false} RemoveFirstIsMinus(ids: seq<EntityId>, id: EntityId)
    requires Distinct(ids)
    ensures var i := IndexOf(ids, id);
            Minus(ids, {id}) == if i >= 0 then ids[..i] + ids[i + 1..] else ids
  {
    var i := IndexOf(ids, id);
    if i >= 0 {
      assert ids == ids[..i] + [id] + ids[i + 1..];
      MinusConcat(ids[..i] + [id], ids[i + 1..], {id});
      MinusSnoc(ids[..i], id, {id});
      MinusDisjoint(ids[..i], {id});
      MinusDisjoint(ids[i + 1..], {id});
    } else {
      MinusDisjoint(ids, {id});
    }
  }

  // ---------------------------------------------------------------------
  // The memoised search
  // ---------------------------------------------------------------------

  ghost predicate CachedRight(g: IncludeGraph, own: Declarations, cache: map<EntityId, Profile>, n: EntityId)
    requires n in cache
  {
    Answers(g, own, n, [], cache[n])
  }

  ghost predicate Answers(g: IncludeGraph, own: Declarations, n: EntityId, path: seq<EntityId>, p: Profile) {
    Composed(own, Expansion(g, n, path)) == Ok(p)
  }

  lemma AnswersFromAnyPath(
    g: IncludeGraph, own: Declarations, rank: map<EntityId, nat>, id: EntityId, path: seq<EntityId>, p: Profile)
    requires Settled(g, rank) && id in rank && Above(rank, path, rank[id])
    ensures Answers(g, own, id, path, p) <==> Answers(g, own, id, [], p)
  {
    SettledExpansion(g, rank, id, path, []);
  }

  /** The cache: settled environments with the profiles the plain expansion gives them. */
  ghost predicate Memo(g: IncludeGraph, own: Declarations, cache: map<EntityId, Profile>, rank: map<EntityId, nat>) {
    && rank.Keys == cache.Keys
    && Settled(g, rank)
    && (forall n :: n in rank ==> rank[n] < |cache|)
    && (forall n {:trigger CachedRight(g, own, cache, n)} :: n in cache ==> CachedRight(g, own, cache, n))
  }

  /** Every path outside the cache leads a cached environment to its cached profile. */
  lemma MemoAnswers(
    g: IncludeGraph, own: Declarations, cache: map<EntityId, Profile>, rank: map<EntityId, nat>, id: EntityId, path: seq<EntityId>)
    requires Memo(g, own, cache, rank) && id in cache && forall n :: n in path ==> n !in cache
    ensures Answers(g, own, id, path, cache[id])
  {
    assert CachedRight(g, own, cache, id);
    AnswersFromAnyPath(g, own, rank, id, path, cache[id]);
  }

  lemma MemoGrows(
    g: IncludeGraph, own: Declarations, cache: map<EntityId, Profile>, rank: map<EntityId, nat>,
    id: EntityId, path: seq<EntityId>, result: Profile)
    requires Memo(g, own, cache, rank) && id in g.environments && id !in cache && id !in path
    requires forall n :: n in path ==> n !in cache
    requires AllIn(Targets(g.includes, id), cache.Keys)
    requires Answers(g, own, id, path, result)
    ensures Memo(g, own, cache[id := result], rank[id := |cache|])
  {
    RankedGrows(g.includes, rank, id, |cache|);
    AnswersFromAnyPath(g, own, rank[id := |cache|], id, path, result);
    var cache' := cache[id := result];
    assert |cache'| == |cache| + 1;
    forall n | n in cache'
      ensures CachedRight(g, own, cache', n)
    {
      assert n != id ==> CachedRight(g, own, cache, n);
    }
  }

  class Composer {
    const g: IncludeGraph
    const own: Declarations
    var cache: map<EntityId, Profile>
    var stack: seq<EntityId>
    ghost var rank: map<EntityId, nat>

    constructor (g: IncludeGraph, own: Declarations)
      ensures this.g == g && this.own == own && stack == [] && Valid()
    {
      this.g, this.own := g, own;
      cache, stack, rank := map[], [], map[];
    }

    /** No cached environment is still being resolved. */
    ghost predicate Valid()
      reads this
    {
      Memo(g, own, cache, rank) && forall n :: n in stack ==> n !in cache
    }

    /** Resolves one environment once; the answer is that of the plain expansion from the same path. */
    method Resolve(current: EntityId) returns (r: Result<Profile, CompositionError>)
      requires Valid()
      modifies this
      ensures Valid() && stack == old(stack) && old(cache.Keys) <= cache.Keys
      ensures r == Composed(own, Expansion(g, current, old(stack)))
      ensures r.Ok? ==> current in cache
      decreases |g.environments - Members(stack)|, 1
    {
      if current in cache {
        MemoAnswers(g, own, cache, rank, current, stack);
        return Ok(cache[current]);
      }
      var cycleStart := IndexOf(stack, current);
      if cycleStart >= 0 {
        return Err(CycleFound(stack[cycleStart..] + [current]));
      }
      if current !in g.environments {
        return Err(Missing(current));
      }
      r := ResolveFresh(current);
    }

    /** The first visit to an environment: its includes, then its own variables on top. */
    method ResolveFresh(current: EntityId) returns (r: Result<Profile, CompositionError>)
      requires Valid() && current !in cache && current !in stack && current in g.environments
      modifies this
      ensures Valid() && stack == old(stack) && old(cache.Keys) <= cache.Keys
      ensures r == Composed(own, Expansion(g, current, old(stack)))
      ensures r.Ok? ==> current in cache
      decreases |g.environments - Members(stack)|, 0
    {
      ghost var path := stack;
      PathGrows(g, path, current);
      stack := stack + [current];
      ghost var word;
      r, word := BuildProfile(current);
      assert current in stack && forall n :: n in path ==> n in stack;
      stack := stack[..|stack| - 1];
      assert stack == path;
      if r.Ok? {
        FinishesExpansion(g, own, current, path, word);
        Remember(current, r.value);
      }
    }

    /** Merges the includes of the environment on top of the stack, then its own variables. */
    method BuildProfile(current: EntityId) returns (r: Result<Profile, CompositionError>, ghost word: seq<EntityId>)
      requires Valid()
      modifies this
      ensures Valid() && stack == old(stack) && old(cache.Keys) <= cache.Keys
      ensures var e := Expansions(g, Targets(g.includes, current), stack);
              match e
              case Err(error) => r == Err(error)
              case Ok(w) => w == word && r == Ok(Overlaid(Applied(own, word), own, current))
                            && AllIn(Targets(g.includes, current), cache.Keys)
      decreases |g.environments - Members(stack)|, 3
    {
      var builder := new ProfileBuilder();
      r, word := MergeIncluded(Targets(g.includes, current), builder);
      if r.Ok? {
        AppliedIsProper(own, word);
        builder.AddOwn(own, current);
        r := Ok(builder.Profile());
      }
    }

    method Remember(current: EntityId, result: Profile)
      requires Valid() && current in g.environments && current !in cache && current !in stack
      requires AllIn(Targets(g.includes, current), cache.Keys)
      requires Answers(g, own, current, stack, result)
      modifies this`cache, this`rank
      ensures Valid() && cache == old(cache)[current := result]
    {
      MemoGrows(g, own, cache, rank, current, stack, result);
      rank := rank[current := |cache|];
      cache := cache[current := result];
    }

    /** Resolves the included environments in turn and merges each into the builder. */
    method MergeIncluded(included: seq<EntityId>, builder: ProfileBuilder)
      returns (r: Result<Profile, CompositionError>, ghost word: seq<EntityId>)
      requires Valid() && builder.Profile() == EMPTY
      modifies this, builder
      ensures Valid() && stack == old(stack) && old(cache.Keys) <= cache.Keys
      ensures r == Composed(own, Expansions(g, included, stack))
      ensures r.Ok? ==> Expansions(g, included, stack) == Ok(word) && builder.Profile() == r.value && AllIn(included, cache.Keys)
      decreases |g.environments - Members(stack)|, 2
    {
      word := [];
      for i := 0 to |included|
        invariant Valid() && stack == old(stack) && old(cache.Keys) <= cache.Keys
        invariant Expansions(g, included[..i], stack) == Ok(word)
        invariant builder.Profile() == Applied(own, word)
        invariant AllIn(included[..i], cache.Keys)
      {
        assert included[..i + 1][..i] == included[..i] && included[..i + 1][i] == included[i];
        var child := Resolve(included[i]);
        if child.Err? {
          ExpansionsStopAtError(g, included, i, stack);
          return child, word;
        }
        ghost var more := Expansion(g, included[i], stack).value;
        AppliedIsProper(own, word);
        AppliedIsProper(own, more);
        MergeIsConcatenation(own, word, more);
        builder.MergeComposedProfile(child.value);
        word := word + more;
      }
      assert included[..|included|] == included;
      r := Ok(builder.Profile());
    }
  }

  lemma FinishesExpansion(g: IncludeGraph, own: Declarations, id: EntityId, path: seq<EntityId>, word: seq<EntityId>)
    requires id in g.environments && id !in path
    requires Expansions(g, Targets(g.includes, id), path + [id]) == Ok(word)
    ensures Composed(own, Expansion(g, id, path)) == Ok(Overlaid(Applied(own, word), own, id))
  {
    assert (word + [id])[..|word|] == word;
  }

  lemma PathGrows(g: IncludeGraph, path: seq<EntityId>, id: EntityId)
    requires id in g.environments && id !in path
    ensures |g.environments - Members(path + [id])| < |g.environments - Members(path)|
  {
    assert id in Members(path + [id]);
    SmallerSet(g.environments - Members(path + [id]), g.environments - Members(path));
  }

  lemma {:induction false} ExpansionsStopAtError(g: IncludeGraph, ids: seq<EntityId>, i: nat, path: seq<EntityId>)
    requires i < |ids| && Expansions(g, ids[..i], path).Ok? && Expansion(g, ids[i], path).Err?
    ensures Expansions(g, ids, path) == Err(Expansion(g, ids[i], path).error)
    decreases |ids|
  {
    if i < |ids| - 1 {
      assert ids[..|ids| - 1][..i] == ids[..i];
      ExpansionsStopAtError(g, ids[..|ids| - 1], i, path);
    }
  }

  /** The effective profile of an environment: exactly the plain composition of its include graph. */
  method ComposeEnvironment(g: IncludeGraph, own: Declarations, id: EntityId) returns (r: Result<Profile, CompositionError>)
    ensures r == Composed(own, Expansion(g, id, []))
  {
    var composer := new Composer(g, own);
    r := composer.Resolve(id);
  }

  /** The profile an environment inherits from its includes, without its own variables. */
  method ComposeInherited(g: IncludeGraph, own: Declarations, id: EntityId) returns (r: Result<Profile, CompositionError>)
    ensures r == if id in g.environments then Composed(own, Expansions(g, Targets(g.includes, id), [])) else Err(Missing(id))
  {
    if id !in g.environments {
      return Err(Missing(id));
    }
    var composer := new Composer(g, own);
    var builder := new ProfileBuilder();
    ghost var word;
    r, word := composer.MergeIncluded(Targets(g.includes, id), builder);
  }
}
