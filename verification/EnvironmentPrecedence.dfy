/** Precedence among includes. */
module EnvironmentPrecedence {
  // What the profile of an environment takes from its own variables and from the composed
  // profiles of its includes, in the order of their positions.

  import opened Wrappers
  import opened EnvironmentGraph
  import opened EvidenceList
  import opened EnvironmentProfile
  import opened EnvironmentStore
  import opened EnvironmentComposition
  import opened EnvironmentGuarantees

  predicate Composes(g: IncludeGraph, id: EntityId) {
    Expansion(g, id, []).Ok?
  }

  /** The composed profile of an environment. */
  function ProfileOf(g: IncludeGraph, own: Declarations, id: EntityId): Profile
    requires Composes(g, id)
  {
    Composed(own, Expansion(g, id, [])).value
  }

  /** The composed profiles of environments, by position. */
  function ProfilesOf(g: IncludeGraph, own: Declarations, ids: seq<EntityId>): (profiles: seq<Profile>)
    requires forall t :: t in ids ==> Composes(g, t)
    ensures |profiles| == |ids|
  {
    seq(|ids|, i requires 0 <= i < |ids| => ProfileOf(g, own, ids[i]))
  }

  predicate Has(p: Profile, name: string) {
    exists i :: 0 <= i < |p.variables| && p.variables[i].name == name
  }

  /** The profile at position `j` is the last one that has the name. */
  predicate LastHas(profiles: seq<Profile>, name: string, j: nat) {
    j < |profiles| && Has(profiles[j], name) && forall k :: j < k < |profiles| ==> !Has(profiles[k], name)
  }

  /** Both have the name, with one value and from one source. */
  predicate TakenFrom(p: Profile, q: Profile, name: string) {
    && Has(p, name) && Has(q, name)
    && Entry(p.variables, name) == Entry(q.variables, name)
    && name in p.sources && name in q.sources && p.sources[name] == q.sources[name]
  }

  /** The evidence of the profiles one after another. */
  function Evidences(profiles: seq<Profile>): seq<EntityId> {
    if profiles == [] then [] else Evidences(profiles[..|profiles| - 1]) + profiles[|profiles| - 1].evidence
  }

  // ---------------------------------------------------------------------
  // Lists of environments
  // ---------------------------------------------------------------------

  lemma {:induction false} LastDeclarerJoins(own: Declarations, u: seq<EntityId>, w: seq<EntityId>, name: string)
    ensures LastDeclarer(own, u + w, name)
            == if LastDeclarer(own, w, name).Some? then LastDeclarer(own, w, name) else LastDeclarer(own, u, name)
  {
    if w == [] {
      assert u + w == u;
    } else {
      var init, last := w[..|w| - 1], w[|w| - 1];
      LastDeclarerJoins(own, u, init, name);
      assert u + w == u + init + [last] && w == init + [last];
      LastDeclarerSnoc(own, u + init, last, name);
      LastDeclarerSnoc(own, init, last, name);
    }
  }

  lemma {:induction false} LastDeclarerDeclares(own: Declarations, ids: seq<EntityId>, name: string)
    ensures LastDeclarer(own, ids, name).Some? ==> Declares(Own(own, LastDeclarer(own, ids, name).value), name)
  {
    if ids != [] && !Declares(Own(own, ids[|ids| - 1]), name) {
      LastDeclarerDeclares(own, ids[..|ids| - 1], name);
    }
  }

  lemma {:induction false} LastEntryFound(vs: seq<Variable>, name: string)
    ensures LastEntry(vs, name).Some? <==> Declares(vs, name)
    ensures LastEntry(vs, name).Some? ==> LastEntry(vs, name).value in vs && LastEntry(vs, name).value.name == name
  {
    if vs != [] && vs[|vs| - 1].name != name {
      LastEntryFound(vs[..|vs| - 1], name);
    }
  }

  /** The profile of a list has a name exactly when an environment of the list declares it. */
  lemma HasIffDeclared(own: Declarations, word: seq<EntityId>, name: string)
    ensures Has(Applied(own, word), name) <==> LastDeclarer(own, word, name).Some?
    ensures Has(Applied(own, word), name) <==> Entry(Applied(own, word).variables, name).Some?
    ensures Has(Applied(own, word), name) <==> name in Applied(own, word).sources
  {
    LastWriterWins(own, word, name);
    LastDeclarerDeclares(own, word, name);
    if LastDeclarer(own, word, name).Some? {
      LastEntryFound(Own(own, LastDeclarer(own, word, name).value), name);
    }
  }

  /** Lists in which the same environment declares the name last have one value and source for it. */
  lemma SameDeclarerTakes(own: Declarations, u: seq<EntityId>, w: seq<EntityId>, name: string)
    requires LastDeclarer(own, u, name).Some? && LastDeclarer(own, u, name) == LastDeclarer(own, w, name)
    ensures TakenFrom(Applied(own, u), Applied(own, w), name)
  {
    HasIffDeclared(own, u, name);
    HasIffDeclared(own, w, name);
    LastWriterWins(own, u, name);
    LastWriterWins(own, w, name);
  }

  lemma {:induction false} KeepLastMembers(ids: seq<EntityId>)
    ensures forall x :: x in KeepLast(ids) <==> x in ids
    ensures Distinct(KeepLast(ids))
  {
    if ids != [] {
      KeepLastMembers(ids[1..]);
      assert ids == [ids[0]] + ids[1..];
    }
  }

  lemma {:induction false} KeepLastOfDistinct(ids: seq<EntityId>)
    requires Distinct(ids)
    ensures KeepLast(ids) == ids
  {
    if ids != [] {
      assert ids[0] !in ids[1..];
      assert Distinct(ids[1..]) by {
        forall i, j | 0 <= i < j < |ids[1..]|
          ensures ids[1..][i] != ids[1..][j]
        {
          assert ids[i + 1] != ids[j + 1];
        }
      }
      KeepLastOfDistinct(ids[1..]);
    }
  }

  /** Of two joined lists, the second keeps its last uses and the first those that the second does not have. */
  lemma {:induction false} KeepLastJoins(u: seq<EntityId>, w: seq<EntityId>)
    ensures KeepLast(u + w) == Minus(KeepLast(u), Members(w)) + KeepLast(w)
  {
    if u == [] {
      assert u + w == w;
    } else {
      assert (u + w)[1..] == u[1..] + w && u == [u[0]] + u[1..];
      KeepLastJoins(u[1..], w);
      KeepLastMembers(u[1..]);
      if u[0] !in u[1..] && u[0] !in w {
        assert ([u[0]] + KeepLast(u[1..]))[1..] == KeepLast(u[1..]);
      } else if u[0] !in u[1..] {
        assert ([u[0]] + KeepLast(u[1..]))[1..] == KeepLast(u[1..]);
      }
    }
  }

  /** It does not matter whether earlier uses were dropped in the parts before. */
  lemma KeepLastOfParts(u: seq<EntityId>, w: seq<EntityId>)
    ensures KeepLast(KeepLast(u) + KeepLast(w)) == KeepLast(u + w)
  {
    KeepLastMembers(u);
    KeepLastMembers(w);
    KeepLastOfDistinct(KeepLast(u));
    KeepLastOfDistinct(KeepLast(w));
    KeepLastJoins(KeepLast(u), KeepLast(w));
    KeepLastJoins(u, w);
    assert Members(KeepLast(w)) == Members(w);
  }

  /** What a list with only last occurrences kept is: the same entries, each once, in the order of their last occurrences. */
  lemma {:induction false} KeepLastIs(ids: seq<EntityId>, i: nat, j: nat)
    requires i < j < |KeepLast(ids)|
    ensures forall x :: x in KeepLast(ids) <==> x in ids
    ensures exists n {:trigger ids[n]} :: 0 <= n < |ids| && ids[n] == KeepLast(ids)[j] && KeepLast(ids)[i] !in ids[n..]
  {
    KeepLastMembers(ids);
    var rest := ids[1..];
    if ids[0] in rest {
      KeepLastIs(rest, i, j);
      var n :| 0 <= n < |rest| && rest[n] == KeepLast(rest)[j] && KeepLast(rest)[i] !in rest[n..];
      assert ids[n + 1..] == rest[n..] && ids[n + 1] == rest[n];
    } else if i > 0 {
      KeepLastIs(rest, i - 1, j - 1);
      var n :| 0 <= n < |rest| && rest[n] == KeepLast(rest)[j - 1] && KeepLast(rest)[i - 1] !in rest[n..];
      assert ids[n + 1..] == rest[n..] && ids[n + 1] == rest[n];
    } else {
      KeepLastMembers(rest);
      assert KeepLast(ids)[j] == KeepLast(rest)[j - 1] && KeepLast(rest)[j - 1] in rest;
      var n :| 0 <= n < |rest| && rest[n] == KeepLast(ids)[j];
      assert ids[n + 1] == rest[n] && ids[n + 1..] == rest[n..];
    }
  }

  // ---------------------------------------------------------------------
  // The includes in their order
  // ---------------------------------------------------------------------

  /** Profiles in order amount to a list of environments: the same evidence, and each name from the last that has it. */
  ghost predicate AmountTo(own: Declarations, profiles: seq<Profile>, word: seq<EntityId>, name: string) {
    && KeepLast(Evidences(profiles)) == KeepLast(word)
    && (Has(Applied(own, word), name) <==> exists j: nat :: LastHas(profiles, name, j))
    && forall j: nat :: LastHas(profiles, name, j) ==> TakenFrom(Applied(own, word), profiles[j], name)
  }

  lemma AmountToMore(own: Declarations, first: seq<Profile>, before: seq<EntityId>, part: seq<EntityId>, name: string)
    requires AmountTo(own, first, before, name)
    ensures AmountTo(own, first + [Applied(own, part)], before + part, name)
  {
    var q, word := Applied(own, part), before + part;
    EvidenceOfMore(own, first, before, part);
    LastDeclarerJoins(own, before, part, name);
    HasIffDeclared(own, word, name);
    HasIffDeclared(own, before, name);
    HasIffDeclared(own, part, name);
    LastHasMore(first, q, name);
    if Has(q, name) {
      SameDeclarerTakes(own, word, part, name);
      assert (first + [q])[|first|] == q && LastHas(first + [q], name, |first|);
    } else {
      if Has(Applied(own, before), name) {
        SameDeclarerTakes(own, word, before, name);
      }
      forall j: nat | LastHas(first + [q], name, j)
        ensures TakenFrom(Applied(own, word), (first + [q])[j], name)
      {
        assert LastHas(first, name, j) && (first + [q])[j] == first[j];
      }
    }
  }

  lemma LastExpanded(g: IncludeGraph, ids: seq<EntityId>, init: seq<EntityId>, last: EntityId, path: seq<EntityId>, word: seq<EntityId>)
    returns (before: seq<EntityId>, part: seq<EntityId>)
    requires ids != [] && init == ids[..|ids| - 1] && last == ids[|ids| - 1] && Expansions(g, ids, path) == Ok(word)
    ensures Expansions(g, init, path) == Ok(before) && Expansion(g, last, []) == Ok(part) && word == before + part
  {
    before, part := Expansions(g, init, path).value, Expansion(g, last, path).value;
    ShorterPathSameExpansion(g, last, path, []);
  }

  lemma ProfilesOfMore(g: IncludeGraph, own: Declarations, init: seq<EntityId>, last: EntityId, part: seq<EntityId>)
    requires (forall t :: t in init ==> Composes(g, t)) && Expansion(g, last, []) == Ok(part)
    ensures ProfilesOf(g, own, init + [last]) == ProfilesOf(g, own, init) + [Applied(own, part)]
  {
  }

  /** The composed profiles of includes amount to their expansions one after another. */
  lemma {:induction false} IncludedProfiles(
    g: IncludeGraph, own: Declarations, ids: seq<EntityId>, path: seq<EntityId>, word: seq<EntityId>, name: string)
    requires Expansions(g, ids, path) == Ok(word)
    ensures forall t :: t in ids ==> Composes(g, t)
    ensures AmountTo(own, ProfilesOf(g, own, ids), word, name)
    decreases |ids|
  {
    if ids == [] {
      assert ProfilesOf(g, own, ids) == [];
    } else {
      var init, last := ids[..|ids| - 1], ids[|ids| - 1];
      var before, part := LastExpanded(g, ids, init, last, path, word);
      IncludedProfiles(g, own, init, path, before, name);
      assert ids == init + [last];
      ProfilesOfMore(g, own, init, last, part);
      AmountToMore(own, ProfilesOf(g, own, init), before, part, name);
    }
  }

  lemma EvidenceOfMore(own: Declarations, first: seq<Profile>, before: seq<EntityId>, part: seq<EntityId>)
    requires KeepLast(Evidences(first)) == KeepLast(before)
    ensures KeepLast(Evidences(first + [Applied(own, part)])) == KeepLast(before + part)
  {
    var more := first + [Applied(own, part)];
    assert more[..|first|] == first;
    EvidenceKeepsLastUse(own, part);
    KeepLastMembers(part);
    KeepLastOfDistinct(KeepLast(part));
    KeepLastOfParts(Evidences(first), KeepLast(part));
    KeepLastOfParts(before, part);
  }

  lemma LastHasMore(first: seq<Profile>, q: Profile, name: string)
    ensures Has(q, name) ==> forall j: nat :: LastHas(first + [q], name, j) <==> j == |first|
    ensures !Has(q, name) ==> forall j: nat :: LastHas(first + [q], name, j) <==> LastHas(first, name, j)
  {
    var all := first + [q];
    assert all[|first|] == q;
    if Has(q, name) {
      forall j: nat
        ensures LastHas(all, name, j) <==> j == |first|
      {
        assert j < |first| ==> Has(all[|first|], name);
      }
    } else {
      forall j: nat
        ensures LastHas(all, name, j) <==> LastHas(first, name, j)
      {
        assert j < |first| ==> all[j] == first[j];
        assert forall k :: j < k < |first| ==> all[k] == first[k];
      }
    }
  }

  /**
   Own variables first, then the include at the greatest position: a name that the
   environment declares has its own last declaration and itself as source; any other name
   is taken from the last include whose composed profile has it, and is absent if none has.
   */
  lemma LaterIncludeWins(g: IncludeGraph, own: Declarations, id: EntityId, name: string)
    requires Composes(g, id)
    ensures forall t :: t in Targets(g.includes, id) ==> Composes(g, t)
    ensures var p, included := ProfileOf(g, own, id), ProfilesOf(g, own, Targets(g.includes, id));
            if Declares(Own(own, id), name) then
              && Entry(p.variables, name) == LastEntry(Own(own, id), name)
              && name in p.sources && p.sources[name] == id
            else
              && (Has(p, name) <==> exists j: nat :: LastHas(included, name, j))
              && forall j: nat :: LastHas(included, name, j) ==> TakenFrom(p, included[j], name)
  {
    var word := WordOf(g, own, id, name);
    LastDeclarerSnoc(own, word, id, name);
    HasIffDeclared(own, word, name);
    HasIffDeclared(own, word + [id], name);
    LastWriterWins(own, word + [id], name);
    if !Declares(Own(own, id), name) && LastDeclarer(own, word, name).Some? {
      SameDeclarerTakes(own, word + [id], word, name);
    }
  }

  /** The evidence lists the evidences of the includes by position, last uses kept, and then the environment. */
  lemma EvidenceInPositionOrder(g: IncludeGraph, own: Declarations, id: EntityId)
    requires Composes(g, id)
    ensures forall t :: t in Targets(g.includes, id) ==> Composes(g, t)
    ensures ProfileOf(g, own, id).evidence
            == KeepLast(Evidences(ProfilesOf(g, own, Targets(g.includes, id))) + [id])
  {
    var word := WordOf(g, own, id, "");
    var parts := Evidences(ProfilesOf(g, own, Targets(g.includes, id)));
    EvidenceKeepsLastUse(own, word + [id]);
    KeepLastOfParts(parts, [id]);
    KeepLastOfParts(word, [id]);
  }

  /** The expansion of the includes, whose profiles it joins. */
  lemma WordOf(g: IncludeGraph, own: Declarations, id: EntityId, name: string) returns (word: seq<EntityId>)
    requires Composes(g, id)
    ensures forall t :: t in Targets(g.includes, id) ==> Composes(g, t)
    ensures ProfileOf(g, own, id) == Applied(own, word + [id])
    ensures AmountTo(own, ProfilesOf(g, own, Targets(g.includes, id)), word, name)
  {
    assert [] + [id] == [id];
    word := Expansions(g, Targets(g.includes, id), [id]).value;
    IncludedProfiles(g, own, Targets(g.includes, id), [id], word, name);
  }

  /** The inherited profile takes each name from the last include that has it. */
  lemma LaterIncludeWinsInherited(g: IncludeGraph, own: Declarations, id: EntityId, word: seq<EntityId>, name: string)
    requires Expansions(g, Targets(g.includes, id), []) == Ok(word)
    ensures forall t :: t in Targets(g.includes, id) ==> Composes(g, t)
    ensures var p, included := Applied(own, word), ProfilesOf(g, own, Targets(g.includes, id));
            && (Has(p, name) <==> exists j: nat :: LastHas(included, name, j))
            && (forall j: nat :: LastHas(included, name, j) ==> TakenFrom(p, included[j], name))
            && p.evidence == KeepLast(Evidences(included))
  {
    IncludedProfiles(g, own, Targets(g.includes, id), [], word, name);
    EvidenceKeepsLastUse(own, word);
  }
}
