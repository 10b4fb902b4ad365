/** Which secret references an interpolated text carries. */
module InterpolationReferences {
  import opened Sequences
  import opened CodeUnits
  import opened AliasChains
  import opened Interpolation
  import opened InterpolationLaws

  /** The reference of the secret that a placeholder's chain ends in. */
  ghost function SecretOf(segment: Segment, variables: Variables): seq<SecretReference>
    requires Renders(segment, variables)
  {
    if segment.Placeholder? && EndOf(variables, segment.name).kind == KindSecret then
      ResolvesToText(variables, segment.name);
      EndIsComplete(variables, segment.name);
      var v := EndOf(variables, segment.name);
      [SecretReference(v.variableId, v.secretVersion.value)]
    else []
  }

  lemma EndIsComplete(variables: Variables, name: Name)
    requires HasText(variables, name) && EndOf(variables, name).kind == KindSecret
    ensures EndOf(variables, name).secretVersion.Some?
  {
    var n: nat :| EndsInValue(variables, After(variables, name, n)) && EndOf(variables, name) == variables[After(variables, name, n).value];
  }

  /** The secrets that the placeholders stand for, one after another. */
  ghost function SecretsIn(segments: seq<Segment>, variables: Variables): seq<SecretReference>
    requires AllRender(segments, variables)
  {
    if segments == [] then [] else SecretOf(segments[0], variables) + SecretsIn(segments[1..], variables)
  }

  function IdOf(references: seq<SecretReference>): (ids: seq<string>)
    ensures |ids| == |references|
  {
    seq(|references|, i requires 0 <= i < |references| => references[i].variableId)
  }

  /** The last use of its variable. */
  predicate LastUse(uses: seq<SecretReference>, r: SecretReference, k: nat) {
    k < |uses| && uses[k] == r && forall j :: k < j < |uses| ==> uses[j].variableId != r.variableId
  }

  ghost predicate UsedLast(uses: seq<SecretReference>, r: SecretReference) {
    exists k: nat :: LastUse(uses, r, k)
  }

  /** One reference for every variable used, in the order of first uses, each as it was used last. */
  ghost predicate AreReferences(references: seq<SecretReference>, uses: seq<SecretReference>) {
    && InFirstSeenOrder(IdOf(references), IdOf(uses))
    && forall r :: r in references ==> UsedLast(uses, r)
  }

  lemma {:induction false} PutInPlace(references: seq<SecretReference>, x: SecretReference, i: nat)
    requires i < |references| && references[i].variableId == x.variableId
    requires forall j :: 0 <= j < i ==> references[j].variableId != x.variableId
    ensures PutReference(references, x) == references[i := x]
  {
    if i > 0 {
      PutInPlace(references[1..], x, i - 1);
    }
  }

  lemma {:induction false} PutAtEnd(references: seq<SecretReference>, x: SecretReference)
    requires x.variableId !in IdOf(references)
    ensures PutReference(references, x) == references + [x]
  {
    if references != [] {
      assert IdOf(references)[0] == references[0].variableId;
      forall i | 0 <= i < |references[1..]|
        ensures IdOf(references[1..])[i] == IdOf(references)[i + 1]
      {
      }
      PutAtEnd(references[1..], x);
    }
  }

  lemma UseStays(uses: seq<SecretReference>, x: SecretReference, r: SecretReference)
    requires r.variableId != x.variableId && UsedLast(uses, r)
    ensures UsedLast(uses + [x], r)
  {
    var k: nat :| LastUse(uses, r, k);
    assert LastUse(uses + [x], r, k);
  }

  /** Where the reference of a variable is put. */
  lemma PutDecides(references: seq<SecretReference>, x: SecretReference) returns (i: nat)
    ensures i <= |references|
    ensures x.variableId in IdOf(references) <==> i < |references|
    ensures i < |references| ==> references[i].variableId == x.variableId && PutReference(references, x) == references[i := x]
    ensures i == |references| ==> PutReference(references, x) == references + [x]
  {
    i := 0;
    while i < |references| && references[i].variableId != x.variableId
      invariant i <= |references|
      invariant forall j :: 0 <= j < i ==> references[j].variableId != x.variableId
    {
      i := i + 1;
    }
    if i < |references| {
      assert IdOf(references)[i] == x.variableId;
      PutInPlace(references, x, i);
    } else {
      PutAtEnd(references, x);
    }
  }

  lemma PutKeeps(references: seq<SecretReference>, uses: seq<SecretReference>, x: SecretReference)
    requires AreReferences(references, uses)
    ensures AreReferences(PutReference(references, x), uses + [x])
  {
    var put := PutReference(references, x);
    var i := PutDecides(references, x);
    assert IdOf(uses + [x]) == IdOf(uses) + [x.variableId];
    assert IdOf(put) == if x.variableId in IdOf(references) then IdOf(references) else IdOf(references) + [x.variableId];
    FirstSeenNext(IdOf(references), IdOf(uses), x.variableId, IdOf(put), IdOf(uses + [x]));
    PutIsLast(references, uses, x, i, put);
  }

  lemma PutIsLast(references: seq<SecretReference>, uses: seq<SecretReference>, x: SecretReference, i: nat, put: seq<SecretReference>)
    requires AreReferences(references, uses) && i <= |references|
    requires if i < |references| then references[i].variableId == x.variableId && put == references[i := x] else put == references + [x]
    requires x.variableId in IdOf(references) <==> i < |references|
    ensures forall r :: r in put ==> UsedLast(uses + [x], r)
  {
    forall r | r in put
      ensures UsedLast(uses + [x], r)
    {
      if r == x {
        assert LastUse(uses + [x], x, |uses|);
        assert UsedLast(uses + [x], r);
      } else {
        var p :| 0 <= p < |references| && references[p] == r && p != i;
        IdsDiffer(references, uses, x, i, p);
        UseStays(uses, x, r);
      }
    }
  }

  lemma IdsDiffer(references: seq<SecretReference>, uses: seq<SecretReference>, x: SecretReference, i: nat, p: nat)
    requires InFirstSeenOrder(IdOf(references), IdOf(uses)) && i <= |references| && p < |references| && p != i
    requires i < |references| ==> references[i].variableId == x.variableId
    requires x.variableId in IdOf(references) <==> i < |references|
    ensures references[p].variableId != x.variableId
  {
    var ids := IdOf(references);
    assert ids[p] == references[p].variableId;
    if i < |references| {
      assert SeenBefore(IdOf(uses), ids[if p < i then p else i], ids[if p < i then i else p]);
    }
  }

  /** Rendering one segment puts the reference of its secret, if it has one. */
  lemma AddPuts(done: Interpolated, segment: Segment, uses: seq<SecretReference>, variables: Variables)
    requires Renders(segment, variables) && AreReferences(done.references, uses)
    ensures Add(done, segment, variables).Ok?
    ensures AreReferences(Add(done, segment, variables).value.references, uses + SecretOf(segment, variables))
  {
    AddIs(done, segment, variables);
    var added := SecretOf(segment, variables);
    if segment.Placeholder? {
      ResolvesToText(variables, segment.name);
    }
    if added == [] {
      assert uses + [] == uses;
    } else {
      assert added[..0] == [] && PutAll(done.references, []) == done.references;
      assert PutAll(done.references, added) == PutReference(done.references, added[0]);
      PutKeeps(done.references, uses, added[0]);
    }
  }

  lemma {:induction false} RenderedPuts(done: Interpolated, segments: seq<Segment>, uses: seq<SecretReference>, variables: Variables)
    requires AllRender(segments, variables) && AreReferences(done.references, uses)
    ensures RenderedOnto(done, segments, variables).Ok?
    ensures AreReferences(RenderedOnto(done, segments, variables).value.references, uses + SecretsIn(segments, variables))
    decreases |segments|
  {
    if segments == [] {
      assert uses + [] == uses;
    } else {
      assert segments[0] in segments && forall s :: s in segments[1..] ==> s in segments;
      AddPuts(done, segments[0], uses, variables);
      var next := Add(done, segments[0], variables).value;
      RenderedPuts(next, segments[1..], uses + SecretOf(segments[0], variables), variables);
      AppendAssociates(uses, SecretOf(segments[0], variables), SecretsIn(segments[1..], variables));
    }
  }

  /**
   The references name exactly the secrets at the ends of the placeholders' chains: each
   variable once, in the order of first uses, with the version used last.
   */
  lemma ReferencesAreSecrets(source: Text, variables: Variables)
    requires Rendered(source, variables).Ok?
    ensures AllRender(Segments(source, 0), variables)
    ensures AreReferences(Rendered(source, variables).value.references, SecretsIn(Segments(source, 0), variables))
  {
    var segments := Segments(source, 0);
    InterpolatesIff(source, variables);
    RenderedPuts(NOTHING, segments, [], variables);
    assert [] + SecretsIn(segments, variables) == SecretsIn(segments, variables);
  }
}
