/** Composed profiles: variables, sources and evidence. */
module EnvironmentProfile {
  // Variables stand in insertion order, each with the environment it comes from; the evidence
  // lists environments, and a repeated one moves to its last use.

  import opened Wrappers
  import opened EnvironmentGraph
  import opened EvidenceList

  datatype Variable = Variable(name: string, content: string)

  /** `variables` is the content of an insertion-ordered map: one entry per name. */
  datatype Profile = Profile(variables: seq<Variable>, sources: map<string, EntityId>, evidence: seq<EntityId>)

  const EMPTY := Profile([], map[], [])

  /** The position of a name, or the length when it is absent. */
  function Position(vs: seq<Variable>, name: string): (i: nat)
    ensures i <= |vs|
    ensures i < |vs| ==> vs[i].name == name
    ensures forall k :: 0 <= k < i ==> vs[k].name != name
  {
    if vs == [] || vs[0].name == name then 0 else 1 + Position(vs[1..], name)
  }

  predicate Declares(vs: seq<Variable>, name: string) {
    exists i :: 0 <= i < |vs| && vs[i].name == name
  }

  function Names(vs: seq<Variable>): set<string> {
    set i | 0 <= i < |vs| :: vs[i].name
  }

  /** Setting a name keeps its place if it has one and goes last otherwise. */
  function Put(vs: seq<Variable>, v: Variable): seq<Variable> {
    var i := Position(vs, v.name);
    if i < |vs| then vs[i := v] else vs + [v]
  }

  function PutAll(vs: seq<Variable>, more: seq<Variable>): seq<Variable> {
    if more == [] then vs else Put(PutAll(vs, more[..|more| - 1]), more[|more| - 1])
  }

  /** Every given name is now supplied by `source`. */
  function Sourced(sources: map<string, EntityId>, vs: seq<Variable>, source: EntityId): map<string, EntityId> {
    sources + map name | name in Names(vs) :: source
  }

  /** Every given name that `from` has a source for now has that source. */
  function TakenOver(sources: map<string, EntityId>, vs: seq<Variable>, from: map<string, EntityId>): map<string, EntityId> {
    sources + map name | name in Names(vs) && name in from :: from[name]
  }

  // ---------------------------------------------------------------------
  // The simple form: environments applied one after the other
  // ---------------------------------------------------------------------

  /** The declared variables of each environment; one without any may be missing. */
  type Declarations = map<EntityId, seq<Variable>>

  function Own(own: Declarations, id: EntityId): seq<Variable> {
    if id in own then own[id] else []
  }

  /** Lets one environment's own variables win over a profile. */
  function Overlaid(p: Profile, own: Declarations, id: EntityId): Profile {
    Profile(PutAll(p.variables, Own(own, id)), Sourced(p.sources, Own(own, id), id), MoveToEnd(p.evidence, id))
  }

  /** The profile of a list of environments applied in order, repetitions included. */
  function Applied(own: Declarations, word: seq<EntityId>): Profile {
    if word == [] then EMPTY else Overlaid(Applied(own, word[..|word| - 1]), own, word[|word| - 1])
  }

  /** What merging an already composed profile does. */
  function Merged(p: Profile, q: Profile): Profile {
    Profile(
      PutAll(p.variables, q.variables),
      TakenOver(p.sources, q.variables, q.sources),
      MoveAllToEnd(p.evidence, q.evidence))
  }

  // ---------------------------------------------------------------------
  // Merging a composed profile equals applying its environments in order
  // ---------------------------------------------------------------------

  ghost predicate OneEntryPerName(vs: seq<Variable>) {
    forall i, j :: 0 <= i < j < |vs| ==> vs[i].name != vs[j].name
  }

  lemma PutKeepsOneEntry(vs: seq<Variable>, v: Variable)
    requires OneEntryPerName(vs)
    ensures OneEntryPerName(Put(vs, v)) && Names(Put(vs, v)) == Names(vs) + {v.name}
  {
    var i := Position(vs, v.name);
    var r := Put(vs, v);
    if i < |vs| {
      assert forall k :: 0 <= k < |r| ==> r[k].name == vs[k].name;
    } else {
      assert r[|vs|] == v;
      assert forall k :: 0 <= k < |vs| ==> r[k] == vs[k];
    }
  }

  lemma {:induction false} PutAllKeepsOneEntry(vs: seq<Variable>, more: seq<Variable>)
    requires OneEntryPerName(vs)
    ensures OneEntryPerName(PutAll(vs, more)) && Names(PutAll(vs, more)) == Names(vs) + Names(more)
  {
    if more != [] {
      var init, last := more[..|more| - 1], more[|more| - 1];
      PutAllKeepsOneEntry(vs, init);
      PutKeepsOneEntry(PutAll(vs, init), last);
      assert Names(more) == Names(init) + {last.name} by {
        assert more[|more| - 1] == last;
        assert forall k :: 0 <= k < |init| ==> more[k] == init[k];
      }
    }
  }

  lemma PositionIs(vs: seq<Variable>, i: nat, name: string)
    requires OneEntryPerName(vs) && i < |vs| && vs[i].name == name
    ensures Position(vs, name) == i
  {
  }

  lemma PutPutSameName(vs: seq<Variable>, x: Variable, v: Variable)
    requires OneEntryPerName(vs) && x.name == v.name
    ensures Put(Put(vs, x), v) == Put(vs, v)
  {
    PutKeepsOneEntry(vs, x);
    PositionIs(Put(vs, x), Position(vs, x.name), v.name);
  }

  lemma PutsOfKnownNameCommute(vs: seq<Variable>, x: Variable, v: Variable)
    requires OneEntryPerName(vs) && v.name in Names(vs) && x.name != v.name
    ensures Put(Put(vs, x), v) == Put(Put(vs, v), x)
  {
    var i := Position(vs, v.name);
    var j := Position(vs, x.name);
    assert i < |vs|;
    PutKeepsOneEntry(vs, x);
    PutKeepsOneEntry(vs, v);
    PositionIs(Put(vs, x), i, v.name);
    if j < |vs| {
      PositionIs(Put(vs, v), j, x.name);
    } else {
      assert x.name !in Names(Put(vs, v)) by {
        assert forall k :: 0 <= k < |vs| ==> vs[k].name != x.name;
      }
      assert Position(Put(vs, v), x.name) == |vs|;
    }
  }

  /** Putting `v` into a list and then putting the whole list is the same as putting `v` last. */
  lemma {:induction false} PutMovesOut(p: seq<Variable>, q: seq<Variable>, v: Variable)
    requires OneEntryPerName(p) && OneEntryPerName(q)
    ensures PutAll(p, Put(q, v)) == Put(PutAll(p, q), v)
  {
    var i := Position(q, v.name);
    if i == |q| {
      assert (q + [v])[..|q|] == q;
    } else {
      PutMovesInside(p, q, v, i);
    }
  }

  lemma {:induction false} PutMovesInside(p: seq<Variable>, q: seq<Variable>, v: Variable, i: nat)
    requires OneEntryPerName(p) && OneEntryPerName(q) && i < |q| && q[i].name == v.name
    ensures PutAll(p, q[i := v]) == Put(PutAll(p, q), v)
    decreases |q|
  {
    var init, x := q[..|q| - 1], q[|q| - 1];
    PutAllKeepsOneEntry(p, init);
    if i == |q| - 1 {
      assert q[i := v][..|q| - 1] == init;
      PutPutSameName(PutAll(p, init), x, v);
    } else {
      assert q[i := v][..|q| - 1] == init[i := v] && q[i := v][|q| - 1] == x;
      PutMovesInside(p, init, v, i);
      assert init[i].name == v.name && v.name in Names(init);
      PutsOfKnownNameCommute(PutAll(p, init), x, v);
    }
  }

  lemma {:induction false} PutAllAssociates(p: seq<Variable>, q: seq<Variable>, r: seq<Variable>)
    requires OneEntryPerName(p) && OneEntryPerName(q)
    ensures PutAll(p, PutAll(q, r)) == PutAll(PutAll(p, q), r)
  {
    if r != [] {
      var init, last := r[..|r| - 1], r[|r| - 1];
      PutAllAssociates(p, q, init);
      PutAllKeepsOneEntry(q, init);
      PutMovesOut(p, PutAll(q, init), last);
    }
  }

  /** What every composed profile satisfies. */
  ghost predicate Proper(p: Profile) {
    OneEntryPerName(p.variables) && p.sources.Keys == Names(p.variables) && Distinct(p.evidence)
  }

  lemma MergeSources(p: map<string, EntityId>, q: map<string, EntityId>, names: set<string>, id: EntityId)
    ensures p + ((q + map name | name in names :: id)) == (p + q) + map name | name in names :: id
  {
  }

  lemma MergedSources(p: Profile, q: Profile)
    requires Proper(q)
    ensures Merged(p, q).sources == p.sources + q.sources
  {
    assert (map name | name in Names(q.variables) && name in q.sources :: q.sources[name]) == q.sources;
  }

  lemma OverlaidIsProper(p: Profile, own: Declarations, id: EntityId)
    requires Proper(p)
    ensures Proper(Overlaid(p, own, id))
  {
    PutAllKeepsOneEntry(p.variables, Own(own, id));
    MoveToEndKeepsDistinct(p.evidence, id);
  }

  lemma {:induction false} AppliedIsProper(own: Declarations, word: seq<EntityId>)
    ensures Proper(Applied(own, word))
  {
    if word != [] {
      AppliedIsProper(own, word[..|word| - 1]);
      OverlaidIsProper(Applied(own, word[..|word| - 1]), own, word[|word| - 1]);
    }
  }

  lemma MergeOverlaid(p: Profile, q: Profile, own: Declarations, id: EntityId)
    requires Proper(p) && Proper(q)
    ensures Merged(p, Overlaid(q, own, id)) == Overlaid(Merged(p, q), own, id)
  {
    var names := Names(Own(own, id));
    PutAllAssociates(p.variables, q.variables, Own(own, id));
    MoveMovesOut(p.evidence, q.evidence, id);
    OverlaidIsProper(q, own, id);
    MergedSources(p, q);
    MergedSources(p, Overlaid(q, own, id));
    MergeSources(p.sources, q.sources, names, id);
  }

  /** Merging the profile of one list into that of another is the profile of the joined list. */
  lemma {:induction false} MergeIsConcatenation(own: Declarations, u: seq<EntityId>, w: seq<EntityId>)
    ensures Merged(Applied(own, u), Applied(own, w)) == Applied(own, u + w)
  {
    if w == [] {
      assert u + w == u;
      assert Applied(own, u).sources + map[] == Applied(own, u).sources;
    } else {
      var init, last := w[..|w| - 1], w[|w| - 1];
      assert (u + w)[..|u + w| - 1] == u + init;
      AppliedIsProper(own, u);
      AppliedIsProper(own, init);
      MergeOverlaid(Applied(own, u), Applied(own, init), own, last);
      MergeIsConcatenation(own, u, init);
    }
  }

  // ---------------------------------------------------------------------
  // Last writer wins
  // ---------------------------------------------------------------------

  /** The last listed environment whose own variables declare the name. */
  function LastDeclarer(own: Declarations, ids: seq<EntityId>, name: string): Option<EntityId> {
    if ids == [] then None
    else if Declares(Own(own, ids[|ids| - 1]), name) then Some(ids[|ids| - 1])
    else LastDeclarer(own, ids[..|ids| - 1], name)
  }

  /** The last declaration of the name in one environment's own list. */
  function LastEntry(vs: seq<Variable>, name: string): Option<Variable> {
    if vs == [] then None
    else if vs[|vs| - 1].name == name then Some(vs[|vs| - 1])
    else LastEntry(vs[..|vs| - 1], name)
  }

  function Lookup<V>(m: map<string, V>, name: string): Option<V> {
    if name in m then Some(m[name]) else None
  }

  function Entry(vs: seq<Variable>, name: string): Option<Variable> {
    var i := Position(vs, name);
    if i < |vs| then Some(vs[i]) else None
  }

  lemma LastDeclarerSnoc(own: Declarations, ids: seq<EntityId>, id: EntityId, name: string)
    ensures LastDeclarer(own, ids + [id], name) == if Declares(Own(own, id), name) then Some(id) else LastDeclarer(own, ids, name)
  {
    assert (ids + [id])[..|ids|] == ids;
  }

  lemma {:induction false} DroppingOthersKeepsDeclarer(own: Declarations, ids: seq<EntityId>, id: EntityId, name: string)
    requires !Declares(Own(own, id), name)
    ensures LastDeclarer(own, Minus(ids, {id}), name) == LastDeclarer(own, ids, name)
  {
    if ids != [] {
      var init, last := ids[..|ids| - 1], ids[|ids| - 1];
      DroppingOthersKeepsDeclarer(own, init, id, name);
      assert ids == init + [last];
      LastDeclarerSnoc(own, init, last, name);
      LastDeclarerSnoc(own, Minus(init, {id}), last, name);
      MinusSnoc(init, last, {id});
    }
  }

  lemma {:induction false} PutAllEntry(vs: seq<Variable>, more: seq<Variable>, name: string)
    requires OneEntryPerName(vs)
    ensures Entry(PutAll(vs, more), name) == if Declares(more, name) then LastEntry(more, name) else Entry(vs, name)
  {
    if more != [] {
      var init, last := more[..|more| - 1], more[|more| - 1];
      PutAllEntry(vs, init, name);
      PutAllKeepsOneEntry(vs, init);
      PutEntry(PutAll(vs, init), last, name);
      assert more[|more| - 1] == last;
      assert Declares(more, name) <==> last.name == name || Declares(init, name) by {
        assert forall i :: 0 <= i < |init| ==> more[i] == init[i];
      }
    }
  }

  lemma PutEntry(vs: seq<Variable>, v: Variable, name: string)
    requires OneEntryPerName(vs)
    ensures Entry(Put(vs, v), name) == if v.name == name then Some(v) else Entry(vs, name)
  {
    PutKeepsOneEntry(vs, v);
    var r := Put(vs, v);
    var i, j := Position(vs, v.name), Position(vs, name);
    assert r[i] == v;
    if j < |vs| {
      assert r[j].name == name;
    }
  }

  ghost predicate WinsLast(own: Declarations, p: Profile, winner: Option<EntityId>, name: string) {
    && LastDeclarer(own, p.evidence, name) == winner
    && Lookup(p.sources, name) == winner
    && Entry(p.variables, name) == if winner == None then None else LastEntry(Own(own, winner.value), name)
  }

  lemma OverlaidWinsLast(own: Declarations, p: Profile, winner: Option<EntityId>, name: string, id: EntityId)
    requires Proper(p) && WinsLast(own, p, winner, name)
    ensures WinsLast(own, Overlaid(p, own, id), if Declares(Own(own, id), name) then Some(id) else winner, name)
  {
    PutAllEntry(p.variables, Own(own, id), name);
    LastDeclarerSnoc(own, Minus(p.evidence, {id}), id, name);
    if !Declares(Own(own, id), name) {
      DroppingOthersKeepsDeclarer(own, p.evidence, id, name);
    }
    assert Declares(Own(own, id), name) <==> name in Names(Own(own, id));
  }

  /** The evidence keeps the last use of each environment. */
  lemma {:induction false} EvidenceKeepsLastUse(own: Declarations, word: seq<EntityId>)
    ensures Applied(own, word).evidence == KeepLast(word)
  {
    if word != [] {
      var init, last := word[..|word| - 1], word[|word| - 1];
      EvidenceKeepsLastUse(own, init);
      assert word == init + [last];
      KeepLastSnoc(init, last);
    }
  }

  /**
   The composed profile is last-writer-wins over the whole list: each name takes its
   value and source from the last environment that declares it, counted in the list or,
   equally, in the evidence.
   */
  lemma {:induction false} LastWriterWins(own: Declarations, word: seq<EntityId>, name: string)
    ensures WinsLast(own, Applied(own, word), LastDeclarer(own, word, name), name)
  {
    if word != [] {
      var init, last := word[..|word| - 1], word[|word| - 1];
      LastWriterWins(own, init, name);
      AppliedIsProper(own, init);
      OverlaidWinsLast(own, Applied(own, init), LastDeclarer(own, init, name), name, last);
    }
  }

  // ---------------------------------------------------------------------
  // Order of the names
  // ---------------------------------------------------------------------

  function NameList(vs: seq<Variable>): seq<string> {
    if vs == [] then [] else NameList(vs[..|vs| - 1]) + [vs[|vs| - 1].name]
  }

  /** Every name declared along the list, in order, repetitions included. */
  function DeclaredNames(own: Declarations, word: seq<EntityId>): seq<string> {
    if word == [] then [] else DeclaredNames(own, word[..|word| - 1]) + NameList(Own(own, word[|word| - 1]))
  }

  function KeepFirst(names: seq<string>): (r: seq<string>)
    ensures forall n :: n in r <==> n in names
  {
    if names == [] then []
    else
      var init, last := KeepFirst(names[..|names| - 1]), names[|names| - 1];
      if last in init then init else init + [last]
  }

  lemma {:induction false} NameListAt(vs: seq<Variable>)
    ensures |NameList(vs)| == |vs|
    ensures forall i :: 0 <= i < |vs| ==> NameList(vs)[i] == vs[i].name
  {
    if vs != [] {
      NameListAt(vs[..|vs| - 1]);
    }
  }

  lemma PutOrder(vs: seq<Variable>, names: seq<string>, v: Variable)
    requires NameList(vs) == KeepFirst(names)
    ensures NameList(Put(vs, v)) == KeepFirst(names + [v.name])
  {
    assert (names + [v.name])[..|names|] == names;
    NameListAt(vs);
    NameListAt(Put(vs, v));
    var i := Position(vs, v.name);
    if i < |vs| {
      assert NameList(vs)[i] == v.name;
      assert NameList(Put(vs, v)) == NameList(vs);
    } else {
      assert forall k :: 0 <= k < |vs| ==> NameList(vs)[k] != v.name;
      assert NameList(Put(vs, v)) == NameList(vs) + [v.name];
    }
  }

  lemma {:induction false} PutAllOrder(vs: seq<Variable>, names: seq<string>, more: seq<Variable>)
    requires NameList(vs) == KeepFirst(names)
    ensures NameList(PutAll(vs, more)) == KeepFirst(names + NameList(more))
  {
    if more == [] {
      assert names + NameList(more) == names;
    } else {
      var init, last := more[..|more| - 1], more[|more| - 1];
      PutAllOrder(vs, names, init);
      PutOrder(PutAll(vs, init), names + NameList(init), last);
      assert names + NameList(init) + [last.name] == names + NameList(more);
    }
  }

  /** Variables are listed in the order in which the list first declares their names. */
  lemma {:induction false} NamesInFirstUseOrder(own: Declarations, word: seq<EntityId>)
    ensures NameList(Applied(own, word).variables) == KeepFirst(DeclaredNames(own, word))
  {
    if word != [] {
      NamesInFirstUseOrder(own, word[..|word| - 1]);
      PutAllOrder(Applied(own, word[..|word| - 1]).variables, DeclaredNames(own, word[..|word| - 1]), Own(own, word[|word| - 1]));
    }
  }
}
