/** Lists in which a repeated entry moves to its end. */
module EvidenceList {
  import opened EnvironmentGraph

  function Minus(ids: seq<EntityId>, gone: set<EntityId>): (r: seq<EntityId>)
    ensures forall x :: x in r <==> x in ids && x !in gone
  {
    if ids == [] then []
    else if ids[0] in gone then Minus(ids[1..], gone)
    else [ids[0]] + Minus(ids[1..], gone)
  }

  function MoveToEnd(ids: seq<EntityId>, id: EntityId): seq<EntityId> {
    Minus(ids, {id}) + [id]
  }

  function MoveAllToEnd(ids: seq<EntityId>, incoming: seq<EntityId>): seq<EntityId> {
    if incoming == [] then ids
    else MoveToEnd(MoveAllToEnd(ids, incoming[..|incoming| - 1]), incoming[|incoming| - 1])
  }

  /** The list with only the last occurrence of each entry kept. */
  function KeepLast(ids: seq<EntityId>): seq<EntityId> {
    if ids == [] then []
    else if ids[0] in ids[1..] then KeepLast(ids[1..])
    else [ids[0]] + KeepLast(ids[1..])
  }

  lemma {:induction false} MinusMinus(ids: seq<EntityId>, a: set<EntityId>, b: set<EntityId>)
    ensures Minus(Minus(ids, a), b) == Minus(ids, a + b)
  {
    if ids != [] {
      MinusMinus(ids[1..], a, b);
      if ids[0] !in a {
        var kept := Minus(ids[1..], a);
        assert ([ids[0]] + kept)[1..] == kept;
      }
    }
  }

  lemma {:induction false} MinusConcat(s: seq<EntityId>, t: seq<EntityId>, gone: set<EntityId>)
    ensures Minus(s + t, gone) == Minus(s, gone) + Minus(t, gone)
  {
    if s == [] {
      assert s + t == t;
    } else {
      assert (s + t)[1..] == s[1..] + t;
      MinusConcat(s[1..], t, gone);
      var rest, more := Minus(s[1..], gone), Minus(t, gone);
      assert [s[0]] + (rest + more) == ([s[0]] + rest) + more;
    }
  }

  lemma MinusSnoc(ids: seq<EntityId>, id: EntityId, gone: set<EntityId>)
    ensures Minus(ids + [id], gone) == if id in gone then Minus(ids, gone) else Minus(ids, gone) + [id]
  {
    MinusConcat(ids, [id], gone);
    assert [id][1..] == [];
  }

  lemma {:induction false} MinusDisjoint(ids: seq<EntityId>, gone: set<EntityId>)
    requires forall x :: x in ids ==> x !in gone
    ensures Minus(ids, gone) == ids
  {
    if ids != [] {
      MinusDisjoint(ids[1..], gone);
    }
  }

  lemma {:induction false} MinusKeepsDistinct(ids: seq<EntityId>, gone: set<EntityId>)
    requires Distinct(ids)
    ensures Distinct(Minus(ids, gone))
  {
    if ids != [] {
      assert Distinct(ids[1..]);
      MinusKeepsDistinct(ids[1..], gone);
      var rest := Minus(ids[1..], gone);
      assert ids[0] !in ids[1..];
      assert ids[0] !in rest;
    }
  }

  lemma MoveToEndKeepsDistinct(ids: seq<EntityId>, id: EntityId)
    requires Distinct(ids)
    ensures Distinct(MoveToEnd(ids, id))
  {
    MinusKeepsDistinct(ids, {id});
    assert id !in Minus(ids, {id});
  }

  /** Moving a whole list to the end leaves the untouched entries, then the list. */
  lemma {:induction false} MoveAllIsMinusThenAppend(ids: seq<EntityId>, incoming: seq<EntityId>)
    requires Distinct(incoming)
    ensures MoveAllToEnd(ids, incoming) == Minus(ids, Members(incoming)) + incoming
  {
    if incoming == [] {
      MinusDisjoint(ids, {});
      assert Members(incoming) == {};
    } else {
      var init, last := incoming[..|incoming| - 1], incoming[|incoming| - 1];
      DistinctSnoc(incoming);
      MoveAllIsMinusThenAppend(ids, init);
      MoveAppended(ids, init, last);
      MinusDisjoint(init, {last});
    }
  }

  lemma DistinctSnoc(ids: seq<EntityId>)
    requires ids != [] && Distinct(ids)
    ensures var init, last := ids[..|ids| - 1], ids[|ids| - 1];
            Distinct(init) && last !in init && Members(init) + {last} == Members(ids) && init + [last] == ids
  {
    var init, last := ids[..|ids| - 1], ids[|ids| - 1];
    assert ids == init + [last];
  }

  lemma MoveAppended(ids: seq<EntityId>, more: seq<EntityId>, id: EntityId)
    ensures MoveToEnd(Minus(ids, Members(more)) + more, id) == Minus(ids, Members(more) + {id}) + (Minus(more, {id}) + [id])
  {
    MinusConcat(Minus(ids, Members(more)), more, {id});
    MinusMinus(ids, Members(more), {id});
  }

  lemma MoveMovesOut(p: seq<EntityId>, q: seq<EntityId>, id: EntityId)
    requires Distinct(q)
    ensures MoveAllToEnd(p, MoveToEnd(q, id)) == MoveToEnd(MoveAllToEnd(p, q), id)
  {
    MoveToEndKeepsDistinct(q, id);
    MoveAllIsMinusThenAppend(p, q);
    MoveAllIsMinusThenAppend(p, MoveToEnd(q, id));
    MoveAppended(p, q, id);
    assert Members(q) + {id} == Members(MoveToEnd(q, id));
  }

  lemma {:induction false} KeepLastSnoc(ids: seq<EntityId>, id: EntityId)
    ensures KeepLast(ids + [id]) == MoveToEnd(KeepLast(ids), id)
  {
    if ids == [] {
      assert ids + [id] == [id];
      assert [id][1..] == [];
    } else {
      assert (ids + [id])[1..] == ids[1..] + [id];
      KeepLastSnoc(ids[1..], id);
      if ids[0] !in ids[1..] {
        var rest := KeepLast(ids[1..]);
        assert ([ids[0]] + rest)[1..] == rest;
        assert KeepLast(ids) == [ids[0]] + rest;
      }
    }
  }
}
