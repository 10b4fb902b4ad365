/** The order of servers and tags in an OpenAPI import. */
module OpenApiOrder {
  import opened Sequences
  import opened Wrappers
  import opened OpenApiHierarchy
  import opened OpenApiBuilder

  function ServerEach(ops: seq<Operation>): (servers: seq<Server>)
    ensures |servers| == |ops|
  {
    seq(|ops|, i requires 0 <= i < |ops| => ops[i].server)
  }

  function TagEach(ops: seq<Operation>): (tags: seq<Tag>)
    ensures |tags| == |ops|
  {
    seq(|ops|, i requires 0 <= i < |ops| => ops[i].tag)
  }

  /** The servers stand in the order of their first operations. */
  lemma {:induction false} ServersFirstSeen(ops: seq<Operation>)
    ensures InFirstSeenOrder(Servers(ops), ServerEach(ops))
  {
    if ops != [] {
      var n := |ops| - 1;
      ServersFirstSeen(ops[..n]);
      assert ServerEach(ops) == ServerEach(ops[..n]) + [ops[n].server];
      FirstSeenNext(Servers(ops[..n]), ServerEach(ops[..n]), ops[n].server, Servers(ops), ServerEach(ops));
    }
  }

  /** The tags stand in the order of their first operations. */
  lemma {:induction false} TagsFirstSeen(ops: seq<Operation>)
    ensures InFirstSeenOrder(Tags(ops), TagEach(ops))
  {
    if ops != [] {
      var n := |ops| - 1;
      TagsFirstSeen(ops[..n]);
      assert TagEach(ops) == TagEach(ops[..n]) + [ops[n].tag];
      FirstSeenNext(Tags(ops[..n]), TagEach(ops[..n]), ops[n].tag, Tags(ops), TagEach(ops));
    }
  }

  /** One tag comes before another: declared ones by their declaration, then others by first use, no tag last. */
  ghost predicate TagBefore(tagOrder: seq<string>, tags: seq<Tag>, a: Tag, b: Tag) {
    a.Some?
    && (b.Some? ==>
          if a.value in tagOrder then b.value in tagOrder ==> SeenBefore(tagOrder, a.value, b.value)
          else b.value !in tagOrder && SeenBefore(tags, a, b))
  }

  ghost predicate SortedBy(tagOrder: seq<string>, tags: seq<Tag>, sorted: seq<Tag>) {
    forall i, j {:trigger TagBefore(tagOrder, tags, sorted[i], sorted[j])} :: 0 <= i < j < |sorted| ==>
      TagBefore(tagOrder, tags, sorted[i], sorted[j])
  }

  lemma {:induction false} DeclaredSorted(tagOrder: seq<string>, tags: seq<Tag>, i: nat, j: nat)
    requires Distinct(tagOrder) && i < j < |DeclaredTags(tagOrder, tags)|
    ensures var d := DeclaredTags(tagOrder, tags);
            && d[i].Some? && d[j].Some? && d[i].value in tagOrder && d[j].value in tagOrder
            && SeenBefore(tagOrder, d[i].value, d[j].value)
  {
    var n := |tagOrder| - 1;
    var init, last := tagOrder[..n], tagOrder[n];
    assert tagOrder == init + [last] && last !in init;
    var before := DeclaredTags(init, tags);
    DeclaredAre(init, tags);
    if j < |before| {
      DeclaredSorted(init, tags, i, j);
      SeenBeforeStays(init, [last], before[i].value, before[j].value);
    } else {
      assert before[i] in before;
      assert tagOrder[..n] == init;
    }
  }

  lemma {:induction false} OthersSorted(tagOrder: seq<string>, tags: seq<Tag>, i: nat, j: nat)
    requires Distinct(tags) && i < j < |OtherTags(tagOrder, tags)|
    ensures var o := OtherTags(tagOrder, tags);
            && o[i].Some? && o[j].Some? && o[i].value !in tagOrder && o[j].value !in tagOrder
            && SeenBefore(tags, o[i], o[j])
  {
    var n := |tags| - 1;
    var init, last := tags[..n], tags[n];
    assert tags == init + [last] && last !in init;
    var before := OtherTags(tagOrder, init);
    OthersAre(tagOrder, init);
    if j < |before| {
      OthersSorted(tagOrder, init, i, j);
      SeenBeforeStays(init, [last], before[i], before[j]);
    } else {
      assert before[i] in before;
      assert tags[..n] == init;
    }
  }

  /** Tags of different kinds. */
  lemma KindsInOrder(
    tagOrder: seq<string>, tags: seq<Tag>, declared: seq<Tag>, others: seq<Tag>, none: seq<Tag>, all: seq<Tag>, i: nat, j: nat)
    requires all == declared + others + none && i < j < |all|
    requires forall t :: t in declared ==> t.Some? && t.value in tagOrder
    requires forall t :: t in others ==> t.Some? && t.value !in tagOrder
    requires |none| <= 1 && forall t :: t in none ==> t == None
    requires |declared| <= j && (i < |declared| || |declared| + |others| <= j)
    ensures TagBefore(tagOrder, tags, all[i], all[j])
  {
    if i < |declared| {
      assert all[i] in declared;
    } else {
      assert all[i] == others[i - |declared|];
      assert all[i] in others;
    }
    if j < |declared| + |others| {
      assert all[j] == others[j - |declared|];
      assert all[j] in others;
    } else {
      assert all[j] == none[j - |declared| - |others|];
      assert all[j] in none;
    }
  }

  /** Declared tags come first in their declared order, then the other tags by first use, then no tag. */
  lemma OrderedSorted(tagOrder: seq<string>, tags: seq<Tag>)
    requires Distinct(tagOrder) && Distinct(tags)
    ensures SortedBy(tagOrder, tags, OrderedTags(tagOrder, tags))
  {
    var a, b, c := DeclaredTags(tagOrder, tags), OtherTags(tagOrder, tags), if None in tags then [None] else [];
    var all := OrderedTags(tagOrder, tags);
    assert all == a + b + c;
    forall i, j | 0 <= i < j < |all|
      ensures TagBefore(tagOrder, tags, all[i], all[j])
    {
      if j < |a| {
        DeclaredSorted(tagOrder, tags, i, j);
      } else if |a| <= i && j < |a| + |b| {
        OthersSorted(tagOrder, tags, i - |a|, j - |a|);
      } else {
        DeclaredAre(tagOrder, tags);
        OthersAre(tagOrder, tags);
        KindsInOrder(tagOrder, tags, a, b, c, all, i, j);
      }
    }
  }
}
