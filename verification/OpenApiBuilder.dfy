/** The loops that build the collection tree of an OpenAPI import, with their tags. */
module OpenApiBuilder {
  import opened Wrappers
  import opened ImportPlans
  import opened OpenApiHierarchy

  // ---------------------------------------------------------------------
  // Tags
  // ---------------------------------------------------------------------

  /** The tags of the operations in first-seen order. */
  function Tags(ops: seq<Operation>): seq<Tag> {
    if ops == [] then []
    else
      var before, last := Tags(ops[..|ops| - 1]), ops[|ops| - 1].tag;
      if last in before then before else before + [last]
  }

  lemma {:induction false} TagsHold(ops: seq<Operation>)
    ensures forall t :: t in Tags(ops) <==> Tagged(ops, t) != []
    ensures forall i, j :: 0 <= i < j < |Tags(ops)| ==> Tags(ops)[i] != Tags(ops)[j]
  {
    if ops != [] {
      TagsHold(ops[..|ops| - 1]);
    }
  }

  /** Declared tags that are used, in their declared order. */
  function DeclaredTags(tagOrder: seq<string>, tags: seq<Tag>): seq<Tag> {
    if tagOrder == [] then []
    else
      var last := tagOrder[|tagOrder| - 1];
      DeclaredTags(tagOrder[..|tagOrder| - 1], tags) + if Some(last) in tags then [Some(last)] else []
  }

  /** Used tags that were not declared. */
  function OtherTags(tagOrder: seq<string>, tags: seq<Tag>): seq<Tag> {
    if tags == [] then []
    else
      var last := tags[|tags| - 1];
      OtherTags(tagOrder, tags[..|tags| - 1]) + if last.Some? && last.value !in tagOrder then [last] else []
  }

  /** Declared tags first, then other tags, then the operations without a tag. */
  function OrderedTags(tagOrder: seq<string>, tags: seq<Tag>): seq<Tag> {
    DeclaredTags(tagOrder, tags) + OtherTags(tagOrder, tags) + if None in tags then [None] else []
  }

  predicate Distinct<T(==)>(s: seq<T>) {
    forall i, j :: 0 <= i < j < |s| ==> s[i] != s[j]
  }

  lemma {:induction false} DeclaredAre(tagOrder: seq<string>, tags: seq<Tag>)
    requires Distinct(tagOrder)
    ensures forall t :: t in DeclaredTags(tagOrder, tags) <==> t.Some? && t.value in tagOrder && t in tags
    ensures Distinct(DeclaredTags(tagOrder, tags))
  {
    if tagOrder != [] {
      var init, last := tagOrder[..|tagOrder| - 1], tagOrder[|tagOrder| - 1];
      DeclaredAre(init, tags);
      assert tagOrder == init + [last];
      assert last !in init;
    }
  }

  lemma {:induction false} OthersAre(tagOrder: seq<string>, tags: seq<Tag>)
    requires Distinct(tags)
    ensures forall t :: t in OtherTags(tagOrder, tags) <==> t.Some? && t.value !in tagOrder && t in tags
    ensures Distinct(OtherTags(tagOrder, tags))
  {
    if tags != [] {
      var init, last := tags[..|tags| - 1], tags[|tags| - 1];
      OthersAre(tagOrder, init);
      assert tags == init + [last];
      assert last !in init;
    }
  }

  lemma DistinctJoin<T>(a: seq<T>, b: seq<T>)
    requires Distinct(a) && Distinct(b) && forall x :: x in a ==> x !in b
    ensures Distinct(a + b)
  {
    var all := a + b;
    forall i, j | 0 <= i < j < |all|
      ensures all[i] != all[j]
    {
      if i < |a| <= j {
        assert all[i] in a && all[j] == b[j - |a|];
      } else if |a| <= i {
        assert all[i] == b[i - |a|] && all[j] == b[j - |a|];
      }
    }
  }

  /** Every used tag comes exactly once. */
  lemma OrderedAre(tagOrder: seq<string>, tags: seq<Tag>)
    requires Distinct(tagOrder) && Distinct(tags)
    ensures forall t :: t in OrderedTags(tagOrder, tags) <==> t in tags
    ensures Distinct(OrderedTags(tagOrder, tags))
  {
    DeclaredAre(tagOrder, tags);
    OthersAre(tagOrder, tags);
    var a, b, c := DeclaredTags(tagOrder, tags), OtherTags(tagOrder, tags), if None in tags then [None] else [];
    assert OrderedTags(tagOrder, tags) == a + b + c;
    DistinctJoin(a, b);
    assert forall t :: t in a + b ==> t in a || t in b;
    DistinctJoin(a + b, c);
    forall t
      ensures t in a + b + c <==> t in tags
    {
      assert t in a + b + c <==> t in a || t in b || t in c;
    }
  }

  /** The operations tag by tag. */
  function Grouped(ops: seq<Operation>, tags: seq<Tag>): seq<Operation> {
    if tags == [] then [] else Grouped(ops, tags[..|tags| - 1]) + Tagged(ops, tags[|tags| - 1])
  }

  lemma {:induction false} TaggedCount(ops: seq<Operation>, tag: Tag, op: Operation)
    ensures multiset(Tagged(ops, tag))[op] == if op.tag == tag then multiset(ops)[op] else 0
  {
    if ops != [] {
      var init, last := ops[..|ops| - 1], ops[|ops| - 1];
      TaggedCount(init, tag, op);
      assert ops == init + [last];
    }
  }

  lemma {:induction false} GroupedCount(ops: seq<Operation>, tags: seq<Tag>, op: Operation)
    requires Distinct(tags)
    ensures multiset(Grouped(ops, tags))[op] == if op.tag in tags then multiset(ops)[op] else 0
  {
    if tags != [] {
      var init, last := tags[..|tags| - 1], tags[|tags| - 1];
      DistinctLast(tags, op.tag);
      GroupedCount(ops, init, op);
      TaggedCount(ops, last, op);
    }
  }

  lemma DistinctLast<T>(s: seq<T>, x: T)
    requires Distinct(s) && s != []
    ensures var init, last := s[..|s| - 1], s[|s| - 1];
            Distinct(init) && last !in init && (x in s <==> x in init || x == last)
  {
    assert s == s[..|s| - 1] + [s[|s| - 1]];
  }

  /** Grouping by all tags is a rearrangement. */
  lemma GroupedIsAll(ops: seq<Operation>, tags: seq<Tag>)
    requires Distinct(tags) && forall op :: op in ops ==> op.tag in tags
    ensures multiset(Grouped(ops, tags)) == multiset(ops)
  {
    forall op
      ensures multiset(Grouped(ops, tags))[op] == multiset(ops)[op]
    {
      GroupedCount(ops, tags, op);
      if multiset(ops)[op] > 0 {
        assert op in ops;
      }
    }
  }

  // ---------------------------------------------------------------------
  // Needed folders
  // ---------------------------------------------------------------------

  /** The folder lies on the way to some operation. */
  ghost predicate Needed(ops: seq<Operation>, f: Folder) {
    exists op {:trigger op in ops} :: op in ops && OnTheWay(ops, op, f)
  }

  predicate OnTheWay(ops: seq<Operation>, op: Operation, f: Folder) {
    f == PathOf(ops, op) || Some(f) == Around(ops, op)
    || (Around(ops, op).Some? && ParentFolder(Around(ops, op).value) == Some(f))
  }

  ghost predicate AllNeeded(ops: seq<Operation>, folders: seq<Folder>) {
    forall f {:trigger f in folders} :: f in folders ==> Needed(ops, f)
  }

  /** Folders of tags are there for the given tags only, and none of servers. */
  ghost predicate OnlyTags(folders: seq<Folder>, tags: seq<Tag>) {
    forall f {:trigger f in folders} :: f in folders ==>
      match f
      case TagFolder(t) => t in tags
      case TagServerFolder(t, _) => t in tags
      case ServerFolder(_) => false
      case PathFolder(_, _, _) => true
  }

  // ---------------------------------------------------------------------
  // The loops
  // ---------------------------------------------------------------------

  method GroupServers(ops: seq<Operation>) returns (servers: seq<Server>)
    ensures servers == Servers(ops)
  {
    servers := [];
    for i := 0 to |ops|
      invariant servers == Servers(ops[..i])
    {
      assert ops[..i + 1][..i] == ops[..i];
      if ops[i].server !in servers {
        servers := servers + [ops[i].server];
      }
    }
    assert ops[..|ops|] == ops;
  }

  const EMPTY := Draft([], [], {})

  /** What the tree is: every folder on the way to an operation, once; every operation in its path folder. */
  ghost predicate Built(d: Draft, ops: seq<Operation>, folders: seq<Folder>, routed: seq<Operation>, digest: Digest) {
    Shows(d, ops, folders, routed, digest) && Sound(ops, folders, routed) && AllNeeded(ops, folders)
  }

  /** Adds a collection that is no path collection. */
  method AddCollection(d: Draft, f: Folder, prefix: string, digest: Digest, ghost ops: seq<Operation>, ghost folders: seq<Folder>, ghost routed: seq<Operation>)
    returns (d': Draft)
    requires Built(d, ops, folders, routed, digest) && Needed(ops, f) && prefix == Prefix(ops, routed, f)
    requires !f.PathFolder? && f !in folders && (ParentFolder(f).Some? ==> ParentFolder(f).value in folders)
    ensures Built(d', ops, folders + [f], routed, digest)
  {
    d' := d.(collections := d.collections + [Collection(digest(f), KeyOf(digest, ParentFolder(f)), prefix, [])]);
    FolderAdded(d, ops, folders, routed, digest, f);
  }

  /** What routing the next operation needs of the folders. */
  predicate Covered(ops: seq<Operation>, op: Operation, parent: Option<Folder>, folders: seq<Folder>) {
    op in ops && parent == Around(ops, op) && (parent.Some? ==> parent.value in folders)
  }

  lemma PathNeeded(ops: seq<Operation>, op: Operation, folders: seq<Folder>, tags: seq<Tag>)
    requires op in ops && AllNeeded(ops, folders)
    ensures AllNeeded(ops, WithPath(folders, PathOf(ops, op)))
    ensures OnlyTags(folders, tags) ==> OnlyTags(WithPath(folders, PathOf(ops, op)), tags)
    ensures forall f :: f in folders ==> f in WithPath(folders, PathOf(ops, op))
  {
    assert OnTheWay(ops, op, PathOf(ops, op));
  }

  /** Routes one operation. */
  method RouteOne(
    d: Draft, op: Operation, parent: Option<Folder>, digest: Digest,
    ghost ops: seq<Operation>, ghost folders: seq<Folder>, ghost routed: seq<Operation>)
    returns (d': Draft)
    requires IsDigest(digest) && Built(d, ops, folders, routed, digest) && Covered(ops, op, parent, folders)
    ensures Built(d', ops, WithPath(folders, PathOf(ops, op)), routed + [op], digest)
  {
    d' := RouteMappedRequest(d, op, parent, digest, ops, folders, routed);
    PathNeeded(ops, op, folders, []);
  }

  lemma RoutedNext(routed: seq<Operation>, group: seq<Operation>, i: nat)
    requires i < |group|
    ensures routed + group[..i + 1] == routed + group[..i] + [group[i]]
  {
    assert group[..i + 1] == group[..i] + [group[i]];
  }

  /** Routes the operations of a group, in order. */
  method RouteGroup(
    d0: Draft, group: seq<Operation>, parents: Operation -> Option<Folder>, digest: Digest,
    ghost ops: seq<Operation>, ghost folders0: seq<Folder>, ghost routed: seq<Operation>, ghost tags: seq<Tag>)
    returns (d: Draft, ghost folders: seq<Folder>)
    requires IsDigest(digest) && Built(d0, ops, folders0, routed, digest)
    requires forall op {:trigger op in group} :: op in group ==> Covered(ops, op, parents(op), folders0)
    ensures Built(d, ops, folders, routed + group, digest) && (OnlyTags(folders0, tags) ==> OnlyTags(folders, tags))
  {
    d, folders := d0, folders0;
    ghost var done := routed + group[..0];
    assert done == routed;
    for i := 0 to |group|
      invariant done == routed + group[..i] && Built(d, ops, folders, done, digest)
      invariant OnlyTags(folders0, tags) ==> OnlyTags(folders, tags)
      invariant forall f :: f in folders0 ==> f in folders
    {
      var op := group[i];
      assert op in group && Covered(ops, op, parents(op), folders0);
      RoutedNext(routed, group, i);
      d := RouteOne(d, op, parents(op), digest, ops, folders, done);
      PathNeeded(ops, op, folders, tags);
      folders, done := WithPath(folders, PathOf(ops, op)), done + [op];
    }
    assert group[..|group|] == group;
  }

  /** One collection for each of several servers, beside or below a tag. */
  method AddServers(
    d0: Draft, servers: seq<Server>, tag: Option<Tag>, digest: Digest,
    ghost ops: seq<Operation>, ghost folders0: seq<Folder>, ghost routed: seq<Operation>, ghost tags: seq<Tag>)
    returns (d: Draft, ghost folders: seq<Folder>)
    requires Built(d0, ops, folders0, routed, digest) && Distinct(servers)
    requires forall u {:trigger u in servers} :: u in servers ==> Needed(ops, ServerOf(tag, u)) && ServerOf(tag, u) !in folders0
    requires tag.Some? ==> TagFolder(tag.value) in folders0 && tag.value in tags
    ensures Built(d, ops, folders, routed, digest)
    ensures forall f :: f in folders <==> f in folders0 || exists u :: u in servers && f == ServerOf(tag, u)
    ensures tag.Some? && OnlyTags(folders0, tags) ==> OnlyTags(folders, tags)
  {
    d, folders := d0, folders0;
    for i := 0 to |servers|
      invariant Built(d, ops, folders, routed, digest)
      invariant ServersAdded(folders0, servers[..i], tag, folders)
      invariant tag.Some? && OnlyTags(folders0, tags) ==> OnlyTags(folders, tags)
    {
      var u := servers[i];
      assert u in servers;
      NotYetAdded(folders0, servers, i, tag, folders);
      d := AddCollection(d, ServerOf(tag, u), u.Url(), digest, ops, folders, routed);
      folders := folders + [ServerOf(tag, u)];
    }
    assert servers[..|servers|] == servers;
  }

  function ServerOf(tag: Option<Tag>, u: Server): Folder {
    if tag == None then ServerFolder(u) else TagServerFolder(tag.value, u)
  }

  ghost predicate ServersAdded(folders0: seq<Folder>, servers: seq<Server>, tag: Option<Tag>, folders: seq<Folder>) {
    forall f {:trigger f in folders} :: f in folders <==> f in folders0 || exists u :: u in servers && f == ServerOf(tag, u)
  }

  lemma NotYetAdded(folders0: seq<Folder>, servers: seq<Server>, i: nat, tag: Option<Tag>, folders: seq<Folder>)
    requires i < |servers| && Distinct(servers) && ServersAdded(folders0, servers[..i], tag, folders)
    requires ServerOf(tag, servers[i]) !in folders0
    ensures ServerOf(tag, servers[i]) !in folders
    ensures ServersAdded(folders0, servers[..i + 1], tag, folders + [ServerOf(tag, servers[i])])
    ensures tag.Some? && TagFolder(tag.value) in folders0 ==> TagFolder(tag.value) in folders
  {
    assert servers[..i + 1] == servers[..i] + [servers[i]];
  }

  /** The tree of operations without tags. */
  method BuildUntagged(ops: seq<Operation>, servers: seq<Server>, digest: Digest) returns (d: Draft, ghost folders: seq<Folder>)
    requires IsDigest(digest) && !UsesTags(ops) && servers == Servers(ops)
    ensures Built(d, ops, folders, ops, digest)
  {
    d, folders := EMPTY, [];
    if |servers| > 1 {
      ServersDistinct(ops);
      forall u | u in servers
        ensures Needed(ops, ServerOf(None, u))
      {
        ServersHold(ops);
        var op :| op in ops && op.server == u;
        assert OnTheWay(ops, op, ServerFolder(u));
      }
      d, folders := AddServers(d, servers, None, digest, ops, folders, [], []);
    }
    ServersHold(ops);
    var parents := (op: Operation) => if |servers| > 1 then Some(ServerFolder(op.server)) else None;
    forall op | op in ops
      ensures Covered(ops, op, parents(op), folders)
    {
      assert |servers| > 1 ==> ServerOf(None, op.server) == ServerFolder(op.server);
    }
    d, folders := RouteGroup(d, ops, parents, digest, ops, folders, [], []);
    assert [] + ops == ops;
  }

  /** The tree of one tag: its collection, its servers if it has several of several, and its operations. */
  method BuildTag(
    d0: Draft, tag: Tag, group: seq<Operation>, manyServers: bool, digest: Digest,
    ghost ops: seq<Operation>, ghost folders0: seq<Folder>, ghost routed: seq<Operation>, ghost tags: seq<Tag>)
    returns (d: Draft, ghost folders: seq<Folder>)
    requires IsDigest(digest) && Built(d0, ops, folders0, routed, digest) && OnlyTags(folders0, tags)
    requires UsesTags(ops) && group == Tagged(ops, tag) && group != [] && tag !in tags && manyServers == ManyServers(ops)
    ensures Built(d, ops, folders, routed + group, digest) && OnlyTags(folders, tags + [tag])
  {
    var tagServers := GroupServers(group);
    var tagOwnsServerPrefix := manyServers && |tagServers| == 1;
    TagNeeded(ops, tag, folders0, tags);
    d := AddCollection(d0, TagFolder(tag), if tagOwnsServerPrefix then tagServers[0].Url() else "", digest, ops, folders0, routed);
    folders := folders0 + [TagFolder(tag)];
    var tagUsesServerCollections := manyServers && |tagServers| > 1;
    if tagUsesServerCollections {
      ServersDistinct(group);
      TagServersNeeded(ops, tag, folders0, tags);
      d, folders := AddServers(d, tagServers, Some(tag), digest, ops, folders, routed, tags + [tag]);
    }
    var parents := (op: Operation) =>
      if tagUsesServerCollections then Some(TagServerFolder(tag, op.server)) else Some(TagFolder(tag));
    ServersHold(group);
    TaggedHolds(ops, tag);
    forall op | op in group
      ensures Covered(ops, op, parents(op), folders)
    {
      assert tagUsesServerCollections ==> ServerOf(Some(tag), op.server) == TagServerFolder(tag, op.server);
    }
    d, folders := RouteGroup(d, group, parents, digest, ops, folders, routed, tags + [tag]);
  }

  lemma TagNeeded(ops: seq<Operation>, tag: Tag, folders: seq<Folder>, tags: seq<Tag>)
    requires UsesTags(ops) && Tagged(ops, tag) != [] && tag !in tags && OnlyTags(folders, tags)
    ensures Needed(ops, TagFolder(tag)) && TagFolder(tag) !in folders
    ensures OnlyTags(folders + [TagFolder(tag)], tags + [tag])
  {
    TaggedHolds(ops, tag);
    var op := Tagged(ops, tag)[0];
    assert op in ops && OnTheWay(ops, op, TagFolder(tag));
  }

  lemma TagServersNeeded(ops: seq<Operation>, tag: Tag, folders: seq<Folder>, tags: seq<Tag>)
    requires UsesTags(ops) && ManyServers(ops) && ManyServers(Tagged(ops, tag)) && tag !in tags && OnlyTags(folders, tags)
    ensures forall u {:trigger u in Servers(Tagged(ops, tag))} :: u in Servers(Tagged(ops, tag)) ==>
              Needed(ops, ServerOf(Some(tag), u)) && ServerOf(Some(tag), u) !in folders + [TagFolder(tag)]
  {
    TaggedHolds(ops, tag);
    ServersHold(Tagged(ops, tag));
    forall u | u in Servers(Tagged(ops, tag))
      ensures Needed(ops, ServerOf(Some(tag), u))
    {
      var op :| op in Tagged(ops, tag) && op.server == u;
      assert op in ops && OnTheWay(ops, op, TagServerFolder(tag, u));
    }
  }

  lemma GroupedNext(ops: seq<Operation>, tags: seq<Tag>, k: nat)
    requires k < |tags|
    ensures Grouped(ops, tags[..k + 1]) == Grouped(ops, tags[..k]) + Tagged(ops, tags[k]) && tags[..k + 1] == tags[..k] + [tags[k]]
    ensures Distinct(tags) ==> tags[k] !in tags[..k]
  {
    assert tags[..k + 1][..k] == tags[..k];
  }

  /** The tree of the given tags, one after another. */
  method BuildTags(ops: seq<Operation>, tags: seq<Tag>, manyServers: bool, digest: Digest) returns (d: Draft, ghost folders: seq<Folder>)
    requires IsDigest(digest) && UsesTags(ops) && manyServers == ManyServers(ops)
    requires Distinct(tags) && forall t {:trigger t in tags} :: t in tags ==> Tagged(ops, t) != []
    ensures Built(d, ops, folders, Grouped(ops, tags), digest)
  {
    d, folders := EMPTY, [];
    for k := 0 to |tags|
      invariant Built(d, ops, folders, Grouped(ops, tags[..k]), digest) && OnlyTags(folders, tags[..k])
    {
      GroupedNext(ops, tags, k);
      assert tags[k] in tags;
      d, folders := BuildTag(d, tags[k], Tagged(ops, tags[k]), manyServers, digest, ops, folders, Grouped(ops, tags[..k]), tags[..k]);
    }
    assert tags[..|tags|] == tags;
  }

  /** The tree of operations with tags: declared tags first. */
  method BuildTagged(ops: seq<Operation>, servers: seq<Server>, tagOrder: seq<string>, digest: Digest)
    returns (d: Draft, ghost folders: seq<Folder>, ghost routed: seq<Operation>)
    requires IsDigest(digest) && UsesTags(ops) && servers == Servers(ops) && Distinct(tagOrder)
    ensures Built(d, ops, folders, routed, digest) && multiset(routed) == multiset(ops)
    ensures routed == Grouped(ops, OrderedTags(tagOrder, Tags(ops)))
  {
    TagsHold(ops);
    OrderedAre(tagOrder, Tags(ops));
    var orderedTags := OrderedTags(tagOrder, Tags(ops));
    d, folders := BuildTags(ops, orderedTags, |servers| > 1, digest);
    routed := Grouped(ops, orderedTags);
    AllTagsOrdered(ops, orderedTags);
  }

  lemma AllTagsOrdered(ops: seq<Operation>, tags: seq<Tag>)
    requires Distinct(tags) && forall t :: Tagged(ops, t) != [] ==> t in tags
    ensures multiset(Grouped(ops, tags)) == multiset(ops)
  {
    forall op | op in ops
      ensures op.tag in tags
    {
      TaggedHolds(ops, op.tag);
      assert op in Tagged(ops, op.tag);
    }
    GroupedIsAll(ops, tags);
  }

  /**
   Builds the tree. Every operation is routed exactly once, to its path collection; every
   collection on the way to an operation is there exactly once, and no other.
   */
  method BuildOpenApiHierarchy(ops: seq<Operation>, tagOrder: seq<string>, digest: Digest)
    returns (pathPrefix: string, d: Draft, ghost folders: seq<Folder>, ghost routed: seq<Operation>)
    requires IsDigest(digest) && Distinct(tagOrder)
    ensures pathPrefix == RootPrefix(ops) && Built(d, ops, folders, routed, digest)
    ensures multiset(routed) == multiset(ops)
    ensures routed == if UsesTags(ops) then Grouped(ops, OrderedTags(tagOrder, Tags(ops))) else ops
  {
    var serverGroups := GroupServers(ops);
    pathPrefix := if |serverGroups| == 1 then serverGroups[0].Url() else "";
    if !UsesTags(ops) {
      d, folders := BuildUntagged(ops, serverGroups, digest);
      routed := ops;
    } else {
      d, folders, routed := BuildTagged(ops, serverGroups, tagOrder, digest);
    }
  }
}
