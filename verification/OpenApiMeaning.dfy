/** The built tree is valid and leads operations to their targets. */
module OpenApiMeaning {
  import opened Sequences
  import opened TargetJoining
  import opened Wrappers
  import opened ImportPlans
  import opened ImportSelection
  import opened OpenApiHierarchy
  import opened OpenApiBuilder

  /** The import plan of a built tree. */
  function PlanOf(ops: seq<Operation>, d: Draft): Plan {
    Plan(RootPrefix(ops), [], d.collections, d.requests)
  }

  // ---------------------------------------------------------------------
  // Validity
  // ---------------------------------------------------------------------

  lemma {:induction false} FoldersHaveParents(
    ops: seq<Operation>, routed: seq<Operation>, folders: seq<Folder>, collections: seq<Collection>, digest: Digest, f: Folder)
    requires IsDigest(digest) && |collections| == |folders|
    requires forall i {:trigger folders[i]} :: 0 <= i < |folders| ==> collections[i] == CollectionOf(ops, routed, folders[i], digest)
    ensures digest(f) in ParentsOf(collections) <==> f in folders
    ensures f in folders ==> ParentsOf(collections)[digest(f)] == KeyOf(digest, ParentFolder(f))
    ensures f in folders ==> digest(f) in ByKey(collections) && ByKey(collections)[digest(f)] == CollectionOf(ops, routed, f, digest)
  {
    if folders != [] {
      var n := |folders| - 1;
      FoldersHaveParents(ops, routed, folders[..n], collections[..n], digest, f);
      assert folders == folders[..n] + [folders[n]];
    }
  }

  /** How many folders lead to the root. */
  function Depth(f: Folder): nat {
    match f
    case ServerFolder(_) => 1
    case TagFolder(_) => 1
    case TagServerFolder(_, _) => 2
    case PathFolder(None, _, _) => 1
    case PathFolder(Some(parent), _, _) => 1 + Depth(parent)
  }

  /** The folder's collection can be looked up, below that of its parent. */
  ghost predicate Placed(ops: seq<Operation>, routed: seq<Operation>, folders: seq<Folder>, collections: seq<Collection>, digest: Digest, f: Folder) {
    && digest(f) in ParentsOf(collections) && ParentsOf(collections)[digest(f)] == KeyOf(digest, ParentFolder(f))
    && digest(f) in ByKey(collections) && ByKey(collections)[digest(f)].pathPrefix == Prefix(ops, routed, f)
    && (ParentFolder(f).Some? ==> ParentFolder(f).value in folders)
  }

  ghost predicate AllPlaced(ops: seq<Operation>, routed: seq<Operation>, folders: seq<Folder>, collections: seq<Collection>, digest: Digest) {
    forall f {:trigger Placed(ops, routed, folders, collections, digest, f)} :: f in folders ==>
      Placed(ops, routed, folders, collections, digest, f)
  }

  lemma TreePlaces(ops: seq<Operation>, d: Draft, folders: seq<Folder>, routed: seq<Operation>, digest: Digest)
    requires IsDigest(digest) && Built(d, ops, folders, routed, digest)
    ensures AllPlaced(ops, routed, folders, d.collections, digest)
  {
    forall f | f in folders
      ensures Placed(ops, routed, folders, d.collections, digest, f)
    {
      FoldersHaveParents(ops, routed, folders, d.collections, digest, f);
    }
  }

  /** From a folder of the tree the parents lead to the root. */
  lemma {:induction false} FolderClimbs(
    ops: seq<Operation>, routed: seq<Operation>, folders: seq<Folder>, collections: seq<Collection>, digest: Digest, f: Folder)
    requires AllPlaced(ops, routed, folders, collections, digest) && f in folders
    ensures Climbs(ParentsOf(collections), Some(digest(f)), Depth(f))
    decreases Depth(f)
  {
    assert Placed(ops, routed, folders, collections, digest, f);
    if ParentFolder(f).Some? {
      FolderClimbs(ops, routed, folders, collections, digest, ParentFolder(f).value);
    }
  }

  lemma CollectionIsFolder(ops: seq<Operation>, d: Draft, folders: seq<Folder>, routed: seq<Operation>, digest: Digest, c: Collection)
    returns (f: Folder)
    requires Built(d, ops, folders, routed, digest) && c in d.collections
    ensures f in folders && c == CollectionOf(ops, routed, f, digest)
  {
    var i :| 0 <= i < |d.collections| && d.collections[i] == c;
    f := folders[i];
  }

  /** The tree always passes the validation of imported collections. */
  lemma TreeIsValid(ops: seq<Operation>, d: Draft, folders: seq<Folder>, routed: seq<Operation>, digest: Digest)
    requires IsDigest(digest) && Built(d, ops, folders, routed, digest)
    ensures CollectionsValid(PlanOf(ops, d))
  {
    var collections, parents := d.collections, ParentsOf(d.collections);
    KeysAreCollections(collections);
    TreePlaces(ops, d, folders, routed, digest);
    forall i, j | 0 <= i < j < |collections|
      ensures collections[i].key != collections[j].key
    {
      assert collections[i] == CollectionOf(ops, routed, folders[i], digest);
      assert collections[j] == CollectionOf(ops, routed, folders[j], digest);
    }
    forall c | c in collections && c.parent.Some?
      ensures c.parent.value in parents
    {
      var f := CollectionIsFolder(ops, d, folders, routed, digest, c);
      FoldersHaveParents(ops, routed, folders, collections, digest, ParentFolder(f).value);
    }
    forall key | key in parents
      ensures Rooted(parents, Some(key)) && key != ""
    {
      var c :| c in collections && c.key == key;
      var f := CollectionIsFolder(ops, d, folders, routed, digest, c);
      FolderClimbs(ops, routed, folders, collections, digest, f);
    }
    forall r | r in d.requests && r.scope.Some?
      ensures r.scope.value in parents
    {
      var i :| 0 <= i < |d.requests| && d.requests[i] == r;
      assert d.requests[i] == RoutedOf(ops, routed[i], digest) && routed[i] in routed;
      FoldersHaveParents(ops, routed, folders, collections, digest, PathOf(ops, routed[i]));
    }
  }

  // ---------------------------------------------------------------------
  // Composition
  // ---------------------------------------------------------------------

  /** The joined target of a routed request: the root prefix, the prefixes of its collections, and its own empty target. */
  ghost function TargetOf(plan: Plan, r: Request): string
    requires Rooted(ParentsOf(plan.collections), r.scope)
  {
    JoinTarget([plan.pathPrefix] + Prefixes(Chain(plan, r.scope)) + [""])
  }

  /** The prefixes from the root-most folder to the given one. */
  function FolderPrefixes(ops: seq<Operation>, routed: seq<Operation>, f: Folder): seq<string>
    decreases Depth(f)
  {
    (if ParentFolder(f) == None then [] else FolderPrefixes(ops, routed, ParentFolder(f).value)) + [Prefix(ops, routed, f)]
  }

  lemma ChainNext(plan: Plan, key: Key, parent: Scope, before: seq<string>, prefix: string)
    requires Rooted(ParentsOf(plan.collections), Some(key)) && key in ByKey(plan.collections)
    requires ParentOf(ParentsOf(plan.collections), key) == parent && Rooted(ParentsOf(plan.collections), parent)
    requires Prefixes(Chain(plan, parent)) == before && ByKey(plan.collections)[key].pathPrefix == prefix
    ensures Prefixes(Chain(plan, Some(key))) == before + [prefix]
  {
    ChainGrows(plan, key);
  }

  function PrefixesAbove(ops: seq<Operation>, routed: seq<Operation>, f: Folder): seq<string> {
    if ParentFolder(f) == None then [] else FolderPrefixes(ops, routed, ParentFolder(f).value)
  }

  lemma {:induction false} ChainOfFolder(
    ops: seq<Operation>, routed: seq<Operation>, folders: seq<Folder>, plan: Plan, digest: Digest, f: Folder)
    requires AllPlaced(ops, routed, folders, plan.collections, digest) && f in folders
    ensures Rooted(ParentsOf(plan.collections), Some(digest(f)))
    ensures Prefixes(Chain(plan, Some(digest(f)))) == FolderPrefixes(ops, routed, f)
    decreases Depth(f)
  {
    FolderClimbs(ops, routed, folders, plan.collections, digest, f);
    assert Placed(ops, routed, folders, plan.collections, digest, f);
    var parent, before := KeyOf(digest, ParentFolder(f)), PrefixesAbove(ops, routed, f);
    ParentIsLower(ParentsOf(plan.collections), digest(f));
    assert Prefixes(Chain(plan, parent)) == before by {
      if ParentFolder(f).Some? {
        ParentIsNearer(f);
        ChainOfFolder(ops, routed, folders, plan, digest, ParentFolder(f).value);
      }
    }
    ChainNext(plan, digest(f), parent, before, Prefix(ops, routed, f));
  }

  lemma ParentIsNearer(f: Folder)
    ensures ParentFolder(f).Some? ==> Depth(ParentFolder(f).value) < Depth(f)
  {
  }

  lemma OneServer(ops: seq<Operation>, op: Operation)
    requires op in ops && |Servers(ops)| <= 1
    ensures Servers(ops) == [op.server]
  {
    ServersHold(ops);
  }

  /** In every case of servers and tags, the prefixes around a path folder are the server. */
  lemma PrefixesAround(ops: seq<Operation>, routed: seq<Operation>, op: Operation)
    requires op in ops
    ensures var around := Around(ops, op);
            NonEmpty([RootPrefix(ops)] + if around == None then [] else FolderPrefixes(ops, routed, around.value)) == NonEmpty([op.server.Url()])
  {
    ServersHold(ops);
    if !ManyServers(ops) {
      OneServer(ops, op);
    }
    match Around(ops, op)
    case None =>
      assert [op.server.Url()] + [] == [op.server.Url()];
    case Some(around) =>
      SinglePrefix(ops, routed, around);
      if around.TagServerFolder? {
        AroundTagServer(ops, routed, op);
      } else if around.ServerFolder? {
        EmptyFirst(op.server.Url());
        assert [""] + [op.server.Url()] == ["", op.server.Url()];
      } else {
        AroundTag(ops, routed, op);
      }
  }

  lemma AroundTagServer(ops: seq<Operation>, routed: seq<Operation>, op: Operation)
    requires op in ops && Around(ops, op) == Some(TagServerFolder(op.tag, op.server))
    ensures NonEmpty([RootPrefix(ops)] + FolderPrefixes(ops, routed, TagServerFolder(op.tag, op.server))) == NonEmpty([op.server.Url()])
  {
    SinglePrefix(ops, routed, TagFolder(op.tag));
    SinglePrefix(ops, routed, TagServerFolder(op.tag, op.server));
    EmptyTwice(op.server.Url());
    assert [""] + ([""] + [op.server.Url()]) == ["", "", op.server.Url()];
  }

  lemma AroundTag(ops: seq<Operation>, routed: seq<Operation>, op: Operation)
    requires op in ops && Around(ops, op) == Some(TagFolder(op.tag))
    ensures NonEmpty([RootPrefix(ops)] + FolderPrefixes(ops, routed, TagFolder(op.tag))) == NonEmpty([op.server.Url()])
  {
    SinglePrefix(ops, routed, TagFolder(op.tag));
    TagPrefix(ops, op);
    if ManyServers(ops) {
      EmptyFirst(op.server.Url());
      assert [""] + [op.server.Url()] == ["", op.server.Url()];
    } else {
      OneServer(ops, op);
      EmptyLast(op.server.Url());
      assert [op.server.Url()] + [""] == [op.server.Url(), ""];
    }
  }

  lemma SinglePrefix(ops: seq<Operation>, routed: seq<Operation>, f: Folder)
    ensures ParentFolder(f) == None ==> FolderPrefixes(ops, routed, f) == [Prefix(ops, routed, f)]
    ensures f.TagServerFolder? ==>
              FolderPrefixes(ops, routed, f) == FolderPrefixes(ops, routed, TagFolder(f.tag)) + [Prefix(ops, routed, f)]
  {
  }

  /** The prefixes down to a path folder are the server and what the folder was given. */
  lemma PrefixesOfPath(ops: seq<Operation>, routed: seq<Operation>, op: Operation)
    requires op in ops
    ensures var path := PathOf(ops, op);
            NonEmpty([RootPrefix(ops)] + FolderPrefixes(ops, routed, path)) == NonEmpty([op.server.Url(), Prefix(ops, routed, path)])
  {
    var path, around := PathOf(ops, op), Around(ops, op);
    var last, before := Prefix(ops, routed, path), if around == None then [] else FolderPrefixes(ops, routed, around.value);
    PrefixesAround(ops, routed, op);
    assert FolderPrefixes(ops, routed, path) == before + [last];
    SameFront(RootPrefix(ops), before, op.server.Url(), last);
  }

  /** Equal components in front stay equal when one more is added. */
  lemma SameFront(root: string, before: seq<string>, server: string, last: string)
    requires NonEmpty([root] + before) == NonEmpty([server])
    ensures NonEmpty([root] + (before + [last])) == NonEmpty([server, last])
  {
    AppendAssociates([root], before, [last]);
    NonEmptyLast([root] + before, last);
    NonEmptyLast([server], last);
    assert [server] + [last] == [server, last];
  }

  lemma TagPrefix(ops: seq<Operation>, op: Operation)
    requires op in ops
    ensures |Servers(Tagged(ops, op.tag))| <= 1 ==> Servers(Tagged(ops, op.tag)) == [op.server]
  {
    TaggedHolds(ops, op.tag);
    if |Servers(Tagged(ops, op.tag))| <= 1 {
      OneServer(Tagged(ops, op.tag), op);
    }
  }

  /** Operations that share a path collection have targets that lead alike from their server. */
  ghost predicate SharedTargets(ops: seq<Operation>) {
    forall a, b :: a in ops && b in ops && PathOf(ops, a) == PathOf(ops, b) ==> LeadAlike(a.server.Url(), a.target, b.target)
  }

  /** Where a target below the server of an operation leads. */
  function LeadsTo(op: Operation, target: string): string {
    JoinTarget([op.server.Url(), target])
  }

  /** The joined target of operation number `i` is its server joined with its own target. */
  ghost predicate ComposesAt(ops: seq<Operation>, d: Draft, routed: seq<Operation>, i: nat) {
    && i < |routed| && i < |d.requests|
    && Rooted(ParentsOf(d.collections), d.requests[i].scope)
    && TargetOf(PlanOf(ops, d), d.requests[i]) == LeadsTo(routed[i], routed[i].target)
  }

  lemma OperationComposes(ops: seq<Operation>, d: Draft, folders: seq<Folder>, routed: seq<Operation>, digest: Digest, i: nat)
    requires IsDigest(digest) && Built(d, ops, folders, routed, digest) && i < |routed| && routed[i] in ops
    ensures var first := FirstTarget(ops, routed, PathOf(ops, routed[i]));
            first.Some? && (ComposesAt(ops, d, routed, i) <==> LeadsTo(routed[i], first.value) == LeadsTo(routed[i], routed[i].target))
  {
    var op := routed[i];
    var path, plan := PathOf(ops, op), PlanOf(ops, d);
    assert op in routed && d.requests[i] == RoutedOf(ops, op, digest);
    FirstTargetFound(ops, routed, path);
    TreePlaces(ops, d, folders, routed, digest);
    ChainOfFolder(ops, routed, folders, plan, digest, path);
    assert TargetOf(plan, d.requests[i]) == LeadsTo(op, FirstTarget(ops, routed, path).value) by {
      PrefixesOfPath(ops, routed, op);
      EmptyTargetLast(RootPrefix(ops), FolderPrefixes(ops, routed, path), op.server.Url(), FirstTarget(ops, routed, path).value);
    }
  }

  lemma EmptyTargetLast(root: string, prefixes: seq<string>, server: string, last: string)
    requires NonEmpty([root] + prefixes) == NonEmpty([server, last])
    ensures JoinTarget([root] + prefixes + [""]) == JoinTarget([server, last])
  {
    NonEmptyLast([root] + prefixes, "");
    assert NonEmpty([root] + prefixes) + [] == NonEmpty([root] + prefixes);
  }

  /**
   The joined prefixes of the tree lead every operation to its server and its own target,
   in all cases of servers and tags, exactly when operations that share a path collection
   have targets that lead alike from their server.
   */
  lemma ComposesIffSharedTargets(ops: seq<Operation>, d: Draft, folders: seq<Folder>, routed: seq<Operation>, digest: Digest)
    requires IsDigest(digest) && Built(d, ops, folders, routed, digest) && multiset(routed) == multiset(ops)
    ensures (forall i: nat :: i < |routed| ==> ComposesAt(ops, d, routed, i)) <==> SharedTargets(ops)
  {
    SameMembers(routed, ops);
    forall i: nat | i < |routed|
      ensures FirstTarget(ops, routed, PathOf(ops, routed[i])).Some?
      ensures ComposesAt(ops, d, routed, i) <==> FirstLeads(ops, routed, i)
    {
      assert routed[i] in routed;
      OperationComposes(ops, d, folders, routed, digest, i);
    }
    FirstIffShared(ops, routed);
  }

  /** The first target of its path collection leads operation number `i` to its own. */
  predicate FirstLeads(ops: seq<Operation>, routed: seq<Operation>, i: nat) {
    i < |routed|
    && var first := FirstTarget(ops, routed, PathOf(ops, routed[i]));
       first.Some? && LeadsTo(routed[i], first.value) == LeadsTo(routed[i], routed[i].target)
  }

  lemma FirstIffShared(ops: seq<Operation>, routed: seq<Operation>)
    requires forall op :: op in routed <==> op in ops
    ensures (forall i: nat :: i < |routed| ==> FirstLeads(ops, routed, i)) <==> SharedTargets(ops)
  {
    if forall i: nat :: i < |routed| ==> FirstLeads(ops, routed, i) {
      forall a, b | a in ops && b in ops && PathOf(ops, a) == PathOf(ops, b)
        ensures LeadAlike(a.server.Url(), a.target, b.target)
      {
        assert a in routed && b in routed;
        var i :| 0 <= i < |routed| && routed[i] == a;
        var j :| 0 <= j < |routed| && routed[j] == b;
        assert FirstLeads(ops, routed, i) && FirstLeads(ops, routed, j);
        JoinedAlikeIff(a.server.Url(), a.target, b.target);
      }
    }
    if SharedTargets(ops) {
      forall i: nat | i < |routed|
        ensures FirstLeads(ops, routed, i)
      {
        FirstLeadsIfShared(ops, routed, i);
      }
    }
  }

  lemma FirstLeadsIfShared(ops: seq<Operation>, routed: seq<Operation>, i: nat)
    requires (forall op :: op in routed <==> op in ops) && SharedTargets(ops) && i < |routed|
    ensures FirstLeads(ops, routed, i)
  {
    var op := routed[i];
    assert op in routed;
    FirstTargetFound(ops, routed, PathOf(ops, op));
    var first :| first in routed && PathOf(ops, first) == PathOf(ops, op)
                 && first.target == FirstTarget(ops, routed, PathOf(ops, op)).value;
    JoinedAlikeIff(op.server.Url(), op.target, first.target);
  }

  lemma SameMembers(routed: seq<Operation>, ops: seq<Operation>)
    requires multiset(routed) == multiset(ops)
    ensures forall op :: op in routed <==> op in ops
  {
    forall op
      ensures op in routed <==> op in ops
    {
      assert op in routed <==> op in multiset(routed);
      assert op in ops <==> op in multiset(ops);
    }
  }
}
