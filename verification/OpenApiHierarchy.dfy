/** The collection tree of an OpenAPI import: where operations go, under what prefixes. */
module OpenApiHierarchy {
  import opened Wrappers
  import opened ImportPlans

  type Tag = Option<string>

  /** The effective server of an operation: none declared, one without a usable URL, or a URL. */
  datatype Server = NoServer | InvalidServer(itemId: string) | KnownServer(address: string) {
    function Url(): string {
      if KnownServer? then address else ""
    }
  }

  /** A mapped operation: its effective server, its path, its tag, and its target below the server. */
  datatype Operation = Operation(itemId: string, server: Server, path: string, tag: Tag, target: string)

  /** A collection of the tree, before its key is derived. */
  datatype Folder =
    | ServerFolder(server: Server)
    | TagFolder(tag: Tag)
    | TagServerFolder(tag: Tag, server: Server)
    | PathFolder(parent: Option<Folder>, server: Server, path: string)

  /** The key derived from a folder. Keys are digests, taken to be distinct for distinct folders. */
  type Digest = Folder -> string

  ghost predicate IsDigest(digest: Digest) {
    && (forall a, b :: digest(a) == digest(b) ==> a == b)
    && (forall a :: digest(a) != "")
  }

  // ---------------------------------------------------------------------
  // Groups
  // ---------------------------------------------------------------------

  /** The distinct servers in first-seen order. */
  function Servers(ops: seq<Operation>): seq<Server> {
    if ops == [] then []
    else
      var before, last := Servers(ops[..|ops| - 1]), ops[|ops| - 1].server;
      if last in before then before else before + [last]
  }

  lemma {:induction false} ServersHold(ops: seq<Operation>)
    ensures forall op :: op in ops ==> op.server in Servers(ops)
    ensures forall u :: u in Servers(ops) ==> exists op :: op in ops && op.server == u
  {
    if ops != [] {
      var init, last := ops[..|ops| - 1], ops[|ops| - 1];
      ServersHold(init);
      assert ops == init + [last];
      forall u | u in Servers(ops)
        ensures exists op :: op in ops && op.server == u
      {
        if u in Servers(init) {
          var op :| op in init && op.server == u;
          assert op in ops;
        } else {
          assert last in ops;
        }
      }
    }
  }

  lemma {:induction false} ServersDistinct(ops: seq<Operation>)
    ensures forall i, j :: 0 <= i < j < |Servers(ops)| ==> Servers(ops)[i] != Servers(ops)[j]
  {
    if ops != [] {
      ServersDistinct(ops[..|ops| - 1]);
    }
  }

  function Tagged(ops: seq<Operation>, tag: Tag): seq<Operation> {
    if ops == [] then []
    else Tagged(ops[..|ops| - 1], tag) + if ops[|ops| - 1].tag == tag then [ops[|ops| - 1]] else []
  }

  lemma {:induction false} TaggedHolds(ops: seq<Operation>, tag: Tag)
    ensures forall op :: op in Tagged(ops, tag) <==> op in ops && op.tag == tag
  {
    if ops != [] {
      TaggedHolds(ops[..|ops| - 1], tag);
      assert ops == ops[..|ops| - 1] + [ops[|ops| - 1]];
    }
  }

  predicate UsesTags(ops: seq<Operation>) {
    exists op :: op in ops && op.tag.Some?
  }

  predicate ManyServers(ops: seq<Operation>) {
    |Servers(ops)| > 1
  }

  // ---------------------------------------------------------------------
  // Folders
  // ---------------------------------------------------------------------

  /** The folder around the path folder of an operation. */
  function Around(ops: seq<Operation>, op: Operation): Option<Folder> {
    if !UsesTags(ops) then (if ManyServers(ops) then Some(ServerFolder(op.server)) else None)
    else if ManyServers(ops) && ManyServers(Tagged(ops, op.tag)) then Some(TagServerFolder(op.tag, op.server))
    else Some(TagFolder(op.tag))
  }

  function PathOf(ops: seq<Operation>, op: Operation): Folder {
    PathFolder(Around(ops, op), op.server, op.path)
  }

  function ParentFolder(f: Folder): Option<Folder> {
    match f
    case ServerFolder(_) => None
    case TagFolder(_) => None
    case TagServerFolder(tag, _) => Some(TagFolder(tag))
    case PathFolder(parent, _, _) => parent
  }

  /** The target of the first operation of a path folder. */
  function FirstTarget(ops: seq<Operation>, routed: seq<Operation>, f: Folder): Option<string> {
    if routed == [] then None
    else
      var before := FirstTarget(ops, routed[..|routed| - 1], f);
      var last := routed[|routed| - 1];
      if before.Some? then before else if PathOf(ops, last) == f then Some(last.target) else None
  }

  /** The path prefix of a folder, given the order in which operations were routed. */
  function Prefix(ops: seq<Operation>, routed: seq<Operation>, f: Folder): string {
    match f
    case ServerFolder(server) => server.Url()
    case TagServerFolder(_, server) => server.Url()
    case TagFolder(tag) =>
      var servers := Servers(Tagged(ops, tag));
      if ManyServers(ops) && |servers| == 1 then servers[0].Url() else ""
    case PathFolder(_, _, _) => FirstTarget(ops, routed, f).GetOr("")
  }

  function RootPrefix(ops: seq<Operation>): string {
    if |Servers(ops)| == 1 then Servers(ops)[0].Url() else ""
  }

  function KeyOf(digest: Digest, f: Option<Folder>): Scope {
    if f == None then None else Some(digest(f.value))
  }

  function CollectionOf(ops: seq<Operation>, routed: seq<Operation>, f: Folder, digest: Digest): Collection {
    Collection(digest(f), KeyOf(digest, ParentFolder(f)), Prefix(ops, routed, f), [])
  }

  /** Where an operation goes; its target moves to its path folder and its variables to the root. */
  function RoutedOf(ops: seq<Operation>, op: Operation, digest: Digest): Request {
    Request(op.itemId, Some(digest(PathOf(ops, op))), "", [])
  }

  // ---------------------------------------------------------------------
  // The growing tree
  // ---------------------------------------------------------------------

  /** What the builder holds: the collections, the routed requests, and the keys of path collections. */
  datatype Draft = Draft(collections: seq<Collection>, requests: seq<Request>, pathKeys: set<string>)

  /** The draft shows these folders and has routed these operations. */
  ghost predicate Shows(d: Draft, ops: seq<Operation>, folders: seq<Folder>, routed: seq<Operation>, digest: Digest) {
    && |d.collections| == |folders| && |d.requests| == |routed|
    && (forall i {:trigger folders[i]} :: 0 <= i < |folders| ==> d.collections[i] == CollectionOf(ops, routed, folders[i], digest))
    && (forall i {:trigger routed[i]} :: 0 <= i < |routed| ==> d.requests[i] == RoutedOf(ops, routed[i], digest))
    && (forall k {:trigger k in d.pathKeys} :: k in d.pathKeys <==> IsPathKey(folders, digest, k))
  }

  ghost predicate IsPathKey(folders: seq<Folder>, digest: Digest, k: string) {
    exists f :: f in folders && f.PathFolder? && digest(f) == k
  }

  /** Each folder once, below a folder that is there, and a path folder for exactly the routed operations. */
  ghost predicate Sound(ops: seq<Operation>, folders: seq<Folder>, routed: seq<Operation>) {
    && (forall i, j :: 0 <= i < j < |folders| ==> folders[i] != folders[j])
    && (forall f :: f in folders && ParentFolder(f).Some? ==> ParentFolder(f).value in folders)
    && (forall f :: f in folders && f.PathFolder? ==> FirstTarget(ops, routed, f).Some?)
    && (forall op :: op in routed ==> PathOf(ops, op) in folders)
  }

  lemma {:induction false} FirstTargetFound(ops: seq<Operation>, routed: seq<Operation>, f: Folder)
    ensures FirstTarget(ops, routed, f).Some? <==> exists op :: op in routed && PathOf(ops, op) == f
    ensures FirstTarget(ops, routed, f).Some? ==>
              exists op :: op in routed && PathOf(ops, op) == f && op.target == FirstTarget(ops, routed, f).value
  {
    if routed != [] {
      var init, last := routed[..|routed| - 1], routed[|routed| - 1];
      FirstTargetFound(ops, init, f);
      assert routed == init + [last] && last in routed && forall op :: op in init ==> op in routed;
    }
  }

  lemma FirstTargetNext(ops: seq<Operation>, routed: seq<Operation>, op: Operation, f: Folder)
    ensures FirstTarget(ops, routed + [op], f)
            == if FirstTarget(ops, routed, f).Some? then FirstTarget(ops, routed, f)
               else if PathOf(ops, op) == f then Some(op.target) else None
  {
    assert (routed + [op])[..|routed|] == routed;
  }

  lemma PathKeysGrow(folders: seq<Folder>, f: Folder, digest: Digest, k: string)
    ensures IsPathKey(folders + [f], digest, k) <==> IsPathKey(folders, digest, k) || (f.PathFolder? && digest(f) == k)
  {
    assert f in folders + [f] && forall g :: g in folders ==> g in folders + [f];
  }

  /** Routing one more operation leaves the prefixes of the folders that are there. */
  lemma PrefixStays(ops: seq<Operation>, folders: seq<Folder>, routed: seq<Operation>, op: Operation, f: Folder)
    requires Sound(ops, folders, routed) && f in folders
    ensures Prefix(ops, routed + [op], f) == Prefix(ops, routed, f)
  {
    FirstTargetNext(ops, routed, op, f);
  }

  /** A new folder that is no path folder, below a folder that is there. */
  lemma FolderAdded(d: Draft, ops: seq<Operation>, folders: seq<Folder>, routed: seq<Operation>, digest: Digest, f: Folder)
    requires Shows(d, ops, folders, routed, digest) && Sound(ops, folders, routed)
    requires !f.PathFolder? && f !in folders && (ParentFolder(f).Some? ==> ParentFolder(f).value in folders)
    ensures Shows(d.(collections := d.collections + [CollectionOf(ops, routed, f, digest)]), ops, folders + [f], routed, digest)
    ensures Sound(ops, folders + [f], routed)
  {
    forall k
      ensures k in d.pathKeys <==> IsPathKey(folders + [f], digest, k)
    {
      PathKeysGrow(folders, f, digest, k);
    }
  }

  /** The folders after an operation was routed. */
  function WithPath(folders: seq<Folder>, f: Folder): seq<Folder> {
    if f in folders then folders else folders + [f]
  }

  /** The draft after an operation was routed. */
  function WithRequest(d: Draft, op: Operation, parent: Option<Folder>, digest: Digest): Draft {
    var path := PathFolder(parent, op.server, op.path);
    var key := digest(path);
    Draft(if key in d.pathKeys then d.collections else d.collections + [Collection(key, KeyOf(digest, parent), op.target, [])],
          d.requests + [Request(op.itemId, Some(key), "", [])],
          d.pathKeys + {key})
  }

  lemma KnownPath(d: Draft, ops: seq<Operation>, folders: seq<Folder>, routed: seq<Operation>, digest: Digest, path: Folder)
    requires IsDigest(digest) && Shows(d, ops, folders, routed, digest) && path.PathFolder?
    ensures digest(path) in d.pathKeys <==> path in folders
  {
    assert digest(path) in d.pathKeys <==> IsPathKey(folders, digest, digest(path));
  }

  lemma PathSound(ops: seq<Operation>, folders: seq<Folder>, routed: seq<Operation>, op: Operation)
    requires Sound(ops, folders, routed) && (Around(ops, op).Some? ==> Around(ops, op).value in folders)
    ensures Sound(ops, WithPath(folders, PathOf(ops, op)), routed + [op])
  {
    var path, more := PathOf(ops, op), routed + [op];
    forall f | f in WithPath(folders, path) && f.PathFolder?
      ensures FirstTarget(ops, more, f).Some?
    {
      FirstTargetNext(ops, routed, op, f);
    }
  }

  lemma PathShown(d: Draft, ops: seq<Operation>, folders: seq<Folder>, routed: seq<Operation>, digest: Digest, op: Operation)
    requires IsDigest(digest) && Shows(d, ops, folders, routed, digest) && Sound(ops, folders, routed)
    ensures Shows(WithRequest(d, op, Around(ops, op), digest), ops, WithPath(folders, PathOf(ops, op)), routed + [op], digest)
  {
    var path, d' := PathOf(ops, op), WithRequest(d, op, Around(ops, op), digest);
    var folders', routed' := WithPath(folders, path), routed + [op];
    KnownPath(d, ops, folders, routed, digest, path);
    forall i | 0 <= i < |folders'|
      ensures d'.collections[i] == CollectionOf(ops, routed', folders'[i], digest)
    {
      if i < |folders| {
        PrefixStays(ops, folders, routed, op, folders[i]);
      } else {
        NewPathPrefix(ops, folders, routed, op);
      }
    }
    forall k
      ensures k in d'.pathKeys <==> IsPathKey(folders', digest, k)
    {
      PathKeysGrow(folders, path, digest, k);
    }
  }

  /** A new path folder takes the target of its first operation. */
  lemma NewPathPrefix(ops: seq<Operation>, folders: seq<Folder>, routed: seq<Operation>, op: Operation)
    requires Sound(ops, folders, routed) && PathOf(ops, op) !in folders
    ensures Prefix(ops, routed + [op], PathOf(ops, op)) == op.target
  {
    FirstTargetFound(ops, routed, PathOf(ops, op));
    FirstTargetNext(ops, routed, op, PathOf(ops, op));
  }

  // ---------------------------------------------------------------------
  // The builder
  // ---------------------------------------------------------------------

  /** The draft shows one more routed operation, and its path folder whether or not that was there before. */
  method RouteMappedRequest(
    d: Draft, op: Operation, parent: Option<Folder>, digest: Digest,
    ghost ops: seq<Operation>, ghost folders: seq<Folder>, ghost routed: seq<Operation>)
    returns (d': Draft)
    requires IsDigest(digest) && Shows(d, ops, folders, routed, digest) && Sound(ops, folders, routed)
    requires parent == Around(ops, op) && (parent.Some? ==> parent.value in folders)
    ensures Shows(d', ops, WithPath(folders, PathOf(ops, op)), routed + [op], digest)
    ensures Sound(ops, WithPath(folders, PathOf(ops, op)), routed + [op])
  {
    var pathKey := digest(PathFolder(parent, op.server, op.path));
    d' := d;
    if pathKey !in d'.pathKeys {
      d' := d'.(pathKeys := d'.pathKeys + {pathKey},
                collections := d'.collections + [Collection(pathKey, KeyOf(digest, parent), op.target, [])]);
    }
    d' := d'.(requests := d'.requests + [Request(op.itemId, Some(pathKey), "", [])]);
    assert d' == WithRequest(d, op, parent, digest);
    PathShown(d, ops, folders, routed, digest, op);
    PathSound(ops, folders, routed, op);
  }
}
