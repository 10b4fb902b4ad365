/** The audit outbox: events are recorded, appended to a file, then acknowledged. */
module AuditOutbox {
  // An event is recorded in the database, appended to a file of lines, and only then acknowledged;
  // publishers run side by side and may stop at any point.

  import opened Wrappers

  type EventId = nat
  type SegmentId = nat
  type Path = string
  type PublisherId = nat

  const BATCH_LIMIT: nat := 100

  /** An outbox row; `bytes` is the length of the event's line. */
  datatype Row = Row(bytes: nat, occurredAt: nat, published: bool)

  datatype Segment = Segment(path: Path, byteLength: nat)

  /** A line of a file. Whether its acknowledgement committed is known to the model only. */
  datatype Line = Line(event: EventId, bytes: nat, acknowledged: bool)

  /** How far a publisher is; `next` counts the events of its batch that it is done with. */
  datatype Publisher =
    | Selected(batch: seq<EventId>)
    | Creating(batch: seq<EventId>, path: Path)
    | Writing(batch: seq<EventId>, segment: SegmentId, next: nat)
    | Appended(batch: seq<EventId>, segment: SegmentId, next: nat, line: nat)

  datatype State = State(
    outbox: map<EventId, Row>, segments: map<SegmentId, Segment>, index: map<EventId, SegmentId>,
    files: map<Path, seq<Line>>, publishers: map<PublisherId, Publisher>)

  function FileOf(s: State, path: Path): seq<Line> {
    if path in s.files then s.files[path] else []
  }

  function SegmentFile(s: State, segment: SegmentId): seq<Line> {
    if segment in s.segments then FileOf(s, s.segments[segment].path) else []
  }

  predicate Pending(outbox: map<EventId, Row>, id: EventId) {
    id in outbox && !outbox[id].published
  }

  predicate Earlier(outbox: map<EventId, Row>, a: EventId, b: EventId)
    requires a in outbox && b in outbox
  {
    outbox[a].occurredAt < outbox[b].occurredAt || (outbox[a].occurredAt == outbox[b].occurredAt && a < b)
  }

  /** The oldest pending events, in order, as many as fit a batch. */
  predicate IsBatch(outbox: map<EventId, Row>, batch: seq<EventId>) {
    && |batch| <= BATCH_LIMIT
    && (forall i :: 0 <= i < |batch| ==> Pending(outbox, batch[i]))
    && (forall i, j :: 0 <= i < j < |batch| ==> Earlier(outbox, batch[i], batch[j]))
    && (forall id :: id in outbox && Pending(outbox, id) && id !in batch ==>
          |batch| == BATCH_LIMIT && forall i :: 0 <= i < |batch| ==> Earlier(outbox, batch[i], id))
  }

  /** A batch lists at most 100 pending events by time and id; one that stays behind is no earlier, and the batch is full then. */
  lemma BatchIsOldest(outbox: map<EventId, Row>, batch: seq<EventId>, i: nat)
    requires IsBatch(outbox, batch) && i < |batch|
    ensures |batch| <= 100 && batch[i] in outbox && !outbox[batch[i]].published
    ensures forall id :: id in outbox && !outbox[id].published && id !in batch ==>
              |batch| == 100 && outbox[batch[i]].occurredAt <= outbox[id].occurredAt
              && (outbox[batch[i]].occurredAt == outbox[id].occurredAt ==> batch[i] < id)
    ensures forall j :: i < j < |batch| ==>
              batch[j] in outbox && outbox[batch[i]].occurredAt <= outbox[batch[j]].occurredAt
              && (outbox[batch[i]].occurredAt == outbox[batch[j]].occurredAt ==> batch[i] < batch[j])
  {
    assert forall k :: 0 <= k < |batch| ==> Pending(outbox, batch[k]);
  }

  lemma {:induction false} EarliestExists(outbox: map<EventId, Row>, ids: set<EventId>) returns (first: EventId)
    requires ids != {} && ids <= outbox.Keys
    ensures IsEarliest(outbox, ids, first)
    decreases |ids|
  {
    var any :| any in ids;
    var rest := ids - {any};
    if rest == {} {
      first := any;
      assert forall id :: id in ids ==> id == any || id in rest;
    } else {
      first := EarliestExists(outbox, rest);
      assert forall id :: id in ids ==> id == any || id in rest;
      if Earlier(outbox, any, first) {
        first := any;
      }
    }
  }

  predicate IsEarliest(outbox: map<EventId, Row>, ids: set<EventId>, first: EventId)
    requires ids <= outbox.Keys
  {
    first in ids && forall id :: id in ids && id != first ==> Earlier(outbox, first, id)
  }

  predicate FollowsAll(outbox: map<EventId, Row>, batch: seq<EventId>, id: EventId) {
    id in outbox && forall i :: 0 <= i < |batch| ==> batch[i] in outbox && Earlier(outbox, batch[i], id)
  }

  /** Picks the earliest pending event again and again, until the batch is full or nothing is pending. */
  method SelectBatch(outbox: map<EventId, Row>) returns (batch: seq<EventId>)
    ensures IsBatch(outbox, batch)
  {
    var remaining := set id | id in outbox && Pending(outbox, id);
    batch := [];
    while |batch| < BATCH_LIMIT && remaining != {}
      invariant |batch| <= BATCH_LIMIT
      invariant remaining <= outbox.Keys && forall id :: id in remaining ==> Pending(outbox, id) && id !in batch
      invariant forall id :: Pending(outbox, id) ==> id in remaining || id in batch
      invariant forall i :: 0 <= i < |batch| ==> Pending(outbox, batch[i])
      invariant forall i, j :: 0 <= i < j < |batch| ==> Earlier(outbox, batch[i], batch[j])
      invariant forall id :: id in remaining ==> FollowsAll(outbox, batch, id)
      decreases remaining
    {
      ghost var some := EarliestExists(outbox, remaining);
      var first :| first in remaining && IsEarliest(outbox, remaining, first);
      assert IsEarliest(outbox, remaining, first);
      forall id | id in remaining && id != first
        ensures FollowsAll(outbox, batch + [first], id)
      {
        assert FollowsAll(outbox, batch, id) && Earlier(outbox, first, id);
      }
      batch := batch + [first];
      remaining := remaining - {first};
    }
  }

  /** Two batches list the same events before place `i`. */
  predicate AgreeBefore(a: seq<EventId>, b: seq<EventId>, i: nat) {
    i <= |a| && i <= |b| && forall m :: 0 <= m < i ==> a[m] == b[m]
  }

  lemma NotLater(outbox: map<EventId, Row>, a: seq<EventId>, b: seq<EventId>, i: nat)
    requires IsBatch(outbox, a) && IsBatch(outbox, b) && AgreeBefore(a, b, i) && i < |a| && i < |b|
    ensures a[i] == b[i] || Earlier(outbox, b[i], a[i])
  {
    assert Pending(outbox, a[i]);
    if a[i] in b {
      var j :| 0 <= j < |b| && b[j] == a[i];
      assert forall m :: 0 <= m < i ==> Earlier(outbox, a[m], a[i]) && b[m] == a[m];
    }
  }

  lemma {:induction false} AgreeEverywhere(outbox: map<EventId, Row>, a: seq<EventId>, b: seq<EventId>, i: nat)
    requires IsBatch(outbox, a) && IsBatch(outbox, b) && i <= |a| && i <= |b|
    ensures AgreeBefore(a, b, i)
  {
    if i > 0 {
      AgreeEverywhere(outbox, a, b, i - 1);
      NotLater(outbox, a, b, i - 1);
      NotLater(outbox, b, a, i - 1);
    }
  }

  /** A batch that is not full lists everything that another one does. */
  lemma ShorterIsFull(outbox: map<EventId, Row>, a: seq<EventId>, b: seq<EventId>)
    requires IsBatch(outbox, a) && IsBatch(outbox, b)
    ensures |b| <= |a| || |a| == BATCH_LIMIT
  {
    if |a| < |b| {
      AgreeEverywhere(outbox, a, b, |a|);
      assert Pending(outbox, b[|a|]);
      assert forall m :: 0 <= m < |a| ==> Earlier(outbox, b[m], b[|a|]) && a[m] == b[m];
    }
  }

  /** An outbox has exactly one batch. */
  lemma BatchIsUnique(outbox: map<EventId, Row>, a: seq<EventId>, b: seq<EventId>)
    requires IsBatch(outbox, a) && IsBatch(outbox, b)
    ensures a == b
  {
    ShorterIsFull(outbox, a, b);
    ShorterIsFull(outbox, b, a);
    AgreeEverywhere(outbox, a, b, |a|);
  }

  datatype Action =
    | Record(id: EventId, bytes: nat, occurredAt: nat)
    | Select(publisher: PublisherId, chosen: seq<EventId>)
    | Find(publisher: PublisherId, day: Path, found: Option<SegmentId>)
    | Create(publisher: PublisherId, created: SegmentId)
    | Append(publisher: PublisherId)
    | Acknowledge(publisher: PublisherId)
    | Finish(publisher: PublisherId)
    | Crash(publisher: PublisherId)

  /** The segment of a path, if there is one. */
  predicate HasPath(s: State, path: Path) {
    exists g :: g in s.segments && s.segments[g].path == path
  }

  predicate Enabled(s: State, a: Action) {
    match a
    case Record(id, _, _) => id !in s.outbox
    case Select(p, chosen) => p !in s.publishers && chosen != [] && IsBatch(s.outbox, chosen)
    case Find(p, day, found) =>
      && p in s.publishers && s.publishers[p].Selected?
      && (if found == None then !HasPath(s, day) else found.value in s.segments && s.segments[found.value].path == day)
    case Create(p, created) =>
      p in s.publishers && s.publishers[p].Creating? && created !in s.segments && !HasPath(s, s.publishers[p].path)
    case Append(p) =>
      && p in s.publishers && s.publishers[p].Writing? && s.publishers[p].next < |s.publishers[p].batch|
      && s.publishers[p].batch[s.publishers[p].next] in s.outbox && s.publishers[p].segment in s.segments
    case Acknowledge(p) =>
      && p in s.publishers && s.publishers[p].Appended? && s.publishers[p].next < |s.publishers[p].batch|
      && s.publishers[p].batch[s.publishers[p].next] in s.outbox && s.publishers[p].segment in s.segments
      && s.publishers[p].line < |SegmentFile(s, s.publishers[p].segment)|
    case Finish(p) => p in s.publishers && s.publishers[p].Writing? && s.publishers[p].next == |s.publishers[p].batch|
    case Crash(p) => p in s.publishers
  }

  function After(s: State, a: Action): State
    requires Enabled(s, a)
  {
    match a
    case Record(id, bytes, at) => s.(outbox := s.outbox[id := Row(bytes, at, false)])
    case Select(p, chosen) => s.(publishers := s.publishers[p := Selected(chosen)])
    case Find(p, day, found) =>
      var batch := s.publishers[p].batch;
      s.(publishers := s.publishers[p := if found.Some? then Writing(batch, found.value, 0) else Creating(batch, day)])
    case Create(p, created) =>
      var me := s.publishers[p];
      s.(segments := s.segments[created := Segment(me.path, 0)], publishers := s.publishers[p := Writing(me.batch, created, 0)])
    case Append(p) => AfterAppend(s, p)
    case Acknowledge(p) => AfterAcknowledge(s, p)
    case Finish(p) => s.(publishers := s.publishers - {p})
    case Crash(p) => s.(publishers := s.publishers - {p})
  }

  /** The line is in the file; the database does not know yet. */
  function AfterAppend(s: State, p: PublisherId): State
    requires Enabled(s, Append(p))
  {
    var me := s.publishers[p];
    var id, path := me.batch[me.next], s.segments[me.segment].path;
    var file := FileOf(s, path);
    s.(files := s.files[path := file + [Line(id, s.outbox[id].bytes, false)]],
       publishers := s.publishers[p := Appended(me.batch, me.segment, me.next, |file|)])
  }

  /** One transaction: an index row unless there is one, the outbox row published, the length of the line added. */
  function AfterAcknowledge(s: State, p: PublisherId): State
    requires Enabled(s, Acknowledge(p))
  {
    var me := s.publishers[p];
    var id, segment := me.batch[me.next], s.segments[me.segment];
    var file := FileOf(s, segment.path);
    s.(index := if id in s.index then s.index else s.index[id := me.segment],
       outbox := s.outbox[id := s.outbox[id].(published := true)],
       segments := s.segments[me.segment := segment.(byteLength := segment.byteLength + s.outbox[id].bytes)],
       files := s.files[segment.path := file[me.line := file[me.line].(acknowledged := true)]],
       publishers := s.publishers[p := Writing(me.batch, me.segment, me.next + 1)])
  }

  // ---------------------------------------------------------------------
  // The invariant
  // ---------------------------------------------------------------------

  function Bytes(file: seq<Line>): nat {
    if file == [] then 0 else Bytes(file[..|file| - 1]) + file[|file| - 1].bytes
  }

  function AcknowledgedBytes(file: seq<Line>): nat {
    if file == [] then 0
    else
      var last := file[|file| - 1];
      AcknowledgedBytes(file[..|file| - 1]) + if last.acknowledged then last.bytes else 0
  }

  function UnacknowledgedBytes(file: seq<Line>): nat {
    if file == [] then 0
    else
      var last := file[|file| - 1];
      UnacknowledgedBytes(file[..|file| - 1]) + if last.acknowledged then 0 else last.bytes
  }

  lemma {:induction false} BytesSplit(file: seq<Line>)
    ensures Bytes(file) == AcknowledgedBytes(file) + UnacknowledgedBytes(file)
  {
    if file != [] {
      BytesSplit(file[..|file| - 1]);
    }
  }

  lemma {:induction false} AcknowledgeLine(file: seq<Line>, i: nat)
    requires i < |file| && !file[i].acknowledged
    ensures AcknowledgedBytes(file[i := file[i].(acknowledged := true)]) == AcknowledgedBytes(file) + file[i].bytes
  {
    var n, after := |file| - 1, file[i := file[i].(acknowledged := true)];
    if i < n {
      AcknowledgeLine(file[..n], i);
      assert after[..n] == file[..n][i := file[..n][i].(acknowledged := true)];
    } else {
      assert after[..n] == file[..n];
    }
  }

  /** A line of the event was acknowledged in the file. */
  predicate HasLine(file: seq<Line>, id: EventId) {
    exists l :: l in file && l.event == id && l.acknowledged
  }

  /** An indexed event is published and stands in the file of its segment. */
  predicate Indexed(s: State, id: EventId) {
    id in s.index ==>
      && id in s.outbox && s.outbox[id].published && s.index[id] in s.segments
      && HasLine(SegmentFile(s, s.index[id]), id)
  }

  /** A published event has its index row. */
  predicate PublishedIndexed(s: State, id: EventId) {
    id in s.outbox && s.outbox[id].published ==> id in s.index
  }

  /** The recorded length of a segment is the length of its acknowledged lines. */
  predicate SegmentCounts(s: State, g: SegmentId) {
    g in s.segments ==> s.segments[g].byteLength == AcknowledgedBytes(FileOf(s, s.segments[g].path))
  }

  predicate DistinctPaths(s: State) {
    forall g, h :: g in s.segments && h in s.segments && s.segments[g].path == s.segments[h].path ==> g == h
  }

  /** Only files of segments have lines. */
  predicate FilesHaveSegments(s: State) {
    forall path :: path in s.files ==> HasPath(s, path)
  }

  /** A publisher's events are recorded; its line waits in its file. */
  predicate PublisherSound(s: State, p: PublisherId) {
    p in s.publishers ==>
      var me := s.publishers[p];
      && (forall id :: id in me.batch ==> id in s.outbox)
      && (me.Writing? ==> me.segment in s.segments && me.next <= |me.batch|)
      && (me.Appended? ==>
            && me.segment in s.segments && me.next < |me.batch| && me.line < |SegmentFile(s, me.segment)|
            && SegmentFile(s, me.segment)[me.line] == Line(me.batch[me.next], s.outbox[me.batch[me.next]].bytes, false))
  }

  /** No two publishers wait for the same line. */
  predicate LinesApart(s: State, p: PublisherId, q: PublisherId) {
    p in s.publishers && q in s.publishers && p != q && s.publishers[p].Appended? && s.publishers[q].Appended? ==>
      s.publishers[p].segment != s.publishers[q].segment || s.publishers[p].line != s.publishers[q].line
  }

  predicate LineRecorded(s: State, path: Path) {
    forall l :: l in FileOf(s, path) ==> l.event in s.outbox && s.outbox[l.event].bytes == l.bytes
  }

  ghost predicate Inv(s: State) {
    && (forall id {:trigger Indexed(s, id)} :: Indexed(s, id))
    && (forall id {:trigger PublishedIndexed(s, id)} :: PublishedIndexed(s, id))
    && (forall g {:trigger SegmentCounts(s, g)} :: SegmentCounts(s, g))
    && (forall p {:trigger PublisherSound(s, p)} :: PublisherSound(s, p))
    && (forall p, q {:trigger LinesApart(s, p, q)} :: LinesApart(s, p, q))
    && (forall path {:trigger LineRecorded(s, path)} :: LineRecorded(s, path))
    && DistinctPaths(s) && FilesHaveSegments(s)
  }

  const START := State(map[], map[], map[], map[], map[])

  lemma StartHolds()
    ensures Inv(START)
  {
  }
}
