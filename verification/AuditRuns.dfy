/** What every run of the audit outbox keeps. */
module AuditRuns {
  import opened AuditOutbox

  // ---------------------------------------------------------------------
  // Steps keep the invariant
  // ---------------------------------------------------------------------

  lemma RecordKeeps(s: State, id: EventId, bytes: nat, at: nat)
    requires Inv(s) && Enabled(s, Record(id, bytes, at))
    ensures Inv(After(s, Record(id, bytes, at)))
  {
    var t := After(s, Record(id, bytes, at));
    forall x
      ensures Indexed(t, x) && PublishedIndexed(t, x)
    {
      assert Indexed(s, x) && PublishedIndexed(s, x);
    }
    assert PublishedIndexed(s, id) && Indexed(s, id);
    forall g
      ensures SegmentCounts(t, g)
    {
      assert SegmentCounts(s, g);
    }
    forall p
      ensures PublisherSound(t, p)
    {
      assert PublisherSound(s, p);
    }
    forall p, q
      ensures LinesApart(t, p, q)
    {
      assert LinesApart(s, p, q);
    }
    forall path
      ensures LineRecorded(t, path)
    {
      assert LineRecorded(s, path);
    }
  }

  /** Steps that only move one publisher, which then holds no line. */
  lemma PublisherKeeps(s: State, t: State, p: PublisherId)
    requires Inv(s) && t == s.(publishers := t.publishers)
    requires forall q :: q != p ==> (q in t.publishers <==> q in s.publishers) && (q in t.publishers ==> t.publishers[q] == s.publishers[q])
    requires PublisherSound(t, p) && (p in t.publishers ==> !t.publishers[p].Appended?)
    ensures Inv(t)
  {
    forall id
      ensures Indexed(t, id) && PublishedIndexed(t, id)
    {
      assert Indexed(s, id) && PublishedIndexed(s, id);
    }
    forall g
      ensures SegmentCounts(t, g)
    {
      assert SegmentCounts(s, g);
    }
    forall q
      ensures PublisherSound(t, q)
    {
      assert PublisherSound(s, q);
    }
    forall q, r
      ensures LinesApart(t, q, r)
    {
      assert LinesApart(s, q, r);
    }
    forall path
      ensures LineRecorded(t, path)
    {
      assert LineRecorded(s, path);
    }
  }

  lemma CreateKeeps(s: State, p: PublisherId, created: SegmentId)
    requires Inv(s) && Enabled(s, Create(p, created))
    ensures Inv(After(s, Create(p, created)))
  {
    var t, path := After(s, Create(p, created)), s.publishers[p].path;
    assert path !in s.files;
    forall x
      ensures Indexed(t, x) && PublishedIndexed(t, x)
    {
      assert Indexed(s, x) && PublishedIndexed(s, x);
    }
    forall g
      ensures SegmentCounts(t, g)
    {
      assert SegmentCounts(s, g);
    }
    forall q
      ensures PublisherSound(t, q)
    {
      assert PublisherSound(s, q);
    }
    forall q, r
      ensures LinesApart(t, q, r)
    {
      assert LinesApart(s, q, r);
    }
    forall any
      ensures LineRecorded(t, any)
    {
      assert LineRecorded(s, any);
    }
    forall any | any in t.files
      ensures HasPath(t, any)
    {
      var g :| g in s.segments && s.segments[g].path == any;
      assert g in t.segments && t.segments[g].path == any;
    }
  }

  /** Appending keeps acknowledged lines. */
  lemma LineStays(file: seq<Line>, more: Line, id: EventId)
    ensures HasLine(file, id) ==> HasLine(file + [more], id)
    ensures AcknowledgedBytes(file + [more]) == AcknowledgedBytes(file) + if more.acknowledged then more.bytes else 0
  {
    assert (file + [more])[..|file|] == file;
    if l :| l in file && l.event == id && l.acknowledged {
      assert l in file + [more];
    }
  }

  lemma AppendKeeps(s: State, p: PublisherId)
    requires Inv(s) && Enabled(s, Append(p))
    ensures Inv(After(s, Append(p)))
  {
    var t, me := After(s, Append(p)), s.publishers[p];
    var id, path := me.batch[me.next], s.segments[me.segment].path;
    var file, line := FileOf(s, path), Line(id, s.outbox[id].bytes, false);
    forall x
      ensures Indexed(t, x) && PublishedIndexed(t, x)
    {
      assert Indexed(s, x) && PublishedIndexed(s, x);
      LineStays(file, line, x);
    }
    forall g
      ensures SegmentCounts(t, g)
    {
      assert SegmentCounts(s, g);
      LineStays(file, line, id);
    }
    forall q
      ensures PublisherSound(t, q)
    {
      assert PublisherSound(s, q);
    }
    forall q, r
      ensures LinesApart(t, q, r)
    {
      assert LinesApart(s, q, r) && PublisherSound(s, q) && PublisherSound(s, r);
    }
    forall any
      ensures LineRecorded(t, any)
    {
      assert LineRecorded(s, any);
    }
    forall any | any in t.files
      ensures HasPath(t, any)
    {
      assert any in s.files || any == path;
      assert HasPath(s, any);
      var g :| g in s.segments && s.segments[g].path == any;
      assert t.segments[g].path == any;
    }
  }

  /** Marking one line as acknowledged keeps the others. */
  lemma MarkStays(file: seq<Line>, i: nat, id: EventId)
    requires i < |file|
    ensures var marked := file[i := file[i].(acknowledged := true)];
            (HasLine(file, id) ==> HasLine(marked, id)) && HasLine(marked, file[i].event)
  {
    var marked := file[i := file[i].(acknowledged := true)];
    assert marked[i] in marked;
    if l :| l in file && l.event == id && l.acknowledged {
      var k :| 0 <= k < |file| && file[k] == l;
      assert marked[k] in marked;
    }
  }

  lemma AcknowledgeKeeps(s: State, p: PublisherId)
    requires Inv(s) && Enabled(s, Acknowledge(p))
    ensures Inv(After(s, Acknowledge(p)))
  {
    var t := After(s, Acknowledge(p));
    forall x
      ensures Indexed(t, x)
    {
      AcknowledgeIndexes(s, p, x);
    }
    forall x
      ensures PublishedIndexed(t, x)
    {
      assert PublishedIndexed(s, x);
    }
    forall g
      ensures SegmentCounts(t, g)
    {
      AcknowledgeCounts(s, p, g);
    }
    forall q
      ensures PublisherSound(t, q)
    {
      AcknowledgePublisher(s, p, q);
    }
    forall q, r
      ensures LinesApart(t, q, r)
    {
      assert LinesApart(s, q, r);
    }
    forall path
      ensures LineRecorded(t, path)
    {
      AcknowledgeRecorded(s, p, path);
    }
    AcknowledgePaths(s, p);
  }

  lemma AcknowledgeIndexes(s: State, p: PublisherId, x: EventId)
    requires Inv(s) && Enabled(s, Acknowledge(p))
    ensures Indexed(After(s, Acknowledge(p)), x)
  {
    var me := s.publishers[p];
    assert Indexed(s, x) && PublisherSound(s, p);
    MarkStays(SegmentFile(s, me.segment), me.line, x);
  }

  lemma AcknowledgeCounts(s: State, p: PublisherId, g: SegmentId)
    requires Inv(s) && Enabled(s, Acknowledge(p))
    ensures SegmentCounts(After(s, Acknowledge(p)), g)
  {
    var me := s.publishers[p];
    assert SegmentCounts(s, g) && PublisherSound(s, p);
    AcknowledgeLine(SegmentFile(s, me.segment), me.line);
  }

  lemma AcknowledgePublisher(s: State, p: PublisherId, q: PublisherId)
    requires Inv(s) && Enabled(s, Acknowledge(p))
    ensures PublisherSound(After(s, Acknowledge(p)), q)
  {
    assert PublisherSound(s, p) && PublisherSound(s, q) && LinesApart(s, p, q);
  }

  lemma AcknowledgeRecorded(s: State, p: PublisherId, path: Path)
    requires Inv(s) && Enabled(s, Acknowledge(p))
    ensures LineRecorded(After(s, Acknowledge(p)), path)
  {
    var t, me := After(s, Acknowledge(p)), s.publishers[p];
    var file := SegmentFile(s, me.segment);
    assert LineRecorded(s, path) && PublisherSound(s, p);
    forall l | l in FileOf(t, path)
      ensures l.event in t.outbox && t.outbox[l.event].bytes == l.bytes
    {
      var k :| 0 <= k < |FileOf(t, path)| && FileOf(t, path)[k] == l;
      assert FileOf(s, path)[k] in FileOf(s, path);
    }
  }

  lemma AcknowledgePaths(s: State, p: PublisherId)
    requires Inv(s) && Enabled(s, Acknowledge(p))
    ensures DistinctPaths(After(s, Acknowledge(p))) && FilesHaveSegments(After(s, Acknowledge(p)))
  {
    var t := After(s, Acknowledge(p));
    assert forall g :: (g in t.segments <==> g in s.segments) && (g in t.segments ==> t.segments[g].path == s.segments[g].path);
    forall path | path in t.files
      ensures HasPath(t, path)
    {
      assert HasPath(s, path);
      var g :| g in s.segments && s.segments[g].path == path;
      assert t.segments[g].path == path;
    }
  }

  lemma StepKeeps(s: State, a: Action)
    requires Inv(s) && Enabled(s, a)
    ensures Inv(After(s, a))
  {
    match a
    case Record(id, bytes, at) => RecordKeeps(s, id, bytes, at);
    case Select(p, chosen) =>
      assert PublisherSound(After(s, a), p);
      PublisherKeeps(s, After(s, a), p);
    case Find(p, day, found) =>
      assert PublisherSound(s, p);
      PublisherKeeps(s, After(s, a), p);
    case Create(p, created) => CreateKeeps(s, p, created);
    case Append(p) => AppendKeeps(s, p);
    case Acknowledge(p) => AcknowledgeKeeps(s, p);
    case Finish(p) => PublisherKeeps(s, After(s, a), p);
    case Crash(p) => PublisherKeeps(s, After(s, a), p);
  }

  // ---------------------------------------------------------------------
  // Runs
  // ---------------------------------------------------------------------

  /** The actions lead from one state to another, each possible when it is taken. */
  ghost predicate Leads(s: State, actions: seq<Action>, t: State)
    decreases |actions|
  {
    if actions == [] then s == t
    else
      exists middle {:trigger Leads(s, actions[..|actions| - 1], middle)} ::
        Leads(s, actions[..|actions| - 1], middle) && LastStep(middle, actions, t)
  }

  predicate LastStep(middle: State, actions: seq<Action>, t: State)
    requires actions != []
  {
    Enabled(middle, actions[|actions| - 1]) && After(middle, actions[|actions| - 1]) == t
  }

  lemma LeadsOn(s: State, actions: seq<Action>, middle: State, a: Action)
    requires Leads(s, actions, middle) && Enabled(middle, a)
    ensures Leads(s, actions + [a], After(middle, a))
  {
    assert (actions + [a])[..|actions|] == actions;
    assert LastStep(middle, actions + [a], After(middle, a));
  }

  lemma {:induction false} RunKeeps(s: State, actions: seq<Action>, t: State)
    requires Inv(s) && Leads(s, actions, t)
    ensures Inv(t)
    decreases |actions|
  {
    if actions != [] {
      var init := actions[..|actions| - 1];
      var middle :| Leads(s, init, middle) && LastStep(middle, actions, t);
      RunKeeps(s, init, middle);
      StepKeeps(middle, actions[|actions| - 1]);
    }
  }

  /** What is never taken back: recorded events, published marks, index rows, lines of files. */
  predicate Grows(s: State, t: State) {
    && (forall id :: id in s.outbox ==>
          && id in t.outbox && t.outbox[id].bytes == s.outbox[id].bytes && t.outbox[id].occurredAt == s.outbox[id].occurredAt
          && (s.outbox[id].published ==> t.outbox[id].published))
    && (forall id :: id in s.index ==> id in t.index && t.index[id] == s.index[id])
    && (forall path :: path in s.files ==> path in t.files && FileGrows(s.files[path], t.files[path]))
  }

  /** Lines are only added at the end, and only acknowledged later. */
  predicate FileGrows(a: seq<Line>, b: seq<Line>) {
    && |a| <= |b|
    && forall i :: 0 <= i < |a| ==> b[i].event == a[i].event && b[i].bytes == a[i].bytes && (a[i].acknowledged ==> b[i].acknowledged)
  }

  lemma AppendGrows(s: State, p: PublisherId)
    requires Inv(s) && Enabled(s, Append(p))
    ensures Grows(s, AfterAppend(s, p))
  {
  }

  lemma AcknowledgeGrows(s: State, p: PublisherId)
    requires Inv(s) && Enabled(s, Acknowledge(p))
    ensures Grows(s, AfterAcknowledge(s, p))
  {
  }

  lemma StepGrows(s: State, a: Action)
    requires Inv(s) && Enabled(s, a)
    ensures Grows(s, After(s, a))
  {
    match a
    case Append(p) => AppendGrows(s, p);
    case Acknowledge(p) => AcknowledgeGrows(s, p);
    case Record(_, _, _) => SameFilesGrow(s, After(s, a));
    case _ => SameFilesGrow(s, After(s, a));
  }

  lemma SameFilesGrow(s: State, t: State)
    requires t.files == s.files && t.index == s.index && forall id :: id in s.outbox ==> id in t.outbox && t.outbox[id] == s.outbox[id]
    ensures Grows(s, t)
  {
  }

  lemma {:induction false} RunGrows(s: State, actions: seq<Action>, t: State)
    requires Inv(s) && Leads(s, actions, t)
    ensures Grows(s, t)
    decreases |actions|
  {
    if actions != [] {
      var init := actions[..|actions| - 1];
      var middle :| Leads(s, init, middle) && LastStep(middle, actions, t);
      RunGrows(s, init, middle);
      RunKeeps(s, init, middle);
      StepGrows(middle, actions[|actions| - 1]);
      GrowsOn(s, middle, t);
    }
  }

  lemma GrowsOn(s: State, middle: State, t: State)
    requires Grows(s, middle) && Grows(middle, t)
    ensures Grows(s, t)
  {
    forall path | path in s.files
      ensures path in t.files && FileGrows(s.files[path], t.files[path])
    {
      assert FileGrows(s.files[path], middle.files[path]) && FileGrows(middle.files[path], t.files[path]);
    }
  }

  /**
   In every run, with publishers stopping anywhere, a recorded event stays recorded and is
   either still pending or stands in the file of the segment that its one index row names.
   */
  lemma NoEventIsLost(actions: seq<Action>, t: State, later: seq<Action>, u: State, id: EventId)
    requires Leads(START, actions, t) && Leads(t, later, u) && id in t.outbox
    ensures id in u.outbox && u.outbox[id].bytes == t.outbox[id].bytes
    ensures Pending(u.outbox, id) <==> id !in u.index
    ensures Pending(u.outbox, id) || HasLine(SegmentFile(u, u.index[id]), id)
    ensures !Pending(t.outbox, id) ==> !Pending(u.outbox, id) && id in t.index && u.index[id] == t.index[id]
  {
    StartHolds();
    RunKeeps(START, actions, t);
    RunKeeps(t, later, u);
    RunGrows(t, later, u);
    assert Indexed(u, id) && PublishedIndexed(u, id) && PublishedIndexed(t, id);
  }

  /** In every run the bytes of a file are those recorded for its segment plus those never acknowledged. */
  lemma EveryByteIsAccounted(actions: seq<Action>, t: State, g: SegmentId)
    requires Leads(START, actions, t) && g in t.segments
    ensures Bytes(SegmentFile(t, g)) == t.segments[g].byteLength + UnacknowledgedBytes(SegmentFile(t, g))
  {
    StartHolds();
    RunKeeps(START, actions, t);
    assert SegmentCounts(t, g);
    BytesSplit(SegmentFile(t, g));
  }

  /** Every line of every file is the line of a recorded event, so readers can drop repetitions by event. */
  lemma EveryLineIsAnEvent(actions: seq<Action>, t: State, path: Path, l: Line)
    requires Leads(START, actions, t) && l in FileOf(t, path)
    ensures l.event in t.outbox && t.outbox[l.event].bytes == l.bytes
  {
    StartHolds();
    RunKeeps(START, actions, t);
    assert LineRecorded(t, path);
  }
}
