/** The audit service: recording in a transaction, publishing one bounded batch. */
module AuditService {
  import opened Wrappers
  import opened AuditOutbox
  import opened AuditRuns

  /** The events of the batch are published, all other rows are as before. */
  predicate PublishedBatch(before: map<EventId, Row>, batch: seq<EventId>, after: map<EventId, Row>) {
    && before.Keys == after.Keys
    && forall id :: id in before ==> after[id] == if id in batch then before[id].(published := true) else before[id]
  }

  /** The lines of the events, acknowledged. */
  function LinesOf(outbox: map<EventId, Row>, events: seq<EventId>): seq<Line>
    requires forall id :: id in events ==> id in outbox
  {
    seq(|events|, i requires 0 <= i < |events| => Line(events[i], outbox[events[i]].bytes, true))
  }

  /** The file of the segment grew by the lines of the events, in order; events without an index row got one. */
  ghost predicate Written(before: State, now: State, segment: SegmentId, events: seq<EventId>)
    requires forall id :: id in events ==> id in before.outbox
  {
    && segment in before.segments && segment in now.segments && now.segments[segment].path == before.segments[segment].path
    && var path := now.segments[segment].path;
    && FileOf(now, path) == FileOf(before, path) + LinesOf(before.outbox, events)
    && (forall other {:trigger FileOf(now, other)} :: other != path ==> FileOf(now, other) == FileOf(before, other))
    && (forall id {:trigger IndexOf(now, id)} ::
          IndexOf(now, id) == if id in events && IndexOf(before, id) == None then Some(segment) else IndexOf(before, id))
  }

  /** The file of the day grew by the lines of the events, in order, and their index rows name its segment. */
  ghost predicate WrittenOn(before: State, now: State, day: Path, events: seq<EventId>)
    requires forall id :: id in events ==> id in before.outbox
  {
    && FileOf(now, day) == FileOf(before, day) + LinesOf(before.outbox, events)
    && (forall other {:trigger FileOf(now, other)} :: other != day ==> FileOf(now, other) == FileOf(before, other))
    && (forall id {:trigger id in events} :: id in events ==> IndexedAt(now, id, day))
  }

  function IndexOf(s: State, id: EventId): Option<SegmentId> {
    if id in s.index then Some(s.index[id]) else None
  }

  class Service {
    var store: State
    ghost var taken: seq<Action>

    /** The store is what the actions taken so far made of an empty one. */
    ghost predicate Valid()
      reads this
    {
      Leads(START, taken, store)
    }

    constructor ()
      ensures Valid() && store == START
    {
      store, taken := START, [];
    }

    /** Takes one step that is possible now. */
    method Take(a: Action)
      requires Valid() && Enabled(store, a)
      modifies this
      ensures Valid() && store == After(old(store), a) && taken == old(taken) + [a]
    {
      LeadsOn(START, taken, store, a);
      store := After(store, a);
      taken := taken + [a];
    }

    /** One more pending row, and no other change. */
    method RecordEvent(id: EventId, bytes: nat, now: nat)
      requires Valid() && id !in store.outbox
      modifies this
      ensures Valid() && store == old(store).(outbox := old(store).outbox[id := Row(bytes, now, false)])
    {
      Take(Record(id, bytes, now));
    }

    /** Finds the segment of the day, or creates it. */
    method OpenSegment(p: PublisherId, events: seq<EventId>, day: Path, newId: SegmentId) returns (segment: SegmentId)
      requires Valid() && p in store.publishers && store.publishers[p] == Selected(events) && newId !in store.segments
      modifies this
      ensures Valid() && At(old(store), store, p, Writing(events, segment, 0)) && store.outbox == old(store.outbox)
      ensures segment in store.segments && store.segments[segment].path == day
      ensures store.files == old(store.files) && store.index == old(store.index)
    {
      if g :| g in store.segments && store.segments[g].path == day {
        segment := g;
        Take(Find(p, day, Some(segment)));
      } else {
        segment := newId;
        Take(Find(p, day, None));
        Take(Create(p, newId));
      }
    }

    /**
     Publishes the oldest pending events, at most a batch of them, when nothing stops this
     publisher: exactly these are published afterwards.
     */
    method PublishPending(p: PublisherId, day: Path, newId: SegmentId) returns (count: nat, ghost events: seq<EventId>)
      requires Valid() && p !in store.publishers && newId !in store.segments
      modifies this
      ensures IsBatch(old(store.outbox), events)
      ensures Valid() && count == |events| && store.publishers == old(store.publishers)
      ensures PublishedBatch(old(store.outbox), events, store.outbox)
      ensures WrittenOn(old(store), store, day, events)
      ensures events == [] ==> store == old(store)
    {
      var batch := SelectBatch(store.outbox);
      events := batch;
      if |batch| == 0 {
        assert LinesOf(store.outbox, events) == [];
        return 0, events;
      }
      BatchNotIndexed(taken, store, events);
      Take(Select(p, batch));
      var segment := OpenSegment(p, batch, day, newId);
      ghost var ready := store;
      PublishEvents(p, batch, segment);
      Restores(old(store), store, p, Writing(events, segment, |events|));
      ghost var written := store;
      Take(Finish(p));
      BatchIsWritten(old(store), ready, written, store, segment, day, events);
      count := |batch|;
    }

    /** Publishes the events of a batch one after another. */
    method PublishEvents(p: PublisherId, events: seq<EventId>, segment: SegmentId)
      requires Valid() && At(store, store, p, Writing(events, segment, 0)) && forall id :: id in events ==> id in store.outbox
      modifies this
      ensures Valid() && At(old(store), store, p, Writing(events, segment, |events|))
      ensures PublishedBatch(old(store.outbox), events, store.outbox)
      ensures Written(old(store), store, segment, events)
    {
      for k := 0 to |events|
        invariant Valid() && At(old(store), store, p, Writing(events, segment, k))
        invariant PublishedBatch(old(store.outbox), events[..k], store.outbox)
        invariant Written(old(store), store, segment, events[..k])
      {
        ghost var before := store;
        PublishOne(p, events, segment, k);
        OneMorePublished(old(store), before, store, p, events, segment, k);
        OneMoreWritten(old(store), before, store, segment, events, k);
      }
      assert events[..|events|] == events;
    }

    /** Appends the line of one event, then acknowledges it in one transaction. */
    method PublishOne(p: PublisherId, events: seq<EventId>, segment: SegmentId, k: nat)
      requires Valid() && k < |events| && events[k] in store.outbox && At(store, store, p, Writing(events, segment, k))
      modifies this
      ensures Valid() && At(old(store), store, p, Writing(events, segment, k + 1))
      ensures store.outbox == old(store.outbox)[events[k] := old(store.outbox)[events[k]].(published := true)]
      ensures Written(old(store), store, segment, [events[k]])
    {
      OneWritten(store, p, events, segment, k);
      Take(Append(p));
      assert store.publishers[p].line < |SegmentFile(store, segment)|;
      Take(Acknowledge(p));
    }
  }

  /** The publisher is here, its segment is known, and no other publisher moved. */
  ghost predicate At(before: State, now: State, p: PublisherId, me: Publisher) {
    && p in now.publishers && now.publishers[p] == me && (me.Writing? ==> me.segment in now.segments)
    && forall q :: q != p ==> (q in now.publishers <==> q in before.publishers)
                              && (q in now.publishers ==> now.publishers[q] == before.publishers[q])
  }

  /** Once the publisher leaves, the publishers are those from before it came. */
  lemma Restores(before: State, now: State, p: PublisherId, me: Publisher)
    requires p !in before.publishers && At(before, now, p, me)
    ensures now.publishers - {p} == before.publishers
  {
  }

  /** The event has an index row, which names a segment of the day. */
  predicate IndexedAt(s: State, id: EventId, day: Path) {
    id in s.index && s.index[id] in s.segments && s.segments[s.index[id]].path == day
  }

  /** Pending events have no index row yet. */
  lemma BatchNotIndexed(taken: seq<Action>, s: State, events: seq<EventId>)
    requires Leads(START, taken, s) && IsBatch(s.outbox, events)
    ensures forall id :: id in events ==> IndexOf(s, id) == None
  {
    StartHolds();
    RunKeeps(START, taken, s);
    forall id | id in events
      ensures id !in s.index
    {
      assert Indexed(s, id);
    }
  }

  lemma BatchIsWritten(
    before: State, ready: State, written: State, now: State, segment: SegmentId, day: Path, events: seq<EventId>)
    requires (forall id :: id in events ==> id in before.outbox && IndexOf(before, id) == None)
    requires ready.outbox == before.outbox && ready.files == before.files && ready.index == before.index
    requires Written(ready, written, segment, events) && ready.segments[segment].path == day
    requires now.files == written.files && now.index == written.index && now.segments == written.segments
    ensures WrittenOn(before, now, day, events)
  {
    forall other
      ensures FileOf(now, other) == FileOf(written, other) && FileOf(before, other) == FileOf(ready, other)
    {
    }
    forall id | id in events
      ensures IndexedAt(now, id, day)
    {
      assert IndexOf(ready, id) == IndexOf(before, id) && IndexOf(written, id) == Some(segment);
    }
  }

  /** What appending one line and acknowledging it comes to. */
  lemma OneWritten(s: State, p: PublisherId, events: seq<EventId>, segment: SegmentId, k: nat)
    requires k < |events| && Enabled(s, Append(p)) && s.publishers[p] == Writing(events, segment, k)
    ensures Enabled(AfterAppend(s, p), Acknowledge(p))
    ensures Written(s, AfterAcknowledge(AfterAppend(s, p), p), segment, [events[k]])
  {
    var path, id := s.segments[segment].path, events[k];
    var file, appended := FileOf(s, path), AfterAppend(s, p);
    var line := Line(id, s.outbox[id].bytes, false);
    assert FileOf(appended, path) == file + [line];
    assert (file + [line])[|file| := line.(acknowledged := true)] == file + [line.(acknowledged := true)];
    assert LinesOf(s.outbox, [id]) == [line.(acknowledged := true)];
  }

  lemma OneMoreWritten(start: State, before: State, now: State, segment: SegmentId, events: seq<EventId>, k: nat)
    requires (forall id :: id in events ==> id in start.outbox) && k < |events|
    requires PublishedBatch(start.outbox, events[..k], before.outbox)
    requires Written(start, before, segment, events[..k]) && Written(before, now, segment, [events[k]])
    ensures Written(start, now, segment, events[..k + 1])
  {
    assert events[..k + 1] == events[..k] + [events[k]];
    assert LinesOf(start.outbox, events[..k + 1]) == LinesOf(start.outbox, events[..k]) + LinesOf(before.outbox, [events[k]]);
  }

  lemma OneMorePublished(start: State, before: State, now: State, p: PublisherId, events: seq<EventId>, segment: SegmentId, k: nat)
    requires k < |events| && events[k] in start.outbox
    requires At(start, before, p, Writing(events, segment, k)) && At(before, now, p, Writing(events, segment, k + 1))
    requires PublishedBatch(start.outbox, events[..k], before.outbox)
    requires events[k] in before.outbox && now.outbox == before.outbox[events[k] := before.outbox[events[k]].(published := true)]
    ensures At(start, now, p, Writing(events, segment, k + 1)) && PublishedBatch(start.outbox, events[..k + 1], now.outbox)
  {
    assert events[..k + 1] == events[..k] + [events[k]];
  }

  lemma {:induction false} PendingAfterBatch(before: map<EventId, Row>, batch: seq<EventId>, after: map<EventId, Row>, id: EventId)
    requires IsBatch(before, batch) && PublishedBatch(before, batch, after)
    ensures Pending(after, id) <==> Pending(before, id) && id !in batch
    ensures |batch| < BATCH_LIMIT ==> !Pending(after, id)
  {
    if id in before && id !in batch && Pending(before, id) {
      assert |batch| == BATCH_LIMIT;
    }
  }
}
