/** The incremental decoder against a whole parser. */
module FrameDecoder {
  // The parser sees all bytes at once and, besides them, only the offsets at which chunks ended.

  import opened Wrappers
  import opened BigEndian
  import opened FrameProtocol

  /** The frames delivered to the sink, and the error that stopped the stream, if any. */
  datatype Outcome = Outcome(frames: seq<Frame>, failure: Option<Failure>)

  /** What the first bytes of a buffer show, given the number of the expected frame. */
  type Framing = (seq<Byte>, nat) -> Step

  /** More bytes never change what a buffer shows, and a buffer that holds a whole frame shows something. */
  ghost predicate Stable(first: Framing, buffer: seq<Byte>, longer: seq<Byte>, k: nat) {
    && (first(buffer, k).Take? ==> 0 < first(buffer, k).size <= |buffer|)
    && (buffer <= longer && first(buffer, k) != Wait ==> first(longer, k) == first(buffer, k))
    && (buffer <= longer && first(longer, k).Take? && first(longer, k).size <= |buffer| ==> first(buffer, k) != Wait)
  }

  ghost predicate IsFraming(first: Framing) {
    forall buffer, longer, k: nat {:trigger Stable(first, buffer, longer, k)} :: Stable(first, buffer, longer, k)
  }

  function ProxyFraming(json: Json): Framing {
    (buffer: seq<Byte>, k: nat) => FirstFrame(buffer, k, json)
  }

  lemma ProxyFramingIsFraming(json: Json)
    ensures IsFraming(ProxyFraming(json))
  {
    var first := ProxyFraming(json);
    forall buffer, longer, k: nat
      ensures Stable(first, buffer, longer, k)
    {
      if buffer <= longer && FirstFrame(buffer, k, json) != Wait {
        FirstFrameStays(buffer, longer, k, json);
      } else if buffer <= longer && FirstFrame(longer, k, json).Take? {
        FittingFrameShows(buffer, longer, k, json);
      }
    }
  }

  /**
   Parses all bytes from offset `at`, expecting frame number `k`, after `frames` were
   delivered; `cuts` are the ends of the chunks.
   */
  ghost function Parse(
    first: Framing, bytes: seq<Byte>, cuts: set<nat>, at: nat, k: nat, terminal: bool, frames: seq<Frame>): Outcome
    requires IsFraming(first) && at <= |bytes|
    decreases |bytes| - at
  {
    assert Stable(first, bytes[at..], bytes[at..], k);
    match first(bytes[at..], k)
    case Wait => Outcome(frames, if terminal && at == |bytes| then None else Some(EndedEarly))
    case Fail(failure) => Outcome(frames, Some(failure))
    case Take(frame, size, last) =>
      if last && at + size !in cuts then Outcome(frames + [frame], Some(BytesAfterTerminal))
      else Parse(first, bytes, cuts, at + size, k + 1, last, frames + [frame])
  }

  function Flatten(chunks: seq<seq<Byte>>): seq<Byte> {
    if chunks == [] then [] else Flatten(chunks[..|chunks| - 1]) + chunks[|chunks| - 1]
  }

  /** The stream offsets at which a chunk ends. */
  function Ends(chunks: seq<seq<Byte>>): set<nat> {
    if chunks == [] then {} else Ends(chunks[..|chunks| - 1]) + {|Flatten(chunks)|}
  }

  lemma {:induction false} FlattenGrows(chunks: seq<seq<Byte>>, i: nat)
    requires i <= |chunks|
    ensures Flatten(chunks[..i]) <= Flatten(chunks)
    decreases |chunks|
  {
    if i == |chunks| {
      assert chunks[..i] == chunks;
    } else {
      FlattenGrows(chunks[..|chunks| - 1], i);
      assert chunks[..|chunks| - 1][..i] == chunks[..i];
    }
  }

  lemma {:induction false} EndsBounded(chunks: seq<seq<Byte>>)
    ensures forall e :: e in Ends(chunks) ==> e <= |Flatten(chunks)|
  {
    if chunks != [] {
      EndsBounded(chunks[..|chunks| - 1]);
    }
  }

  /** No chunk ends strictly inside another chunk. */
  lemma {:induction false} NoCutInside(chunks: seq<seq<Byte>>, i: nat, offset: nat)
    requires i < |chunks| && |Flatten(chunks[..i])| < offset < |Flatten(chunks[..i + 1])|
    ensures offset !in Ends(chunks)
    decreases |chunks|
  {
    var init := chunks[..|chunks| - 1];
    if i == |chunks| - 1 {
      assert chunks[..i + 1] == chunks && chunks[..i] == init;
      EndsBounded(init);
    } else {
      assert init[..i] == chunks[..i] && init[..i + 1] == chunks[..i + 1];
      NoCutInside(init, i, offset);
      FlattenGrows(chunks, i + 1);
    }
  }

  lemma {:induction false} ChunkEndIsCut(chunks: seq<seq<Byte>>, i: nat)
    requires i < |chunks|
    ensures |Flatten(chunks[..i + 1])| in Ends(chunks)
    decreases |chunks|
  {
    if i == |chunks| - 1 {
      assert chunks[..i + 1] == chunks;
    } else {
      assert chunks[..|chunks| - 1][..i + 1] == chunks[..i + 1];
      ChunkEndIsCut(chunks[..|chunks| - 1], i);
    }
  }

  // ---------------------------------------------------------------------
  // The decoder
  // ---------------------------------------------------------------------

  /** The decoder's variables: bytes kept, next frame number, terminal flag, and the frames delivered so far. */
  datatype Reader = Reader(buffered: seq<Byte>, expectedSequence: nat, terminal: bool, frames: seq<Frame>)

  /** What the whole stream comes to when the reader stands at offset `at`. */
  ghost function Continued(first: Framing, r: Reader, bytes: seq<Byte>, cuts: set<nat>, at: nat): Outcome
    requires IsFraming(first) && at <= |bytes|
  {
    Parse(first, bytes, cuts, at, r.expectedSequence, r.terminal, r.frames)
  }

  /** The reader holds what arrived since offset `at`, and before the last chunk that was no whole frame. */
  ghost predicate StandsAt(first: Framing, r: Reader, bytes: seq<Byte>, at: nat, before: nat, received: nat) {
    && at <= received <= |bytes| && before <= received
    && r.buffered == bytes[at..received]
    && (at > before || first(bytes[at..before], r.expectedSequence) == Wait)
  }

  /** No chunk ends strictly between the two offsets, and one ends at the second. */
  ghost predicate OneChunk(cuts: set<nat>, before: nat, received: nat) {
    forall offset :: before < offset <= received ==> (offset in cuts <==> offset == received)
  }

  /** Of the bytes from `at` on that arrived before `limit`, how many belong to no whole frame yet. */
  ghost function Unread(first: Framing, bytes: seq<Byte>, limit: nat, at: nat, k: nat): int
    requires IsFraming(first) && at <= |bytes|
    decreases |bytes| - at
  {
    assert Stable(first, bytes[at..], bytes[at..], k);
    var step := first(bytes[at..], k);
    if step.Take? && at + step.size <= limit then Unread(first, bytes, limit, at + step.size, k + 1) else limit - at
  }

  /** Between the two places the stream holds whole frames only. */
  ghost predicate WholeFrames(first: Framing, bytes: seq<Byte>, from: nat, j: nat, at: nat, k: nat)
    requires IsFraming(first) && from <= |bytes| && at <= |bytes|
  {
    forall limit: nat {:trigger Unread(first, bytes, limit, at, k)} ::
      at <= limit ==> Unread(first, bytes, limit, from, j) == Unread(first, bytes, limit, at, k)
  }

  lemma OneMoreFrame(first: Framing, bytes: seq<Byte>, from: nat, j: nat, at: nat, k: nat, size: nat)
    requires IsFraming(first) && from <= |bytes| && at + size <= |bytes| && WholeFrames(first, bytes, from, j, at, k)
    requires first(bytes[at..], k).Take? && first(bytes[at..], k).size == size
    ensures WholeFrames(first, bytes, from, j, at + size, k + 1)
  {
    forall limit: nat | at + size <= limit
      ensures Unread(first, bytes, limit, from, j) == Unread(first, bytes, limit, at + size, k + 1)
    {
      assert Unread(first, bytes, limit, from, j) == Unread(first, bytes, limit, at, k);
    }
  }

  lemma JoinFrames(first: Framing, bytes: seq<Byte>, from: nat, j: nat, middle: nat, m: nat, at: nat, k: nat)
    requires IsFraming(first) && from <= |bytes| && middle <= at <= |bytes|
    requires WholeFrames(first, bytes, from, j, middle, m) && WholeFrames(first, bytes, middle, m, at, k)
    ensures WholeFrames(first, bytes, from, j, at, k)
  {
    forall limit: nat | at <= limit
      ensures Unread(first, bytes, limit, from, j) == Unread(first, bytes, limit, at, k)
    {
      assert Unread(first, bytes, limit, middle, m) == Unread(first, bytes, limit, at, k);
    }
  }

  /** A buffer that shows no whole frame holds exactly the bytes that belong to none. */
  lemma BufferIsUnread(first: Framing, r: Reader, bytes: seq<Byte>, at: nat, before: nat, received: nat)
    requires IsFraming(first) && StandsAt(first, r, bytes, at, before, received)
    requires first(r.buffered, r.expectedSequence) == Wait
    ensures Unread(first, bytes, received, at, r.expectedSequence) == |r.buffered|
  {
    assert r.buffered == bytes[at..][..received - at];
    assert Stable(first, r.buffered, bytes[at..], r.expectedSequence);
  }

  /** Decodes every whole frame in the buffer once the chunk that ends at `received` is in it. */
  method Drain(
    first: Framing, start: Reader, ghost bytes: seq<Byte>, ghost cuts: set<nat>, ghost at0: nat, ghost before: nat, ghost received: nat)
    returns (r: Reader, failure: Option<Failure>, ghost at: nat)
    requires IsFraming(first) && StandsAt(first, start, bytes, at0, before, received) && OneChunk(cuts, before, received)
    ensures failure == None ==>
              StandsAt(first, r, bytes, at, before, received) && first(r.buffered, r.expectedSequence) == Wait
              && Continued(first, r, bytes, cuts, at) == Continued(first, start, bytes, cuts, at0)
              && at0 <= at && WholeFrames(first, bytes, at0, start.expectedSequence, at, r.expectedSequence)
    ensures failure.Some? ==> Outcome(r.frames, failure) == Continued(first, start, bytes, cuts, at0)
  {
    ghost var goal := Continued(first, start, bytes, cuts, at0);
    failure, r, at := None, start, at0;
    while true
      invariant StandsAt(first, r, bytes, at, before, received)
      invariant Continued(first, r, bytes, cuts, at) == goal
      invariant at0 <= at && WholeFrames(first, bytes, at0, start.expectedSequence, at, r.expectedSequence)
      decreases |r.buffered|
    {
      AcceptFrame(first, r, bytes, cuts, at, before, received);
      BufferShows(first, r, bytes, at, before, received);
      var step := first(r.buffered, r.expectedSequence);
      if step == Wait {
        break;
      }
      if step.Fail? {
        return r, Some(step.failure), at;
      }
      OneMoreFrame(first, bytes, at0, start.expectedSequence, at, r.expectedSequence, step.size);
      r := Reader(r.buffered[step.size..], r.expectedSequence + 1, step.last, r.frames + [step.frame]);
      at := at + step.size;
      if r.terminal && |r.buffered| != 0 {
        return r, Some(BytesAfterTerminal), at;
      }
    }
  }

  /** The buffer shows what the stream shows; a frame it shows ends in the chunk that just arrived. */
  lemma BufferShows(first: Framing, r: Reader, bytes: seq<Byte>, at: nat, before: nat, received: nat)
    requires IsFraming(first) && StandsAt(first, r, bytes, at, before, received)
    ensures var step := first(r.buffered, r.expectedSequence);
            && (step != Wait ==> first(bytes[at..], r.expectedSequence) == step)
            && (step.Take? ==> 0 < step.size <= |r.buffered| && before < at + step.size)
  {
    var k := r.expectedSequence;
    assert r.buffered == bytes[at..][..received - at];
    assert Stable(first, r.buffered, bytes[at..], k);
    if at <= before {
      assert bytes[at..before] == r.buffered[..before - at];
      assert Stable(first, bytes[at..before], r.buffered, k);
    }
  }

  /** One turn of the decoding loop, in terms of the whole stream. */
  lemma AcceptFrame(first: Framing, r: Reader, bytes: seq<Byte>, cuts: set<nat>, at: nat, before: nat, received: nat)
    requires IsFraming(first) && StandsAt(first, r, bytes, at, before, received) && OneChunk(cuts, before, received)
    ensures var all := Continued(first, r, bytes, cuts, at);
            match first(r.buffered, r.expectedSequence)
            case Wait => true
            case Fail(e) => all == Outcome(r.frames, Some(e))
            case Take(frame, size, last) =>
              && 0 < size <= |r.buffered|
              && var next := Reader(r.buffered[size..], r.expectedSequence + 1, last, r.frames + [frame]);
              && StandsAt(first, next, bytes, at + size, before, received)
              && all == if last && |next.buffered| != 0
                        then Outcome(next.frames, Some(BytesAfterTerminal))
                        else Continued(first, next, bytes, cuts, at + size)
  {
    var step := first(r.buffered, r.expectedSequence);
    BufferShows(first, r, bytes, at, before, received);
    if step.Take? {
      assert r.buffered[step.size..] == bytes[at + step.size..received];
    }
  }

  /** A buffer of this many bytes shows no whole frame. */
  ghost predicate Unfinished(first: Framing, n: nat) {
    exists buffer, k: nat {:trigger first(buffer, k)} :: first(buffer, k) == Wait && |buffer| == n
  }

  ghost predicate KeptAt(first: Framing, chunks: seq<seq<Byte>>, kept: seq<nat>, i: nat)
    requires IsFraming(first) && i < |kept| <= |chunks|
  {
    kept[i] == Unread(first, Flatten(chunks), |Flatten(chunks[..i + 1])|, 0, 0) && Unfinished(first, kept[i])
  }

  /** After each chunk exactly the bytes of the frame that is not whole yet stay buffered. */
  ghost predicate KeepsUnread(first: Framing, chunks: seq<seq<Byte>>, kept: seq<nat>)
    requires IsFraming(first)
  {
    |kept| <= |chunks| && forall i: nat {:trigger KeptAt(first, chunks, kept, i)} :: i < |kept| ==> KeptAt(first, chunks, kept, i)
  }

  lemma KeepsOneMore(first: Framing, chunks: seq<seq<Byte>>, kept: seq<nat>, n: nat)
    requires IsFraming(first) && KeepsUnread(first, chunks, kept) && |kept| < |chunks|
    requires n == Unread(first, Flatten(chunks), |Flatten(chunks[..|kept| + 1])|, 0, 0) && Unfinished(first, n)
    ensures KeepsUnread(first, chunks, kept + [n])
  {
    forall i: nat | i < |kept| + 1
      ensures KeptAt(first, chunks, kept + [n], i)
    {
      assert i < |kept| ==> KeptAt(first, chunks, kept, i);
    }
  }

  /** Takes in chunk number `i` and decodes every frame that it completes. */
  method AcceptChunk(first: Framing, chunks: seq<seq<Byte>>, i: nat, start: Reader, ghost at0: nat)
    returns (r: Reader, failure: Option<Failure>, ghost at: nat)
    requires IsFraming(first) && i < |chunks| && ReadsBefore(first, chunks, i, start, at0)
    ensures failure == None ==> ReadsBefore(first, chunks, i + 1, r, at)
    ensures failure == None ==> Unread(first, Flatten(chunks), |Flatten(chunks[..i + 1])|, 0, 0) == |r.buffered|
    ensures failure.Some? ==> Outcome(r.frames, failure) == Parse(first, Flatten(chunks), Ends(chunks), 0, 0, false, [])
  {
    ghost var bytes, cuts := Flatten(chunks), Ends(chunks);
    ghost var before, received := |Flatten(chunks[..i])|, |Flatten(chunks[..i + 1])|;
    ChunkArrives(chunks, i, at0);
    r := start.(buffered := start.buffered + chunks[i]);
    r, failure, at := Drain(first, r, bytes, cuts, at0, before, received);
    if failure == None {
      JoinFrames(first, bytes, 0, 0, at0, start.expectedSequence, at, r.expectedSequence);
      BufferIsUnread(first, r, bytes, at, before, received);
    }
  }

  /** The reader has decoded what it can of the first `i` chunks. */
  ghost predicate ReadsBefore(first: Framing, chunks: seq<seq<Byte>>, i: nat, r: Reader, at: nat)
    requires IsFraming(first) && i <= |chunks|
  {
    var bytes, received := Flatten(chunks), |Flatten(chunks[..i])|;
    && StandsAt(first, r, bytes, at, received, received) && first(r.buffered, r.expectedSequence) == Wait
    && Continued(first, r, bytes, Ends(chunks), at) == Parse(first, bytes, Ends(chunks), 0, 0, false, [])
    && WholeFrames(first, bytes, 0, 0, at, r.expectedSequence)
  }

  /** Reads the chunks as they arrive; `kept` lists how many bytes stayed buffered after each. */
  method Consume(first: Framing, chunks: seq<seq<Byte>>)
    returns (frames: seq<Frame>, failure: Option<Failure>, ghost kept: seq<nat>)
    requires IsFraming(first) && first([], 0) == Wait
    ensures Outcome(frames, failure) == Parse(first, Flatten(chunks), Ends(chunks), 0, 0, false, [])
    ensures KeepsUnread(first, chunks, kept) && (failure == None ==> |kept| == |chunks|)
  {
    var r := Reader([], 0, false, []);
    kept := [];
    ghost var at: nat := 0;
    for i := 0 to |chunks|
      invariant ReadsBefore(first, chunks, i, r, at)
      invariant |kept| == i && KeepsUnread(first, chunks, kept)
    {
      r, failure, at := AcceptChunk(first, chunks, i, r, at);
      if failure != None {
        return r.frames, failure, kept;
      }
      KeepsOneMore(first, chunks, kept, |r.buffered|);
      kept := kept + [|r.buffered|];
    }
    assert chunks[..|chunks|] == chunks;
    assert r.buffered == Flatten(chunks)[at..];
    frames := r.frames;
    failure := if !r.terminal || |r.buffered| != 0 then Some(EndedEarly) else None;
  }

  /**
   The decoder of the proxy stream: its outcome is that of the parser that sees everything
   at once, and only the bytes of one frame that is not whole stay buffered between chunks.
   */
  method ConsumeFrames(chunks: seq<seq<Byte>>, json: Json)
    returns (frames: seq<Frame>, failure: Option<Failure>, ghost kept: seq<nat>)
    ensures Outcome(frames, failure) == Decoded(chunks, json)
    ensures IsFraming(ProxyFraming(json)) && KeepsUnread(ProxyFraming(json), chunks, kept)
    ensures failure == None ==> |kept| == |chunks|
    ensures forall n :: n in kept ==> n < FRAME_HEADER_BYTES + MAX_FRAME_PAYLOAD_BYTES
  {
    ProxyFramingIsFraming(json);
    frames, failure, kept := Consume(ProxyFraming(json), chunks);
    forall i: nat | i < |kept|
      ensures kept[i] < FRAME_HEADER_BYTES + MAX_FRAME_PAYLOAD_BYTES
    {
      assert KeptAt(ProxyFraming(json), chunks, kept, i);
    }
  }

  ghost function Decoded(chunks: seq<seq<Byte>>, json: Json): Outcome {
    ProxyFramingIsFraming(json);
    Parse(ProxyFraming(json), Flatten(chunks), Ends(chunks), 0, 0, false, [])
  }

  lemma ChunkArrives(chunks: seq<seq<Byte>>, i: nat, at: nat)
    requires i < |chunks| && at <= |Flatten(chunks[..i])|
    ensures var before, received := |Flatten(chunks[..i])|, |Flatten(chunks[..i + 1])|;
            var bytes := Flatten(chunks);
            && received == before + |chunks[i]| <= |bytes|
            && bytes[at..before] + chunks[i] == bytes[at..received]
            && OneChunk(Ends(chunks), before, received)
  {
    var before, received := |Flatten(chunks[..i])|, |Flatten(chunks[..i + 1])|;
    assert chunks[..i + 1][..i] == chunks[..i];
    FlattenGrows(chunks, i);
    FlattenGrows(chunks, i + 1);
    ChunkEndIsCut(chunks, i);
    forall offset | before < offset < received
      ensures offset !in Ends(chunks)
    {
      NoCutInside(chunks, i, offset);
    }
    var bytes := Flatten(chunks);
    assert bytes[..received] == bytes[..before] + chunks[i];
  }
}
