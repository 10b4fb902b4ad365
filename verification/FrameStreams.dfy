/** Which streams the decoder accepts. */
module FrameStreams {
  import opened Wrappers
  import opened BigEndian
  import opened FrameProtocol
  import opened FrameDecoder

  /** The frames one after another, numbered from 0. */
  function EncodeAll(frames: seq<Frame>): seq<Byte> {
    if frames == [] then []
    else EncodeAll(frames[..|frames| - 1]) + Encode(frames[|frames| - 1], |frames| - 1)
  }

  predicate AllSound(frames: seq<Frame>, json: Json) {
    && |frames| <= SEQUENCE_LIMIT
    && forall i :: 0 <= i < |frames| ==> Sound(frames[i], json)
  }

  predicate EndsComplete(frames: seq<Frame>) {
    frames != [] && frames[|frames| - 1].kind == Complete
  }

  /** Every complete frame ends where a chunk ends. */
  ghost predicate CompletesEndChunks(frames: seq<Frame>, cuts: set<nat>) {
    forall i: nat {:trigger frames[i]} :: i < |frames| && frames[i].kind == Complete ==> |EncodeAll(frames[..i + 1])| in cuts
  }

  /** Deliverable frames, of which the last is a complete frame and no other is. */
  predicate SingleComplete(frames: seq<Frame>) {
    && EndsComplete(frames)
    && forall i :: 0 <= i < |frames| - 1 ==> frames[i].kind != Complete
  }

  lemma EncodedNext(frames: seq<Frame>, i: nat)
    requires i < |frames|
    ensures EncodeAll(frames[..i + 1]) == EncodeAll(frames[..i]) + Encode(frames[i], i)
  {
    assert frames[..i + 1][..i] == frames[..i];
  }

  lemma {:induction false} PrefixEncoded(frames: seq<Frame>, i: nat)
    requires i <= |frames|
    ensures EncodeAll(frames[..i]) <= EncodeAll(frames)
    decreases |frames| - i
  {
    if i == |frames| {
      assert frames[..i] == frames;
    } else {
      EncodedNext(frames, i);
      PrefixEncoded(frames, i + 1);
    }
  }

  /** The bytes of an encoded list, from the place of frame `i` on, start with that frame. */
  ghost predicate Shown(first: Framing, frames: seq<Frame>, i: nat)
    requires i < |frames|
  {
    var at, bytes := |EncodeAll(frames[..i])|, EncodeAll(frames);
    && at <= |bytes|
    && first(bytes[at..], i) == Take(frames[i], Size(frames[i]), frames[i].kind == Complete)
    && |EncodeAll(frames[..i + 1])| == at + Size(frames[i]) <= |bytes|
  }

  lemma PlaceOfFrame(frames: seq<Frame>, i: nat) returns (rest: seq<Byte>)
    requires i < |frames|
    ensures var at, bytes := |EncodeAll(frames[..i])|, EncodeAll(frames);
            && at <= |bytes| && bytes[at..] == Encode(frames[i], i) + rest
            && |EncodeAll(frames[..i + 1])| == at + Size(frames[i]) <= |bytes|
  {
    var before, through, bytes := EncodeAll(frames[..i]), EncodeAll(frames[..i + 1]), EncodeAll(frames);
    PrefixEncoded(frames, i);
    PrefixEncoded(frames, i + 1);
    EncodedNext(frames, i);
    rest := bytes[|through|..];
    assert bytes == through + rest;
  }

  lemma FrameShown(frames: seq<Frame>, i: nat, json: Json)
    requires AllSound(frames, json) && i < |frames|
    ensures Shown(ProxyFraming(json), frames, i)
  {
    var rest := PlaceOfFrame(frames, i);
    EncodedFrameShows(frames[i], i, rest, json);
  }

  lemma ParseTakes(
    first: Framing, bytes: seq<Byte>, cuts: set<nat>, at: nat, k: nat, terminal: bool, done: seq<Frame>, more: seq<Frame>,
    frame: Frame, size: nat, last: bool)
    requires IsFraming(first) && at <= |bytes| && first(bytes[at..], k) == Take(frame, size, last)
    requires (last ==> at + size in cuts) && more == done + [frame]
    ensures 0 < size <= |bytes| - at
    ensures Parse(first, bytes, cuts, at, k, terminal, done) == Parse(first, bytes, cuts, at + size, k + 1, last, more)
  {
    assert Stable(first, bytes[at..], bytes[at..], k);
  }

  lemma ParseEnds(first: Framing, bytes: seq<Byte>, cuts: set<nat>, k: nat, done: seq<Frame>)
    requires IsFraming(first) && first([], k) == Wait
    ensures Parse(first, bytes, cuts, |bytes|, k, true, done) == Outcome(done, None)
  {
    assert bytes[|bytes|..] == [];
  }

  /** Frame number `i` is taken where it stands, and the parser goes on where the next one stands. */
  lemma EncodedIsTaken(
    first: Framing, frames: seq<Frame>, bytes: seq<Byte>, cuts: set<nat>, i: nat, at: nat, next: nat, terminal: bool, last: bool)
    requires IsFraming(first) && i < |frames| && Shown(first, frames, i)
    requires CompletesEndChunks(frames, cuts) && bytes == EncodeAll(frames) && at == |EncodeAll(frames[..i])| <= |bytes|
    requires next == at + Size(frames[i]) && last == (frames[i].kind == Complete)
    ensures next == |EncodeAll(frames[..i + 1])| <= |bytes|
    ensures Parse(first, bytes, cuts, at, i, terminal, frames[..i])
            == Parse(first, bytes, cuts, next, i + 1, last, frames[..i + 1])
  {
    ParseTakes(first, bytes, cuts, at, i, terminal, frames[..i], frames[..i + 1], frames[i], Size(frames[i]), last);
  }

  /** Encoded frames are delivered from any of them on, unless a complete frame ends inside a chunk. */
  lemma {:induction false} EncodedIsDelivered(
    first: Framing, frames: seq<Frame>, bytes: seq<Byte>, cuts: set<nat>, i: nat, at: nat, terminal: bool)
    requires IsFraming(first) && first([], |frames|) == Wait
    requires forall j: nat {:trigger Shown(first, frames, j)} :: j < |frames| ==> Shown(first, frames, j)
    requires EndsComplete(frames) && CompletesEndChunks(frames, cuts) && bytes == EncodeAll(frames)
    requires i <= |frames| && (i == |frames| ==> terminal) && at == |EncodeAll(frames[..i])| <= |bytes|
    ensures Parse(first, bytes, cuts, at, i, terminal, frames[..i]) == Outcome(frames, None)
    decreases |frames| - i
  {
    if i == |frames| {
      assert frames[..i] == frames;
      ParseEnds(first, bytes, cuts, i, frames);
    } else {
      assert Shown(first, frames, i);
      var next, last := at + Size(frames[i]), frames[i].kind == Complete;
      EncodedIsTaken(first, frames, bytes, cuts, i, at, next, terminal, last);
      EncodedIsDelivered(first, frames, bytes, cuts, i + 1, next, last);
    }
  }

  /** What is known of a stream after the decoder took the frames `done` from its first bytes. */
  ghost predicate Taken(done: seq<Frame>, terminal: bool, bytes: seq<Byte>, cuts: set<nat>, at: nat, json: Json) {
    && at <= |bytes| && bytes[..at] == EncodeAll(done)
    && AllSound(done, json) && CompletesEndChunks(done, cuts)
    && (terminal ==> EndsComplete(done))
  }

  /** Taking a frame means its encoding stood at the front of the buffer. */
  ghost predicate TakesEncoded(first: Framing, buffer: seq<Byte>, k: nat, json: Json) {
    var step := first(buffer, k);
    step.Take? ==>
      && step.size <= |buffer| && buffer[..step.size] == Encode(step.frame, k)
      && Sound(step.frame, json) && k < SEQUENCE_LIMIT && step.last == (step.frame.kind == Complete)
  }

  lemma CompletesEndMore(done: seq<Frame>, frame: Frame, cuts: set<nat>, next: nat)
    requires CompletesEndChunks(done, cuts) && next == |EncodeAll(done + [frame])| && (frame.kind == Complete ==> next in cuts)
    ensures CompletesEndChunks(done + [frame], cuts)
  {
    var more := done + [frame];
    forall i: nat | i < |more| && more[i].kind == Complete
      ensures |EncodeAll(more[..i + 1])| in cuts
    {
      if i < |done| {
        assert more[i] == done[i] && more[..i + 1] == done[..i + 1];
      } else {
        assert more[..i + 1] == more;
      }
    }
  }

  lemma TakeOne(
    done: seq<Frame>, terminal: bool, frame: Frame, bytes: seq<Byte>, cuts: set<nat>, at: nat, next: nat, json: Json)
    requires Taken(done, terminal, bytes, cuts, at, json) && at <= next <= |bytes|
    requires bytes[at..][..next - at] == Encode(frame, |done|) && Sound(frame, json) && |done| < SEQUENCE_LIMIT
    requires frame.kind == Complete ==> next in cuts
    ensures Taken(done + [frame], frame.kind == Complete, bytes, cuts, next, json)
  {
    var more := done + [frame];
    EncodedNext(more, |done|);
    assert more[..|done|] == done && more[..|done| + 1] == more;
    assert bytes[..next] == bytes[..at] + bytes[at..][..next - at];
    CompletesEndMore(done, frame, cuts, next);
  }

  /** What one step of an accepted parse shows. */
  lemma AcceptedStep(
    first: Framing, bytes: seq<Byte>, cuts: set<nat>, at: nat, k: nat, terminal: bool, done: seq<Frame>, frames: seq<Frame>, step: Step)
    requires IsFraming(first) && at <= |bytes| && step == first(bytes[at..], k)
    requires Parse(first, bytes, cuts, at, k, terminal, done) == Outcome(frames, None)
    ensures !step.Fail? && (step == Wait ==> terminal && at == |bytes| && frames == done)
    ensures step.Take? ==>
              && 0 < step.size <= |bytes| - at && (step.last ==> at + step.size in cuts)
              && Parse(first, bytes, cuts, at + step.size, k + 1, step.last, done + [step.frame]) == Outcome(frames, None)
  {
    assert Stable(first, bytes[at..], bytes[at..], k);
  }

  /** Whatever the decoder accepts is an encoded list whose complete frames end chunks. */
  lemma {:induction false} DeliveredIsEncoded(
    first: Framing, done: seq<Frame>, terminal: bool, bytes: seq<Byte>, cuts: set<nat>, at: nat, json: Json, frames: seq<Frame>)
    requires IsFraming(first) && Taken(done, terminal, bytes, cuts, at, json)
    requires forall buffer, k {:trigger TakesEncoded(first, buffer, k, json)} :: TakesEncoded(first, buffer, k, json)
    requires Parse(first, bytes, cuts, at, |done|, terminal, done) == Outcome(frames, None)
    ensures bytes == EncodeAll(frames) && AllSound(frames, json) && EndsComplete(frames) && CompletesEndChunks(frames, cuts)
    decreases |bytes| - at
  {
    var step := first(bytes[at..], |done|);
    AcceptedStep(first, bytes, cuts, at, |done|, terminal, done, frames, step);
    if step == Wait {
      assert bytes[..at] == bytes;
    } else {
      assert TakesEncoded(first, bytes[at..], |done|, json);
      TakeOne(done, terminal, step.frame, bytes, cuts, at, at + step.size, json);
      DeliveredIsEncoded(first, done + [step.frame], step.last, bytes, cuts, at + step.size, json, frames);
    }
  }

  lemma ProxyTakesEncoded(json: Json)
    ensures forall buffer, k {:trigger TakesEncoded(ProxyFraming(json), buffer, k, json)} ::
              TakesEncoded(ProxyFraming(json), buffer, k, json)
  {
    forall buffer, k: nat
      ensures TakesEncoded(ProxyFraming(json), buffer, k, json)
    {
      if FirstFrame(buffer, k, json).Take? {
        TakenFrameIsEncoded(buffer, k, json);
      }
    }
  }

  lemma ProxyShows(frames: seq<Frame>, json: Json)
    requires AllSound(frames, json)
    ensures forall j: nat {:trigger Shown(ProxyFraming(json), frames, j)} ::
              j < |frames| ==> Shown(ProxyFraming(json), frames, j)
    ensures ProxyFraming(json)([], |frames|) == Wait
  {
    forall j: nat | j < |frames|
      ensures Shown(ProxyFraming(json), frames, j)
    {
      FrameShown(frames, j, json);
    }
  }

  /**
   A normal return with exactly these frames means exactly this: the bytes are these
   frames, whole and numbered from 0, the last is a complete frame, and every complete
   frame ended a chunk.
   */
  lemma AcceptsExactlyStreams(chunks: seq<seq<Byte>>, json: Json, frames: seq<Frame>)
    ensures Decoded(chunks, json) == Outcome(frames, None)
            <==> && Flatten(chunks) == EncodeAll(frames) && AllSound(frames, json)
                 && EndsComplete(frames) && CompletesEndChunks(frames, Ends(chunks))
  {
    ProxyFramingIsFraming(json);
    var first, bytes, cuts := ProxyFraming(json), Flatten(chunks), Ends(chunks);
    assert frames[..0] == [];
    if Parse(first, bytes, cuts, 0, 0, false, []) == Outcome(frames, None) {
      ProxyTakesEncoded(json);
      DeliveredIsEncoded(first, [], false, bytes, cuts, 0, json, frames);
    }
    if bytes == EncodeAll(frames) && AllSound(frames, json) && EndsComplete(frames) && CompletesEndChunks(frames, cuts) {
      ProxyShows(frames, json);
      EncodedIsDelivered(first, frames, bytes, cuts, 0, 0, false);
    }
  }

  lemma {:induction false} WholeStreamIsACut(chunks: seq<seq<Byte>>)
    requires Flatten(chunks) != []
    ensures |Flatten(chunks)| in Ends(chunks)
  {
  }

  /** A stream with one complete frame, its last, is delivered whole under every split into chunks. */
  lemma EverySplitIsAccepted(chunks: seq<seq<Byte>>, json: Json, frames: seq<Frame>)
    requires Flatten(chunks) == EncodeAll(frames) && AllSound(frames, json) && SingleComplete(frames)
    ensures Decoded(chunks, json) == Outcome(frames, None)
  {
    WholeStreamIsACut(chunks);
    assert frames[..|frames|] == frames;
    assert CompletesEndChunks(frames, Ends(chunks));
    AcceptsExactlyStreams(chunks, json, frames);
  }

  lemma SingleChunk(bytes: seq<Byte>)
    ensures Flatten([bytes]) == bytes && Ends([bytes]) == {|bytes|}
  {
    var chunks := [bytes];
    assert chunks[..0] == [];
  }

  /** A stream in one chunk is accepted exactly when no complete frame precedes its last frame. */
  lemma OneChunkAccepts(json: Json, frames: seq<Frame>)
    requires AllSound(frames, json) && EndsComplete(frames)
    ensures Decoded([EncodeAll(frames)], json) == Outcome(frames, None) <==> SingleComplete(frames)
  {
    var bytes := EncodeAll(frames);
    SingleChunk(bytes);
    if SingleComplete(frames) {
      EverySplitIsAccepted([bytes], json, frames);
    } else {
      var i :| 0 <= i < |frames| - 1 && frames[i].kind == Complete;
      AcceptsExactlyStreams([bytes], json, frames);
      FrameShown(frames, i, json);
      FrameShown(frames, i + 1, json);
      assert |EncodeAll(frames[..i + 1])| !in Ends([bytes]);
    }
  }

  /** The chunk boundaries are irrelevant exactly when the stream holds a single complete frame. */
  lemma SplitMattersIffCompleteInside(json: Json, frames: seq<Frame>)
    requires AllSound(frames, json) && EndsComplete(frames)
    ensures (forall chunks :: Flatten(chunks) == EncodeAll(frames) ==> Decoded(chunks, json) == Outcome(frames, None))
            <==> SingleComplete(frames)
  {
    OneChunkAccepts(json, frames);
    SingleChunk(EncodeAll(frames));
    if SingleComplete(frames) {
      forall chunks | Flatten(chunks) == EncodeAll(frames)
        ensures Decoded(chunks, json) == Outcome(frames, None)
      {
        EverySplitIsAccepted(chunks, json, frames);
      }
    }
  }
}
