/** Which failure a refused stream has, told by the octets of its first frame that is not taken. */
module FrameFailures {
  import opened Wrappers
  import opened BigEndian
  import opened FrameProtocol
  import opened FrameDecoder
  import opened FrameStreams

  // ---------------------------------------------------------------------
  // One frame, octet by octet
  // ---------------------------------------------------------------------

  function Next(high: int, low: int): int {
    256 * high + low
  }

  /** Octets 4 to 7, the highest first. */
  function SequenceIn(b: seq<Byte>): int
    requires |b| >= 16
  {
    Next(Next(Next(b[4], b[5]), b[6]), b[7])
  }

  /** Octets 8 to 15, the highest first. */
  function LengthIn(b: seq<Byte>): int
    requires |b| >= 16
  {
    Next(Next(Next(Next(Next(Next(Next(b[8], b[9]), b[10]), b[11]), b[12]), b[13]), b[14]), b[15])
  }

  lemma ReadNext(b: seq<Byte>, from: nat, to: nat)
    requires from < to <= |b|
    ensures Read(b[from..to]) == Next(Read(b[from..to - 1]), b[to - 1])
  {
    assert b[from..to][..to - 1 - from] == b[from..to - 1];
  }

  lemma ReadNone(b: seq<Byte>, from: nat)
    requires from <= |b|
    ensures Read(b[from..from]) == 0
  {
  }

  lemma ReadFour(b: seq<Byte>)
    requires |b| >= 16
    ensures Read(b[4..8]) == SequenceIn(b)
  {
    ReadNone(b, 4);
    ReadNext(b, 4, 5);
    ReadNext(b, 4, 6);
    ReadNext(b, 4, 7);
    ReadNext(b, 4, 8);
  }

  lemma ReadEight(b: seq<Byte>)
    requires |b| >= 16
    ensures Read(b[8..16]) == LengthIn(b)
  {
    ReadNone(b, 8);
    ReadNext(b, 8, 9);
    ReadNext(b, 8, 10);
    ReadNext(b, 8, 11);
    ReadNext(b, 8, 12);
    ReadNext(b, 8, 13);
    ReadNext(b, 8, 14);
    ReadNext(b, 8, 15);
    ReadNext(b, 8, 16);
  }

  lemma ReadTwo(b: seq<Byte>)
    requires |b| >= 16
    ensures Read(b[2..4]) == Next(b[2], b[3])
  {
    ReadNone(b, 2);
    ReadNext(b, 2, 3);
    ReadNext(b, 2, 4);
  }

  /** The header announces a payload of at most 1,048,576 bytes, and all of it is there. */
  predicate IsWhole(b: seq<Byte>) {
    |b| >= 16 && LengthIn(b) <= 1_048_576 && 16 + LengthIn(b) <= |b|
  }

  /** A whole frame of a known type with zero flags and reserved octets and the expected number. */
  predicate IsRegular(b: seq<Byte>, k: nat) {
    IsWhole(b) && 1 <= b[0] <= 6 && b[1] == 0 && b[2] == 0 && b[3] == 0 && SequenceIn(b) == k
  }

  function PayloadIn(b: seq<Byte>): seq<Byte>
    requires IsWhole(b)
  {
    b[16..16 + LengthIn(b)]
  }

  /** Types 1, 4 and 5 carry JSON. */
  predicate CarriesJson(kind: Byte) {
    kind == 1 || kind == 4 || kind == 5
  }

  /** What the octets at the front of a buffer show; every verdict has its own condition. */
  lemma VerdictIs(b: seq<Byte>, k: nat, json: Json)
    ensures var step := FirstFrame(b, k, json);
            && (step == Wait <==> |b| < 16 || (LengthIn(b) <= 1_048_576 && |b| < 16 + LengthIn(b)))
            && (step == Fail(LengthInvalid) <==> |b| >= 16 && 1_048_576 < LengthIn(b))
            && (step == Fail(UnknownType) <==> IsWhole(b) && !(1 <= b[0] <= 6))
            && (step == Fail(HeaderInvalid) <==> IsWhole(b) && 1 <= b[0] <= 6 && !IsRegular(b, k))
            && (step == Fail(PayloadNotJson) <==> IsRegular(b, k) && CarriesJson(b[0]) && !json(PayloadIn(b)))
            && (step.Fail? && step.failure.Reported? <==> IsRegular(b, k) && b[0] == 5 && json(PayloadIn(b)))
            && (step.Fail? && step.failure.Reported? ==> step.failure.detail == PayloadIn(b))
            && (step.Take? <==> IsRegular(b, k) && b[0] != 5 && (CarriesJson(b[0]) ==> json(PayloadIn(b))))
  {
    if |b| >= 16 {
      ReadTwo(b);
      ReadFour(b);
      ReadEight(b);
    }
  }

  /** The frame that is taken: its payload, its size, and its type by number; only type 4 is the last. */
  lemma TakenIs(b: seq<Byte>, k: nat, json: Json)
    requires FirstFrame(b, k, json).Take?
    ensures IsRegular(b, k)
    ensures var step := FirstFrame(b, k, json);
            && step.frame.payload == PayloadIn(b) && step.size == 16 + LengthIn(b) && (step.last <==> b[0] == 4)
            && step.frame.kind == if b[0] == 1 then ResponseHead else if b[0] == 2 then Body else if b[0] == 3 then Trailers
                                  else if b[0] == 4 then Complete else Heartbeat
  {
    VerdictIs(b, k, json);
    ReadEight(b);
  }

  // ---------------------------------------------------------------------
  // Whole streams
  // ---------------------------------------------------------------------

  predicate CompleteBefore(frames: seq<Frame>, i: nat)
    requires i <= |frames|
  {
    i > 0 && frames[i - 1].kind == Complete
  }

  /** The stream holds these deliverable frames, of which the complete ones end chunks, and then a rest. */
  ghost predicate Begins(chunks: seq<seq<Byte>>, frames: seq<Frame>, rest: seq<Byte>, json: Json) {
    && Flatten(chunks) == EncodeAll(frames) + rest
    && AllSound(frames, json) && CompletesEndChunks(frames, Ends(chunks))
  }

  lemma EncodingStands(frames: seq<Frame>, rest: seq<Byte>, i: nat, bytes: seq<Byte>, at: nat, next: nat) returns (more: seq<Byte>)
    requires i < |frames| && bytes == EncodeAll(frames) + rest
    requires at == |EncodeAll(frames[..i])| && next == |EncodeAll(frames[..i + 1])|
    ensures at < next <= |bytes| && next - at == Size(frames[i]) && bytes[at..] == Encode(frames[i], i) + more
  {
    var after := PlaceOfFrame(frames, i);
    more := after + rest;
    assert bytes[at..] == EncodeAll(frames)[at..] + rest;
    assert Encode(frames[i], i) + after + rest == Encode(frames[i], i) + more;
  }

  lemma EncodingShows(first: Framing, frame: Frame, k: nat, more: seq<Byte>, buffer: seq<Byte>, json: Json)
    requires first == ProxyFraming(json) && buffer == Encode(frame, k) + more && Sound(frame, json) && k < SEQUENCE_LIMIT
    ensures first(buffer, k) == Take(frame, Size(frame), frame.kind == Complete)
  {
    EncodedFrameShows(frame, k, more, json);
  }

  /** Frame number `i` stands at offset `at` and ends at `next`, with a chunk if it is a complete frame. */
  ghost predicate StandsWhole(first: Framing, frame: Frame, i: nat, bytes: seq<Byte>, cuts: set<nat>, at: nat, next: nat) {
    && at < next <= |bytes| && first(bytes[at..], i) == Take(frame, next - at, frame.kind == Complete)
    && (frame.kind == Complete ==> next in cuts)
  }

  lemma FrameStands(
    first: Framing, frames: seq<Frame>, rest: seq<Byte>, bytes: seq<Byte>, cuts: set<nat>, i: nat, at: nat, next: nat, json: Json)
    requires first == ProxyFraming(json) && i < |frames| && bytes == EncodeAll(frames) + rest
    requires AllSound(frames, json) && CompletesEndChunks(frames, cuts)
    requires at == |EncodeAll(frames[..i])| && next == |EncodeAll(frames[..i + 1])|
    ensures StandsWhole(first, frames[i], i, bytes, cuts, at, next)
  {
    var more := EncodingStands(frames, rest, i, bytes, at, next);
    EncodingShows(first, frames[i], i, more, bytes[at..], json);
  }

  lemma PassesFrame(
    first: Framing, frame: Frame, i: nat, bytes: seq<Byte>, cuts: set<nat>, at: nat, next: nat,
    terminal: bool, last: bool, done: seq<Frame>, more: seq<Frame>)
    requires IsFraming(first) && StandsWhole(first, frame, i, bytes, cuts, at, next)
    requires more == done + [frame] && last == (frame.kind == Complete)
    ensures Parse(first, bytes, cuts, at, i, terminal, done) == Parse(first, bytes, cuts, next, i + 1, last, more)
  {
    ParseTakes(first, bytes, cuts, at, i, terminal, done, more, frame, next - at, last);
  }

  lemma PassesOn(
    first: Framing, frame: Frame, i: nat, bytes: seq<Byte>, cuts: set<nat>, at: nat, next: nat,
    terminal: bool, last: bool, done: seq<Frame>, more: seq<Frame>, whole: Outcome)
    requires IsFraming(first) && StandsWhole(first, frame, i, bytes, cuts, at, next)
    requires more == done + [frame] && last == (frame.kind == Complete)
    requires whole == Parse(first, bytes, cuts, at, i, terminal, done)
    ensures next <= |bytes| && whole == Parse(first, bytes, cuts, next, i + 1, last, more)
  {
    PassesFrame(first, frame, i, bytes, cuts, at, next, terminal, last, done, more);
  }

  /** Where frame number `i` of encoded frames begins. */
  ghost function Offset(frames: seq<Frame>, i: nat): nat
    requires i <= |frames|
  {
    |EncodeAll(frames[..i])|
  }

  ghost predicate StandsIn(first: Framing, frames: seq<Frame>, bytes: seq<Byte>, cuts: set<nat>, i: nat)
    requires i < |frames|
  {
    StandsWhole(first, frames[i], i, bytes, cuts, Offset(frames, i), Offset(frames, i + 1))
  }

  ghost predicate AllStand(first: Framing, frames: seq<Frame>, bytes: seq<Byte>, cuts: set<nat>) {
    forall i: nat {:trigger StandsIn(first, frames, bytes, cuts, i)} :: i < |frames| ==> StandsIn(first, frames, bytes, cuts, i)
  }

  lemma FramesStand(first: Framing, frames: seq<Frame>, rest: seq<Byte>, bytes: seq<Byte>, cuts: set<nat>, json: Json)
    requires first == ProxyFraming(json) && bytes == EncodeAll(frames) + rest
    requires AllSound(frames, json) && CompletesEndChunks(frames, cuts)
    ensures AllStand(first, frames, bytes, cuts)
  {
    forall i: nat | i < |frames|
      ensures StandsIn(first, frames, bytes, cuts, i)
    {
      FrameStands(first, frames, rest, bytes, cuts, i, Offset(frames, i), Offset(frames, i + 1), json);
    }
  }

  /** The parser arrives behind the first `i` frames. */
  lemma {:induction false} ArrivesBehind(
    first: Framing, frames: seq<Frame>, bytes: seq<Byte>, cuts: set<nat>, i: nat, at: nat, done: seq<Frame>, last: bool, whole: Outcome)
    requires IsFraming(first) && whole == Parse(first, bytes, cuts, 0, 0, false, []) && AllStand(first, frames, bytes, cuts)
    requires i <= |frames| && done == frames[..i] && at == Offset(frames, i) && last == CompleteBefore(frames, i)
    ensures at <= |bytes| && whole == Parse(first, bytes, cuts, at, i, last, done)
  {
    if i > 0 {
      var n := i - 1;
      var before, terminal, start := frames[..n], CompleteBefore(frames, n), Offset(frames, n);
      ArrivesBehind(first, frames, bytes, cuts, n, start, before, terminal, whole);
      assert StandsIn(first, frames, bytes, cuts, n);
      PassesOn(first, frames[n], n, bytes, cuts, start, at, terminal, last, before, done, whole);
    }
  }

  lemma BehindAll(chunks: seq<seq<Byte>>, frames: seq<Frame>, rest: seq<Byte>, json: Json)
    requires Begins(chunks, frames, rest, json)
    ensures IsFraming(ProxyFraming(json))
    ensures var bytes, at := Flatten(chunks), |EncodeAll(frames)|;
            && at <= |bytes| && bytes[at..] == rest
            && Decoded(chunks, json)
               == Parse(ProxyFraming(json), bytes, Ends(chunks), at, |frames|, CompleteBefore(frames, |frames|), frames)
  {
    ProxyFramingIsFraming(json);
    assert frames[..|frames|] == frames;
    var first, bytes, cuts := ProxyFraming(json), Flatten(chunks), Ends(chunks);
    FramesStand(first, frames, rest, bytes, cuts, json);
    ArrivesBehind(first, frames, bytes, cuts, |frames|, |EncodeAll(frames)|, frames, CompleteBefore(frames, |frames|), Decoded(chunks, json));
  }

  /** The first frame that is not taken decides: its own failure is that of the stream. */
  lemma FailsWithFirstBadFrame(chunks: seq<seq<Byte>>, frames: seq<Frame>, rest: seq<Byte>, json: Json)
    requires Begins(chunks, frames, rest, json) && FirstFrame(rest, |frames|, json).Fail?
    ensures Decoded(chunks, json) == Outcome(frames, Some(FirstFrame(rest, |frames|, json).failure))
  {
    BehindAll(chunks, frames, rest, json);
  }

  /** A stream that stops anywhere but right behind a complete frame ended early. */
  lemma EndsEarlyIff(chunks: seq<seq<Byte>>, frames: seq<Frame>, rest: seq<Byte>, json: Json)
    requires Begins(chunks, frames, rest, json) && FirstFrame(rest, |frames|, json) == Wait
    ensures Decoded(chunks, json) == Outcome(frames, if rest == [] && EndsComplete(frames) then None else Some(EndedEarly))
  {
    BehindAll(chunks, frames, rest, json);
  }

  lemma ParseStops(first: Framing, bytes: seq<Byte>, cuts: set<nat>, at: nat, k: nat, terminal: bool, done: seq<Frame>, step: Step)
    requires IsFraming(first) && at <= |bytes| && step == first(bytes[at..], k)
    requires step.Take? && step.last && at + step.size !in cuts
    ensures Parse(first, bytes, cuts, at, k, terminal, done) == Outcome(done + [step.frame], Some(BytesAfterTerminal))
  {
    assert Stable(first, bytes[at..], bytes[at..], k);
  }

  /** A complete frame that does not end a chunk is delivered, but bytes come after it. */
  lemma BytesAfterComplete(chunks: seq<seq<Byte>>, frames: seq<Frame>, rest: seq<Byte>, json: Json, frame: Frame, size: nat)
    requires Begins(chunks, frames, rest, json) && FirstFrame(rest, |frames|, json) == Take(frame, size, true)
    requires |EncodeAll(frames)| + size !in Ends(chunks)
    ensures Decoded(chunks, json) == Outcome(frames + [frame], Some(BytesAfterTerminal))
  {
    BehindAll(chunks, frames, rest, json);
    StopsBehind(ProxyFraming(json), Flatten(chunks), Ends(chunks), |EncodeAll(frames)|, |frames|, CompleteBefore(frames, |frames|),
                frames, rest, frame, size, Decoded(chunks, json));
  }

  lemma StopsBehind(
    first: Framing, bytes: seq<Byte>, cuts: set<nat>, at: nat, k: nat, terminal: bool, done: seq<Frame>, rest: seq<Byte>,
    frame: Frame, size: nat, whole: Outcome)
    requires IsFraming(first) && at <= |bytes| && bytes[at..] == rest && first(rest, k) == Take(frame, size, true)
    requires at + size !in cuts && whole == Parse(first, bytes, cuts, at, k, terminal, done)
    ensures whole == Outcome(done + [frame], Some(BytesAfterTerminal))
  {
    ParseStops(first, bytes, cuts, at, k, terminal, done, Take(frame, size, true));
  }

  /** One of the three ends applies. */
  ghost predicate Stops(chunks: seq<seq<Byte>>, frames: seq<Frame>, rest: seq<Byte>, json: Json) {
    var step := FirstFrame(rest, |frames|, json);
    step.Take? ==> step.last && |EncodeAll(frames)| + step.size !in Ends(chunks)
  }

  lemma BeginsFurther(chunks: seq<seq<Byte>>, frames: seq<Frame>, rest: seq<Byte>, json: Json)
    requires Begins(chunks, frames, rest, json) && !Stops(chunks, frames, rest, json)
    ensures var step := FirstFrame(rest, |frames|, json);
            0 < step.size <= |rest| && Begins(chunks, frames + [step.frame], rest[step.size..], json)
  {
    var step, bytes, at := FirstFrame(rest, |frames|, json), Flatten(chunks), |EncodeAll(frames)|;
    TakenFrameIsEncoded(rest, |frames|, json);
    RestBegins(EncodeAll(frames), rest, bytes, at, step.size);
    TakeOne(frames, EndsComplete(frames), step.frame, bytes, Ends(chunks), at, at + step.size, json);
  }

  lemma RestBegins(front: seq<Byte>, rest: seq<Byte>, bytes: seq<Byte>, at: nat, size: nat)
    requires bytes == front + rest && at == |front| && size <= |rest|
    ensures bytes[..at] == front && bytes[at..][..size] == rest[..size]
    ensures bytes == bytes[..at + size] + rest[size..]
  {
  }

  /** Every stream begins with deliverable frames and then comes to one of the three ends. */
  lemma {:induction false} EveryStreamStops(chunks: seq<seq<Byte>>, done: seq<Frame>, rest0: seq<Byte>, json: Json)
    returns (frames: seq<Frame>, rest: seq<Byte>)
    requires Begins(chunks, done, rest0, json)
    ensures Begins(chunks, frames, rest, json) && Stops(chunks, frames, rest, json)
    decreases |rest0|
  {
    if Stops(chunks, done, rest0, json) {
      frames, rest := done, rest0;
    } else {
      var step := FirstFrame(rest0, |done|, json);
      BeginsFurther(chunks, done, rest0, json);
      frames, rest := EveryStreamStops(chunks, done + [step.frame], rest0[step.size..], json);
    }
  }

  /** What a stream begins with and how it stops, for any chunks. */
  lemma StreamStops(chunks: seq<seq<Byte>>, json: Json) returns (frames: seq<Frame>, rest: seq<Byte>)
    ensures Begins(chunks, frames, rest, json) && Stops(chunks, frames, rest, json)
  {
    assert EncodeAll([]) + Flatten(chunks) == Flatten(chunks);
    frames, rest := EveryStreamStops(chunks, [], Flatten(chunks), json);
  }
}
