/** Wire format and meaning of proxy frames. */
module FrameProtocol {
  import opened Wrappers
  import opened BigEndian

  const FRAME_HEADER_BYTES: nat := 16
  const MAX_FRAME_PAYLOAD_BYTES: nat := 1_048_576
  const SEQUENCE_LIMIT: nat := 0x1_0000_0000

  datatype FrameType = ResponseHead | Body | Trailers | Complete | Error | Heartbeat

  datatype Frame = Frame(kind: FrameType, payload: seq<Byte>)

  datatype Failure =
    | LengthInvalid
    | UnknownType
    | HeaderInvalid
    | PayloadNotJson
    | Reported(detail: seq<Byte>)
    | BytesAfterTerminal
    | EndedEarly

  function TypeByte(kind: FrameType): Byte {
    match kind
    case ResponseHead => 1
    case Body => 2
    case Trailers => 3
    case Complete => 4
    case Error => 5
    case Heartbeat => 6
  }

  function ParseFrameType(value: Byte): (kind: Option<FrameType>)
    ensures forall k :: kind == Some(k) <==> TypeByte(k) == value
  {
    if value == 1 then Some(ResponseHead)
    else if value == 2 then Some(Body)
    else if value == 3 then Some(Trailers)
    else if value == 4 then Some(Complete)
    else if value == 5 then Some(Error)
    else if value == 6 then Some(Heartbeat)
    else None
  }

  /** The header fields, still unchecked. */
  datatype Header = Header(kind: Byte, flags: nat, reserved: nat, sequence: nat, length: nat)

  function HeaderOf(bytes: seq<Byte>): Header
    requires |bytes| >= FRAME_HEADER_BYTES
  {
    Header(bytes[0], bytes[1], Read(bytes[2..4]), Read(bytes[4..8]), Read(bytes[8..16]))
  }

  /** Whether a payload is valid JSON is decided by a parser outside this model. */
  type Json = seq<Byte> -> bool

  /** Delivers a frame to the sink: the new terminal flag, or the error it raises. */
  function Dispatched(frame: Frame, json: Json): Result<bool, Failure> {
    match frame.kind
    case ResponseHead => if json(frame.payload) then Ok(false) else Err(PayloadNotJson)
    case Body => Ok(false)
    case Complete => if json(frame.payload) then Ok(true) else Err(PayloadNotJson)
    case Error => if json(frame.payload) then Err(Reported(frame.payload)) else Err(PayloadNotJson)
    case Trailers => Ok(false)
    case Heartbeat => Ok(false)
  }

  /** What a buffer shows first: not yet a whole frame, an error, or a frame of some size. */
  datatype Step = Wait | Fail(failure: Failure) | Take(frame: Frame, size: nat, last: bool)

  /** The checks on the first frame of the buffer when frame number `k` is expected. */
  function FirstFrame(buffer: seq<Byte>, k: nat, json: Json): (step: Step)
    ensures step.Take? ==> FRAME_HEADER_BYTES <= step.size <= |buffer|
    ensures step == Wait ==> |buffer| < FRAME_HEADER_BYTES + MAX_FRAME_PAYLOAD_BYTES
  {
    if |buffer| < FRAME_HEADER_BYTES then Wait
    else
      var h := HeaderOf(buffer);
      var size := FRAME_HEADER_BYTES + h.length;
      if h.length > MAX_FRAME_PAYLOAD_BYTES then Fail(LengthInvalid)
      else if |buffer| < size then Wait
      else
        match ParseFrameType(h.kind)
        case None => Fail(UnknownType)
        case Some(kind) =>
          if h.flags != 0 || h.reserved != 0 || h.sequence != k then Fail(HeaderInvalid)
          else
            var frame := Frame(kind, buffer[FRAME_HEADER_BYTES..size]);
            match Dispatched(frame, json)
            case Err(e) => Fail(e)
            case Ok(last) => Take(frame, size, last)
  }

  /** Bytes that arrive later do not change what a buffer already shows. */
  lemma FirstFrameStays(buffer: seq<Byte>, longer: seq<Byte>, k: nat, json: Json)
    requires buffer <= longer && FirstFrame(buffer, k, json) != Wait
    ensures FirstFrame(longer, k, json) == FirstFrame(buffer, k, json)
  {
    assert buffer == longer[..|buffer|];
    assert buffer[2..4] == longer[2..4] && buffer[4..8] == longer[4..8] && buffer[8..16] == longer[8..16];
    var size := FRAME_HEADER_BYTES + HeaderOf(buffer).length;
    if size <= |buffer| {
      assert buffer[FRAME_HEADER_BYTES..size] == longer[FRAME_HEADER_BYTES..size];
    }
  }

  /** A buffer that holds all the bytes of a frame shows it. */
  lemma FittingFrameShows(shorter: seq<Byte>, buffer: seq<Byte>, k: nat, json: Json)
    requires shorter <= buffer && FirstFrame(buffer, k, json).Take?
    ensures FirstFrame(buffer, k, json).size <= |shorter| ==> FirstFrame(shorter, k, json) != Wait
  {
    if FRAME_HEADER_BYTES <= |shorter| {
      assert shorter == buffer[..|shorter|];
      assert shorter[2..4] == buffer[2..4] && shorter[4..8] == buffer[4..8] && shorter[8..16] == buffer[8..16];
    }
  }

  // ---------------------------------------------------------------------
  // The encoding
  // ---------------------------------------------------------------------

  function Encode(frame: Frame, sequence: nat): (bytes: seq<Byte>)
    ensures |bytes| == FRAME_HEADER_BYTES + |frame.payload|
  {
    [TypeByte(frame.kind), 0, 0, 0] + Write(sequence, 4) + Write(|frame.payload|, 8) + frame.payload
  }

  function Size(frame: Frame): nat {
    FRAME_HEADER_BYTES + |frame.payload|
  }

  /** A frame that can be delivered without an error. */
  predicate Sound(frame: Frame, json: Json) {
    && |frame.payload| <= MAX_FRAME_PAYLOAD_BYTES
    && frame.kind != Error
    && (frame.kind == ResponseHead || frame.kind == Complete ==> json(frame.payload))
  }

  lemma Widths()
    ensures Pow256(4) == 0x1_0000_0000 && MAX_FRAME_PAYLOAD_BYTES < Pow256(8)
  {
    assert Pow256(1) == 256;
    assert Pow256(2) == 0x1_0000;
    assert Pow256(3) == 0x100_0000;
    assert Pow256(4) == 0x1_0000_0000;
    assert Pow256(5) >= Pow256(4);
    assert Pow256(6) >= Pow256(5);
    assert Pow256(7) >= Pow256(6);
  }

  lemma EncodedHeader(frame: Frame, sequence: nat, rest: seq<Byte>)
    requires |frame.payload| <= MAX_FRAME_PAYLOAD_BYTES && sequence < SEQUENCE_LIMIT
    ensures var bytes := Encode(frame, sequence) + rest;
            && HeaderOf(bytes) == Header(TypeByte(frame.kind), 0, 0, sequence, |frame.payload|)
            && bytes[16..16 + |frame.payload|] == frame.payload
  {
    var bytes := Encode(frame, sequence) + rest;
    Widths();
    ReadWritten(sequence, 4);
    ReadWritten(|frame.payload|, 8);
    assert bytes[4..8] == Write(sequence, 4);
    assert bytes[8..16] == Write(|frame.payload|, 8);
    assert bytes[2..4] == [0, 0] && [0, 0][..1] == [0] && [0][..0] == [];
  }

  /** The encoding of a sound frame shows that frame, whatever follows it. */
  lemma EncodedFrameShows(frame: Frame, k: nat, rest: seq<Byte>, json: Json)
    requires Sound(frame, json) && k < SEQUENCE_LIMIT
    ensures FirstFrame(Encode(frame, k) + rest, k, json) == Take(frame, Size(frame), frame.kind == Complete)
  {
    EncodedHeader(frame, k, rest);
    assert ParseFrameType(TypeByte(frame.kind)) == Some(frame.kind);
  }

  /** Bytes with an acceptable header are the encoding of the frame they show. */
  lemma HeaderEncodes(bytes: seq<Byte>, frame: Frame)
    requires |bytes| >= FRAME_HEADER_BYTES
    requires var h := HeaderOf(bytes);
             h.flags == 0 && h.reserved == 0 && ParseFrameType(h.kind) == Some(frame.kind)
             && |bytes| == 16 + h.length && frame.payload == bytes[16..]
    ensures bytes == Encode(frame, HeaderOf(bytes).sequence)
  {
    var r := bytes[2..4];
    assert Read(r) == 256 * Read(r[..1]) + r[1];
    assert Read(r[..1]) == 256 * Read(r[..1][..0]) + r[0];
    assert r[0] == bytes[2] && r[1] == bytes[3];
    WriteRead(bytes[4..8]);
    WriteRead(bytes[8..16]);
    var encoded := Encode(frame, HeaderOf(bytes).sequence);
    assert encoded[4..8] == bytes[4..8] && encoded[8..16] == bytes[8..16];
    assert bytes == bytes[..4] + bytes[4..8] + bytes[8..16] + bytes[16..];
  }

  /** A frame that is taken from a buffer stands encoded at its front. */
  lemma TakenFrameIsEncoded(buffer: seq<Byte>, k: nat, json: Json)
    requires FirstFrame(buffer, k, json).Take?
    ensures var step := FirstFrame(buffer, k, json);
            && buffer[..step.size] == Encode(step.frame, k) && step.size == Size(step.frame)
            && Sound(step.frame, json) && k < SEQUENCE_LIMIT && step.last == (step.frame.kind == Complete)
  {
    var step := FirstFrame(buffer, k, json);
    var bytes := buffer[..step.size];
    assert bytes[2..4] == buffer[2..4] && bytes[4..8] == buffer[4..8] && bytes[8..16] == buffer[8..16];
    assert bytes[FRAME_HEADER_BYTES..] == buffer[FRAME_HEADER_BYTES..step.size];
    HeaderEncodes(bytes, step.frame);
    ReadFits(buffer[4..8]);
    Widths();
  }
}
