/**
 * The agent codec end to end: `decode` returns the message `encode` framed and stops
 * just after the frame; the frame layout and the size limit; and the ways decode refuses
 * an oversized, truncated or malformed frame.
 */
module AgentRoundTrip {
  import opened Wrappers
  import opened Bytes
  import opened Utf8
  import opened Protocol
  import opened Wire
  import opened AgentSpec
  import opened WireProofs
  import opened AgentProofs
  import opened AgentCodec

  /** The type byte names its message type again. */
  lemma MessageTypeRoundTrip(t: MessageType)
    ensures MessageTypeFromU8(MessageTypeToU8(t)) == Ok(t)
  {
  }

  // ---------------------------------------------------------------- payload and envelope

  lemma {:induction false} HandshakePayloadAt(buf: seq<u8>, pos: nat, next: nat, id: AgentIdentity<OsType>)
    requires At(buf, pos, IdentityBytes(IdentityToWire(id))) && ValidUtf8(id.instanceId) && ValidUtf8(id.agentVersion)
    requires next == pos + |IdentityBytes(IdentityToWire(id))|
    ensures ParsePayload(buf, pos, MessageType.Handshake) == Ok(Parsed(HandshakePayload(id), next))
  {
    ParseIdentityAt(buf, pos, next, id);
  }

  lemma {:induction false} SnapshotPayloadAt(buf: seq<u8>, pos: nat, next: nat, s: SnapshotPayload)
    requires At(buf, pos, SnapshotBytes(s)) && ProcessesStringsValid(s.processes)
    requires next == pos + |SnapshotBytes(s)|
    ensures ParsePayload(buf, pos, MessageType.Snapshot) == Ok(Parsed(SnapshotPayloadOf(s), next))
  {
    ParseSnapshotAt(buf, pos, next, s);
  }

  lemma {:induction false} AckPayloadAt(buf: seq<u8>, pos: nat, next: nat, a: MessageAck)
    requires At(buf, pos, AckBytes(a)) && next == pos + |AckBytes(a)|
    ensures ParsePayload(buf, pos, MessageType.Ack) == Ok(Parsed(AckPayload(a), next))
  {
    ParseAckAt(buf, pos, next, a, Io);
  }

  lemma {:induction false} BackpressurePayloadAt(buf: seq<u8>, pos: nat, next: nat, b: BackpressureSignal)
    requires At(buf, pos, BackpressureBytes(b)) && next == pos + |BackpressureBytes(b)|
    ensures ParsePayload(buf, pos, MessageType.Backpressure) == Ok(Parsed(BackpressurePayload(b), next))
  {
    ParseBackpressureAt(buf, pos, next, b, Io);
  }

  lemma {:induction false} ErrorPayloadAt(buf: seq<u8>, pos: nat, next: nat, code: u32, message: Utf8String)
    requires At(buf, pos, ErrorBytes(code, message)) && ValidUtf8(message)
    requires next == pos + |ErrorBytes(code, message)|
    ensures ParsePayload(buf, pos, MessageType.Error) == Ok(Parsed(ErrorPayload(code, message), next))
  {
    var mid := pos + 4;
    ErrorFieldsAt(buf, pos, mid, next, code, message);
  }

  /** `read_payload`, given the type of the payload variant, returns the payload `write_payload` wrote. */
  lemma {:induction false} ParsePayloadAt(buf: seq<u8>, pos: nat, next: nat, p: Payload<OsType>)
    requires At(buf, pos, PayloadBytes(ToWire(p))) && PayloadStringsValid(p)
    requires next == pos + |PayloadBytes(ToWire(p))|
    ensures ParsePayload(buf, pos, PayloadType(p)) == Ok(Parsed(p, next))
  {
    match p
    case HandshakePayload(id) =>
      HandshakePayloadAt(buf, pos, next, id);
    case HandshakeAckPayload =>
    case HeartbeatPayload =>
    case SnapshotPayloadOf(s) =>
      SnapshotPayloadAt(buf, pos, next, s);
    case AckPayload(a) =>
      AckPayloadAt(buf, pos, next, a);
    case BackpressurePayload(b) =>
      BackpressurePayloadAt(buf, pos, next, b);
    case ErrorPayload(code, message) =>
      ErrorPayloadAt(buf, pos, next, code, message);
  }

  /** The envelope reads of `decode` return the envelope `encode` wrote, and end at byte 20. */
  lemma {:induction false} ParseEnvelopeAt(body: seq<u8>, e: Envelope)
    requires At(body, 0, EnvelopeBytes(e))
    ensures ParseEnvelope(body) == Ok(Parsed(e, 20))
  {
    EnvelopeFieldsAt(body, e);
    ParseU8At(body, 0, 1, e.version.major, Io);
    ParseU8At(body, 1, 2, e.version.minor, Io);
    ParseU8At(body, 2, 3, MessageTypeToU8(e.messageType), Io);
    MessageTypeRoundTrip(e.messageType);
    ParseU64At(body, 3, 11, e.messageId, Io);
    ParseI64At(body, 11, 19, e.timestampSecs, Io);
    ParseBoolAt(body, 19, 20, e.compressed, Io);
  }

  // ---------------------------------------------------------------- round trip

  /**
   * What decode needs to give a message back: its envelope names the type of its payload
   * (encode takes the layout from the payload but the type byte from the envelope), its
   * strings are UTF-8, and, when it is compressed, decompression undoes compression.
   */
  predicate Recoverable(m: AgentMessage, compress: Compressor, decompress: Decompressor) {
    && Consistent(m)
    && PayloadStringsValid(m.payload)
    && (m.envelope.compressed ==>
          decompress(compress(PayloadBytes(ToWire(m.payload)))) == Some(PayloadBytes(ToWire(m.payload))))
  }

  /** Decoding a body returns the message it was encoded from. */
  lemma {:induction false} DecodeBodyOfEncodeBody(m: AgentMessage, compress: Compressor, decompress: Decompressor)
    requires Recoverable(m, compress, decompress)
    ensures DecodeBody(EncodeBody(m, compress), decompress) == Ok(m)
  {
    var body := EncodeBody(m, compress);
    var payload := PayloadBytes(ToWire(m.payload));
    var region := EncodedPayload(m.envelope.compressed, compress, payload);
    AtWhole(body);
    AtConcat(body, 0, 20, EnvelopeBytes(m.envelope), region);
    ParseEnvelopeAt(body, m.envelope);
    assert body[20..] == region;
    assert PayloadRegion(body, 20, m.envelope.compressed, decompress) == Ok(payload);
    AtWhole(payload);
    ParsePayloadAt(payload, 0, |payload|, m.payload);
  }

  /**
   * Wherever a frame `encode` produced sits in the input, `decode` there returns its
   * message and stops exactly at the frame's end.
   */
  lemma {:induction false} DecodeFrameAt(input: seq<u8>, pos: nat, next: nat, m: AgentMessage, frame: seq<u8>,
                                         compress: Compressor, decompress: Decompressor)
    requires Recoverable(m, compress, decompress) && EncodeFrame(m, compress) == Ok(frame)
    requires At(input, pos, frame) && next == pos + |frame|
    ensures DecodeFrame(input, pos, decompress) == Ok(Parsed(m, next))
  {
    var body := EncodeBody(m, compress);
    var mid := pos + 4;
    AtConcat(input, pos, mid, BeBytes(|body|, 4), body);
    TakeAt(input, pos, mid, BeBytes(|body|, 4), Io);
    BeValueOfBeBytes(|body|, 4);
    TakeAt(input, mid, next, body, Io);
    DecodeBodyOfEncodeBody(m, compress, decompress);
  }

  /** A frame followed by anything: decode returns its message and consumes exactly the frame. */
  lemma {:induction false} DecodeFrameThenRest(m: AgentMessage, frame: seq<u8>, rest: seq<u8>,
                                               compress: Compressor, decompress: Decompressor)
    requires Recoverable(m, compress, decompress) && EncodeFrame(m, compress) == Ok(frame)
    ensures DecodeFrame(frame + rest, 0, decompress) == Ok(Parsed(m, |frame|))
  {
    AtWhole(frame + rest);
    AtConcat(frame + rest, 0, |frame|, frame, rest);
    DecodeFrameAt(frame + rest, 0, |frame|, m, frame, compress, decompress);
  }

  /** Two frames one after the other decode to their two messages, in order. */
  lemma {:induction false} DecodeTwoFrames(m1: AgentMessage, m2: AgentMessage, f1: seq<u8>, f2: seq<u8>,
                                           compress: Compressor, decompress: Decompressor)
    requires Recoverable(m1, compress, decompress) && EncodeFrame(m1, compress) == Ok(f1)
    requires Recoverable(m2, compress, decompress) && EncodeFrame(m2, compress) == Ok(f2)
    ensures DecodeFrame(f1 + f2, 0, decompress) == Ok(Parsed(m1, |f1|))
    ensures DecodeFrame(f1 + f2, |f1|, decompress) == Ok(Parsed(m2, |f1 + f2|))
  {
    DecodeFrameThenRest(m1, f1, f2, compress, decompress);
    AtWhole(f1 + f2);
    AtConcat(f1 + f2, 0, |f1|, f1, f2);
    DecodeFrameAt(f1 + f2, |f1|, |f1 + f2|, m2, f2, compress, decompress);
  }

  /**
   * The code itself: `encode`, then `decode` on a reader over the frame and whatever
   * follows it, gives the message back and leaves the reader just after the frame.
   */
  method EncodeThenDecode(m: AgentMessage, rest: seq<u8>, compress: Compressor, decompress: Decompressor)
    returns (frame: Result<seq<u8>, ProtocolError>, decoded: Result<AgentMessage, ProtocolError>, consumed: nat)
    requires Recoverable(m, compress, decompress) && |EncodeBody(m, compress)| <= MAX_FRAME_SIZE
    ensures frame.Ok? && decoded == Ok(m) && consumed == |frame.value| == 4 + |EncodeBody(m, compress)|
  {
    frame := Encode(m, compress);
    var reader := new Cursor(frame.value + rest);
    decoded := Decode(reader, decompress);
    consumed := reader.pos;
    DecodeFrameThenRest(m, frame.value, rest, compress, decompress);
  }

  // ---------------------------------------------------------------- layout and size limit

  /** encode fails, with the body size and the limit, exactly when the body exceeds 256 KiB; otherwise the frame is the big-endian length and the body. */
  lemma EncodeFrameLimit(m: AgentMessage, compress: Compressor)
    ensures EncodeFrame(m, compress).Err? <==> |EncodeBody(m, compress)| > MAX_FRAME_SIZE
    ensures EncodeFrame(m, compress).Err? ==>
              EncodeFrame(m, compress).error == FrameTooLarge(|EncodeBody(m, compress)|, MAX_FRAME_SIZE)
    ensures EncodeFrame(m, compress).Ok? ==>
              EncodeFrame(m, compress).value == BeBytes(|EncodeBody(m, compress)|, 4) + EncodeBody(m, compress)
  {
  }

  /** The envelope is always 20 bytes, and the body starts with it. */
  lemma EnvelopeLayout(m: AgentMessage, compress: Compressor)
    ensures |EnvelopeBytes(m.envelope)| == 20
    ensures EncodeBody(m, compress)[..20] == EnvelopeBytes(m.envelope)
    ensures EnvelopeBytes(m.envelope)[2] == MessageTypeToU8(m.envelope.messageType)
    ensures EnvelopeBytes(m.envelope)[19] == if m.envelope.compressed then 1 else 0
  {
  }

  /** Heartbeat and HandshakeAck carry no payload bytes: uncompressed, their frame is 24 bytes. */
  lemma EmptyPayloadFrame(m: AgentMessage, compress: Compressor)
    requires m.payload.HeartbeatPayload? || m.payload.HandshakeAckPayload?
    requires !m.envelope.compressed
    ensures EncodeFrame(m, compress) == Ok(BeBytes(20, 4) + EnvelopeBytes(m.envelope))
    ensures |EncodeFrame(m, compress).value| == 24
  {
    assert PayloadBytes(ToWire(m.payload)) == [];
    assert EncodeBody(m, compress) == EnvelopeBytes(m.envelope) + [];
    assert EnvelopeBytes(m.envelope) + [] == EnvelopeBytes(m.envelope);
  }

  // ---------------------------------------------------------------- refused input

  /** A length prefix above 256 KiB is refused with that length before any body byte is read. */
  lemma {:induction false} DecodeFrameTooLarge(input: seq<u8>, pos: nat, len: u32, decompress: Decompressor)
    requires At(input, pos, BeBytes(len, 4)) && len > MAX_FRAME_SIZE
    ensures DecodeFrame(input, pos, decompress) == Err(FrameTooLarge(len, MAX_FRAME_SIZE))
  {
    var mid := pos + 4;
    TakeAt(input, pos, mid, BeBytes(len, 4), Io);
    BeValueOfBeBytes(len, 4);
  }

  /** Fewer than four bytes for the prefix, or fewer body bytes than it announces: Io. */
  lemma {:induction false} DecodeFrameTruncated(input: seq<u8>, pos: nat, len: u32, decompress: Decompressor)
    requires |input| < pos + 4 || (At(input, pos, BeBytes(len, 4)) && len <= MAX_FRAME_SIZE && |input| < pos + 4 + len)
    ensures DecodeFrame(input, pos, decompress) == Err(Io)
  {
    if pos + 4 <= |input| {
      var mid := pos + 4;
      TakeAt(input, pos, mid, BeBytes(len, 4), Io);
      BeValueOfBeBytes(len, 4);
    }
  }

  /** A type byte outside 1..7 is refused with that byte. */
  lemma {:induction false} DecodeBodyBadType(body: seq<u8>, decompress: Decompressor)
    requires |body| >= 3 && (body[2] == 0 || body[2] > 7)
    ensures DecodeBody(body, decompress) == Err(InvalidMessageType(body[2]))
  {
  }

  /**
   * A body shorter than the envelope is refused: with the type byte when it is present and
   * outside 1..7 (checked before the rest of the envelope is read), otherwise with an I/O error.
   */
  lemma DecodeBodyShort(body: seq<u8>, decompress: Decompressor)
    requires |body| < 20
    ensures DecodeBody(body, decompress)
            == Err(if 3 <= |body| && !(1 <= body[2] <= 7) then InvalidMessageType(body[2]) else Io)
  {
  }
}
