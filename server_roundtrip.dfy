/**
 * The server codec end to end, as written: `DecodeAsync` returns the message `Encode`
 * framed, checksum checked, and stops just after the frame; the frame layout and the size
 * limit; and the ways the decoder refuses an oversized, truncated, corrupted or malformed
 * frame. Compressed messages are not in this round trip: `Encode` compresses the
 * envelope with the payload, which `DeserializeMessage` does not expect (ServerFindings).
 */
module ServerRoundTrip {
  import opened Wrappers
  import opened Bytes
  import opened Utf8
  import opened Protocol
  import opened Wire
  import opened WireProofs
  import opened Checksum
  import opened ServerMessages
  import opened ServerSpec
  import opened ServerProofs
  import ServerCodec

  /** What the decoder needs to give a message back: its envelope names its payload's type, its strings are UTF-8. */
  predicate Readable(m: ServerMessage) {
    Consistent(m) && PayloadStringsValid(m.payload)
  }

  // ---------------------------------------------------------------- DeserializeMessage

  lemma {:induction false} DeserializeMessageOf(data: seq<u8>, m: ServerMessage, decompress: Decompressor)
    requires At(data, 0, EnvelopeBytes(m.envelope)) && Consistent(m)
    requires 20 <= |data| && ParseMessagePayload(data, RawEnvelope(m.envelope.version, MessageTypeToU8(m.envelope.messageType),
                                  m.envelope.messageId, m.envelope.timestampSecs, m.envelope.compressed), decompress)
                .Ok?
    requires ParseMessagePayload(data, RawEnvelope(m.envelope.version, MessageTypeToU8(m.envelope.messageType),
                                  m.envelope.messageId, m.envelope.timestampSecs, m.envelope.compressed), decompress)
                .value.value == m.payload
    ensures DeserializeMessage(data, decompress) == Ok(m)
  {
    ParseRawEnvelopeAt(data, m.envelope);
  }

  /**
   * `DeserializeMessage` on bytes that start with an uncompressed serialised message
   * returns that message; whatever follows it is ignored.
   */
  lemma {:induction false} DeserializePlainAt(data: seq<u8>, m: ServerMessage, decompress: Decompressor)
    requires Readable(m) && !m.envelope.compressed && At(data, 0, SerializedMessage(m)) && ArrayLength(data)
    ensures DeserializeMessage(data, decompress) == Ok(m)
  {
    var next := 20 + |PayloadBytes(m.payload)|;
    AtConcat(data, 0, 20, EnvelopeBytes(m.envelope), PayloadBytes(m.payload));
    ParsePayloadAt(data, 20, next, m.payload);
    DeserializeMessageOf(data, m, decompress);
  }

  /**
   * With the compressed flag set, `DeserializeMessage` returns the message whose payload
   * the bytes after the envelope decompress to.
   */
  lemma {:induction false} DeserializeCompressedAt(data: seq<u8>, m: ServerMessage, decompress: Decompressor)
    requires Readable(m) && m.envelope.compressed && At(data, 0, EnvelopeBytes(m.envelope)) && 20 <= |data|
    requires decompress(data[20..]) == Some(PayloadBytes(m.payload)) && ArrayLength(PayloadBytes(m.payload))
    ensures DeserializeMessage(data, decompress) == Ok(m)
  {
    var payload := PayloadBytes(m.payload);
    AtWhole(payload);
    ParsePayloadAt(payload, 0, |payload|, m.payload);
    DeserializeMessageOf(data, m, decompress);
  }

  /** Data shorter than the 20-byte envelope is refused with EndOfStreamException. */
  lemma DeserializeShort(data: seq<u8>, decompress: Decompressor)
    requires |data| < 20
    ensures DeserializeMessage(data, decompress) == Err(EndOfStreamException)
  {
  }

  /**
   * A type byte outside 1..7 is refused with that byte, but only after the whole envelope
   * has been read and, when the flag byte is set, the rest decompressed.
   */
  lemma {:induction false} DeserializeBadType(data: seq<u8>, decompress: Decompressor)
    requires 20 <= |data| && !(1 <= data[2] <= 7)
    ensures data[19] == 0 ==> DeserializeMessage(data, decompress) == Err(InvalidMessageTypeException(data[2]))
    ensures data[19] != 0 ==>
              DeserializeMessage(data, decompress)
              == Err(if decompress(data[20..]).None? then DecompressionException else InvalidMessageTypeException(data[2]))
  {
    var env := ParseRawEnvelope(data).value.value;
    assert env.messageType == data[2] && env.compressed == (data[19] != 0);
  }

  // ---------------------------------------------------------------- frames

  /** A frame holds its payload's length big-endian, the payload, and its checksum little-endian. */
  lemma {:induction false} FrameLayout(payload: seq<u8>)
    requires |payload| <= MAX_FRAME_SIZE
    ensures |Framed(payload)| == 4 + |payload| + 4
    ensures BeValue(Framed(payload)[..4]) == |payload|
    ensures Framed(payload)[4..4 + |payload|] == payload
    ensures LeValue(Framed(payload)[4 + |payload|..]) == Crc32(payload)
  {
    var frame := Framed(payload);
    assert frame[..4] == BeBytes(|payload|, 4);
    assert frame[4 + |payload|..] == LeBytes(Crc32(payload), 4);
    BeValueOfBeBytes(|payload|, 4);
    LeValueOfLeBytes(Crc32(payload), 4);
  }

  /** What `DecodeAsync` returns for a frame whose checksum matches: the deserialised payload, and the frame's end. */
  function Delivered(r: Result<ServerMessage, ServerError>, next: nat): Result<Parsed<ServerMessage>, ServerError> {
    match r
    case Ok(m) => Ok(Parsed(m, next))
    case Err(e) => Err(e)
  }

  /**
   * Wherever a frame of any payload sits in the input, `DecodeAsync` there checks its
   * checksum and returns what `DeserializeMessage` makes of the payload, stopping
   * exactly at the frame's end.
   */
  lemma {:induction false} DecodeFramedAt(input: seq<u8>, pos: nat, next: nat, payload: seq<u8>,
                                          decompress: Decompressor)
    requires |payload| <= MAX_FRAME_SIZE && At(input, pos, Framed(payload)) && next == pos + |Framed(payload)|
    ensures DecodeFrame(input, pos, decompress) == Delivered(DeserializeMessage(payload, decompress), next)
  {
    var p1 := pos + 4;
    var p2 := p1 + |payload|;
    var prefix := BeBytes(|payload|, 4);
    var trailer := LeBytes(Crc32(payload), 4);
    AtConcat(input, pos, p2, prefix + payload, trailer);
    AtConcat(input, pos, p1, prefix, payload);
    TakeAt(input, pos, p1, prefix, EndOfStreamException);
    BeValueOfBeBytes(|payload|, 4);
    TakeAt(input, p1, p2, payload, EndOfStreamException);
    TakeAt(input, p2, next, trailer, EndOfStreamException);
    LeValueOfLeBytes(Crc32(payload), 4);
  }

  /**
   * Wherever a frame `Encode` produced for an uncompressed message sits in the input,
   * `DecodeAsync` there returns its message and stops exactly at the frame's end.
   */
  lemma {:induction false} DecodeFrameAt(input: seq<u8>, pos: nat, next: nat, m: ServerMessage, frame: seq<u8>,
                                         compress: Compressor, decompress: Decompressor)
    requires Readable(m) && !m.envelope.compressed && EncodeFrame(m, compress) == Ok(frame)
    requires At(input, pos, frame) && next == pos + |frame|
    ensures DecodeFrame(input, pos, decompress) == Ok(Parsed(m, next))
  {
    var payload := SerializedMessage(m);
    AtWhole(payload);
    DeserializePlainAt(payload, m, decompress);
    DecodeFramedAt(input, pos, next, payload, decompress);
  }

  /** A frame followed by anything: the decoder returns its message and consumes exactly the frame. */
  lemma {:induction false} DecodeFrameThenRest(m: ServerMessage, frame: seq<u8>, rest: seq<u8>,
                                               compress: Compressor, decompress: Decompressor)
    requires Readable(m) && !m.envelope.compressed && EncodeFrame(m, compress) == Ok(frame)
    ensures DecodeFrame(frame + rest, 0, decompress) == Ok(Parsed(m, |frame|))
  {
    AtWhole(frame + rest);
    AtConcat(frame + rest, 0, |frame|, frame, rest);
    DecodeFrameAt(frame + rest, 0, |frame|, m, frame, compress, decompress);
  }

  /** Two frames one after the other decode to their two messages, in order. */
  lemma {:induction false} DecodeTwoFrames(m1: ServerMessage, m2: ServerMessage, f1: seq<u8>, f2: seq<u8>,
                                           compress: Compressor, decompress: Decompressor)
    requires Readable(m1) && !m1.envelope.compressed && EncodeFrame(m1, compress) == Ok(f1)
    requires Readable(m2) && !m2.envelope.compressed && EncodeFrame(m2, compress) == Ok(f2)
    ensures DecodeFrame(f1 + f2, 0, decompress) == Ok(Parsed(m1, |f1|))
    ensures DecodeFrame(f1 + f2, |f1|, decompress) == Ok(Parsed(m2, |f1 + f2|))
  {
    DecodeFrameThenRest(m1, f1, f2, compress, decompress);
    AtWhole(f1 + f2);
    AtConcat(f1 + f2, 0, |f1|, f1, f2);
    DecodeFrameAt(f1 + f2, |f1|, |f1 + f2|, m2, f2, compress, decompress);
  }

  /**
   * The code itself: `Encode`, then `DecodeAsync` on a stream carrying the frame and
   * whatever follows it, delivered in any chunks, gives the message back and leaves the
   * stream just after the frame.
   */
  method EncodeThenDecode(m: ServerMessage, rest: seq<u8>, compress: Compressor, decompress: Decompressor)
    returns (frame: Result<seq<u8>, ServerError>, decoded: Result<ServerMessage, ServerError>, consumed: nat)
    requires Readable(m) && !m.envelope.compressed && |SerializedMessage(m)| <= MAX_FRAME_SIZE
    ensures frame.Ok? && decoded == Ok(m) && consumed == |frame.value| == 4 + |SerializedMessage(m)| + 4
  {
    frame := ServerCodec.Encode(m, compress);
    var stream := new ServerCodec.ByteStream(frame.value + rest);
    decoded := ServerCodec.DecodeAsync(stream, decompress);
    consumed := stream.position;
    DecodeFrameThenRest(m, frame.value, rest, compress, decompress);
  }

  // ---------------------------------------------------------------- size limit and refused frames

  /** `Encode` fails, with the payload size and the limit, exactly when the payload exceeds 256 KiB. */
  lemma EncodeFrameLimit(m: ServerMessage, compress: Compressor)
    ensures EncodeFrame(m, compress).Err? <==> |FramePayload(m, compress)| > MAX_FRAME_SIZE
    ensures EncodeFrame(m, compress).Err? ==>
              EncodeFrame(m, compress).error == FrameTooLargeException(|FramePayload(m, compress)|, MAX_FRAME_SIZE)
    ensures EncodeFrame(m, compress).Ok? ==> EncodeFrame(m, compress).value == Framed(FramePayload(m, compress))
  {
  }

  /**
   * A length prefix above 256 KiB is refused before any payload byte is read; the size
   * reported is the length cast to `int`.
   */
  lemma {:induction false} DecodeFrameTooLarge(input: seq<u8>, pos: nat, len: u32, decompress: Decompressor)
    requires At(input, pos, BeBytes(len, 4)) && len > MAX_FRAME_SIZE
    ensures DecodeFrame(input, pos, decompress) == Err(FrameTooLargeException(UncheckedInt32(len), MAX_FRAME_SIZE))
  {
    TakeAt(input, pos, pos + 4, BeBytes(len, 4), EndOfStreamException);
    BeValueOfBeBytes(len, 4);
  }

  /** Fewer than four bytes for the prefix, or fewer payload and checksum bytes than it announces: EndOfStreamException. */
  lemma {:induction false} DecodeFrameTruncated(input: seq<u8>, pos: nat, len: u32, decompress: Decompressor)
    requires |input| < pos + 4
          || (At(input, pos, BeBytes(len, 4)) && len <= MAX_FRAME_SIZE && |input| < pos + 4 + len + 4)
    ensures DecodeFrame(input, pos, decompress) == Err(EndOfStreamException)
  {
    if pos + 4 <= |input| {
      TakeAt(input, pos, pos + 4, BeBytes(len, 4), EndOfStreamException);
      BeValueOfBeBytes(len, 4);
    }
  }

  /**
   * A trailer that is not the payload's CRC-32 is refused with both checksums, before the
   * payload is deserialised: whatever the payload holds.
   */
  lemma {:induction false} DecodeFrameChecksumMismatch(input: seq<u8>, pos: nat, payload: seq<u8>, crc: u32,
                                                       decompress: Decompressor)
    requires At(input, pos, BeBytes(|payload|, 4) + payload + LeBytes(crc, 4)) && |payload| <= MAX_FRAME_SIZE
    requires crc != Crc32(payload)
    ensures DecodeFrame(input, pos, decompress) == Err(Crc32MismatchException(crc, Crc32(payload)))
  {
    var p1 := pos + 4;
    var p2 := p1 + |payload|;
    var next := p2 + 4;
    var prefix := BeBytes(|payload|, 4);
    AtConcat(input, pos, p2, prefix + payload, LeBytes(crc, 4));
    AtConcat(input, pos, p1, prefix, payload);
    TakeAt(input, pos, p1, prefix, EndOfStreamException);
    BeValueOfBeBytes(|payload|, 4);
    TakeAt(input, p1, p2, payload, EndOfStreamException);
    TakeAt(input, p2, next, LeBytes(crc, 4), EndOfStreamException);
    LeValueOfLeBytes(crc, 4);
  }
}
