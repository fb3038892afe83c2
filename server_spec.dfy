/**
 * What the server's frame codec computes, as functions over bytes, following the C# code
 * as written. Frame: [u32 big-endian payload length][payload][u32 little-endian CRC-32 of
 * the payload]; the payload is the serialised message, compressed as a whole when the
 * envelope says so. The methods of ServerCodec are proved to compute these functions.
 */
module ServerSpec {
  import opened Wrappers
  import opened Bytes
  import opened Utf8
  import opened Protocol
  import opened Wire
  import opened Checksum
  import opened ServerMessages

  // ---------------------------------------------------------------- what Encode produces

  /** `SerializeMessage`: the envelope fields, then the payload fields, in Wire's layout. */
  function SerializedMessage(m: ServerMessage): seq<u8> {
    EnvelopeBytes(m.envelope) + PayloadBytes(m.payload)
  }

  /** The bytes `Encode` frames: the whole serialised message, compressed when the flag is set. */
  function FramePayload(m: ServerMessage, compress: Compressor): seq<u8> {
    if m.envelope.compressed then compress(SerializedMessage(m)) else SerializedMessage(m)
  }

  /** Length prefix, payload, checksum trailer. */
  function Framed(payload: seq<u8>): seq<u8> {
    BeBytes(|payload|, 4) + payload + LeBytes(Crc32(payload), 4)
  }

  /** `Encode`: the frame, or a FrameTooLargeException with the payload size past 256 KiB. */
  function EncodeFrame(m: ServerMessage, compress: Compressor): Result<seq<u8>, ServerError> {
    var payload := FramePayload(m, compress);
    if |payload| > MAX_FRAME_SIZE then Err(FrameTooLargeException(|payload|, MAX_FRAME_SIZE))
    else Ok(Framed(payload))
  }

  // ---------------------------------------------------------------- what the readers compute

  /** `BinaryReader.ReadBytes(count)`: count bytes, or all that remain when fewer do. */
  function ReadBytesUpTo(buf: seq<u8>, pos: nat, count: nat): (r: Parsed<seq<u8>>)
    requires pos <= |buf|
    ensures |r.value| <= count && r.next == pos + |r.value| <= |buf|
    ensures pos + count <= |buf| ==> r == Parsed(buf[pos..pos + count], pos + count)
    ensures pos + count > |buf| ==> r == Parsed(buf[pos..], |buf|)
  {
    if pos + count <= |buf| then Parsed(buf[pos..pos + count], pos + count)
    else Parsed(buf[pos..], |buf|)
  }

  /**
   * `ReadString`: a u64 length cast to `int`, at most that many bytes, decoded as UTF-8
   * with every ill-formed sequence replaced by U+FFFD.
   */
  function ParseString(buf: seq<u8>, pos: nat): Result<Parsed<Utf8String>, ServerError> {
    var len :- ParseU64(buf, pos, EndOfStreamException);
    var count := UncheckedInt32(len.value);
    if count < 0 then Err(ArgumentOutOfRangeException)
    else
      var bytes := ReadBytesUpTo(buf, len.next, count);
      DecodeLossyLength(bytes.value);
      Ok(Parsed(DecodeLossy(bytes.value), bytes.next))
  }

  /** `ReadOptionalString`: any non-zero presence byte means a string follows. */
  function ParseOptionalString(buf: seq<u8>, pos: nat): Result<Parsed<Option<Utf8String>>, ServerError> {
    var has :- ParseBool(buf, pos, EndOfStreamException);
    if has.value then
      var s :- ParseString(buf, has.next);
      Ok(Parsed(Some(s.value), s.next))
    else Ok(Parsed(None, has.next))
  }

  /** One sample of the loop of `ReadProcessList`, its fields in declaration order. */
  function ParseProcess(buf: seq<u8>, pos: nat): Result<Parsed<ProcessSample>, ServerError> {
    var pid :- ParseU32(buf, pos, EndOfStreamException);
    var name :- ParseString(buf, pid.next);
    var cpu :- ParseF32(buf, name.next, EndOfStreamException);
    var mem :- ParseU64(buf, cpu.next, EndOfStreamException);
    var cmdline :- ParseOptionalString(buf, mem.next);
    Ok(Parsed(ProcessSample(pid.value, name.value, cpu.value, mem.value, cmdline.value), cmdline.next))
  }

  /**
   * The loop of `ReadProcessList`: count more samples after those in acc, each read where
   * the one before ended. Split in three like the agent's loop, so that the solver
   * follows it only where ParseProcessesUnfold is called. It is a loop of its own rather
   * than the agent's with a reader parameter because the element reader differs (lossy
   * strings, no OS check) and so does the error type.
   */
  function ParseProcesses(buf: seq<u8>, pos: nat, count: nat, acc: seq<ProcessSample>)
    : (r: Result<Parsed<seq<ProcessSample>>, ServerError>)
    ensures r.Ok? ==> |r.value.value| == |acc| + count
    decreases count, 2
  {
    if count == 0 then Ok(Parsed(acc, pos)) else ParseProcessesNonEmpty(buf, pos, count, acc)
  }

  function ParseProcessesNonEmpty(buf: seq<u8>, pos: nat, count: nat, acc: seq<ProcessSample>)
    : (r: Result<Parsed<seq<ProcessSample>>, ServerError>)
    requires count > 0
    ensures r.Ok? ==> |r.value.value| == |acc| + count
    decreases count, 1
  {
    ParseProcessesStep(buf, pos, count, acc)
  }

  function ParseProcessesStep(buf: seq<u8>, pos: nat, count: nat, acc: seq<ProcessSample>)
    : (r: Result<Parsed<seq<ProcessSample>>, ServerError>)
    requires count > 0
    ensures r.Ok? ==> |r.value.value| == |acc| + count
    decreases count, 0
  {
    var p :- ParseProcess(buf, pos);
    ParseProcesses(buf, p.next, count - 1, acc + [p.value])
  }

  lemma ParseProcessesUnfold(buf: seq<u8>, pos: nat, count: nat, acc: seq<ProcessSample>)
    requires count > 0
    ensures ParseProcesses(buf, pos, count, acc)
         == match ParseProcess(buf, pos)
            case Ok(p) => ParseProcesses(buf, p.next, count - 1, acc + [p.value])
            case Err(e) => Err(e)
  {
    assert ParseProcesses(buf, pos, count, acc) == ParseProcessesNonEmpty(buf, pos, count, acc);
    assert ParseProcessesNonEmpty(buf, pos, count, acc) == ParseProcessesStep(buf, pos, count, acc);
  }

  /**
   * `ReadProcessList`: a u64 count, a list whose capacity is that count cast to `int`
   * (negative: ArgumentOutOfRangeException before any sample is read), then the samples.
   */
  function ParseProcessList(buf: seq<u8>, pos: nat): Result<Parsed<ProcessList>, ServerError> {
    var count :- ParseU64(buf, pos, EndOfStreamException);
    if UncheckedInt32(count.value) < 0 then Err(ArgumentOutOfRangeException)
    else
      var processes :- ParseProcesses(buf, count.next, count.value, []);
      Ok(Parsed(processes.value, processes.next))
  }

  function ParseSnapshot(buf: seq<u8>, pos: nat): Result<Parsed<SnapshotPayload>, ServerError> {
    var start :- ParseI64(buf, pos, EndOfStreamException);
    var end :- ParseI64(buf, start.next, EndOfStreamException);
    var cpu :- ParseF32(buf, end.next, EndOfStreamException);
    var mem :- ParseU64(buf, cpu.next, EndOfStreamException);
    var processes :- ParseProcessList(buf, mem.next);
    var truncated :- ParseBool(buf, processes.next, EndOfStreamException);
    Ok(Parsed(SnapshotPayload(start.value, end.value, cpu.value, mem.value, processes.value, truncated.value),
              truncated.next))
  }

  /** The handshake arm of `ReadPayload`: the OS byte is cast to the enum unchecked. */
  function ParseIdentity(buf: seq<u8>, pos: nat): Result<Parsed<AgentIdentity<u8>>, ServerError> {
    var instanceId :- ParseString(buf, pos);
    var os :- ParseU8(buf, instanceId.next, EndOfStreamException);
    var agentVersion :- ParseString(buf, os.next);
    var major :- ParseU8(buf, agentVersion.next, EndOfStreamException);
    var minor :- ParseU8(buf, major.next, EndOfStreamException);
    var capabilities :- ParseU32(buf, minor.next, EndOfStreamException);
    Ok(Parsed(AgentIdentity(instanceId.value, os.value, agentVersion.value, ProtocolVersion(major.value, minor.value),
                            capabilities.value), capabilities.next))
  }

  /**
   * `ReadPayload`: the arm the type byte selects; a byte outside 1..7 is refused with an
   * InvalidMessageTypeException carrying it. A payload read names the type byte's type.
   */
  function ParsePayload(buf: seq<u8>, pos: nat, messageType: u8): (r: Result<Parsed<Payload<u8>>, ServerError>)
    ensures r.Ok? ==> MessageTypeFromU8(messageType) == Ok(PayloadType(r.value.value))
    ensures !(1 <= messageType <= 7) ==> r == Err(InvalidMessageTypeException(messageType))
  {
    match messageType
    case 1 =>
      var id :- ParseIdentity(buf, pos);
      Ok(Parsed(HandshakePayload(id.value), id.next))
    case 2 => Ok(Parsed(HandshakeAckPayload, pos))
    case 3 => Ok(Parsed(HeartbeatPayload, pos))
    case 4 =>
      var s :- ParseSnapshot(buf, pos);
      Ok(Parsed(SnapshotPayloadOf(s.value), s.next))
    case 5 =>
      var a :- ParseAck(buf, pos, EndOfStreamException);
      Ok(Parsed(AckPayload(a.value), a.next))
    case 6 =>
      var b :- ParseBackpressure(buf, pos, EndOfStreamException);
      Ok(Parsed(BackpressurePayload(b.value), b.next))
    case 7 =>
      var code :- ParseU32(buf, pos, EndOfStreamException);
      var message :- ParseString(buf, code.next);
      Ok(Parsed(ErrorPayload(code.value, message.value), message.next))
    case _ => Err(InvalidMessageTypeException(messageType))
  }

  /** The envelope as `DeserializeMessage` first reads it: its type byte not yet checked. */
  datatype RawEnvelope = RawEnvelope(version: ProtocolVersion, messageType: u8, messageId: u64,
                                     timestampSecs: i64, compressed: bool)

  /** The 20 envelope bytes at the start of the data, read field by field. */
  function ParseRawEnvelope(data: seq<u8>): (r: Result<Parsed<RawEnvelope>, ServerError>)
    ensures r.Ok? <==> 20 <= |data|
    ensures r.Ok? ==> r.value.next == 20
    ensures r.Err? ==> r.error == EndOfStreamException
  {
    var major :- ParseU8(data, 0, EndOfStreamException);
    var minor :- ParseU8(data, major.next, EndOfStreamException);
    var messageType :- ParseU8(data, minor.next, EndOfStreamException);
    var id :- ParseU64(data, messageType.next, EndOfStreamException);
    var ts :- ParseI64(data, id.next, EndOfStreamException);
    var compressed :- ParseBool(data, ts.next, EndOfStreamException);
    Ok(Parsed(RawEnvelope(ProtocolVersion(major.value, minor.value), messageType.value, id.value, ts.value,
                          compressed.value), compressed.next))
  }

  /**
   * The payload of `DeserializeMessage`: read on from the envelope's end, or, when the
   * flag is set, from the start of the decompressed remainder.
   */
  function ParseMessagePayload(data: seq<u8>, env: RawEnvelope, decompress: Decompressor)
    : (r: Result<Parsed<Payload<u8>>, ServerError>)
    requires 20 <= |data|
    ensures r.Ok? ==> MessageTypeFromU8(env.messageType) == Ok(PayloadType(r.value.value))
  {
    if env.compressed then
      match decompress(data[20..])
      case None => Err(DecompressionException)
      case Some(payloadData) => ParsePayload(payloadData, 0, env.messageType)
    else ParsePayload(data, 20, env.messageType)
  }

  /** `DeserializeMessage`: the envelope, then the payload its type byte selects; bytes after it are ignored. */
  function DeserializeMessage(data: seq<u8>, decompress: Decompressor): Result<ServerMessage, ServerError> {
    var env :- ParseRawEnvelope(data);
    var payload :- ParseMessagePayload(data, env.value, decompress);
    var e := env.value;
    Ok(Message(Envelope(e.version, PayloadType(payload.value), e.messageId, e.timestampSecs, e.compressed),
               payload.value))
  }

  /**
   * `DecodeAsync`: one frame from pos of the input, and the position just after its
   * checksum. The oversize report carries the length cast to `int`.
   */
  function DecodeFrame(input: seq<u8>, pos: nat, decompress: Decompressor)
    : Result<Parsed<ServerMessage>, ServerError>
  {
    var prefix :- Take(input, pos, 4, EndOfStreamException);
    var len := BeValue(prefix.value);
    if len > MAX_FRAME_SIZE then Err(FrameTooLargeException(UncheckedInt32(len), MAX_FRAME_SIZE))
    else DecodeFrameBody(input, prefix.next, len, decompress)
  }

  /** The rest of `DecodeAsync` once the length has passed the size check: payload, checksum, message. */
  function DecodeFrameBody(input: seq<u8>, at: nat, len: nat, decompress: Decompressor)
    : Result<Parsed<ServerMessage>, ServerError>
  {
    var payload :- Take(input, at, len, EndOfStreamException);
    var trailer :- Take(input, payload.next, 4, EndOfStreamException);
    var expected := LeValue(trailer.value);
    var actual := Crc32(payload.value);
    if actual != expected then Err(Crc32MismatchException(expected, actual))
    else
      var m :- DeserializeMessage(payload.value, decompress);
      Ok(Parsed(m, trailer.next))
  }
}
