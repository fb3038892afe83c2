/**
 * What the agent's frame codec computes, as functions over bytes.
 * Frame: [u32 big-endian body length][body]; body: envelope, then the payload, compressed
 * when the envelope says so. The imperative code in AgentCodec is proved to compute these.
 */
module AgentSpec {
  import opened Wrappers
  import opened Bytes
  import opened Utf8
  import opened Protocol
  import opened Wire

  type AgentMessage = Message<OsType>

  // ---------------------------------------------------------------- what encode produces

  /** Envelope bytes, then the payload bytes, compressed when the envelope's flag is set. */
  function EncodeBody(m: AgentMessage, compress: Compressor): seq<u8> {
    EnvelopeBytes(m.envelope) + EncodedPayload(m.envelope.compressed, compress, PayloadBytes(ToWire(m.payload)))
  }

  /** The frame, or FrameTooLarge with the body size when the body exceeds 256 KiB. */
  function EncodeFrame(m: AgentMessage, compress: Compressor): Result<seq<u8>, ProtocolError> {
    var body := EncodeBody(m, compress);
    if |body| > MAX_FRAME_SIZE then Err(FrameTooLarge(|body|, MAX_FRAME_SIZE))
    else Ok(BeBytes(|body|, 4) + body)
  }

  // ---------------------------------------------------------------- what decode computes

  /** `read_string`: u64 length, that many bytes, which must be UTF-8. */
  function ParseString(buf: seq<u8>, pos: nat): Result<Parsed<Utf8String>, ProtocolError> {
    var len :- ParseU64(buf, pos, Io);
    var bytes :- Take(buf, len.next, len.value, Io);
    if ValidUtf8(bytes.value) then Ok(Parsed(bytes.value, bytes.next)) else Err(Serialization)
  }

  /** `read_optional_string`: any non-zero presence byte means a string follows. */
  function ParseOptionalString(buf: seq<u8>, pos: nat): Result<Parsed<Option<Utf8String>>, ProtocolError> {
    var has :- ParseBool(buf, pos, Io);
    if has.value then
      var s :- ParseString(buf, has.next);
      Ok(Parsed(Some(s.value), s.next))
    else Ok(Parsed(None, has.next))
  }

  function ParseProcess(buf: seq<u8>, pos: nat): Result<Parsed<ProcessSample>, ProtocolError> {
    var pid :- ParseU32(buf, pos, Io);
    var name :- ParseString(buf, pid.next);
    var cpu :- ParseF32(buf, name.next, Io);
    var mem :- ParseU64(buf, cpu.next, Io);
    var cmdline :- ParseOptionalString(buf, mem.next);
    Ok(Parsed(ProcessSample(pid.value, name.value, cpu.value, mem.value, cmdline.value), cmdline.next))
  }

  /**
   * The sample loop of `read_snapshot`: count more samples after the ones in acc, each
   * read where the one before ended; the first failure stops it. One iteration is
   * ParseProcessesStep, two calls below ParseProcesses, so that the solver follows the loop only where ParseProcessesUnfold is called.
   */
  function ParseProcesses(buf: seq<u8>, pos: nat, count: nat, acc: seq<ProcessSample>)
    : (r: Result<Parsed<seq<ProcessSample>>, ProtocolError>)
    ensures r.Ok? ==> |r.value.value| == |acc| + count
    decreases count, 2
  {
    if count == 0 then Ok(Parsed(acc, pos)) else ParseProcessesNonEmpty(buf, pos, count, acc)
  }

  function ParseProcessesNonEmpty(buf: seq<u8>, pos: nat, count: nat, acc: seq<ProcessSample>)
    : (r: Result<Parsed<seq<ProcessSample>>, ProtocolError>)
    requires count > 0
    ensures r.Ok? ==> |r.value.value| == |acc| + count
    decreases count, 1
  {
    ParseProcessesStep(buf, pos, count, acc)
  }

  function ParseProcessesStep(buf: seq<u8>, pos: nat, count: nat, acc: seq<ProcessSample>)
    : (r: Result<Parsed<seq<ProcessSample>>, ProtocolError>)
    requires count > 0
    ensures r.Ok? ==> |r.value.value| == |acc| + count
    decreases count, 0
  {
    var p :- ParseProcess(buf, pos);
    ParseProcesses(buf, p.next, count - 1, acc + [p.value])
  }

  lemma ParseProcessesUnfold(buf: seq<u8>, pos: nat, count: nat, acc: seq<ProcessSample>)
    requires count > 0
    ensures ParseProcesses(buf, pos, count, acc)
         == match ParseProcess(buf, pos)
            case Ok(p) => ParseProcesses(buf, p.next, count - 1, acc + [p.value])
            case Err(e) => Err(e)
  {
    assert ParseProcesses(buf, pos, count, acc) == ParseProcessesNonEmpty(buf, pos, count, acc);
    assert ParseProcessesNonEmpty(buf, pos, count, acc) == ParseProcessesStep(buf, pos, count, acc);
  }

  function ParseSnapshot(buf: seq<u8>, pos: nat): Result<Parsed<SnapshotPayload>, ProtocolError> {
    var start :- ParseI64(buf, pos, Io);
    var end :- ParseI64(buf, start.next, Io);
    var cpu :- ParseF32(buf, end.next, Io);
    var mem :- ParseU64(buf, cpu.next, Io);
    var count :- ParseU64(buf, mem.next, Io);
    var processes :- ParseProcesses(buf, count.next, count.value, []);
    var truncated :- ParseBool(buf, processes.next, Io);
    Ok(Parsed(SnapshotPayload(start.value, end.value, cpu.value, mem.value, processes.value, truncated.value),
              truncated.next))
  }

  /** The OS discriminants; any other byte is reported as an invalid message type carrying it. */
  function OsTypeFromU8(b: u8): Result<OsType, ProtocolError> {
    if b == 1 then Ok(Windows) else if b == 2 then Ok(Linux) else Err(InvalidMessageType(b))
  }

  /** All identity fields are read before the OS byte is checked. */
  function ParseIdentity(buf: seq<u8>, pos: nat): Result<Parsed<AgentIdentity<OsType>>, ProtocolError> {
    var instanceId :- ParseString(buf, pos);
    var osRaw :- ParseU8(buf, instanceId.next, Io);
    var agentVersion :- ParseString(buf, osRaw.next);
    var major :- ParseU8(buf, agentVersion.next, Io);
    var minor :- ParseU8(buf, major.next, Io);
    var capabilities :- ParseU32(buf, minor.next, Io);
    var os :- OsTypeFromU8(osRaw.value);
    Ok(Parsed(AgentIdentity(instanceId.value, os, agentVersion.value, ProtocolVersion(major.value, minor.value),
                            capabilities.value), capabilities.next))
  }

  /** The payload parser the type byte selects. */
  function ParsePayload(buf: seq<u8>, pos: nat, t: MessageType): Result<Parsed<Payload<OsType>>, ProtocolError> {
    match t
    case Handshake =>
      var id :- ParseIdentity(buf, pos);
      Ok(Parsed(HandshakePayload(id.value), id.next))
    case HandshakeAck => Ok(Parsed(HandshakeAckPayload, pos))
    case Heartbeat => Ok(Parsed(HeartbeatPayload, pos))
    case Snapshot =>
      var s :- ParseSnapshot(buf, pos);
      Ok(Parsed(SnapshotPayloadOf(s.value), s.next))
    case Ack =>
      var a :- ParseAck(buf, pos, Io);
      Ok(Parsed(AckPayload(a.value), a.next))
    case Backpressure =>
      var b :- ParseBackpressure(buf, pos, Io);
      Ok(Parsed(BackpressurePayload(b.value), b.next))
    case Error =>
      var code :- ParseU32(buf, pos, Io);
      var message :- ParseString(buf, code.next);
      Ok(Parsed(ErrorPayload(code.value, message.value), message.next))
  }

  /** The 20-byte envelope header; the type byte is checked as soon as it is read. */
  function ParseEnvelope(body: seq<u8>): (r: Result<Parsed<Envelope>, ProtocolError>)
    ensures r.Ok? ==> r.value.next == 20 <= |body|
  {
    var major :- ParseU8(body, 0, Io);
    var minor :- ParseU8(body, major.next, Io);
    var typeByte :- ParseU8(body, minor.next, Io);
    var t :- MessageTypeFromU8(typeByte.value);
    var id :- ParseU64(body, typeByte.next, Io);
    var ts :- ParseI64(body, id.next, Io);
    var compressed :- ParseBool(body, ts.next, Io);
    Ok(Parsed(Envelope(ProtocolVersion(major.value, minor.value), t, id.value, ts.value, compressed.value),
              compressed.next))
  }

  /** The payload region after the envelope, decompressed when the flag is set. */
  function PayloadRegion(body: seq<u8>, at: nat, compressed: bool, decompress: Decompressor)
    : Result<seq<u8>, ProtocolError>
    requires at <= |body|
  {
    if compressed then
      match decompress(body[at..])
      case Some(p) => Ok(p)
      case None => Err(Compression)
    else Ok(body[at..])
  }

  /** A whole body: envelope, then the payload; bytes after the payload are ignored. */
  function DecodeBody(body: seq<u8>, decompress: Decompressor): Result<AgentMessage, ProtocolError> {
    var env :- ParseEnvelope(body);
    var payloadBytes :- PayloadRegion(body, env.next, env.value.compressed, decompress);
    var payload :- ParsePayload(payloadBytes, 0, env.value.messageType);
    Ok(Message(env.value, payload.value))
  }

  /** One frame starting at pos of the input: its message and the position just after it. */
  function DecodeFrame(input: seq<u8>, pos: nat, decompress: Decompressor): Result<Parsed<AgentMessage>, ProtocolError> {
    var prefix :- Take(input, pos, 4, Io);
    var len := BeValue(prefix.value);
    if len > MAX_FRAME_SIZE then Err(FrameTooLarge(len, MAX_FRAME_SIZE))
    else
      var body :- Take(input, prefix.next, len, Io);
      var m :- DecodeBody(body.value, decompress);
      Ok(Parsed(m, body.next))
  }
}
