/**
 * The agent's frame codec as the code runs it: `encode` grows `Vec<u8>` buffers in place
 * with `push` / `extend_from_slice` and the `write_*` helpers; `decode` advances a
 * `Cursor` with `read_exact` through the `read_*` helpers and collects the process list
 * in a loop. Each method is proved to compute the corresponding function of AgentSpec.
 */
module AgentCodec {
  import opened Wrappers
  import opened Bytes
  import opened Utf8
  import opened Protocol
  import opened Wire
  import opened AgentSpec

  /** `Vec<u8>`, grown in place. */
  class ByteVec {
    var contents: seq<u8>

    constructor ()
      ensures contents == []
    {
      contents := [];
    }

    method Push(b: u8)
      modifies this
      ensures contents == old(contents) + [b]
    {
      contents := contents + [b];
    }

    method ExtendFromSlice(s: seq<u8>)
      modifies this
      ensures contents == old(contents) + s
    {
      contents := contents + s;
    }
  }

  method WriteString(buf: ByteVec, value: Utf8String)
    modifies buf
    ensures buf.contents == old(buf.contents) + StringBytes(value)
  {
    ghost var before := buf.contents;
    buf.ExtendFromSlice(LeBytes(|value|, 8));
    buf.ExtendFromSlice(value);
    AppendAssoc(before, LeBytes(|value|, 8), value);
  }

  method WriteOptionalString(buf: ByteVec, value: Option<Utf8String>)
    modifies buf
    ensures buf.contents == old(buf.contents) + OptStringBytes(value)
  {
    match value
    case Some(v) =>
      ghost var before := buf.contents;
      buf.Push(1);
      WriteString(buf, v);
      AppendAssoc(before, [1], StringBytes(v));
    case None =>
      buf.Push(0);
  }

  method WriteOptionalU32(buf: ByteVec, value: Option<u32>)
    modifies buf
    ensures buf.contents == old(buf.contents) + OptU32Bytes(value)
  {
    match value
    case Some(v) =>
      ghost var before := buf.contents;
      buf.Push(1);
      buf.ExtendFromSlice(LeBytes(v, 4));
      AppendAssoc(before, [1], LeBytes(v, 4));
    case None =>
      buf.Push(0);
  }

  /** The loop body of the snapshot arm of encode: one sample. */
  method WriteProcess(buf: ByteVec, process: ProcessSample)
    modifies buf
    ensures buf.contents == old(buf.contents) + ProcessBytes(process)
  {
    ghost var before := buf.contents;
    buf.ExtendFromSlice(LeBytes(process.pid, 4));
    ghost var written := LeBytes(process.pid, 4);
    WriteString(buf, process.name);
    AppendAssoc(before, written, StringBytes(process.name));
    written := written + StringBytes(process.name);
    buf.ExtendFromSlice(LeBytes(process.cpuPercent.bits, 4));
    AppendAssoc(before, written, LeBytes(process.cpuPercent.bits, 4));
    written := written + LeBytes(process.cpuPercent.bits, 4);
    buf.ExtendFromSlice(LeBytes(process.memoryBytes, 8));
    AppendAssoc(before, written, LeBytes(process.memoryBytes, 8));
    written := written + LeBytes(process.memoryBytes, 8);
    WriteOptionalString(buf, process.cmdline);
    AppendAssoc(before, written, OptStringBytes(process.cmdline));
  }

  /** The fixed-width head of the snapshot arm of encode: window bounds and totals. */
  method WriteSnapshotTotals(buf: ByteVec, snapshot: SnapshotPayload)
    modifies buf
    ensures buf.contents == old(buf.contents) + SnapshotTotalsBytes(snapshot)
  {
    ghost var before := buf.contents;
    buf.ExtendFromSlice(LeBytes(I64Bits(snapshot.windowStartSecs), 8));
    ghost var written := LeBytes(I64Bits(snapshot.windowStartSecs), 8);
    buf.ExtendFromSlice(LeBytes(I64Bits(snapshot.windowEndSecs), 8));
    AppendAssoc(before, written, LeBytes(I64Bits(snapshot.windowEndSecs), 8));
    written := written + LeBytes(I64Bits(snapshot.windowEndSecs), 8);
    buf.ExtendFromSlice(LeBytes(snapshot.totalCpuPercent.bits, 4));
    AppendAssoc(before, written, LeBytes(snapshot.totalCpuPercent.bits, 4));
    written := written + LeBytes(snapshot.totalCpuPercent.bits, 4);
    buf.ExtendFromSlice(LeBytes(snapshot.totalMemoryBytes, 8));
    AppendAssoc(before, written, LeBytes(snapshot.totalMemoryBytes, 8));
  }

  /** The loop of the snapshot arm of encode: each sample in list order. */
  method WriteProcesses(buf: ByteVec, processes: ProcessList)
    modifies buf
    ensures buf.contents == old(buf.contents) + ProcessesBytes(processes)
  {
    ghost var before := buf.contents;
    for i := 0 to |processes|
      invariant buf.contents == before + ProcessesBytes(processes[..i])
    {
      WriteProcess(buf, processes[i]);
      AppendAssoc(before, ProcessesBytes(processes[..i]), ProcessBytes(processes[i]));
      ProcessesBytesPrefix(processes, i);
    }
    assert processes[..|processes|] == processes;
  }

  /** The snapshot arm of encode: fixed fields, the u64 count, each sample in order, the flag. */
  method WriteSnapshot(buf: ByteVec, snapshot: SnapshotPayload)
    modifies buf
    ensures buf.contents == old(buf.contents) + SnapshotBytes(snapshot)
  {
    ghost var before := buf.contents;
    WriteSnapshotTotals(buf, snapshot);
    ghost var written := SnapshotTotalsBytes(snapshot);
    buf.ExtendFromSlice(LeBytes(|snapshot.processes|, 8));
    AppendAssoc(before, written, LeBytes(|snapshot.processes|, 8));
    written := written + LeBytes(|snapshot.processes|, 8);
    WriteProcesses(buf, snapshot.processes);
    AppendAssoc(before, written, ProcessesBytes(snapshot.processes));
    written := written + ProcessesBytes(snapshot.processes);
    buf.Push(if snapshot.truncated then 1 else 0);
    AppendAssoc(before, written, [BoolByte(snapshot.truncated)]);
  }

  /** The envelope head of encode: version, type byte, id, timestamp, compressed flag. */
  method WriteEnvelope(buf: ByteVec, envelope: Envelope)
    modifies buf
    ensures buf.contents == old(buf.contents) + EnvelopeBytes(envelope)
  {
    ghost var before := buf.contents;
    buf.Push(envelope.version.major);
    buf.Push(envelope.version.minor);
    buf.Push(MessageTypeToU8(envelope.messageType));
    ghost var written := [envelope.version.major, envelope.version.minor, MessageTypeToU8(envelope.messageType)];
    assert buf.contents == before + written;
    buf.ExtendFromSlice(LeBytes(envelope.messageId, 8));
    AppendAssoc(before, written, LeBytes(envelope.messageId, 8));
    written := written + LeBytes(envelope.messageId, 8);
    buf.ExtendFromSlice(LeBytes(I64Bits(envelope.timestampSecs), 8));
    AppendAssoc(before, written, LeBytes(I64Bits(envelope.timestampSecs), 8));
    written := written + LeBytes(I64Bits(envelope.timestampSecs), 8);
    buf.Push(if envelope.compressed then 1 else 0);
    AppendAssoc(before, written, [BoolByte(envelope.compressed)]);
  }

  /** The payload match of encode, writing into a fresh buffer. */
  method WritePayload(buf: ByteVec, payload: Payload<OsType>)
    modifies buf
    ensures buf.contents == old(buf.contents) + PayloadBytes(ToWire(payload))
  {
    ghost var before := buf.contents;
    match payload
    case HandshakePayload(identity) =>
      WriteString(buf, identity.instanceId);
      ghost var written := StringBytes(identity.instanceId);
      buf.Push(OsTypeToU8(identity.osType));
      AppendAssoc(before, written, [OsTypeToU8(identity.osType)]);
      written := written + [OsTypeToU8(identity.osType)];
      WriteString(buf, identity.agentVersion);
      AppendAssoc(before, written, StringBytes(identity.agentVersion));
      written := written + StringBytes(identity.agentVersion);
      buf.Push(identity.protocolVersion.major);
      buf.Push(identity.protocolVersion.minor);
      assert buf.contents == before + written + [identity.protocolVersion.major, identity.protocolVersion.minor];
      AppendAssoc(before, written, [identity.protocolVersion.major, identity.protocolVersion.minor]);
      written := written + [identity.protocolVersion.major, identity.protocolVersion.minor];
      buf.ExtendFromSlice(LeBytes(identity.capabilities, 4));
      AppendAssoc(before, written, LeBytes(identity.capabilities, 4));
    case HandshakeAckPayload =>
      assert buf.contents == before + [];
    case HeartbeatPayload =>
      assert buf.contents == before + [];
    case SnapshotPayloadOf(snapshot) =>
      WriteSnapshot(buf, snapshot);
    case AckPayload(ack) =>
      buf.ExtendFromSlice(LeBytes(ack.messageId, 8));
      buf.Push(if ack.success then 1 else 0);
      AppendAssoc(before, LeBytes(ack.messageId, 8), [BoolByte(ack.success)]);
      ghost var written := LeBytes(ack.messageId, 8) + [BoolByte(ack.success)];
      WriteOptionalU32(buf, ack.errorCode);
      AppendAssoc(before, written, OptU32Bytes(ack.errorCode));
    case BackpressurePayload(bp) =>
      buf.Push(bp.level);
      WriteOptionalU32(buf, bp.pauseSecs);
      AppendAssoc(before, [bp.level], OptU32Bytes(bp.pauseSecs));
    case ErrorPayload(code, msg) =>
      buf.ExtendFromSlice(LeBytes(code, 4));
      WriteString(buf, msg);
      AppendAssoc(before, LeBytes(code, 4), StringBytes(msg));
  }

  /** The payload part of encode: serialized into a buffer of its own, compressed when the flag is set, then appended. */
  method WriteEncodedPayload(body: ByteVec, message: AgentMessage, compress: Compressor)
    modifies body
    ensures body.contents
         == old(body.contents) + EncodedPayload(message.envelope.compressed, compress, PayloadBytes(ToWire(message.payload)))
  {
    var payloadBytes := new ByteVec();
    WritePayload(payloadBytes, message.payload);
    assert payloadBytes.contents == PayloadBytes(ToWire(message.payload));
    var encodedPayload := EncodedPayload(message.envelope.compressed, compress, payloadBytes.contents);
    body.ExtendFromSlice(encodedPayload);
  }

  /** `FrameCodec::encode`. */
  method Encode(message: AgentMessage, compress: Compressor) returns (r: Result<seq<u8>, ProtocolError>)
    ensures r == EncodeFrame(message, compress)
  {
    var body := new ByteVec();
    WriteEnvelope(body, message.envelope);
    assert body.contents == EnvelopeBytes(message.envelope);
    WriteEncodedPayload(body, message, compress);
    assert body.contents == EncodeBody(message, compress);
    if |body.contents| > MAX_FRAME_SIZE {
      return Err(FrameTooLarge(|body.contents|, MAX_FRAME_SIZE));
    }
    var frame := new ByteVec();
    frame.ExtendFromSlice(BeBytes(|body.contents|, 4));
    assert frame.contents == BeBytes(|body.contents|, 4);
    frame.ExtendFromSlice(body.contents);
    r := Ok(frame.contents);
  }

  /** `std::io::Cursor` over a byte buffer; also the reader `decode` is handed. */
  class Cursor {
    const buf: seq<u8>
    var pos: nat

    predicate Valid()
      reads this
    {
      pos <= |buf|
    }

    constructor (data: seq<u8>)
      ensures buf == data && pos == 0 && Valid()
    {
      buf := data;
      pos := 0;
    }

    /** `read_exact`: n bytes, or an unexpected-end-of-file error that leaves the cursor at the end. */
    method ReadExact(n: nat) returns (r: Result<seq<u8>, ProtocolError>)
      requires Valid()
      modifies this
      ensures Valid()
      ensures Track(r, pos) == Take(buf, old(pos), n, Io)
      ensures r.Err? ==> pos == |buf|
    {
      if pos + n <= |buf| {
        r := Ok(buf[pos..pos + n]);
        pos := pos + n;
      } else {
        r := Err(Io);
        pos := |buf|;
      }
    }
  }

  method ReadU8(c: Cursor) returns (r: Result<u8, ProtocolError>)
    requires c.Valid()
    modifies c
    ensures c.Valid() && Track(r, c.pos) == ParseU8(c.buf, old(c.pos), Io)
  {
    var b :- c.ReadExact(1);
    r := Ok(b[0]);
  }

  method ReadBool(c: Cursor) returns (r: Result<bool, ProtocolError>)
    requires c.Valid()
    modifies c
    ensures c.Valid() && Track(r, c.pos) == ParseBool(c.buf, old(c.pos), Io)
  {
    var b :- ReadU8(c);
    r := Ok(b != 0);
  }

  method ReadU32Le(c: Cursor) returns (r: Result<u32, ProtocolError>)
    requires c.Valid()
    modifies c
    ensures c.Valid() && Track(r, c.pos) == ParseU32(c.buf, old(c.pos), Io)
  {
    var b :- c.ReadExact(4);
    r := Ok(LeValue(b));
  }

  method ReadU64Le(c: Cursor) returns (r: Result<u64, ProtocolError>)
    requires c.Valid()
    modifies c
    ensures c.Valid() && Track(r, c.pos) == ParseU64(c.buf, old(c.pos), Io)
  {
    var b :- c.ReadExact(8);
    r := Ok(LeValue(b));
  }

  method ReadI64Le(c: Cursor) returns (r: Result<i64, ProtocolError>)
    requires c.Valid()
    modifies c
    ensures c.Valid() && Track(r, c.pos) == ParseI64(c.buf, old(c.pos), Io)
  {
    var b :- ReadU64Le(c);
    r := Ok(I64OfBits(b));
  }

  method ReadF32Le(c: Cursor) returns (r: Result<F32, ProtocolError>)
    requires c.Valid()
    modifies c
    ensures c.Valid() && Track(r, c.pos) == ParseF32(c.buf, old(c.pos), Io)
  {
    var b :- ReadU32Le(c);
    r := Ok(F32(b));
  }

  method ReadString(c: Cursor) returns (r: Result<Utf8String, ProtocolError>)
    requires c.Valid()
    modifies c
    ensures c.Valid() && Track(r, c.pos) == ParseString(c.buf, old(c.pos))
  {
    var len :- ReadU64Le(c);
    var bytes :- c.ReadExact(len);
    if ValidUtf8(bytes) {
      r := Ok(bytes);
    } else {
      r := Err(Serialization);
    }
  }

  method ReadOptionalString(c: Cursor) returns (r: Result<Option<Utf8String>, ProtocolError>)
    requires c.Valid()
    modifies c
    ensures c.Valid() && Track(r, c.pos) == ParseOptionalString(c.buf, old(c.pos))
  {
    var hasValue :- ReadBool(c);
    if hasValue {
      var s :- ReadString(c);
      r := Ok(Some(s));
    } else {
      r := Ok(None);
    }
  }

  method ReadOptionalU32(c: Cursor) returns (r: Result<Option<u32>, ProtocolError>)
    requires c.Valid()
    modifies c
    ensures c.Valid() && Track(r, c.pos) == ParseOptionalU32(c.buf, old(c.pos), Io)
  {
    var hasValue :- ReadBool(c);
    if hasValue {
      var v :- ReadU32Le(c);
      r := Ok(Some(v));
    } else {
      r := Ok(None);
    }
  }

  /** One process sample of the snapshot arm. */
  method ReadProcess(c: Cursor) returns (r: Result<ProcessSample, ProtocolError>)
    requires c.Valid()
    modifies c
    ensures c.Valid() && Track(r, c.pos) == ParseProcess(c.buf, old(c.pos))
  {
    var pid :- ReadU32Le(c);
    var name :- ReadString(c);
    var cpuPercent :- ReadF32Le(c);
    var memoryBytes :- ReadU64Le(c);
    var cmdline :- ReadOptionalString(c);
    r := Ok(ProcessSample(pid, name, cpuPercent, memoryBytes, cmdline));
  }

  /** `for _ in 0..process_count { processes.push(...) }`, stopping at the first failed read. */
  method ReadProcesses(c: Cursor, count: u64) returns (r: Result<ProcessList, ProtocolError>)
    requires c.Valid()
    modifies c
    ensures c.Valid() && Track(r, c.pos) == ParseProcesses(c.buf, old(c.pos), count, [])
  {
    var processes: seq<ProcessSample> := [];
    for i := 0 to count
      invariant c.Valid() && |processes| == i
      invariant ParseProcesses(c.buf, old(c.pos), count, []) == ParseProcesses(c.buf, c.pos, count - i, processes)
    {
      ParseProcessesUnfold(c.buf, c.pos, count - i, processes);
      var process :- ReadProcess(c);
      processes := processes + [process];
    }
    r := Ok(processes);
  }

  method ReadSnapshot(c: Cursor) returns (r: Result<SnapshotPayload, ProtocolError>)
    requires c.Valid()
    modifies c
    ensures c.Valid() && Track(r, c.pos) == ParseSnapshot(c.buf, old(c.pos))
  {
    var windowStartSecs :- ReadI64Le(c);
    var windowEndSecs :- ReadI64Le(c);
    var totalCpuPercent :- ReadF32Le(c);
    var totalMemoryBytes :- ReadU64Le(c);
    var processCount :- ReadU64Le(c);
    var processes :- ReadProcesses(c, processCount);
    var truncated :- ReadBool(c);
    r := Ok(SnapshotPayload(windowStartSecs, windowEndSecs, totalCpuPercent, totalMemoryBytes, processes, truncated));
  }

  /** The handshake arm: every field is read, then the OS byte is checked. */
  method ReadIdentity(c: Cursor) returns (r: Result<AgentIdentity<OsType>, ProtocolError>)
    requires c.Valid()
    modifies c
    ensures c.Valid() && Track(r, c.pos) == ParseIdentity(c.buf, old(c.pos))
  {
    var instanceId :- ReadString(c);
    var osTypeRaw :- ReadU8(c);
    var agentVersion :- ReadString(c);
    var protoMajor :- ReadU8(c);
    var protoMinor :- ReadU8(c);
    var capabilities :- ReadU32Le(c);
    var osType: OsType;
    if osTypeRaw == 1 {
      osType := Windows;
    } else if osTypeRaw == 2 {
      osType := Linux;
    } else {
      return Err(InvalidMessageType(osTypeRaw));
    }
    r := Ok(AgentIdentity(instanceId, osType, agentVersion, ProtocolVersion(protoMajor, protoMinor), capabilities));
  }

  /** The `match message_type` of decode. */
  method ReadPayload(c: Cursor, messageType: MessageType) returns (r: Result<Payload<OsType>, ProtocolError>)
    requires c.Valid()
    modifies c
    ensures c.Valid() && Track(r, c.pos) == ParsePayload(c.buf, old(c.pos), messageType)
  {
    match messageType
    case Handshake =>
      var identity :- ReadIdentity(c);
      r := Ok(HandshakePayload(identity));
    case HandshakeAck =>
      r := Ok(HandshakeAckPayload);
    case Heartbeat =>
      r := Ok(HeartbeatPayload);
    case Snapshot =>
      var snapshot :- ReadSnapshot(c);
      r := Ok(SnapshotPayloadOf(snapshot));
    case Ack =>
      var messageId :- ReadU64Le(c);
      var success :- ReadBool(c);
      var errorCode :- ReadOptionalU32(c);
      r := Ok(AckPayload(MessageAck(messageId, success, errorCode)));
    case Backpressure =>
      var level :- ReadU8(c);
      var pauseSecs :- ReadOptionalU32(c);
      r := Ok(BackpressurePayload(BackpressureSignal(level, pauseSecs)));
    case Error =>
      var code :- ReadU32Le(c);
      var message :- ReadString(c);
      r := Ok(ErrorPayload(code, message));
  }

  /** The envelope reads at the start of decode, on a cursor at the start of the frame body. */
  method ReadEnvelope(cursor: Cursor) returns (r: Result<Envelope, ProtocolError>)
    requires cursor.Valid() && cursor.pos == 0
    modifies cursor
    ensures cursor.Valid() && Track(r, cursor.pos) == ParseEnvelope(cursor.buf)
  {
    var major :- ReadU8(cursor);
    var minor :- ReadU8(cursor);
    var mt :- ReadU8(cursor);
    var messageType :- MessageTypeFromU8(mt);
    var messageId :- ReadU64Le(cursor);
    var timestampSecs :- ReadI64Le(cursor);
    var compressed :- ReadBool(cursor);
    r := Ok(Envelope(ProtocolVersion(major, minor), messageType, messageId, timestampSecs, compressed));
  }

  /**
   * The body part of decode: the envelope through a cursor over the frame body, the bytes
   * after it decompressed when the flag is set, and the payload through a second cursor.
   */
  method DecodeMessageBody(payload: seq<u8>, decompress: Decompressor) returns (r: Result<AgentMessage, ProtocolError>)
    ensures r == DecodeBody(payload, decompress)
  {
    var cursor := new Cursor(payload);
    var envelope :- ReadEnvelope(cursor);

    var remaining := payload[cursor.pos..];
    var payloadBytes: seq<u8>;
    if envelope.compressed {
      var decoded := decompress(remaining);
      if decoded.None? {
        return Err(Compression);
      }
      payloadBytes := decoded.value;
    } else {
      payloadBytes := remaining;
    }
    assert PayloadRegion(payload, cursor.pos, envelope.compressed, decompress) == Ok(payloadBytes);

    var payloadCursor := new Cursor(payloadBytes);
    var messagePayload :- ReadPayload(payloadCursor, envelope.messageType);
    r := Ok(Message(envelope, messagePayload));
  }

  /** `FrameCodec::decode`: one frame from the reader, which is left just after it. */
  method Decode(reader: Cursor, decompress: Decompressor) returns (r: Result<AgentMessage, ProtocolError>)
    requires reader.Valid()
    modifies reader
    ensures reader.Valid()
    ensures Track(r, reader.pos) == DecodeFrame(reader.buf, old(reader.pos), decompress)
  {
    var lenBuf :- reader.ReadExact(4);
    var payloadLen := BeValue(lenBuf);
    if payloadLen > MAX_FRAME_SIZE {
      return Err(FrameTooLarge(payloadLen, MAX_FRAME_SIZE));
    }
    var payload :- reader.ReadExact(payloadLen);
    r := DecodeMessageBody(payload, decompress);
  }
}
