/**
 * The server's frame codec as the code runs it: `SerializeMessage` appends field by
 * field to a `BinaryWriter`; `DeserializeMessage` advances a `BinaryReader` over a
 * `MemoryStream`; `ReadProcessList` adds samples in a loop; `Encode` fills a frame
 * array; `DecodeAsync` fills three arrays from the network stream with `ReadExactAsync`,
 * which loops until each is full. Each method is proved to compute the corresponding
 * function of ServerSpec.
 */
module ServerCodec {
  import opened Wrappers
  import opened Bytes
  import opened Utf8
  import opened Protocol
  import opened Wire
  import opened Checksum
  import opened ServerMessages
  import opened ServerSpec

  // ---------------------------------------------------------------- writing

  /** `BinaryWriter` over a `MemoryStream`: written holds what the stream has received. */
  class BinaryWriter {
    var written: seq<u8>

    constructor ()
      ensures written == []
    {
      written := [];
    }

    method WriteByte(b: u8)
      modifies this
      ensures written == old(written) + [b]
    {
      written := written + [b];
    }

    /** `Write(bool)`: one byte, 1 or 0. */
    method WriteBoolean(b: bool)
      modifies this
      ensures written == old(written) + [BoolByte(b)]
    {
      written := written + [if b then 1 else 0];
    }

    method WriteUInt32(v: u32)
      modifies this
      ensures written == old(written) + LeBytes(v, 4)
    {
      written := written + LeBytes(v, 4);
    }

    method WriteUInt64(v: u64)
      modifies this
      ensures written == old(written) + LeBytes(v, 8)
    {
      written := written + LeBytes(v, 8);
    }

    /** `Write(long)`: the two's-complement bits, little-endian. */
    method WriteInt64(v: i64)
      modifies this
      ensures written == old(written) + LeBytes(I64Bits(v), 8)
    {
      written := written + LeBytes(I64Bits(v), 8);
    }

    /** `Write(float)`: the IEEE 754 bits, little-endian. */
    method WriteSingle(v: F32)
      modifies this
      ensures written == old(written) + LeBytes(v.bits, 4)
    {
      written := written + LeBytes(v.bits, 4);
    }

    /** `Write(byte[])`: the bytes as they are, with no length. */
    method WriteBytes(bytes: seq<u8>)
      modifies this
      ensures written == old(written) + bytes
    {
      written := written + bytes;
    }
  }

  /** `WriteString`: the UTF-8 bytes of the string, after their u64 length. */
  method WriteString(writer: BinaryWriter, value: Utf8String)
    modifies writer
    ensures writer.written == old(writer.written) + StringBytes(value)
  {
    ghost var before := writer.written;
    writer.WriteUInt64(|value|);
    writer.WriteBytes(value);
    AppendAssoc(before, LeBytes(|value|, 8), value);
  }

  method WriteOptionalString(writer: BinaryWriter, value: Option<Utf8String>)
    modifies writer
    ensures writer.written == old(writer.written) + OptStringBytes(value)
  {
    if value.None? {
      writer.WriteByte(0);
    } else {
      ghost var before := writer.written;
      writer.WriteByte(1);
      WriteString(writer, value.value);
      AppendAssoc(before, [1], StringBytes(value.value));
    }
  }

  method WriteOptionalUInt32(writer: BinaryWriter, value: Option<u32>)
    modifies writer
    ensures writer.written == old(writer.written) + OptU32Bytes(value)
  {
    if value.None? {
      writer.WriteByte(0);
    } else {
      ghost var before := writer.written;
      writer.WriteByte(1);
      writer.WriteUInt32(value.value);
      AppendAssoc(before, [1], LeBytes(value.value, 4));
    }
  }

  /** The handshake arm of `WritePayload`. */
  method WriteIdentity(writer: BinaryWriter, identity: AgentIdentity<u8>)
    modifies writer
    ensures writer.written == old(writer.written) + IdentityBytes(identity)
  {
    ghost var before := writer.written;
    WriteString(writer, identity.instanceId);
    ghost var done := StringBytes(identity.instanceId);
    writer.WriteByte(identity.osType);
    AppendAssoc(before, done, [identity.osType]);
    done := done + [identity.osType];
    WriteString(writer, identity.agentVersion);
    AppendAssoc(before, done, StringBytes(identity.agentVersion));
    done := done + StringBytes(identity.agentVersion);
    writer.WriteByte(identity.protocolVersion.major);
    writer.WriteByte(identity.protocolVersion.minor);
    assert writer.written == before + done + [identity.protocolVersion.major, identity.protocolVersion.minor];
    AppendAssoc(before, done, [identity.protocolVersion.major, identity.protocolVersion.minor]);
    done := done + [identity.protocolVersion.major, identity.protocolVersion.minor];
    writer.WriteUInt32(identity.capabilities);
    AppendAssoc(before, done, LeBytes(identity.capabilities, 4));
  }

  /** The body of the `foreach` of the snapshot arm: one sample. */
  method WriteProcess(writer: BinaryWriter, process: ProcessSample)
    modifies writer
    ensures writer.written == old(writer.written) + ProcessBytes(process)
  {
    ghost var before := writer.written;
    writer.WriteUInt32(process.pid);
    ghost var done := LeBytes(process.pid, 4);
    WriteString(writer, process.name);
    AppendAssoc(before, done, StringBytes(process.name));
    done := done + StringBytes(process.name);
    writer.WriteSingle(process.cpuPercent);
    AppendAssoc(before, done, LeBytes(process.cpuPercent.bits, 4));
    done := done + LeBytes(process.cpuPercent.bits, 4);
    writer.WriteUInt64(process.memoryBytes);
    AppendAssoc(before, done, LeBytes(process.memoryBytes, 8));
    done := done + LeBytes(process.memoryBytes, 8);
    WriteOptionalString(writer, process.cmdline);
    AppendAssoc(before, done, OptStringBytes(process.cmdline));
  }

  /** The `foreach` of the snapshot arm: every sample, in list order. */
  method WriteProcesses(writer: BinaryWriter, processes: ProcessList)
    modifies writer
    ensures writer.written == old(writer.written) + ProcessesBytes(processes)
  {
    ghost var before := writer.written;
    for i := 0 to |processes|
      invariant writer.written == before + ProcessesBytes(processes[..i])
    {
      WriteProcess(writer, processes[i]);
      AppendAssoc(before, ProcessesBytes(processes[..i]), ProcessBytes(processes[i]));
      ProcessesBytesPrefix(processes, i);
    }
    assert processes[..|processes|] == processes;
  }

  /** The snapshot arm of `WritePayload`: totals, the u64 count, the samples, the flag. */
  method WriteSnapshot(writer: BinaryWriter, snapshot: SnapshotPayload)
    modifies writer
    ensures writer.written == old(writer.written) + SnapshotBytes(snapshot)
  {
    ghost var before := writer.written;
    writer.WriteInt64(snapshot.windowStartSecs);
    ghost var done := LeBytes(I64Bits(snapshot.windowStartSecs), 8);
    writer.WriteInt64(snapshot.windowEndSecs);
    AppendAssoc(before, done, LeBytes(I64Bits(snapshot.windowEndSecs), 8));
    done := done + LeBytes(I64Bits(snapshot.windowEndSecs), 8);
    writer.WriteSingle(snapshot.totalCpuPercent);
    AppendAssoc(before, done, LeBytes(snapshot.totalCpuPercent.bits, 4));
    done := done + LeBytes(snapshot.totalCpuPercent.bits, 4);
    writer.WriteUInt64(snapshot.totalMemoryBytes);
    AppendAssoc(before, done, LeBytes(snapshot.totalMemoryBytes, 8));
    done := done + LeBytes(snapshot.totalMemoryBytes, 8);
    assert done == SnapshotTotalsBytes(snapshot);
    writer.WriteUInt64(|snapshot.processes|);
    AppendAssoc(before, done, LeBytes(|snapshot.processes|, 8));
    done := done + LeBytes(|snapshot.processes|, 8);
    WriteProcesses(writer, snapshot.processes);
    AppendAssoc(before, done, ProcessesBytes(snapshot.processes));
    done := done + ProcessesBytes(snapshot.processes);
    writer.WriteBoolean(snapshot.truncated);
    AppendAssoc(before, done, [BoolByte(snapshot.truncated)]);
  }

  /** `WritePayload`: the fields of the payload variant, in order. */
  method WritePayload(writer: BinaryWriter, payload: Payload<u8>)
    modifies writer
    ensures writer.written == old(writer.written) + PayloadBytes(payload)
  {
    ghost var before := writer.written;
    match payload
    case HandshakePayload(identity) =>
      WriteIdentity(writer, identity);
    case HandshakeAckPayload =>
      assert writer.written == before + [];
    case HeartbeatPayload =>
      assert writer.written == before + [];
    case SnapshotPayloadOf(snapshot) =>
      WriteSnapshot(writer, snapshot);
    case AckPayload(ack) =>
      writer.WriteUInt64(ack.messageId);
      writer.WriteBoolean(ack.success);
      AppendAssoc(before, LeBytes(ack.messageId, 8), [BoolByte(ack.success)]);
      WriteOptionalUInt32(writer, ack.errorCode);
      AppendAssoc(before, LeBytes(ack.messageId, 8) + [BoolByte(ack.success)], OptU32Bytes(ack.errorCode));
    case BackpressurePayload(signal) =>
      writer.WriteByte(signal.level);
      WriteOptionalUInt32(writer, signal.pauseSecs);
      AppendAssoc(before, [signal.level], OptU32Bytes(signal.pauseSecs));
    case ErrorPayload(code, message) =>
      writer.WriteUInt32(code);
      WriteString(writer, message);
      AppendAssoc(before, LeBytes(code, 4), StringBytes(message));
  }

  /** The envelope writes of `SerializeMessage`. */
  method WriteEnvelope(writer: BinaryWriter, envelope: Envelope)
    modifies writer
    ensures writer.written == old(writer.written) + EnvelopeBytes(envelope)
  {
    ghost var before := writer.written;
    writer.WriteByte(envelope.version.major);
    writer.WriteByte(envelope.version.minor);
    writer.WriteByte(MessageTypeToU8(envelope.messageType));
    ghost var done := [envelope.version.major, envelope.version.minor, MessageTypeToU8(envelope.messageType)];
    assert writer.written == before + done;
    writer.WriteUInt64(envelope.messageId);
    AppendAssoc(before, done, LeBytes(envelope.messageId, 8));
    done := done + LeBytes(envelope.messageId, 8);
    writer.WriteInt64(envelope.timestampSecs);
    AppendAssoc(before, done, LeBytes(I64Bits(envelope.timestampSecs), 8));
    done := done + LeBytes(I64Bits(envelope.timestampSecs), 8);
    writer.WriteBoolean(envelope.compressed);
    AppendAssoc(before, done, [BoolByte(envelope.compressed)]);
  }

  /** `SerializeMessage`: a fresh writer, the envelope, the payload, `ToArray`. */
  method SerializeMessage(message: ServerMessage) returns (bytes: seq<u8>)
    ensures bytes == SerializedMessage(message)
  {
    var writer := new BinaryWriter();
    WriteEnvelope(writer, message.envelope);
    assert writer.written == EnvelopeBytes(message.envelope);
    WritePayload(writer, message.payload);
    bytes := writer.written;
  }

  /** `Span.CopyTo` / `BinaryPrimitives.Write*`: src copied into dst at offset, the rest of dst kept. */
  method CopyInto(src: seq<u8>, dst: array<u8>, offset: nat)
    requires offset + |src| <= dst.Length
    modifies dst
    ensures dst[..offset + |src|] == old(dst[..offset]) + src
    ensures dst[offset + |src|..] == old(dst[offset + |src|..])
  {
    for i := 0 to |src|
      invariant dst[..offset + i] == old(dst[..offset]) + src[..i]
      invariant dst[offset + |src|..] == old(dst[offset + |src|..])
    {
      dst[offset + i] := src[i];
      assert src[..i + 1] == src[..i] + [src[i]];
    }
    assert src[..|src|] == src;
  }

  /** The frame array of `Encode`: big-endian length, the payload, the little-endian checksum. */
  method FrameArray(payload: seq<u8>) returns (frame: seq<u8>)
    requires |payload| <= MAX_FRAME_SIZE
    ensures frame == Framed(payload)
  {
    var checksum := Crc32(payload);
    var bytes := new u8[4 + |payload| + 4];
    CopyInto(BeBytes(|payload|, 4), bytes, 0);
    ghost var header := bytes[..4];
    assert header == BeBytes(|payload|, 4);
    CopyInto(payload, bytes, 4);
    ghost var body := bytes[..4 + |payload|];
    assert body == header + payload;
    CopyInto(LeBytes(checksum, 4), bytes, 4 + |payload|);
    assert bytes[..] == bytes[..4 + |payload| + 4] == body + LeBytes(checksum, 4);
    frame := bytes[..];
  }

  /** `Encode`: serialise, compress the whole when the flag is set, check the size, frame with the checksum. */
  method Encode(message: ServerMessage, compress: Compressor) returns (r: Result<seq<u8>, ServerError>)
    ensures r == EncodeFrame(message, compress)
  {
    var serialized := SerializeMessage(message);
    var payload := if message.envelope.compressed then compress(serialized) else serialized;
    assert payload == FramePayload(message, compress);
    if |payload| > MAX_FRAME_SIZE {
      return Err(FrameTooLargeException(|payload|, MAX_FRAME_SIZE));
    }
    var frame := FrameArray(payload);
    r := Ok(frame);
  }

  // ---------------------------------------------------------------- reading a buffer

  /** `BinaryReader` over a `MemoryStream` on data: position is the stream's position. */
  class BinaryReader {
    const data: seq<u8>
    var position: nat

    predicate Valid()
      reads this
    {
      position <= |data|
    }

    constructor (data: seq<u8>)
      ensures this.data == data && position == 0 && Valid()
    {
      this.data := data;
      position := 0;
    }

    /** n bytes for a fixed-width read; when fewer remain they are consumed and EndOfStreamException is thrown. */
    method ReadExactly(n: nat) returns (r: Result<seq<u8>, ServerError>)
      requires Valid()
      modifies this
      ensures Valid()
      ensures Track(r, position) == Take(data, old(position), n, EndOfStreamException)
      ensures r.Err? ==> position == |data|
    {
      if position + n <= |data| {
        r := Ok(data[position..position + n]);
        position := position + n;
      } else {
        r := Err(EndOfStreamException);
        position := |data|;
      }
    }

    method ReadByte() returns (r: Result<u8, ServerError>)
      requires Valid()
      modifies this
      ensures Valid() && Track(r, position) == ParseU8(data, old(position), EndOfStreamException)
    {
      var b :- ReadExactly(1);
      r := Ok(b[0]);
    }

    /** `ReadBoolean`: any non-zero byte is true. */
    method ReadBoolean() returns (r: Result<bool, ServerError>)
      requires Valid()
      modifies this
      ensures Valid() && Track(r, position) == ParseBool(data, old(position), EndOfStreamException)
    {
      var b :- ReadByte();
      r := Ok(b != 0);
    }

    method ReadUInt32() returns (r: Result<u32, ServerError>)
      requires Valid()
      modifies this
      ensures Valid() && Track(r, position) == ParseU32(data, old(position), EndOfStreamException)
    {
      var b :- ReadExactly(4);
      r := Ok(LeValue(b));
    }

    method ReadUInt64() returns (r: Result<u64, ServerError>)
      requires Valid()
      modifies this
      ensures Valid() && Track(r, position) == ParseU64(data, old(position), EndOfStreamException)
    {
      var b :- ReadExactly(8);
      r := Ok(LeValue(b));
    }

    method ReadInt64() returns (r: Result<i64, ServerError>)
      requires Valid()
      modifies this
      ensures Valid() && Track(r, position) == ParseI64(data, old(position), EndOfStreamException)
    {
      var b :- ReadUInt64();
      r := Ok(I64OfBits(b));
    }

    method ReadSingle() returns (r: Result<F32, ServerError>)
      requires Valid()
      modifies this
      ensures Valid() && Track(r, position) == ParseF32(data, old(position), EndOfStreamException)
    {
      var b :- ReadUInt32();
      r := Ok(F32(b));
    }

    /**
     * `ReadBytes(count)`: a negative count is an ArgumentOutOfRangeException; otherwise
     * count bytes, or all that remain when fewer do, and no exception.
     */
    method ReadBytes(count: int) returns (r: Result<seq<u8>, ServerError>)
      requires Valid()
      modifies this
      ensures Valid()
      ensures count < 0 ==> r == Err(ArgumentOutOfRangeException) && position == old(position)
      ensures count >= 0 ==> Track(r, position) == Ok(ReadBytesUpTo(data, old(position), count))
    {
      if count < 0 {
        return Err(ArgumentOutOfRangeException);
      }
      if position + count <= |data| {
        r := Ok(data[position..position + count]);
        position := position + count;
      } else {
        r := Ok(data[position..]);
        position := |data|;
      }
    }
  }

  /** `ReadString`: `ReadBytes((int)length)`, then `Encoding.UTF8.GetString`. */
  method ReadString(reader: BinaryReader) returns (r: Result<Utf8String, ServerError>)
    requires reader.Valid()
    modifies reader
    ensures reader.Valid() && Track(r, reader.position) == ParseString(reader.data, old(reader.position))
  {
    var length :- reader.ReadUInt64();
    var bytes :- reader.ReadBytes(UncheckedInt32(length));
    DecodeLossyLength(bytes);
    r := Ok(DecodeLossy(bytes));
  }

  method ReadOptionalString(reader: BinaryReader) returns (r: Result<Option<Utf8String>, ServerError>)
    requires reader.Valid()
    modifies reader
    ensures reader.Valid() && Track(r, reader.position) == ParseOptionalString(reader.data, old(reader.position))
  {
    var flag :- reader.ReadByte();
    var hasValue := flag != 0;
    if hasValue {
      var s :- ReadString(reader);
      r := Ok(Some(s));
    } else {
      r := Ok(None);
    }
  }

  method ReadOptionalUInt32(reader: BinaryReader) returns (r: Result<Option<u32>, ServerError>)
    requires reader.Valid()
    modifies reader
    ensures reader.Valid()
    ensures Track(r, reader.position) == ParseOptionalU32(reader.data, old(reader.position), EndOfStreamException)
  {
    var flag :- reader.ReadByte();
    var hasValue := flag != 0;
    if hasValue {
      var v :- reader.ReadUInt32();
      r := Ok(Some(v));
    } else {
      r := Ok(None);
    }
  }

  /** The object initializer in the loop of `ReadProcessList`: one sample, fields in order. */
  method ReadProcess(reader: BinaryReader) returns (r: Result<ProcessSample, ServerError>)
    requires reader.Valid()
    modifies reader
    ensures reader.Valid() && Track(r, reader.position) == ParseProcess(reader.data, old(reader.position))
  {
    var pid :- reader.ReadUInt32();
    var name :- ReadString(reader);
    var cpuPercent :- reader.ReadSingle();
    var memoryBytes :- reader.ReadUInt64();
    var cmdline :- ReadOptionalString(reader);
    r := Ok(ProcessSample(pid, name, cpuPercent, memoryBytes, cmdline));
  }

  /** `ReadProcessList`: the count, the capacity check of `new List((int)count)`, then the loop. */
  method ReadProcessList(reader: BinaryReader) returns (r: Result<ProcessList, ServerError>)
    requires reader.Valid()
    modifies reader
    ensures reader.Valid() && Track(r, reader.position) == ParseProcessList(reader.data, old(reader.position))
  {
    var count :- reader.ReadUInt64();
    if UncheckedInt32(count) < 0 {
      return Err(ArgumentOutOfRangeException);
    }
    ghost var start := reader.position;
    var processes: seq<ProcessSample> := [];
    var i := 0;
    while i < count
      invariant reader.Valid() && i <= count && |processes| == i
      invariant ParseProcesses(reader.data, start, count, []) == ParseProcesses(reader.data, reader.position, count - i, processes)
    {
      ParseProcessesUnfold(reader.data, reader.position, count - i, processes);
      var process :- ReadProcess(reader);
      processes := processes + [process];
      i := i + 1;
    }
    r := Ok(processes);
  }

  /** The snapshot arm of `ReadPayload`. */
  method ReadSnapshot(reader: BinaryReader) returns (r: Result<SnapshotPayload, ServerError>)
    requires reader.Valid()
    modifies reader
    ensures reader.Valid() && Track(r, reader.position) == ParseSnapshot(reader.data, old(reader.position))
  {
    var windowStartSecs :- reader.ReadInt64();
    var windowEndSecs :- reader.ReadInt64();
    var totalCpuPercent :- reader.ReadSingle();
    var totalMemoryBytes :- reader.ReadUInt64();
    var processes :- ReadProcessList(reader);
    var truncated :- reader.ReadBoolean();
    r := Ok(SnapshotPayload(windowStartSecs, windowEndSecs, totalCpuPercent, totalMemoryBytes, processes, truncated));
  }

  /** The handshake arm of `ReadPayload`: the OS byte is kept as it is. */
  method ReadIdentity(reader: BinaryReader) returns (r: Result<AgentIdentity<u8>, ServerError>)
    requires reader.Valid()
    modifies reader
    ensures reader.Valid() && Track(r, reader.position) == ParseIdentity(reader.data, old(reader.position))
  {
    var instanceId :- ReadString(reader);
    var osType :- reader.ReadByte();
    var agentVersion :- ReadString(reader);
    var major :- reader.ReadByte();
    var minor :- reader.ReadByte();
    var capabilities :- reader.ReadUInt32();
    r := Ok(AgentIdentity(instanceId, osType, agentVersion, ProtocolVersion(major, minor), capabilities));
  }

  /** `ReadPayload`: the switch on the type byte. */
  method ReadPayload(reader: BinaryReader, messageType: u8) returns (r: Result<Payload<u8>, ServerError>)
    requires reader.Valid()
    modifies reader
    ensures reader.Valid() && Track(r, reader.position) == ParsePayload(reader.data, old(reader.position), messageType)
  {
    match messageType
    case 1 =>
      var identity :- ReadIdentity(reader);
      r := Ok(HandshakePayload(identity));
    case 2 =>
      r := Ok(HandshakeAckPayload);
    case 3 =>
      r := Ok(HeartbeatPayload);
    case 4 =>
      var snapshot :- ReadSnapshot(reader);
      r := Ok(SnapshotPayloadOf(snapshot));
    case 5 =>
      var messageId :- reader.ReadUInt64();
      var success :- reader.ReadBoolean();
      var errorCode :- ReadOptionalUInt32(reader);
      r := Ok(AckPayload(MessageAck(messageId, success, errorCode)));
    case 6 =>
      var level :- reader.ReadByte();
      var pauseSecs :- ReadOptionalUInt32(reader);
      r := Ok(BackpressurePayload(BackpressureSignal(level, pauseSecs)));
    case 7 =>
      var code :- reader.ReadUInt32();
      var message :- ReadString(reader);
      r := Ok(ErrorPayload(code, message));
    case _ =>
      r := Err(InvalidMessageTypeException(messageType));
  }

  /** The envelope reads of `DeserializeMessage`, on a reader at the start of the data. */
  method ReadRawEnvelope(reader: BinaryReader) returns (r: Result<RawEnvelope, ServerError>)
    requires reader.Valid() && reader.position == 0
    modifies reader
    ensures reader.Valid() && Track(r, reader.position) == ParseRawEnvelope(reader.data)
  {
    var major :- reader.ReadByte();
    var minor :- reader.ReadByte();
    var messageType :- reader.ReadByte();
    var messageId :- reader.ReadUInt64();
    var timestampSecs :- reader.ReadInt64();
    var compressed :- reader.ReadBoolean();
    r := Ok(RawEnvelope(ProtocolVersion(major, minor), messageType, messageId, timestampSecs, compressed));
  }

  /**
   * `DeserializeMessage` on a payload array (a .NET array has fewer than 2^31 elements):
   * the envelope, then the payload from the same reader, or from a reader over the
   * decompressed remainder when the flag is set.
   */
  method DeserializeMessage(data: seq<u8>, decompress: Decompressor) returns (r: Result<ServerMessage, ServerError>)
    requires |data| < 0x8000_0000
    ensures r == ServerSpec.DeserializeMessage(data, decompress)
  {
    var reader := new BinaryReader(data);
    var envelope :- ReadRawEnvelope(reader);
    var payload: Payload<u8>;
    if envelope.compressed {
      var rest := reader.ReadBytes(|reader.data| - reader.position);
      var compressedPayload := rest.value;
      assert compressedPayload == data[20..];
      var payloadData := decompress(compressedPayload);
      if payloadData.None? {
        return Err(DecompressionException);
      }
      var payloadReader := new BinaryReader(payloadData.value);
      payload :- ReadPayload(payloadReader, envelope.messageType);
    } else {
      payload :- ReadPayload(reader, envelope.messageType);
    }
    assert ParseMessagePayload(data, envelope, decompress).Ok?;
    var messageType := MessageTypeFromU8(envelope.messageType).value;
    r := Ok(Message(Envelope(envelope.version, messageType, envelope.messageId, envelope.timestampSecs,
                             envelope.compressed), payload));
  }

  // ---------------------------------------------------------------- reading the network stream

  /** The network stream: the bytes that will ever arrive, and how many have been consumed. */
  class ByteStream {
    const data: seq<u8>
    var position: nat

    predicate Valid()
      reads this
    {
      position <= |data|
    }

    constructor (data: seq<u8>)
      ensures this.data == data && position == 0 && Valid()
    {
      this.data := data;
      position := 0;
    }

    /**
     * `ReadAsync` into buffer[offset..offset + count]: 0 bytes only at the end of the
     * stream, otherwise any number from 1 to count that has arrived.
     */
    method ReadAsync(buffer: array<u8>, offset: nat, count: nat) returns (read: nat)
      requires Valid() && 0 < count && offset + count <= buffer.Length
      modifies this, buffer
      ensures Valid() && read <= count && position == old(position) + read
      ensures read == 0 <==> old(position) == |data|
      ensures buffer[..offset + read] == old(buffer[..offset]) + data[old(position)..position]
    {
      if position == |data| {
        return 0;
      }
      read :| 0 < read <= count && position + read <= |data|;
      CopyInto(data[position..position + read], buffer, offset);
      position := position + read;
    }
  }

  /** `ReadExactAsync`: fills the buffer however the stream splits its data, or throws at its end. */
  method ReadExactAsync(stream: ByteStream, buffer: array<u8>) returns (r: Result<seq<u8>, ServerError>)
    requires stream.Valid()
    modifies stream, buffer
    ensures stream.Valid()
    ensures Track(r, stream.position) == Take(stream.data, old(stream.position), buffer.Length, EndOfStreamException)
    ensures r.Ok? ==> buffer[..] == r.value
    ensures r.Err? ==> stream.position == |stream.data|
  {
    ghost var start := stream.position;
    var offset := 0;
    var remaining := buffer.Length;
    while remaining > 0
      invariant stream.Valid() && 0 <= remaining && offset + remaining == buffer.Length
      invariant stream.position == start + offset
      invariant buffer[..offset] == stream.data[start..stream.position]
    {
      var read := stream.ReadAsync(buffer, offset, remaining);
      if read == 0 {
        return Err(EndOfStreamException);
      }
      offset := offset + read;
      remaining := remaining - read;
    }
    assert buffer[..] == buffer[..offset];
    r := Ok(buffer[..]);
  }

  /** `DecodeAsync`: length prefix, size check, payload, checksum check, then `DeserializeMessage`. */
  method DecodeAsync(stream: ByteStream, decompress: Decompressor) returns (r: Result<ServerMessage, ServerError>)
    requires stream.Valid()
    modifies stream
    ensures stream.Valid()
    ensures Track(r, stream.position) == DecodeFrame(stream.data, old(stream.position), decompress)
  {
    var lengthBuffer := new u8[4];
    var lengthBytes :- ReadExactAsync(stream, lengthBuffer);
    var payloadLength := BeValue(lengthBuffer[..]);
    if payloadLength > MAX_FRAME_SIZE {
      return Err(FrameTooLargeException(UncheckedInt32(payloadLength), MAX_FRAME_SIZE));
    }
    var payload := new u8[payloadLength];
    var payloadBytes :- ReadExactAsync(stream, payload);
    var crcBuffer := new u8[4];
    var crcBytes :- ReadExactAsync(stream, crcBuffer);
    var expectedCrc := LeValue(crcBuffer[..]);
    var actualCrc := Crc32(payload[..]);
    if actualCrc != expectedCrc {
      return Err(Crc32MismatchException(expectedCrc, actualCrc));
    }
    r := DeserializeMessage(payload[..], decompress);
  }
}
