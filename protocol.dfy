/**
 * The message data model shared by the agent and the server: versions, message and
 * OS discriminants, capability flags, the payload structures, the envelope, and the
 * error values of the agent's codec. The OS field of a handshake identity is a type
 * parameter: the agent stores an `OsType`, the server a raw byte (see ServerMessages).
 */
module Protocol {
  import opened Wrappers
  import opened Bytes
  import opened Utf8

  /**
   * A string as it travels: its UTF-8 bytes, whose length fits the u64 length prefix.
   * A Rust `String` is always well-formed UTF-8: see `PayloadStringsValid`.
   */
  type Utf8String = s: seq<u8> | |s| < 0x1_0000_0000_0000_0000

  /** Protocol version, MAJOR.MINOR. */
  datatype ProtocolVersion = ProtocolVersion(major: u8, minor: u8)

  /** The version every encoder writes: 1.0. */
  const CURRENT: ProtocolVersion := ProtocolVersion(1, 0)

  /** A reader at version self understands a writer at version other. */
  predicate IsCompatibleWith(self: ProtocolVersion, other: ProtocolVersion) {
    self.major == other.major && self.minor >= other.minor
  }

  datatype MessageType = Handshake | HandshakeAck | Heartbeat | Snapshot | Ack | Backpressure | Error

  /** The wire discriminant of a message type. */
  function MessageTypeToU8(t: MessageType): (b: u8)
    ensures 1 <= b <= 7
  {
    match t
    case Handshake => 1
    case HandshakeAck => 2
    case Heartbeat => 3
    case Snapshot => 4
    case Ack => 5
    case Backpressure => 6
    case Error => 7
  }

  /** The message type of a discriminant; every byte outside 1..7 is refused with that byte. */
  function MessageTypeFromU8(b: u8): (r: Result<MessageType, ProtocolError>)
    ensures r.Ok? <==> 1 <= b <= 7
    ensures r.Ok? ==> MessageTypeToU8(r.value) == b
    ensures r.Err? ==> r.error == InvalidMessageType(b)
  {
    match b
    case 1 => Ok(MessageType.Handshake)
    case 2 => Ok(MessageType.HandshakeAck)
    case 3 => Ok(MessageType.Heartbeat)
    case 4 => Ok(MessageType.Snapshot)
    case 5 => Ok(MessageType.Ack)
    case 6 => Ok(MessageType.Backpressure)
    case 7 => Ok(MessageType.Error)
    case _ => Err(InvalidMessageType(b))
  }

  datatype OsType = Windows | Linux

  function OsTypeToU8(os: OsType): u8 {
    match os
    case Windows => 1
    case Linux => 2
  }

  const CAP_ALL_PROCESS: u32 := 0x01
  const CAP_COMPRESSION: u32 := 0x02

  datatype AgentIdentity<Os> = AgentIdentity(
    instanceId: Utf8String,
    osType: Os,
    agentVersion: Utf8String,
    protocolVersion: ProtocolVersion,
    capabilities: u32)

  /** `capabilities & CAP_ALL_PROCESS != 0` */
  predicate SupportsAllProcess(capabilities: u32) {
    (capabilities as bv32) & (CAP_ALL_PROCESS as bv32) != 0
  }

  /** `capabilities & CAP_COMPRESSION != 0` */
  predicate SupportsCompression(capabilities: u32) {
    (capabilities as bv32) & (CAP_COMPRESSION as bv32) != 0
  }

  /** A 32-bit float, carried as its IEEE 754 bit pattern; the codec does no arithmetic on it. */
  datatype F32 = F32(bits: u32)

  datatype ProcessSample = ProcessSample(
    pid: u32,
    name: Utf8String,
    cpuPercent: F32,
    memoryBytes: u64,
    cmdline: Option<Utf8String>)

  /** A process list whose length fits the u64 count prefix. */
  type ProcessList = s: seq<ProcessSample> | |s| < 0x1_0000_0000_0000_0000

  datatype SnapshotPayload = SnapshotPayload(
    windowStartSecs: i64,
    windowEndSecs: i64,
    totalCpuPercent: F32,
    totalMemoryBytes: u64,
    processes: ProcessList,
    truncated: bool)

  datatype BackpressureSignal = BackpressureSignal(level: u8, pauseSecs: Option<u32>)

  datatype MessageAck = MessageAck(messageId: u64, success: bool, errorCode: Option<u32>)

  datatype Envelope = Envelope(
    version: ProtocolVersion,
    messageType: MessageType,
    messageId: u64,
    timestampSecs: i64,
    compressed: bool)

  datatype Payload<Os> =
    | HandshakePayload(identity: AgentIdentity<Os>)
    | HandshakeAckPayload
    | HeartbeatPayload
    | SnapshotPayloadOf(snapshot: SnapshotPayload)
    | AckPayload(ack: MessageAck)
    | BackpressurePayload(signal: BackpressureSignal)
    | ErrorPayload(code: u32, message: Utf8String)

  datatype Message<Os> = Message(envelope: Envelope, payload: Payload<Os>)

  /** The message type a payload variant belongs to. */
  function PayloadType<Os>(p: Payload<Os>): MessageType {
    match p
    case HandshakePayload(_) => MessageType.Handshake
    case HandshakeAckPayload => MessageType.HandshakeAck
    case HeartbeatPayload => MessageType.Heartbeat
    case SnapshotPayloadOf(_) => MessageType.Snapshot
    case AckPayload(_) => MessageType.Ack
    case BackpressurePayload(_) => MessageType.Backpressure
    case ErrorPayload(_, _) => MessageType.Error
  }

  /** The envelope names the type of the payload it carries. */
  predicate Consistent<Os>(m: Message<Os>) {
    m.envelope.messageType == PayloadType(m.payload)
  }

  /** Every string a sample carries is well-formed UTF-8. */
  predicate ProcessStringsValid(p: ProcessSample) {
    ValidUtf8(p.name) && (p.cmdline.Some? ==> ValidUtf8(p.cmdline.value))
  }

  /** Every sample of the list carries well-formed strings. */
  predicate ProcessesStringsValid(ps: seq<ProcessSample>) {
    ps == [] || (ProcessStringsValid(ps[0]) && ProcessesStringsValid(ps[1..]))
  }

  /** Every string a payload carries is well-formed UTF-8, as every Rust `String` is. */
  predicate PayloadStringsValid<Os>(p: Payload<Os>) {
    match p
    case HandshakePayload(id) => ValidUtf8(id.instanceId) && ValidUtf8(id.agentVersion)
    case SnapshotPayloadOf(s) => ProcessesStringsValid(s.processes)
    case ErrorPayload(_, message) => ValidUtf8(message)
    case _ => true
  }

  /** Largest body, envelope included, either codec sends or accepts: 256 KiB. */
  const MAX_FRAME_SIZE: nat := 256 * 1024

  /** The agent codec's errors. `Io` is an unexpected end of input; `Serialization` a string that is not UTF-8. */
  datatype ProtocolError =
    | InvalidMessageType(value: u8)
    | IncompatibleVersion
    | FrameTooLarge(size: nat, max: nat)
    | Io
    | Serialization
    | Compression
}
