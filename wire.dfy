/**
 * The body layout both codecs write and read, stated once. Encoders are proved to
 * produce these byte strings; the parsers of each codec are built from the primitive
 * readers below. The layout is given for the wire view of a message, in which the
 * handshake OS field is already its discriminant byte.
 */
module Wire {
  import opened Wrappers
  import opened Bytes
  import opened Protocol

  /**
   * The zstd compressor (taken as total) and decompressor (None: the compressed stream is
   * invalid) of both codecs, which are foreign libraries and parameters here.
   */
  type Compressor = seq<u8> -> seq<u8>
  type Decompressor = seq<u8> -> Option<seq<u8>>

  function BoolByte(b: bool): u8 {
    if b then 1 else 0
  }

  /** Length-prefixed string: u64 little-endian byte count, then the UTF-8 bytes. */
  function StringBytes(s: Utf8String): seq<u8> {
    LeBytes(|s|, 8) + s
  }

  /** Optional string: presence byte 0, or presence byte 1 followed by the string. */
  function OptStringBytes(o: Option<Utf8String>): seq<u8> {
    match o
    case None => [0]
    case Some(s) => [1] + StringBytes(s)
  }

  /** Optional u32: presence byte 0, or presence byte 1 followed by the value little-endian. */
  function OptU32Bytes(o: Option<u32>): seq<u8> {
    match o
    case None => [0]
    case Some(v) => [1] + LeBytes(v, 4)
  }

  /** The 20-byte envelope: major, minor, type, message id (LE), timestamp (LE), compressed flag. */
  function EnvelopeBytes(e: Envelope): seq<u8> {
    [e.version.major, e.version.minor, MessageTypeToU8(e.messageType)]
      + LeBytes(e.messageId, 8)
      + LeBytes(I64Bits(e.timestampSecs), 8)
      + [BoolByte(e.compressed)]
  }

  function ProcessBytes(p: ProcessSample): seq<u8> {
    LeBytes(p.pid, 4) + StringBytes(p.name) + LeBytes(p.cpuPercent.bits, 4)
      + LeBytes(p.memoryBytes, 8) + OptStringBytes(p.cmdline)
  }

  /**
   * The samples one after the other, in list order. The non-empty case is a function of
   * its own so that the solver opens a list only where a proof mentions its first sample.
   */
  function ProcessesBytes(ps: seq<ProcessSample>): seq<u8>
    decreases |ps|, 2
  {
    if ps == [] then [] else ProcessesBytesNonEmpty(ps)
  }

  function ProcessesBytesNonEmpty(ps: seq<ProcessSample>): seq<u8>
    requires ps != []
    decreases |ps|, 1
  {
    ProcessesBytesCons(ps[0], ps[1..])
  }

  function ProcessesBytesCons(p: ProcessSample, rest: seq<ProcessSample>): seq<u8>
    decreases |rest| + 1, 0
  {
    ProcessBytes(p) + ProcessesBytes(rest)
  }

  lemma ProcessesBytesUnfold(ps: seq<ProcessSample>)
    requires ps != []
    ensures ProcessesBytes(ps) == ProcessBytes(ps[0]) + ProcessesBytes(ps[1..])
  {
    assert ProcessesBytes(ps) == ProcessesBytesNonEmpty(ps);
    assert ProcessesBytesNonEmpty(ps) == ProcessesBytesCons(ps[0], ps[1..]);
  }

  lemma {:induction false} ProcessesBytesSnoc(ps: seq<ProcessSample>, p: ProcessSample)
    ensures ProcessesBytes(ps + [p]) == ProcessesBytes(ps) + ProcessBytes(p)
  {
    ProcessesBytesUnfold(ps + [p]);
    if ps == [] {
      assert ps + [p] == [p];
      assert ProcessesBytes([p][1..]) == [];
    } else {
      assert (ps + [p])[1..] == ps[1..] + [p];
      ProcessesBytesSnoc(ps[1..], p);
      ProcessesBytesUnfold(ps);
    }
  }

  /** One more sample of a list: the bytes of the first i + 1 samples extend those of the first i. */
  lemma {:induction false} ProcessesBytesPrefix(ps: seq<ProcessSample>, i: nat)
    requires i < |ps|
    ensures ProcessesBytes(ps[..i + 1]) == ProcessesBytes(ps[..i]) + ProcessBytes(ps[i])
  {
    assert ps[..i + 1] == ps[..i] + [ps[i]];
    ProcessesBytesSnoc(ps[..i], ps[i]);
  }

  /** The 28 fixed-width bytes that open a snapshot: window bounds, total CPU, total memory. */
  function SnapshotTotalsBytes(s: SnapshotPayload): seq<u8> {
    LeBytes(I64Bits(s.windowStartSecs), 8) + LeBytes(I64Bits(s.windowEndSecs), 8)
      + LeBytes(s.totalCpuPercent.bits, 4) + LeBytes(s.totalMemoryBytes, 8)
  }

  function SnapshotBytes(s: SnapshotPayload): seq<u8> {
    SnapshotTotalsBytes(s) + LeBytes(|s.processes|, 8) + ProcessesBytes(s.processes) + [BoolByte(s.truncated)]
  }

  function IdentityBytes(id: AgentIdentity<u8>): seq<u8> {
    StringBytes(id.instanceId) + [id.osType] + StringBytes(id.agentVersion)
      + [id.protocolVersion.major, id.protocolVersion.minor] + LeBytes(id.capabilities, 4)
  }

  function AckBytes(a: MessageAck): seq<u8> {
    LeBytes(a.messageId, 8) + [BoolByte(a.success)] + OptU32Bytes(a.errorCode)
  }

  function BackpressureBytes(b: BackpressureSignal): seq<u8> {
    [b.level] + OptU32Bytes(b.pauseSecs)
  }

  function ErrorBytes(code: u32, message: Utf8String): seq<u8> {
    LeBytes(code, 4) + StringBytes(message)
  }

  /** The payload layout, chosen by the payload variant (not by the envelope's type byte). */
  function PayloadBytes(p: Payload<u8>): seq<u8> {
    match p
    case HandshakePayload(id) => IdentityBytes(id)
    case HandshakeAckPayload => []
    case HeartbeatPayload => []
    case SnapshotPayloadOf(s) => SnapshotBytes(s)
    case AckPayload(a) => AckBytes(a)
    case BackpressurePayload(b) => BackpressureBytes(b)
    case ErrorPayload(code, message) => ErrorBytes(code, message)
  }

  /** The agent's identity seen on the wire: its OS value replaced by the OS discriminant. */
  function IdentityToWire(id: AgentIdentity<OsType>): AgentIdentity<u8> {
    AgentIdentity(id.instanceId, OsTypeToU8(id.osType), id.agentVersion, id.protocolVersion, id.capabilities)
  }

  /** The agent's payload seen on the wire: its OS value replaced by the OS discriminant. */
  function ToWire(p: Payload<OsType>): Payload<u8> {
    match p
    case HandshakePayload(id) => HandshakePayload(IdentityToWire(id))
    case HandshakeAckPayload => HandshakeAckPayload
    case HeartbeatPayload => HeartbeatPayload
    case SnapshotPayloadOf(s) => SnapshotPayloadOf(s)
    case AckPayload(a) => AckPayload(a)
    case BackpressurePayload(b) => BackpressurePayload(b)
    case ErrorPayload(code, message) => ErrorPayload(code, message)
  }

  function ToWireMessage(m: Message<OsType>): Message<u8> {
    Message(m.envelope, ToWire(m.payload))
  }

  /** The payload bytes as they travel: compressed when the envelope's flag is set. */
  function EncodedPayload(compressed: bool, compress: Compressor, payload: seq<u8>): seq<u8> {
    if compressed then compress(payload) else payload
  }

  // Primitive readers over a byte buffer, shared by both codecs; eof is the error each
  // codec reports when the buffer ends early.

  /** Exactly n bytes at pos, or eof. */
  function Take<E>(buf: seq<u8>, pos: nat, n: nat, eof: E): Result<Parsed<seq<u8>>, E> {
    if pos + n <= |buf| then Ok(Parsed(buf[pos..pos + n], pos + n)) else Err(eof)
  }

  function ParseU8<E>(buf: seq<u8>, pos: nat, eof: E): Result<Parsed<u8>, E> {
    if pos < |buf| then Ok(Parsed(buf[pos], pos + 1)) else Err(eof)
  }

  /** A byte read as a flag: any non-zero byte is true. */
  function ParseBool<E>(buf: seq<u8>, pos: nat, eof: E): Result<Parsed<bool>, E> {
    var b :- ParseU8(buf, pos, eof);
    Ok(Parsed(b.value != 0, b.next))
  }

  function ParseU32<E>(buf: seq<u8>, pos: nat, eof: E): Result<Parsed<u32>, E> {
    var b :- Take(buf, pos, 4, eof);
    Ok(Parsed(LeValue(b.value), b.next))
  }

  function ParseU64<E>(buf: seq<u8>, pos: nat, eof: E): Result<Parsed<u64>, E> {
    var b :- Take(buf, pos, 8, eof);
    Ok(Parsed(LeValue(b.value), b.next))
  }

  function ParseI64<E>(buf: seq<u8>, pos: nat, eof: E): Result<Parsed<i64>, E> {
    var b :- ParseU64(buf, pos, eof);
    Ok(Parsed(I64OfBits(b.value), b.next))
  }

  function ParseF32<E>(buf: seq<u8>, pos: nat, eof: E): Result<Parsed<F32>, E> {
    var b :- ParseU32(buf, pos, eof);
    Ok(Parsed(F32(b.value), b.next))
  }

  /** A presence byte, then a u32 when it is non-zero. */
  function ParseOptionalU32<E>(buf: seq<u8>, pos: nat, eof: E): Result<Parsed<Option<u32>>, E> {
    var has :- ParseBool(buf, pos, eof);
    if has.value then
      var v :- ParseU32(buf, has.next, eof);
      Ok(Parsed(Some(v.value), v.next))
    else Ok(Parsed(None, has.next))
  }

  function ParseAck<E>(buf: seq<u8>, pos: nat, eof: E): Result<Parsed<MessageAck>, E> {
    var id :- ParseU64(buf, pos, eof);
    var success :- ParseBool(buf, id.next, eof);
    var code :- ParseOptionalU32(buf, success.next, eof);
    Ok(Parsed(MessageAck(id.value, success.value, code.value), code.next))
  }

  function ParseBackpressure<E>(buf: seq<u8>, pos: nat, eof: E): Result<Parsed<BackpressureSignal>, E> {
    var level :- ParseU8(buf, pos, eof);
    var pause :- ParseOptionalU32(buf, level.next, eof);
    Ok(Parsed(BackpressureSignal(level.value, pause.value), pause.next))
  }

  /**
   * buf holds the bytes x at position pos. Stated byte by byte through Matches and
   * MatchesHead, so that the solver looks inside only where AtSlice is called.
   */
  predicate At(buf: seq<u8>, pos: nat, x: seq<u8>)
    decreases |x|, 2
  {
    pos + |x| <= |buf| && Matches(buf, pos, x)
  }

  predicate Matches(buf: seq<u8>, pos: nat, x: seq<u8>)
    decreases |x|, 1
  {
    x == [] || MatchesHead(buf, pos, x)
  }

  predicate MatchesHead(buf: seq<u8>, pos: nat, x: seq<u8>)
    decreases |x|, 0
  {
    x != [] && pos < |buf| && buf[pos] == x[0] && At(buf, pos + 1, x[1..])
  }

  /** At is the slice of buf at pos being x. */
  lemma {:induction false} AtSlice(buf: seq<u8>, pos: nat, x: seq<u8>)
    ensures At(buf, pos, x) <==> pos + |x| <= |buf| && buf[pos..pos + |x|] == x
    decreases |x|
  {
    assert At(buf, pos, x) <==> pos + |x| <= |buf| && Matches(buf, pos, x);
    if x != [] && pos + |x| <= |buf| {
      assert Matches(buf, pos, x) <==> MatchesHead(buf, pos, x);
      assert MatchesHead(buf, pos, x) <==> buf[pos] == x[0] && At(buf, pos + 1, x[1..]);
      AtSlice(buf, pos + 1, x[1..]);
      assert buf[pos..pos + |x|] == [buf[pos]] + buf[pos + 1..pos + 1 + |x[1..]|];
      assert x == [x[0]] + x[1..];
    }
  }

  /** Bytes a + b at pos: a at pos, b at mid, the position just after a. */
  lemma {:induction false} AtConcat(buf: seq<u8>, pos: nat, mid: nat, a: seq<u8>, b: seq<u8>)
    requires At(buf, pos, a + b) && mid == pos + |a|
    ensures At(buf, pos, a) && At(buf, mid, b)
  {
    AtSlice(buf, pos, a + b);
    AtSlice(buf, pos, a);
    AtSlice(buf, mid, b);
    assert buf[pos..mid] == (a + b)[..|a|];
    assert buf[mid..mid + |b|] == (a + b)[|a|..];
  }

  /** A buffer holds its own bytes at position 0. */
  lemma {:induction false} AtWhole(buf: seq<u8>)
    ensures At(buf, 0, buf)
  {
    AtSlice(buf, 0, buf);
    assert buf[0..|buf|] == buf;
  }

  // Each primitive reader returns the value its encoder wrote, and moves past exactly those
  // bytes. Positions are parameters throughout the proofs: every lemma names the position
  // where a field ends and states how it follows from the one where the field starts.

  lemma {:induction false} TakeAt<E>(buf: seq<u8>, pos: nat, next: nat, x: seq<u8>, eof: E)
    requires At(buf, pos, x) && next == pos + |x|
    ensures Take(buf, pos, |x|, eof) == Ok(Parsed(x, next))
  {
    AtSlice(buf, pos, x);
  }

  lemma {:induction false} ParseU8At<E>(buf: seq<u8>, pos: nat, next: nat, b: u8, eof: E)
    requires At(buf, pos, [b]) && next == pos + 1
    ensures ParseU8(buf, pos, eof) == Ok(Parsed(b, next))
  {
    AtSlice(buf, pos, [b]);
    assert buf[pos] == buf[pos..pos + 1][0];
  }

  lemma {:induction false} ParseBoolAt<E>(buf: seq<u8>, pos: nat, next: nat, b: bool, eof: E)
    requires At(buf, pos, [BoolByte(b)]) && next == pos + 1
    ensures ParseBool(buf, pos, eof) == Ok(Parsed(b, next))
  {
    ParseU8At(buf, pos, next, BoolByte(b), eof);
  }

  lemma {:induction false} ParseU32At<E>(buf: seq<u8>, pos: nat, next: nat, v: u32, eof: E)
    requires At(buf, pos, LeBytes(v, 4)) && next == pos + 4
    ensures ParseU32(buf, pos, eof) == Ok(Parsed(v, next))
  {
    AtSlice(buf, pos, LeBytes(v, 4));
    LeValueOfLeBytes(v, 4);
  }

  lemma {:induction false} ParseU64At<E>(buf: seq<u8>, pos: nat, next: nat, v: u64, eof: E)
    requires At(buf, pos, LeBytes(v, 8)) && next == pos + 8
    ensures ParseU64(buf, pos, eof) == Ok(Parsed(v, next))
  {
    AtSlice(buf, pos, LeBytes(v, 8));
    LeValueOfLeBytes(v, 8);
  }

  lemma {:induction false} ParseI64At<E>(buf: seq<u8>, pos: nat, next: nat, v: i64, eof: E)
    requires At(buf, pos, LeBytes(I64Bits(v), 8)) && next == pos + 8
    ensures ParseI64(buf, pos, eof) == Ok(Parsed(v, next))
  {
    ParseU64At(buf, pos, next, I64Bits(v), eof);
    I64OfBitsOfI64(v);
  }

  lemma {:induction false} ParseF32At<E>(buf: seq<u8>, pos: nat, next: nat, v: F32, eof: E)
    requires At(buf, pos, LeBytes(v.bits, 4)) && next == pos + 4
    ensures ParseF32(buf, pos, eof) == Ok(Parsed(v, next))
  {
    ParseU32At(buf, pos, next, v.bits, eof);
  }
}
