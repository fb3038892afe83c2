/**
 * What the server's readers make of the bytes its writers produce, proved about the
 * functions of ServerSpec (and so, through the method contracts of ServerCodec, about
 * `ReadPayload` and its helpers themselves). The buffers are .NET arrays, which hold
 * fewer than 2^31 bytes; that is what makes every `(int)` cast of a length written by
 * the server exact.
 *
 * Each composite reader is handled in the three steps of AgentProofs: where the writer
 * put every field, what each field's reader returns there, and that the composite
 * reader assembles those results.
 */
module ServerProofs {
  import opened Wrappers
  import opened Bytes
  import opened Utf8
  import opened Protocol
  import opened Wire
  import opened WireProofs
  import opened ServerMessages
  import opened ServerSpec

  /** A .NET array, and so every buffer the server reads, has fewer than 2^31 elements. */
  predicate ArrayLength(buf: seq<u8>) {
    |buf| < 0x8000_0000
  }

  /** The `(int)` cast leaves a length below 2^31 unchanged. */
  lemma SmallInt32(x: nat)
    requires x < 0x8000_0000
    ensures UncheckedInt32(x) == x
  {
  }

  // ---------------------------------------------------------------- strings

  lemma {:induction false} StringFieldsAt(buf: seq<u8>, pos: nat, mid: nat, next: nat, s: Utf8String)
    requires At(buf, pos, StringBytes(s)) && mid == pos + 8 && next == mid + |s| && ArrayLength(buf)
    ensures ParseU64(buf, pos, EndOfStreamException) == Ok(Parsed(|s|, mid))
    ensures UncheckedInt32(|s|) == |s|
    ensures ReadBytesUpTo(buf, mid, |s|) == Parsed(s, next)
  {
    AtConcat(buf, pos, mid, LeBytes(|s|, 8), s);
    ParseU64At(buf, pos, mid, |s|, EndOfStreamException);
    TakeAt(buf, mid, next, s, EndOfStreamException);
    SmallInt32(|s|);
  }

  lemma {:induction false} ParseStringOf(buf: seq<u8>, pos: nat, mid: nat, next: nat, s: Utf8String)
    requires ParseU64(buf, pos, EndOfStreamException) == Ok(Parsed(|s|, mid))
    requires UncheckedInt32(|s|) == |s| && ReadBytesUpTo(buf, mid, |s|) == Parsed(s, next)
    ensures ParseString(buf, pos) == Ok(Parsed(DecodeLossy(s), next))
  {
  }

  /**
   * `ReadString` never refuses the bytes `WriteString` wrote: it returns them decoded,
   * each ill-formed sequence replaced by U+FFFD, and stops just after them.
   */
  lemma {:induction false} ParseStringLossyAt(buf: seq<u8>, pos: nat, next: nat, s: Utf8String)
    requires At(buf, pos, StringBytes(s)) && ArrayLength(buf) && next == pos + |StringBytes(s)|
    ensures ParseString(buf, pos) == Ok(Parsed(DecodeLossy(s), next))
  {
    var mid := pos + 8;
    StringFieldsAt(buf, pos, mid, next, s);
    ParseStringOf(buf, pos, mid, next, s);
  }

  /** `ReadString` returns the string `WriteString` wrote, when it is well-formed UTF-8. */
  lemma {:induction false} ParseStringAt(buf: seq<u8>, pos: nat, next: nat, s: Utf8String)
    requires At(buf, pos, StringBytes(s)) && ValidUtf8(s) && ArrayLength(buf) && next == pos + |StringBytes(s)|
    ensures ParseString(buf, pos) == Ok(Parsed(s, next))
  {
    ParseStringLossyAt(buf, pos, next, s);
    DecodeLossyOfValid(s);
  }

  /**
   * A length whose low 32 bits read as a negative `int` is refused with
   * ArgumentOutOfRangeException, whatever follows it.
   */
  lemma {:induction false} ParseStringNegativeLength(buf: seq<u8>, pos: nat, len: u64)
    requires At(buf, pos, LeBytes(len, 8)) && 0x8000_0000 <= len % 0x1_0000_0000
    ensures ParseString(buf, pos) == Err(ArgumentOutOfRangeException)
  {
    ParseU64At(buf, pos, pos + 8, len, EndOfStreamException);
  }

  // ---------------------------------------------------------------- optional strings

  lemma {:induction false} ParseOptionalStringOf(buf: seq<u8>, pos: nat, mid: nat, next: nat, s: Utf8String)
    requires ParseBool(buf, pos, EndOfStreamException) == Ok(Parsed(true, mid))
    requires ParseString(buf, mid) == Ok(Parsed(s, next))
    ensures ParseOptionalString(buf, pos) == Ok(Parsed(Some(s), next))
  {
  }

  /** `ReadOptionalString` reads a string after any non-zero presence byte. */
  lemma {:induction false} ParseOptionalStringFlagAt(buf: seq<u8>, pos: nat, next: nat, flag: u8, s: Utf8String)
    requires At(buf, pos, [flag] + StringBytes(s)) && flag != 0 && ValidUtf8(s) && ArrayLength(buf)
    requires next == pos + 1 + |StringBytes(s)|
    ensures ParseOptionalString(buf, pos) == Ok(Parsed(Some(s), next))
  {
    var mid := pos + 1;
    PresenceAt(buf, pos, mid, flag, StringBytes(s), EndOfStreamException);
    ParseStringAt(buf, mid, next, s);
    ParseOptionalStringOf(buf, pos, mid, next, s);
  }

  /** `ReadOptionalString` returns the optional string `WriteOptionalString` wrote. */
  lemma {:induction false} ParseOptionalStringAt(buf: seq<u8>, pos: nat, next: nat, o: Option<Utf8String>)
    requires At(buf, pos, OptStringBytes(o)) && (o.Some? ==> ValidUtf8(o.value)) && ArrayLength(buf)
    requires next == pos + |OptStringBytes(o)|
    ensures ParseOptionalString(buf, pos) == Ok(Parsed(o, next))
  {
    match o
    case None =>
      ParseBoolAt(buf, pos, next, false, EndOfStreamException);
    case Some(s) =>
      ParseOptionalStringFlagAt(buf, pos, next, 1, s);
  }

  // ---------------------------------------------------------------- process samples

  lemma {:induction false} ParseProcessOf(buf: seq<u8>, pos: nat, p1: nat, p2: nat, p3: nat, p4: nat, next: nat,
                                          p: ProcessSample)
    requires ParseU32(buf, pos, EndOfStreamException) == Ok(Parsed(p.pid, p1))
    requires ParseString(buf, p1) == Ok(Parsed(p.name, p2))
    requires ParseF32(buf, p2, EndOfStreamException) == Ok(Parsed(p.cpuPercent, p3))
    requires ParseU64(buf, p3, EndOfStreamException) == Ok(Parsed(p.memoryBytes, p4))
    requires ParseOptionalString(buf, p4) == Ok(Parsed(p.cmdline, next))
    ensures ParseProcess(buf, pos) == Ok(Parsed(p, next))
  {
  }

  /** The loop body of `ReadProcessList` returns the sample the `foreach` of `WritePayload` wrote. */
  lemma {:induction false} ParseProcessAt(buf: seq<u8>, pos: nat, next: nat, p: ProcessSample)
    requires At(buf, pos, ProcessBytes(p)) && ProcessStringsValid(p) && ArrayLength(buf)
    requires next == pos + |ProcessBytes(p)|
    ensures ParseProcess(buf, pos) == Ok(Parsed(p, next))
  {
    var p1 := pos + 4;
    var p2 := p1 + |StringBytes(p.name)|;
    var p3 := p2 + 4;
    var p4 := p3 + 8;
    ProcessFieldsAt(buf, pos, p1, p2, p3, p4, p);
    ParseU32At(buf, pos, p1, p.pid, EndOfStreamException);
    ParseStringAt(buf, p1, p2, p.name);
    ParseF32At(buf, p2, p3, p.cpuPercent, EndOfStreamException);
    ParseU64At(buf, p3, p4, p.memoryBytes, EndOfStreamException);
    ParseOptionalStringAt(buf, p4, next, p.cmdline);
    ParseProcessOf(buf, pos, p1, p2, p3, p4, next, p);
  }

  /** One iteration of the loop: after a sample read at pos, the loop goes on where it ended. */
  lemma {:induction false} ParseProcessesHeadAt(buf: seq<u8>, pos: nat, mid: nat, p: ProcessSample,
                                                count: nat, rest: nat, acc: seq<ProcessSample>)
    requires ParseProcess(buf, pos) == Ok(Parsed(p, mid)) && count > 0 && rest == count - 1
    ensures ParseProcesses(buf, pos, count, acc) == ParseProcesses(buf, mid, rest, acc + [p])
  {
    ParseProcessesUnfold(buf, pos, count, acc);
  }

  lemma {:induction false} ParseProcessesConsAt(buf: seq<u8>, pos: nat, mid: nat, ps: seq<ProcessSample>,
                                                acc: seq<ProcessSample>)
    requires ps != [] && At(buf, pos, ProcessesBytes(ps)) && ProcessesStringsValid(ps) && ArrayLength(buf)
    requires mid == pos + |ProcessBytes(ps[0])|
    ensures ParseProcesses(buf, pos, |ps|, acc) == ParseProcesses(buf, mid, |ps[1..]|, acc + [ps[0]])
    ensures At(buf, mid, ProcessesBytes(ps[1..])) && ProcessesStringsValid(ps[1..])
    ensures |ProcessesBytes(ps)| == |ProcessBytes(ps[0])| + |ProcessesBytes(ps[1..])|
  {
    ProcessesSplitAt(buf, pos, mid, ps);
    ParseProcessAt(buf, pos, mid, ps[0]);
    ParseProcessesHeadAt(buf, pos, mid, ps[0], |ps|, |ps[1..]|, acc);
  }

  /** The loop of `ReadProcessList` reads back, in order, the samples written one after the other. */
  lemma {:induction false} ParseProcessesAt(buf: seq<u8>, pos: nat, next: nat, ps: seq<ProcessSample>,
                                            acc: seq<ProcessSample>)
    requires At(buf, pos, ProcessesBytes(ps)) && ProcessesStringsValid(ps) && ArrayLength(buf)
    requires next == pos + |ProcessesBytes(ps)|
    ensures ParseProcesses(buf, pos, |ps|, acc) == Ok(Parsed(acc + ps, next))
    decreases |ps|
  {
    if ps == [] {
      assert acc + ps == acc;
    } else {
      var mid := pos + |ProcessBytes(ps[0])|;
      ParseProcessesConsAt(buf, pos, mid, ps, acc);
      ParseProcessesAt(buf, mid, next, ps[1..], acc + [ps[0]]);
      HeadThenTail(acc, ps);
    }
  }

  /** Every sample takes at least one byte, so a list held in a buffer has fewer samples than it has bytes. */
  lemma {:induction false} ProcessesBytesLength(ps: seq<ProcessSample>)
    ensures |ps| <= |ProcessesBytes(ps)|
    decreases |ps|
  {
    if ps != [] {
      ProcessesBytesUnfold(ps);
      ProcessesBytesLength(ps[1..]);
    }
  }

  lemma {:induction false} ParseProcessListOf(buf: seq<u8>, pos: nat, mid: nat, next: nat, ps: seq<ProcessSample>)
    requires ParseU64(buf, pos, EndOfStreamException) == Ok(Parsed(|ps|, mid))
    requires UncheckedInt32(|ps|) == |ps|
    requires ParseProcesses(buf, mid, |ps|, []) == Ok(Parsed(ps, next))
    ensures ParseProcessList(buf, pos) == Ok(Parsed(ps, next))
  {
  }

  /**
   * `ReadProcessList` returns the samples `WritePayload` wrote after their count: the
   * count, cast to `int` for the list's capacity, is never negative there.
   */
  lemma {:induction false} ParseProcessListAt(buf: seq<u8>, pos: nat, mid: nat, next: nat, ps: seq<ProcessSample>)
    requires At(buf, pos, LeBytes(|ps|, 8)) && At(buf, mid, ProcessesBytes(ps)) && mid == pos + 8
    requires ProcessesStringsValid(ps) && ArrayLength(buf) && next == mid + |ProcessesBytes(ps)|
    ensures ParseProcessList(buf, pos) == Ok(Parsed(ps, next))
  {
    ProcessesBytesLength(ps);
    SmallInt32(|ps|);
    ParseU64At(buf, pos, mid, |ps|, EndOfStreamException);
    ParseProcessesAt(buf, mid, next, ps, []);
    assert [] + ps == ps;
    ParseProcessListOf(buf, pos, mid, next, ps);
  }

  // ---------------------------------------------------------------- snapshots

  lemma {:induction false} ParseSnapshotOf(buf: seq<u8>, pos: nat, p1: nat, p2: nat, p3: nat, p4: nat,
                                           p6: nat, next: nat, s: SnapshotPayload)
    requires ParseI64(buf, pos, EndOfStreamException) == Ok(Parsed(s.windowStartSecs, p1))
    requires ParseI64(buf, p1, EndOfStreamException) == Ok(Parsed(s.windowEndSecs, p2))
    requires ParseF32(buf, p2, EndOfStreamException) == Ok(Parsed(s.totalCpuPercent, p3))
    requires ParseU64(buf, p3, EndOfStreamException) == Ok(Parsed(s.totalMemoryBytes, p4))
    requires ParseProcessList(buf, p4) == Ok(Parsed(s.processes, p6))
    requires ParseBool(buf, p6, EndOfStreamException) == Ok(Parsed(s.truncated, next))
    ensures ParseSnapshot(buf, pos) == Ok(Parsed(s, next))
  {
  }

  /** The snapshot arm of `ReadPayload` returns the snapshot `WritePayload` wrote. */
  lemma {:induction false} ParseSnapshotAt(buf: seq<u8>, pos: nat, next: nat, s: SnapshotPayload)
    requires At(buf, pos, SnapshotBytes(s)) && ProcessesStringsValid(s.processes) && ArrayLength(buf)
    requires next == pos + |SnapshotBytes(s)|
    ensures ParseSnapshot(buf, pos) == Ok(Parsed(s, next))
  {
    var p1 := pos + 8;
    var p2 := p1 + 8;
    var p3 := p2 + 4;
    var p4 := p3 + 8;
    var p5 := p4 + 8;
    var p6 := p5 + |ProcessesBytes(s.processes)|;
    SnapshotFieldsAt(buf, pos, p4, p5, p6, s);
    SnapshotTotalsAt(buf, pos, p1, p2, p3, s);
    ParseI64At(buf, pos, p1, s.windowStartSecs, EndOfStreamException);
    ParseI64At(buf, p1, p2, s.windowEndSecs, EndOfStreamException);
    ParseF32At(buf, p2, p3, s.totalCpuPercent, EndOfStreamException);
    ParseU64At(buf, p3, p4, s.totalMemoryBytes, EndOfStreamException);
    ParseProcessListAt(buf, p4, p5, p6, s.processes);
    ParseBoolAt(buf, p6, next, s.truncated, EndOfStreamException);
    ParseSnapshotOf(buf, pos, p1, p2, p3, p4, p6, next, s);
  }

  // ---------------------------------------------------------------- handshake identity

  lemma {:induction false} ParseIdentityOf(buf: seq<u8>, pos: nat, p1: nat, p2: nat, p3: nat, p4: nat, p5: nat,
                                           next: nat, id: AgentIdentity<u8>)
    requires ParseString(buf, pos) == Ok(Parsed(id.instanceId, p1))
    requires ParseU8(buf, p1, EndOfStreamException) == Ok(Parsed(id.osType, p2))
    requires ParseString(buf, p2) == Ok(Parsed(id.agentVersion, p3))
    requires ParseU8(buf, p3, EndOfStreamException) == Ok(Parsed(id.protocolVersion.major, p4))
    requires ParseU8(buf, p4, EndOfStreamException) == Ok(Parsed(id.protocolVersion.minor, p5))
    requires ParseU32(buf, p5, EndOfStreamException) == Ok(Parsed(id.capabilities, next))
    ensures ParseIdentity(buf, pos) == Ok(Parsed(id, next))
  {
  }

  /**
   * The handshake arm of `ReadPayload` returns the identity `WritePayload` wrote, whatever
   * its OS byte: the cast to the enum checks nothing.
   */
  lemma {:induction false} ParseIdentityAt(buf: seq<u8>, pos: nat, next: nat, id: AgentIdentity<u8>)
    requires At(buf, pos, IdentityBytes(id)) && ValidUtf8(id.instanceId) && ValidUtf8(id.agentVersion)
    requires ArrayLength(buf) && next == pos + |IdentityBytes(id)|
    ensures ParseIdentity(buf, pos) == Ok(Parsed(id, next))
  {
    var p1 := pos + |StringBytes(id.instanceId)|;
    var p2 := p1 + 1;
    var p3 := p2 + |StringBytes(id.agentVersion)|;
    var p4 := p3 + 1;
    var p5 := p4 + 1;
    IdentityFieldsAt(buf, pos, p1, p2, p3, p4, p5, id);
    ParseStringAt(buf, pos, p1, id.instanceId);
    ParseU8At(buf, p1, p2, id.osType, EndOfStreamException);
    ParseStringAt(buf, p2, p3, id.agentVersion);
    ParseU8At(buf, p3, p4, id.protocolVersion.major, EndOfStreamException);
    ParseU8At(buf, p4, p5, id.protocolVersion.minor, EndOfStreamException);
    ParseU32At(buf, p5, next, id.capabilities, EndOfStreamException);
    ParseIdentityOf(buf, pos, p1, p2, p3, p4, p5, next, id);
  }

  // ---------------------------------------------------------------- payloads

  lemma {:induction false} HandshakePayloadAt(buf: seq<u8>, pos: nat, next: nat, id: AgentIdentity<u8>)
    requires At(buf, pos, IdentityBytes(id)) && ValidUtf8(id.instanceId) && ValidUtf8(id.agentVersion)
    requires ArrayLength(buf) && next == pos + |IdentityBytes(id)|
    ensures ParsePayload(buf, pos, 1) == Ok(Parsed(HandshakePayload(id), next))
  {
    ParseIdentityAt(buf, pos, next, id);
  }

  lemma {:induction false} SnapshotPayloadAt(buf: seq<u8>, pos: nat, next: nat, s: SnapshotPayload)
    requires At(buf, pos, SnapshotBytes(s)) && ProcessesStringsValid(s.processes) && ArrayLength(buf)
    requires next == pos + |SnapshotBytes(s)|
    ensures ParsePayload(buf, pos, 4) == Ok(Parsed(SnapshotPayloadOf(s), next))
  {
    ParseSnapshotAt(buf, pos, next, s);
  }

  lemma {:induction false} AckPayloadAt(buf: seq<u8>, pos: nat, next: nat, a: MessageAck)
    requires At(buf, pos, AckBytes(a)) && next == pos + |AckBytes(a)|
    ensures ParsePayload(buf, pos, 5) == Ok(Parsed(AckPayload(a), next))
  {
    ParseAckAt(buf, pos, next, a, EndOfStreamException);
  }

  lemma {:induction false} BackpressurePayloadAt(buf: seq<u8>, pos: nat, next: nat, b: BackpressureSignal)
    requires At(buf, pos, BackpressureBytes(b)) && next == pos + |BackpressureBytes(b)|
    ensures ParsePayload(buf, pos, 6) == Ok(Parsed(BackpressurePayload(b), next))
  {
    ParseBackpressureAt(buf, pos, next, b, EndOfStreamException);
  }

  lemma {:induction false} ErrorPayloadAt(buf: seq<u8>, pos: nat, next: nat, code: u32, message: Utf8String)
    requires At(buf, pos, ErrorBytes(code, message)) && ValidUtf8(message) && ArrayLength(buf)
    requires next == pos + |ErrorBytes(code, message)|
    ensures ParsePayload(buf, pos, 7) == Ok(Parsed(ErrorPayload(code, message), next))
  {
    var mid := pos + 4;
    AtConcat(buf, pos, mid, LeBytes(code, 4), StringBytes(message));
    ParseU32At(buf, pos, mid, code, EndOfStreamException);
    ParseStringAt(buf, mid, next, message);
  }

  /** `ReadPayload`, given the type byte of the payload variant, returns the payload `WritePayload` wrote. */
  lemma {:induction false} ParsePayloadAt(buf: seq<u8>, pos: nat, next: nat, p: Payload<u8>)
    requires At(buf, pos, PayloadBytes(p)) && PayloadStringsValid(p) && ArrayLength(buf)
    requires next == pos + |PayloadBytes(p)|
    ensures ParsePayload(buf, pos, MessageTypeToU8(PayloadType(p))) == Ok(Parsed(p, next))
  {
    match p
    case HandshakePayload(id) =>
      HandshakePayloadAt(buf, pos, next, id);
    case HandshakeAckPayload =>
    case HeartbeatPayload =>
    case SnapshotPayloadOf(s) =>
      SnapshotPayloadAt(buf, pos, next, s);
    case AckPayload(a) =>
      AckPayloadAt(buf, pos, next, a);
    case BackpressurePayload(b) =>
      BackpressurePayloadAt(buf, pos, next, b);
    case ErrorPayload(code, message) =>
      ErrorPayloadAt(buf, pos, next, code, message);
  }

  // ---------------------------------------------------------------- envelope

  /** The envelope reads of `DeserializeMessage` return the fields `SerializeMessage` wrote, and end at byte 20. */
  lemma {:induction false} ParseRawEnvelopeAt(data: seq<u8>, e: Envelope)
    requires At(data, 0, EnvelopeBytes(e))
    ensures ParseRawEnvelope(data)
         == Ok(Parsed(RawEnvelope(e.version, MessageTypeToU8(e.messageType), e.messageId, e.timestampSecs,
                                  e.compressed), 20))
  {
    EnvelopeFieldsAt(data, e);
    ParseU8At(data, 0, 1, e.version.major, EndOfStreamException);
    ParseU8At(data, 1, 2, e.version.minor, EndOfStreamException);
    ParseU8At(data, 2, 3, MessageTypeToU8(e.messageType), EndOfStreamException);
    ParseU64At(data, 3, 11, e.messageId, EndOfStreamException);
    ParseI64At(data, 11, 19, e.timestampSecs, EndOfStreamException);
    ParseBoolAt(data, 19, 20, e.compressed, EndOfStreamException);
  }
}
