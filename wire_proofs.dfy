/**
 * What both codecs share, proved against the layout of Wire: where the writers put each
 * field of a composite value, and that the optional u32 fields, acknowledgements and
 * backpressure signals are read back as written, whichever error the codec reports at the
 * end of its buffer.
 */
module WireProofs {
  import opened Wrappers
  import opened Bytes
  import opened Protocol
  import opened Wire

  /** Any non-zero presence byte reads as true, and what follows it starts one byte later. */
  lemma {:induction false} PresenceAt<E>(buf: seq<u8>, pos: nat, next: nat, flag: u8, rest: seq<u8>, eof: E)
    requires At(buf, pos, [flag] + rest) && flag != 0 && next == pos + 1
    ensures ParseBool(buf, pos, eof) == Ok(Parsed(true, next)) && At(buf, next, rest)
  {
    AtConcat(buf, pos, next, [flag], rest);
    ParseU8At(buf, pos, next, flag, eof);
  }

  lemma {:induction false} ParseOptionalU32Of<E>(buf: seq<u8>, pos: nat, mid: nat, next: nat, v: u32, eof: E)
    requires ParseBool(buf, pos, eof) == Ok(Parsed(true, mid))
    requires ParseU32(buf, mid, eof) == Ok(Parsed(v, next))
    ensures ParseOptionalU32(buf, pos, eof) == Ok(Parsed(Some(v), next))
  {
  }

  /** The optional-u32 reader of both codecs reads a value after any non-zero presence byte. */
  lemma {:induction false} ParseOptionalU32FlagAt<E>(buf: seq<u8>, pos: nat, next: nat, flag: u8, v: u32, eof: E)
    requires At(buf, pos, [flag] + LeBytes(v, 4)) && flag != 0 && next == pos + 5
    ensures ParseOptionalU32(buf, pos, eof) == Ok(Parsed(Some(v), next))
  {
    var mid := pos + 1;
    PresenceAt(buf, pos, mid, flag, LeBytes(v, 4), eof);
    ParseU32At(buf, mid, next, v, eof);
    ParseOptionalU32Of(buf, pos, mid, next, v, eof);
  }

  /** The optional-u32 reader of both codecs returns the optional value its writer wrote. */
  lemma {:induction false} ParseOptionalU32At<E>(buf: seq<u8>, pos: nat, next: nat, o: Option<u32>, eof: E)
    requires At(buf, pos, OptU32Bytes(o)) && next == pos + |OptU32Bytes(o)|
    ensures ParseOptionalU32(buf, pos, eof) == Ok(Parsed(o, next))
  {
    match o
    case None =>
      ParseBoolAt(buf, pos, next, false, eof);
    case Some(v) =>
      ParseOptionalU32FlagAt(buf, pos, next, 1, v, eof);
  }

  /** The acknowledgement the payload writer wrote is read back. */
  lemma {:induction false} ParseAckAt<E>(buf: seq<u8>, pos: nat, next: nat, a: MessageAck, eof: E)
    requires At(buf, pos, AckBytes(a)) && next == pos + |AckBytes(a)|
    ensures ParseAck(buf, pos, eof) == Ok(Parsed(a, next))
  {
    var p1 := pos + 8;
    var p2 := p1 + 1;
    AtConcat(buf, pos, p2, LeBytes(a.messageId, 8) + [BoolByte(a.success)], OptU32Bytes(a.errorCode));
    AtConcat(buf, pos, p1, LeBytes(a.messageId, 8), [BoolByte(a.success)]);
    ParseU64At(buf, pos, p1, a.messageId, eof);
    ParseBoolAt(buf, p1, p2, a.success, eof);
    ParseOptionalU32At(buf, p2, next, a.errorCode, eof);
  }

  /** The backpressure signal the payload writer wrote is read back. */
  lemma {:induction false} ParseBackpressureAt<E>(buf: seq<u8>, pos: nat, next: nat, b: BackpressureSignal, eof: E)
    requires At(buf, pos, BackpressureBytes(b)) && next == pos + |BackpressureBytes(b)|
    ensures ParseBackpressure(buf, pos, eof) == Ok(Parsed(b, next))
  {
    var p1 := pos + 1;
    AtConcat(buf, pos, p1, [b.level], OptU32Bytes(b.pauseSecs));
    ParseU8At(buf, pos, p1, b.level, eof);
    ParseOptionalU32At(buf, p1, next, b.pauseSecs, eof);
  }

  // ---------------------------------------------------------------- where the writers put each field

  lemma {:induction false} ProcessFieldsAt(buf: seq<u8>, pos: nat, p1: nat, p2: nat, p3: nat, p4: nat, p: ProcessSample)
    requires At(buf, pos, ProcessBytes(p))
    requires p1 == pos + 4 && p2 == p1 + |StringBytes(p.name)| && p3 == p2 + 4 && p4 == p3 + 8
    ensures At(buf, pos, LeBytes(p.pid, 4)) && At(buf, p1, StringBytes(p.name))
    ensures At(buf, p2, LeBytes(p.cpuPercent.bits, 4)) && At(buf, p3, LeBytes(p.memoryBytes, 8))
    ensures At(buf, p4, OptStringBytes(p.cmdline))
  {
    var a := LeBytes(p.pid, 4);
    var b := StringBytes(p.name);
    var c := LeBytes(p.cpuPercent.bits, 4);
    var d := LeBytes(p.memoryBytes, 8);
    var e := OptStringBytes(p.cmdline);
    AtConcat(buf, pos, p4, a + b + c + d, e);
    AtConcat(buf, pos, p3, a + b + c, d);
    AtConcat(buf, pos, p2, a + b, c);
    AtConcat(buf, pos, p1, a, b);
  }

  lemma {:induction false} ProcessesSplitAt(buf: seq<u8>, pos: nat, mid: nat, ps: seq<ProcessSample>)
    requires ps != [] && At(buf, pos, ProcessesBytes(ps)) && mid == pos + |ProcessBytes(ps[0])|
    ensures At(buf, pos, ProcessBytes(ps[0])) && At(buf, mid, ProcessesBytes(ps[1..]))
    ensures |ProcessesBytes(ps)| == |ProcessBytes(ps[0])| + |ProcessesBytes(ps[1..])|
  {
    ProcessesBytesUnfold(ps);
    AtConcat(buf, pos, mid, ProcessBytes(ps[0]), ProcessesBytes(ps[1..]));
  }

  /** A list read sample by sample: the accumulator, the head, then the tail, is the accumulator then the list. */
  lemma HeadThenTail(acc: seq<ProcessSample>, ps: seq<ProcessSample>)
    requires ps != []
    ensures acc + [ps[0]] + ps[1..] == acc + ps
  {
    assert ps == [ps[0]] + ps[1..];
  }

  lemma {:induction false} SnapshotTotalsAt(buf: seq<u8>, pos: nat, p1: nat, p2: nat, p3: nat, s: SnapshotPayload)
    requires At(buf, pos, SnapshotTotalsBytes(s))
    requires p1 == pos + 8 && p2 == p1 + 8 && p3 == p2 + 4
    ensures At(buf, pos, LeBytes(I64Bits(s.windowStartSecs), 8))
    ensures At(buf, p1, LeBytes(I64Bits(s.windowEndSecs), 8))
    ensures At(buf, p2, LeBytes(s.totalCpuPercent.bits, 4))
    ensures At(buf, p3, LeBytes(s.totalMemoryBytes, 8))
  {
    var a := LeBytes(I64Bits(s.windowStartSecs), 8);
    var b := LeBytes(I64Bits(s.windowEndSecs), 8);
    var c := LeBytes(s.totalCpuPercent.bits, 4);
    var d := LeBytes(s.totalMemoryBytes, 8);
    AtConcat(buf, pos, p3, a + b + c, d);
    AtConcat(buf, pos, p2, a + b, c);
    AtConcat(buf, pos, p1, a, b);
  }

  lemma {:induction false} SnapshotFieldsAt(buf: seq<u8>, pos: nat, p4: nat, p5: nat, p6: nat, s: SnapshotPayload)
    requires At(buf, pos, SnapshotBytes(s))
    requires p4 == pos + 28 && p5 == p4 + 8 && p6 == p5 + |ProcessesBytes(s.processes)|
    ensures At(buf, pos, SnapshotTotalsBytes(s))
    ensures At(buf, p4, LeBytes(|s.processes|, 8))
    ensures At(buf, p5, ProcessesBytes(s.processes))
    ensures At(buf, p6, [BoolByte(s.truncated)])
  {
    var totals := SnapshotTotalsBytes(s);
    var n := LeBytes(|s.processes|, 8);
    var ps := ProcessesBytes(s.processes);
    AtConcat(buf, pos, p6, totals + n + ps, [BoolByte(s.truncated)]);
    AtConcat(buf, pos, p5, totals + n, ps);
    AtConcat(buf, pos, p4, totals, n);
  }

  lemma {:induction false} IdentityFieldsAt(buf: seq<u8>, pos: nat, p1: nat, p2: nat, p3: nat, p4: nat, p5: nat,
                                            id: AgentIdentity<u8>)
    requires At(buf, pos, IdentityBytes(id))
    requires p1 == pos + |StringBytes(id.instanceId)| && p2 == p1 + 1
    requires p3 == p2 + |StringBytes(id.agentVersion)| && p4 == p3 + 1 && p5 == p4 + 1
    ensures At(buf, pos, StringBytes(id.instanceId)) && At(buf, p1, [id.osType])
    ensures At(buf, p2, StringBytes(id.agentVersion))
    ensures At(buf, p3, [id.protocolVersion.major]) && At(buf, p4, [id.protocolVersion.minor])
    ensures At(buf, p5, LeBytes(id.capabilities, 4))
  {
    var a := StringBytes(id.instanceId);
    var b := [id.osType];
    var c := StringBytes(id.agentVersion);
    var d := [id.protocolVersion.major, id.protocolVersion.minor];
    var e := LeBytes(id.capabilities, 4);
    AtConcat(buf, pos, p5, a + b + c + d, e);
    AtConcat(buf, pos, p3, a + b + c, d);
    AtConcat(buf, pos, p2, a + b, c);
    AtConcat(buf, pos, p1, a, b);
    assert d == [id.protocolVersion.major] + [id.protocolVersion.minor];
    AtConcat(buf, p3, p4, [id.protocolVersion.major], [id.protocolVersion.minor]);
  }

  lemma {:induction false} EnvelopeFieldsAt(body: seq<u8>, e: Envelope)
    requires At(body, 0, EnvelopeBytes(e))
    ensures At(body, 0, [e.version.major]) && At(body, 1, [e.version.minor])
    ensures At(body, 2, [MessageTypeToU8(e.messageType)])
    ensures At(body, 3, LeBytes(e.messageId, 8)) && At(body, 11, LeBytes(I64Bits(e.timestampSecs), 8))
    ensures At(body, 19, [BoolByte(e.compressed)])
  {
    var head := [e.version.major, e.version.minor, MessageTypeToU8(e.messageType)];
    var id := LeBytes(e.messageId, 8);
    var ts := LeBytes(I64Bits(e.timestampSecs), 8);
    AtConcat(body, 0, 19, head + id + ts, [BoolByte(e.compressed)]);
    AtConcat(body, 0, 11, head + id, ts);
    AtConcat(body, 0, 3, head, id);
    assert head == [e.version.major] + ([e.version.minor] + [MessageTypeToU8(e.messageType)]);
    AtConcat(body, 0, 1, [e.version.major], [e.version.minor] + [MessageTypeToU8(e.messageType)]);
    AtConcat(body, 1, 2, [e.version.minor], [MessageTypeToU8(e.messageType)]);
  }
}
