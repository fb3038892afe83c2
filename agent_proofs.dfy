/**
 * What the agent's codec promises, proved about the functions of AgentSpec (and so,
 * through the method contracts of AgentCodec, about `encode` and `decode` themselves):
 * decode inverts encode, the size limit, the layout, and how malformed input is refused.
 *
 * Each composite reader is handled in three steps: where its encoder put every field
 * (`...FieldsAt`), what the primitive reader of each field returns there, and that the
 * composite reader assembles exactly those results (`...Of`). Every lemma names the
 * positions where fields start and end as parameters, related by arithmetic requires.
 */
module AgentProofs {
  import opened Wrappers
  import opened Bytes
  import opened Utf8
  import opened Protocol
  import opened Wire
  import opened WireProofs
  import opened AgentSpec

  // ---------------------------------------------------------------- strings

  lemma {:induction false} StringFieldsAt(buf: seq<u8>, pos: nat, mid: nat, next: nat, s: Utf8String)
    requires At(buf, pos, StringBytes(s)) && mid == pos + 8 && next == mid + |s|
    ensures ParseU64(buf, pos, Io) == Ok(Parsed(|s|, mid))
    ensures Take(buf, mid, |s|, Io) == Ok(Parsed(s, next))
  {
    AtConcat(buf, pos, mid, LeBytes(|s|, 8), s);
    ParseU64At(buf, pos, mid, |s|, Io);
    TakeAt(buf, mid, next, s, Io);
  }

  lemma {:induction false} ParseStringOf(buf: seq<u8>, pos: nat, mid: nat, next: nat, s: Utf8String)
    requires ParseU64(buf, pos, Io) == Ok(Parsed(|s|, mid))
    requires Take(buf, mid, |s|, Io) == Ok(Parsed(s, next))
    requires ValidUtf8(s)
    ensures ParseString(buf, pos) == Ok(Parsed(s, next))
  {
  }

  /** `read_string` returns the string `write_string` wrote, when it is well-formed UTF-8. */
  lemma {:induction false} ParseStringAt(buf: seq<u8>, pos: nat, next: nat, s: Utf8String)
    requires At(buf, pos, StringBytes(s)) && ValidUtf8(s) && next == pos + |StringBytes(s)|
    ensures ParseString(buf, pos) == Ok(Parsed(s, next))
  {
    var mid := pos + 8;
    StringFieldsAt(buf, pos, mid, next, s);
    ParseStringOf(buf, pos, mid, next, s);
  }

  /** ... and refuses it with Serialization when it is not. */
  lemma {:induction false} ParseStringInvalid(buf: seq<u8>, pos: nat, s: Utf8String)
    requires At(buf, pos, StringBytes(s)) && !ValidUtf8(s)
    ensures ParseString(buf, pos) == Err(Serialization)
  {
    var mid := pos + 8;
    var next := mid + |s|;
    StringFieldsAt(buf, pos, mid, next, s);
  }

  // ---------------------------------------------------------------- optional fields

  lemma {:induction false} ParseOptionalStringOf(buf: seq<u8>, pos: nat, mid: nat, next: nat, s: Utf8String)
    requires ParseBool(buf, pos, Io) == Ok(Parsed(true, mid))
    requires ParseString(buf, mid) == Ok(Parsed(s, next))
    ensures ParseOptionalString(buf, pos) == Ok(Parsed(Some(s), next))
  {
  }

  /**
   * `read_optional_string` reads a string after any non-zero presence byte, not only
   * after the 1 that `write_optional_string` writes.
   */
  lemma {:induction false} ParseOptionalStringFlagAt(buf: seq<u8>, pos: nat, next: nat, flag: u8, s: Utf8String)
    requires At(buf, pos, [flag] + StringBytes(s)) && flag != 0 && ValidUtf8(s)
    requires next == pos + 1 + |StringBytes(s)|
    ensures ParseOptionalString(buf, pos) == Ok(Parsed(Some(s), next))
  {
    var mid := pos + 1;
    PresenceAt(buf, pos, mid, flag, StringBytes(s), Io);
    ParseStringAt(buf, mid, next, s);
    ParseOptionalStringOf(buf, pos, mid, next, s);
  }

  /** `read_optional_string` returns the optional string `write_optional_string` wrote. */
  lemma {:induction false} ParseOptionalStringAt(buf: seq<u8>, pos: nat, next: nat, o: Option<Utf8String>)
    requires At(buf, pos, OptStringBytes(o)) && (o.Some? ==> ValidUtf8(o.value))
    requires next == pos + |OptStringBytes(o)|
    ensures ParseOptionalString(buf, pos) == Ok(Parsed(o, next))
  {
    match o
    case None =>
      ParseBoolAt(buf, pos, next, false, Io);
    case Some(s) =>
      ParseOptionalStringFlagAt(buf, pos, next, 1, s);
  }

  // ---------------------------------------------------------------- process samples

  lemma {:induction false} ParseProcessOf(buf: seq<u8>, pos: nat, p1: nat, p2: nat, p3: nat, p4: nat, next: nat,
                                          p: ProcessSample)
    requires ParseU32(buf, pos, Io) == Ok(Parsed(p.pid, p1))
    requires ParseString(buf, p1) == Ok(Parsed(p.name, p2))
    requires ParseF32(buf, p2, Io) == Ok(Parsed(p.cpuPercent, p3))
    requires ParseU64(buf, p3, Io) == Ok(Parsed(p.memoryBytes, p4))
    requires ParseOptionalString(buf, p4) == Ok(Parsed(p.cmdline, next))
    ensures ParseProcess(buf, pos) == Ok(Parsed(p, next))
  {
  }

  /** `read_process` returns the sample `write_process` wrote. */
  lemma {:induction false} ParseProcessAt(buf: seq<u8>, pos: nat, next: nat, p: ProcessSample)
    requires At(buf, pos, ProcessBytes(p)) && ProcessStringsValid(p) && next == pos + |ProcessBytes(p)|
    ensures ParseProcess(buf, pos) == Ok(Parsed(p, next))
  {
    var p1 := pos + 4;
    var p2 := p1 + |StringBytes(p.name)|;
    var p3 := p2 + 4;
    var p4 := p3 + 8;
    ProcessFieldsAt(buf, pos, p1, p2, p3, p4, p);
    ParseU32At(buf, pos, p1, p.pid, Io);
    ParseStringAt(buf, p1, p2, p.name);
    ParseF32At(buf, p2, p3, p.cpuPercent, Io);
    ParseU64At(buf, p3, p4, p.memoryBytes, Io);
    ParseOptionalStringAt(buf, p4, next, p.cmdline);
    ParseProcessOf(buf, pos, p1, p2, p3, p4, next, p);
  }

  /** One iteration of the sample loop: after a sample read at pos, the loop goes on where it ended. */
  lemma {:induction false} ParseProcessesHeadAt(buf: seq<u8>, pos: nat, mid: nat, p: ProcessSample,
                                                count: nat, rest: nat, acc: seq<ProcessSample>)
    requires ParseProcess(buf, pos) == Ok(Parsed(p, mid)) && count > 0 && rest == count - 1
    ensures ParseProcesses(buf, pos, count, acc) == ParseProcesses(buf, mid, rest, acc + [p])
  {
    ParseProcessesUnfold(buf, pos, count, acc);
  }

  /**
   * The same for a whole list: one iteration reads its first sample and leaves the
   * position at the bytes of the rest.
   */
  lemma {:induction false} ParseProcessesConsAt(buf: seq<u8>, pos: nat, mid: nat, ps: seq<ProcessSample>,
                                                acc: seq<ProcessSample>)
    requires ps != [] && At(buf, pos, ProcessesBytes(ps)) && ProcessesStringsValid(ps)
    requires mid == pos + |ProcessBytes(ps[0])|
    ensures ParseProcesses(buf, pos, |ps|, acc) == ParseProcesses(buf, mid, |ps[1..]|, acc + [ps[0]])
    ensures At(buf, mid, ProcessesBytes(ps[1..])) && ProcessesStringsValid(ps[1..])
    ensures |ProcessesBytes(ps)| == |ProcessBytes(ps[0])| + |ProcessesBytes(ps[1..])|
  {
    ProcessesSplitAt(buf, pos, mid, ps);
    ParseProcessAt(buf, pos, mid, ps[0]);
    ParseProcessesHeadAt(buf, pos, mid, ps[0], |ps|, |ps[1..]|, acc);
  }

  /** The sample loop of `read_snapshot` reads back, in order, the samples written one after the other. */
  lemma {:induction false} ParseProcessesAt(buf: seq<u8>, pos: nat, next: nat, ps: seq<ProcessSample>,
                                            acc: seq<ProcessSample>)
    requires At(buf, pos, ProcessesBytes(ps)) && ProcessesStringsValid(ps) && next == pos + |ProcessesBytes(ps)|
    ensures ParseProcesses(buf, pos, |ps|, acc) == Ok(Parsed(acc + ps, next))
    decreases |ps|
  {
    if ps == [] {
      assert acc + ps == acc;
    } else {
      var mid := pos + |ProcessBytes(ps[0])|;
      ParseProcessesConsAt(buf, pos, mid, ps, acc);
      ParseProcessesAt(buf, mid, next, ps[1..], acc + [ps[0]]);
      HeadThenTail(acc, ps);
    }
  }

  // ---------------------------------------------------------------- snapshots

  lemma {:induction false} SnapshotProcessesAt(buf: seq<u8>, pos: nat, next: nat, ps: seq<ProcessSample>)
    requires At(buf, pos, ProcessesBytes(ps)) && ProcessesStringsValid(ps) && next == pos + |ProcessesBytes(ps)|
    ensures ParseProcesses(buf, pos, |ps|, []) == Ok(Parsed(ps, next))
  {
    ParseProcessesAt(buf, pos, next, ps, []);
    assert [] + ps == ps;
  }

  lemma {:induction false} ParseSnapshotOf(buf: seq<u8>, pos: nat, p1: nat, p2: nat, p3: nat, p4: nat, p5: nat,
                                           p6: nat, next: nat, s: SnapshotPayload)
    requires ParseI64(buf, pos, Io) == Ok(Parsed(s.windowStartSecs, p1))
    requires ParseI64(buf, p1, Io) == Ok(Parsed(s.windowEndSecs, p2))
    requires ParseF32(buf, p2, Io) == Ok(Parsed(s.totalCpuPercent, p3))
    requires ParseU64(buf, p3, Io) == Ok(Parsed(s.totalMemoryBytes, p4))
    requires ParseU64(buf, p4, Io) == Ok(Parsed(|s.processes|, p5))
    requires ParseProcesses(buf, p5, |s.processes|, []) == Ok(Parsed(s.processes, p6))
    requires ParseBool(buf, p6, Io) == Ok(Parsed(s.truncated, next))
    ensures ParseSnapshot(buf, pos) == Ok(Parsed(s, next))
  {
  }

  /** `read_snapshot` returns the snapshot `write_snapshot` wrote. */
  lemma {:induction false} ParseSnapshotAt(buf: seq<u8>, pos: nat, next: nat, s: SnapshotPayload)
    requires At(buf, pos, SnapshotBytes(s)) && ProcessesStringsValid(s.processes)
    requires next == pos + |SnapshotBytes(s)|
    ensures ParseSnapshot(buf, pos) == Ok(Parsed(s, next))
  {
    var p1 := pos + 8;
    var p2 := p1 + 8;
    var p3 := p2 + 4;
    var p4 := p3 + 8;
    var p5 := p4 + 8;
    var p6 := p5 + |ProcessesBytes(s.processes)|;
    SnapshotFieldsAt(buf, pos, p4, p5, p6, s);
    SnapshotTotalsAt(buf, pos, p1, p2, p3, s);
    ParseI64At(buf, pos, p1, s.windowStartSecs, Io);
    ParseI64At(buf, p1, p2, s.windowEndSecs, Io);
    ParseF32At(buf, p2, p3, s.totalCpuPercent, Io);
    ParseU64At(buf, p3, p4, s.totalMemoryBytes, Io);
    ParseU64At(buf, p4, p5, |s.processes|, Io);
    SnapshotProcessesAt(buf, p5, p6, s.processes);
    ParseBoolAt(buf, p6, next, s.truncated, Io);
    ParseSnapshotOf(buf, pos, p1, p2, p3, p4, p5, p6, next, s);
  }

  // ---------------------------------------------------------------- handshake identity

  /** What `read_payload` makes of the identity fields: the identity, once its OS byte is checked. */
  function IdentityWithOs(id: AgentIdentity<u8>, next: nat): Result<Parsed<AgentIdentity<OsType>>, ProtocolError> {
    var os :- OsTypeFromU8(id.osType);
    Ok(Parsed(AgentIdentity(id.instanceId, os, id.agentVersion, id.protocolVersion, id.capabilities), next))
  }

  lemma IdentityWithOsOfWire(id: AgentIdentity<OsType>, next: nat)
    ensures IdentityWithOs(IdentityToWire(id), next) == Ok(Parsed(id, next))
  {
  }

  lemma {:induction false} ParseIdentityOf(buf: seq<u8>, pos: nat, p1: nat, p2: nat, p3: nat, p4: nat, p5: nat,
                                           next: nat, id: AgentIdentity<u8>)
    requires ParseString(buf, pos) == Ok(Parsed(id.instanceId, p1))
    requires ParseU8(buf, p1, Io) == Ok(Parsed(id.osType, p2))
    requires ParseString(buf, p2) == Ok(Parsed(id.agentVersion, p3))
    requires ParseU8(buf, p3, Io) == Ok(Parsed(id.protocolVersion.major, p4))
    requires ParseU8(buf, p4, Io) == Ok(Parsed(id.protocolVersion.minor, p5))
    requires ParseU32(buf, p5, Io) == Ok(Parsed(id.capabilities, next))
    ensures ParseIdentity(buf, pos) == IdentityWithOs(id, next)
  {
  }

  /** Every field of the identity is read back; then its OS byte decides. */
  lemma {:induction false} ParseIdentityWireAt(buf: seq<u8>, pos: nat, next: nat, id: AgentIdentity<u8>)
    requires At(buf, pos, IdentityBytes(id)) && ValidUtf8(id.instanceId) && ValidUtf8(id.agentVersion)
    requires next == pos + |IdentityBytes(id)|
    ensures ParseIdentity(buf, pos) == IdentityWithOs(id, next)
  {
    var p1 := pos + |StringBytes(id.instanceId)|;
    var p2 := p1 + 1;
    var p3 := p2 + |StringBytes(id.agentVersion)|;
    var p4 := p3 + 1;
    var p5 := p4 + 1;
    IdentityFieldsAt(buf, pos, p1, p2, p3, p4, p5, id);
    ParseStringAt(buf, pos, p1, id.instanceId);
    ParseU8At(buf, p1, p2, id.osType, Io);
    ParseStringAt(buf, p2, p3, id.agentVersion);
    ParseU8At(buf, p3, p4, id.protocolVersion.major, Io);
    ParseU8At(buf, p4, p5, id.protocolVersion.minor, Io);
    ParseU32At(buf, p5, next, id.capabilities, Io);
    ParseIdentityOf(buf, pos, p1, p2, p3, p4, p5, next, id);
  }

  /** `read_payload` returns the handshake identity `write_payload` wrote. */
  lemma {:induction false} ParseIdentityAt(buf: seq<u8>, pos: nat, next: nat, id: AgentIdentity<OsType>)
    requires At(buf, pos, IdentityBytes(IdentityToWire(id))) && ValidUtf8(id.instanceId) && ValidUtf8(id.agentVersion)
    requires next == pos + |IdentityBytes(IdentityToWire(id))|
    ensures ParseIdentity(buf, pos) == Ok(Parsed(id, next))
  {
    ParseIdentityWireAt(buf, pos, next, IdentityToWire(id));
    IdentityWithOsOfWire(id, next);
  }

  /**
   * An identity whose OS byte is neither 1 nor 2 is refused with that byte, and only once
   * every field has been read.
   */
  lemma {:induction false} ParseIdentityBadOs(buf: seq<u8>, pos: nat, id: AgentIdentity<u8>)
    requires At(buf, pos, IdentityBytes(id)) && ValidUtf8(id.instanceId) && ValidUtf8(id.agentVersion)
    requires id.osType != 1 && id.osType != 2
    ensures ParseIdentity(buf, pos) == Err(InvalidMessageType(id.osType))
  {
    var next := pos + |IdentityBytes(id)|;
    ParseIdentityWireAt(buf, pos, next, id);
  }

  // ---------------------------------------------------------------- error

  /** The error code and message `write_payload` wrote are read back. */
  lemma {:induction false} ErrorFieldsAt(buf: seq<u8>, pos: nat, mid: nat, next: nat, code: u32, message: Utf8String)
    requires At(buf, pos, ErrorBytes(code, message)) && ValidUtf8(message)
    requires mid == pos + 4 && next == pos + |ErrorBytes(code, message)|
    ensures ParseU32(buf, pos, Io) == Ok(Parsed(code, mid))
    ensures ParseString(buf, mid) == Ok(Parsed(message, next))
  {
    AtConcat(buf, pos, mid, LeBytes(code, 4), StringBytes(message));
    ParseU32At(buf, pos, mid, code, Io);
    ParseStringAt(buf, mid, next, message);
  }
}
