/**
 * The two codecs side by side: the agent (Rust) and the server (C#) lay out a message's
 * bytes the same way, but frame them differently: the server appends a CRC-32 trailer
 * the agent neither writes nor reads. These lemmas state what each side makes of the
 * other's bytes, and where the two decoders disagree about refusing input.
 */
module Agreement {
  import opened Wrappers
  import opened Bytes
  import opened Utf8
  import opened Protocol
  import opened Wire
  import opened WireProofs
  import opened Checksum
  import opened ServerMessages
  import AgentSpec
  import AgentProofs
  import AgentRoundTrip
  import ServerSpec
  import ServerProofs
  import ServerRoundTrip
  import ServerFindings

  /** The server's view of an agent message keeps its type and its well-formed strings. */
  lemma ToWireReadable(m: AgentSpec.AgentMessage)
    requires Consistent(m) && PayloadStringsValid(m.payload)
    ensures ServerRoundTrip.Readable(ToWireMessage(m))
  {
    assert PayloadType(ToWire(m.payload)) == PayloadType(m.payload);
  }

  /**
   * The body the agent encodes is the server's serialised message when uncompressed, and
   * the server's corrected serialisation always.
   */
  lemma BodiesAgree(m: AgentSpec.AgentMessage, compress: Compressor)
    ensures ServerFindings.SerializedCorrected(ToWireMessage(m), compress) == AgentSpec.EncodeBody(m, compress)
    ensures !m.envelope.compressed ==>
              ServerSpec.SerializedMessage(ToWireMessage(m)) == AgentSpec.EncodeBody(m, compress)
  {
  }

  /**
   * Both encoders refuse the same messages, with the same size; otherwise the server's
   * (corrected) frame is the agent's frame followed by the body's CRC-32, little-endian.
   */
  lemma FramesAgree(m: AgentSpec.AgentMessage, compress: Compressor)
    ensures var body := AgentSpec.EncodeBody(m, compress);
            && (AgentSpec.EncodeFrame(m, compress).Ok? <==>
                  ServerFindings.EncodeFrameCorrected(ToWireMessage(m), compress).Ok?)
            && (AgentSpec.EncodeFrame(m, compress).Err? ==>
                  AgentSpec.EncodeFrame(m, compress).error == FrameTooLarge(|body|, MAX_FRAME_SIZE)
                  && ServerFindings.EncodeFrameCorrected(ToWireMessage(m), compress)
                     == Err(FrameTooLargeException(|body|, MAX_FRAME_SIZE)))
            && (AgentSpec.EncodeFrame(m, compress).Ok? ==>
                  ServerFindings.EncodeFrameCorrected(ToWireMessage(m), compress).value
                  == AgentSpec.EncodeFrame(m, compress).value + LeBytes(Crc32(body), 4))
  {
    BodiesAgree(m, compress);
  }

  /** The server's `DeserializeMessage` reads back every body the agent encodes. */
  lemma {:induction false} ServerReadsAgentBody(m: AgentSpec.AgentMessage, compress: Compressor,
                                                decompress: Decompressor)
    requires AgentRoundTrip.Recoverable(m, compress, decompress)
    requires |ServerSpec.SerializedMessage(ToWireMessage(m))| < 0x8000_0000
    ensures ServerSpec.DeserializeMessage(AgentSpec.EncodeBody(m, compress), decompress) == Ok(ToWireMessage(m))
  {
    ToWireReadable(m);
    BodiesAgree(m, compress);
    ServerFindings.DeserializeCorrected(ToWireMessage(m), compress, decompress);
  }

  /**
   * The agent's `decode` reads a frame from the server (corrected) and returns the message,
   * but stops before the CRC-32 trailer, which its next `decode` would take for a length.
   */
  lemma {:induction false} AgentReadsServerFrame(m: AgentSpec.AgentMessage, frame: seq<u8>, compress: Compressor,
                                                 decompress: Decompressor)
    requires AgentRoundTrip.Recoverable(m, compress, decompress)
    requires ServerFindings.EncodeFrameCorrected(ToWireMessage(m), compress) == Ok(frame)
    ensures |frame| >= 4
    ensures AgentSpec.DecodeFrame(frame, 0, decompress) == Ok(Parsed(m, |frame| - 4))
  {
    FramesAgree(m, compress);
    var agentFrame := AgentSpec.EncodeFrame(m, compress).value;
    var trailer := LeBytes(Crc32(AgentSpec.EncodeBody(m, compress)), 4);
    AgentRoundTrip.DecodeFrameThenRest(m, agentFrame, trailer, compress, decompress);
  }

  /** The server refuses a frame from the agent with EndOfStreamException when nothing follows it: the trailer is missing. */
  lemma {:induction false} ServerRejectsAgentFrame(m: AgentSpec.AgentMessage, frame: seq<u8>, compress: Compressor,
                                                   decompress: Decompressor)
    requires AgentSpec.EncodeFrame(m, compress) == Ok(frame)
    ensures ServerSpec.DecodeFrame(frame, 0, decompress) == Err(EndOfStreamException)
  {
    var body := AgentSpec.EncodeBody(m, compress);
    AtWhole(frame);
    AtConcat(frame, 0, 4, BeBytes(|body|, 4), body);
    ServerRoundTrip.DecodeFrameTruncated(frame, 0, |body|, decompress);
  }

  /** Corrected agent framing: the agent's frame followed by the CRC-32 of its body, little-endian, as the server reads it. */
  function CheckedAgentFrame(m: AgentSpec.AgentMessage, compress: Compressor): Result<seq<u8>, ProtocolError> {
    var frame :- AgentSpec.EncodeFrame(m, compress);
    Ok(frame + LeBytes(Crc32(AgentSpec.EncodeBody(m, compress)), 4))
  }

  /**
   * With the trailer added, the server's `DecodeAsync` as written reads every frame the
   * agent encodes, compressed or not, and consumes exactly that frame.
   */
  lemma {:induction false} ServerReadsCheckedAgentFrame(m: AgentSpec.AgentMessage, frame: seq<u8>, rest: seq<u8>,
                                                        compress: Compressor, decompress: Decompressor)
    requires AgentRoundTrip.Recoverable(m, compress, decompress)
    requires |ServerSpec.SerializedMessage(ToWireMessage(m))| < 0x8000_0000
    requires CheckedAgentFrame(m, compress) == Ok(frame)
    ensures ServerSpec.DecodeFrame(frame + rest, 0, decompress) == Ok(Parsed(ToWireMessage(m), |frame|))
  {
    FramesAgree(m, compress);
    ToWireReadable(m);
    ServerFindings.EncodeFrameCorrectedRoundTrip(ToWireMessage(m), frame, rest, compress, decompress);
  }

  /**
   * The agent checks the type byte as soon as it reads it; the server reads the whole
   * envelope first. A body that ends inside the envelope after a bad type byte is refused
   * by the agent with that byte and by the server with EndOfStreamException.
   */
  lemma TypeCheckOrder(body: seq<u8>, decompress: Decompressor)
    requires 3 <= |body| < 20 && !(1 <= body[2] <= 7)
    ensures AgentSpec.DecodeBody(body, decompress) == Err(InvalidMessageType(body[2]))
    ensures ServerSpec.DeserializeMessage(body, decompress) == Err(EndOfStreamException)
  {
    AgentRoundTrip.DecodeBodyBadType(body, decompress);
    ServerRoundTrip.DeserializeShort(body, decompress);
  }

  /** The smallest such body: version 1.0 and type byte 99. */
  lemma TypeCheckOrderExample(decompress: Decompressor)
    ensures AgentSpec.DecodeBody([1, 0, 99], decompress) == Err(InvalidMessageType(99))
    ensures ServerSpec.DeserializeMessage([1, 0, 99], decompress) == Err(EndOfStreamException)
  {
    TypeCheckOrder([1, 0, 99], decompress);
  }

  /**
   * A handshake identity whose OS byte is neither Windows (1) nor Linux (2) is refused by
   * the agent with that byte and accepted as it is by the server.
   */
  lemma {:induction false} OsByteChecks(buf: seq<u8>, pos: nat, next: nat, id: AgentIdentity<u8>)
    requires At(buf, pos, IdentityBytes(id)) && ValidUtf8(id.instanceId) && ValidUtf8(id.agentVersion)
    requires |buf| < 0x8000_0000 && id.osType != 1 && id.osType != 2 && next == pos + |IdentityBytes(id)|
    ensures AgentSpec.ParseIdentity(buf, pos) == Err(InvalidMessageType(id.osType))
    ensures ServerSpec.ParseIdentity(buf, pos) == Ok(Parsed(id, next))
  {
    AgentProofs.ParseIdentityBadOs(buf, pos, id);
    ServerProofs.ParseIdentityAt(buf, pos, next, id);
  }
}
