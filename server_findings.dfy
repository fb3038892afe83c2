/**
 * Three places where the server's frame codec, as written, does not do what its own
 * contract and the agent's codec evidently intend. For each: a lemma exhibiting the
 * input on which the code as written goes wrong, and a corrected definition with the
 * intended property proved about it.
 *
 * A. `DecodeAsync` reports an oversized length through an unchecked `(int)` cast: a
 *    prefix of 2^31 or more is reported as a negative size, below the limit it broke.
 * B. `ReadString` reads with `BinaryReader.ReadBytes((int)length)`, which returns
 *    fewer bytes than asked at the end of the data instead of failing, and the cast
 *    keeps only the low 32 bits of the length: a truncated or corrupted length is read
 *    as a shorter string, silently.
 * C. `Encode` compresses the serialised message as a whole, envelope included, while
 *    `DeserializeMessage` (like the agent) expects a plain envelope followed by the
 *    compressed payload: a compressed message the server encodes cannot be decoded.
 */
module ServerFindings {
  import opened Wrappers
  import opened Bytes
  import opened Utf8
  import opened Protocol
  import opened Wire
  import opened WireProofs
  import opened Checksum
  import opened ServerMessages
  import opened ServerSpec
  import opened ServerProofs
  import opened ServerRoundTrip

  // ---------------------------------------------------------------- A. the reported frame size

  /** As written: every length prefix of 2^31 or more is reported as a negative size. */
  lemma {:induction false} DecodeFrameSizeWraps(input: seq<u8>, pos: nat, len: u32, decompress: Decompressor)
    requires At(input, pos, BeBytes(len, 4)) && 0x8000_0000 <= len
    ensures DecodeFrame(input, pos, decompress) == Err(FrameTooLargeException(len - 0x1_0000_0000, MAX_FRAME_SIZE))
    ensures len - 0x1_0000_0000 < 0 < MAX_FRAME_SIZE
  {
    DecodeFrameTooLarge(input, pos, len, decompress);
    CastWraps(len);
  }

  /** The `(int)` cast of a u32 of 2^31 or more subtracts 2^32. */
  lemma CastWraps(len: u32)
    requires 0x8000_0000 <= len
    ensures UncheckedInt32(len) == len - 0x1_0000_0000
  {
  }

  /** The prefix FF FF FF FF is reported as a frame of -1 bytes exceeding a limit of 262144. */
  lemma DecodeFrameSizeExample(decompress: Decompressor)
    ensures DecodeFrame([0xFF, 0xFF, 0xFF, 0xFF], 0, decompress) == Err(FrameTooLargeException(-1, MAX_FRAME_SIZE))
  {
    assert BeBytes(0xFFFF_FFFF, 4) == [0xFF, 0xFF, 0xFF, 0xFF];
    AtWhole([0xFF, 0xFF, 0xFF, 0xFF]);
    DecodeFrameSizeWraps([0xFF, 0xFF, 0xFF, 0xFF], 0, 0xFFFF_FFFF, decompress);
  }

  /** Corrected: the oversize report carries the length itself; everything else as written. */
  function DecodeFrameCorrected(input: seq<u8>, pos: nat, decompress: Decompressor)
    : Result<Parsed<ServerMessage>, ServerError>
  {
    var prefix :- Take(input, pos, 4, EndOfStreamException);
    var len := BeValue(prefix.value);
    if len > MAX_FRAME_SIZE then Err(FrameTooLargeException(len, MAX_FRAME_SIZE))
    else DecodeFrameBody(input, prefix.next, len, decompress)
  }

  /**
   * The corrected decoder reports a frame whose length prefix exceeds the limit as too
   * large with that length, so the reported size is always above the limit; for every
   * other prefix it returns what the code as written returns.
   */
  lemma DecodeFrameCorrectedReportsLength(input: seq<u8>, pos: nat, decompress: Decompressor)
    requires pos + 4 <= |input|
    ensures var len := BeValue(input[pos..pos + 4]);
            && (len > MAX_FRAME_SIZE ==>
                  DecodeFrameCorrected(input, pos, decompress) == Err(FrameTooLargeException(len, MAX_FRAME_SIZE)))
            && (len <= MAX_FRAME_SIZE ==> DecodeFrameCorrected(input, pos, decompress) == DecodeFrame(input, pos, decompress))
  {
  }

  /** The correction keeps the round trip: a frame `Encode` produced still decodes to its message. */
  lemma {:induction false} DecodeFrameCorrectedAt(input: seq<u8>, pos: nat, next: nat, m: ServerMessage, frame: seq<u8>,
                                                  compress: Compressor, decompress: Decompressor)
    requires Readable(m) && !m.envelope.compressed && EncodeFrame(m, compress) == Ok(frame)
    requires At(input, pos, frame) && next == pos + |frame|
    ensures DecodeFrameCorrected(input, pos, decompress) == Ok(Parsed(m, next))
  {
    DecodeFrameAt(input, pos, next, m, frame, compress, decompress);
  }

  // ---------------------------------------------------------------- B. short and wrapped string lengths

  /**
   * As written: a string announced as 5 bytes with only 2 left is read as those 2 bytes,
   * and so is one announced as 2^32 + 2 bytes; neither is refused.
   */
  lemma ParseStringShortRead()
    ensures ParseString(LeBytes(5, 8) + [0x61, 0x62], 0) == Ok(Parsed([0x61, 0x62], 10))
    ensures ParseString(LeBytes(0x1_0000_0002, 8) + [0x61, 0x62], 0) == Ok(Parsed([0x61, 0x62], 10))
  {
    ShortReadAt(5, [0x61, 0x62]);
    ShortReadAt(0x1_0000_0002, [0x61, 0x62]);
  }

  lemma {:induction false} ShortReadAt(len: u64, rest: seq<u8>)
    requires rest == [0x61, 0x62] && (len == 5 || len == 0x1_0000_0002)
    ensures ParseString(LeBytes(len, 8) + rest, 0) == Ok(Parsed(rest, 10))
  {
    var buf := LeBytes(len, 8) + rest;
    AtWhole(buf);
    AtConcat(buf, 0, 8, LeBytes(len, 8), rest);
    ParseU64At(buf, 0, 8, len, EndOfStreamException);
    assert UncheckedInt32(len) == if len == 5 then 5 else 2;
    assert buf[8..10] == rest;
    AsciiValid(rest);
    DecodeLossyOfValid(rest);
  }

  /** Two ASCII letters are well-formed UTF-8. */
  lemma AsciiValid(s: seq<u8>)
    requires s == [0x61, 0x62]
    ensures ValidUtf8(s)
  {
    ValidUtf8Unfold(s);
    ValidUtf8Unfold(s[1..]);
    ValidUtf8Unfold(s[2..]);
  }

  /**
   * Corrected: a length that does not fit an `int` is refused, and otherwise exactly that
   * many bytes are read, or EndOfStreamException.
   */
  function ParseStringExact(buf: seq<u8>, pos: nat): Result<Parsed<Utf8String>, ServerError> {
    var len :- ParseU64(buf, pos, EndOfStreamException);
    if len.value >= 0x8000_0000 then Err(ArgumentOutOfRangeException)
    else
      var bytes :- Take(buf, len.next, len.value, EndOfStreamException);
      DecodeLossyLength(bytes.value);
      Ok(Parsed(DecodeLossy(bytes.value), bytes.next))
  }

  /** The corrected reader consumes exactly the length it read, and the 8 bytes of that length. */
  lemma ParseStringExactConsumesLength(buf: seq<u8>, pos: nat)
    ensures ParseStringExact(buf, pos).Ok? ==>
              pos + 8 <= |buf| && ParseStringExact(buf, pos).value.next == pos + 8 + LeValue(buf[pos..pos + 8])
  {
  }

  /** The corrected reader refuses both inputs the code as written accepts. */
  lemma ParseStringExactRefuses()
    ensures ParseStringExact(LeBytes(5, 8) + [0x61, 0x62], 0) == Err(EndOfStreamException)
    ensures ParseStringExact(LeBytes(0x1_0000_0002, 8) + [0x61, 0x62], 0) == Err(ArgumentOutOfRangeException)
  {
    ExactRefusesAt(5, [0x61, 0x62]);
    ExactRefusesAt(0x1_0000_0002, [0x61, 0x62]);
  }

  lemma {:induction false} ExactRefusesAt(len: u64, rest: seq<u8>)
    requires |rest| == 2 && (len == 5 || len == 0x1_0000_0002)
    ensures ParseStringExact(LeBytes(len, 8) + rest, 0)
         == Err(if len == 5 then EndOfStreamException else ArgumentOutOfRangeException)
  {
    var buf := LeBytes(len, 8) + rest;
    AtWhole(buf);
    AtConcat(buf, 0, 8, LeBytes(len, 8), rest);
    ParseU64At(buf, 0, 8, len, EndOfStreamException);
  }

  /** On what `WriteString` wrote, the corrected reader returns what the code as written returns. */
  lemma {:induction false} ParseStringExactAt(buf: seq<u8>, pos: nat, next: nat, s: Utf8String)
    requires At(buf, pos, StringBytes(s)) && ArrayLength(buf) && next == pos + |StringBytes(s)|
    ensures ParseStringExact(buf, pos) == ParseString(buf, pos) == Ok(Parsed(DecodeLossy(s), next))
  {
    var mid := pos + 8;
    StringFieldsAt(buf, pos, mid, next, s);
    AtConcat(buf, pos, mid, LeBytes(|s|, 8), s);
    TakeAt(buf, mid, next, s, EndOfStreamException);
    ParseStringLossyAt(buf, pos, next, s);
  }

  // ---------------------------------------------------------------- C. what is compressed

  /**
   * Every zstd frame starts with the magic number 0xFD2FB528, little-endian (section
   * 3.1.1 of RFC 8878).
   */
  predicate ZstdFrame(z: seq<u8>) {
    |z| >= 4 && z[0] == 0x28 && z[1] == 0xB5 && z[2] == 0x2F && z[3] == 0xFD
  }

  /**
   * `DeserializeMessage` refuses every zstd frame: its third byte, read as the type byte,
   * is 0x2F, and the data either ends inside the envelope or fails to decompress or names
   * no message type.
   */
  lemma {:induction false} DeserializeZstdFrame(z: seq<u8>, decompress: Decompressor)
    requires ZstdFrame(z)
    ensures DeserializeMessage(z, decompress).Err?
  {
    if |z| < 20 {
      DeserializeShort(z, decompress);
    } else {
      DeserializeBadType(z, decompress);
    }
  }

  /**
   * As written: a message whose envelope says compressed, framed by `Encode` with zstd,
   * is refused by `DecodeAsync`, whatever the decompressor.
   */
  lemma {:induction false} EncodeCompressedUnreadable(m: ServerMessage, frame: seq<u8>, compress: Compressor,
                                                      decompress: Decompressor)
    requires m.envelope.compressed && ZstdFrame(compress(SerializedMessage(m)))
    requires EncodeFrame(m, compress) == Ok(frame)
    ensures DecodeFrame(frame, 0, decompress).Err?
  {
    var payload := FramePayload(m, compress);
    AtWhole(frame);
    DecodeFramedAt(frame, 0, |frame|, payload, decompress);
    DeserializeZstdFrame(payload, decompress);
  }

  /** Corrected: the envelope as it is, then the payload bytes, compressed when the flag is set. */
  function SerializedCorrected(m: ServerMessage, compress: Compressor): seq<u8> {
    EnvelopeBytes(m.envelope) + EncodedPayload(m.envelope.compressed, compress, PayloadBytes(m.payload))
  }

  function EncodeFrameCorrected(m: ServerMessage, compress: Compressor): Result<seq<u8>, ServerError> {
    var payload := SerializedCorrected(m, compress);
    if |payload| > MAX_FRAME_SIZE then Err(FrameTooLargeException(|payload|, MAX_FRAME_SIZE))
    else Ok(Framed(payload))
  }

  /** Without compression the corrected encoder produces the frame the code as written produces. */
  lemma EncodeFrameCorrectedPlain(m: ServerMessage, compress: Compressor)
    requires !m.envelope.compressed
    ensures EncodeFrameCorrected(m, compress) == EncodeFrame(m, compress)
  {
  }

  lemma {:induction false} DeserializeCorrected(m: ServerMessage, compress: Compressor, decompress: Decompressor)
    requires Readable(m) && |SerializedMessage(m)| < 0x8000_0000
    requires m.envelope.compressed ==> decompress(compress(PayloadBytes(m.payload))) == Some(PayloadBytes(m.payload))
    ensures DeserializeMessage(SerializedCorrected(m, compress), decompress) == Ok(m)
  {
    var data := SerializedCorrected(m, compress);
    var region := EncodedPayload(m.envelope.compressed, compress, PayloadBytes(m.payload));
    AtWhole(data);
    if m.envelope.compressed {
      AtConcat(data, 0, 20, EnvelopeBytes(m.envelope), region);
      assert data[20..] == region;
      DeserializeCompressedAt(data, m, decompress);
    } else {
      DeserializePlainAt(data, m, decompress);
    }
  }

  /**
   * With the correction, every frame the encoder produces decodes to its message, compressed
   * or not, as long as decompression undoes compression.
   */
  lemma {:induction false} EncodeFrameCorrectedRoundTrip(m: ServerMessage, frame: seq<u8>, rest: seq<u8>,
                                                         compress: Compressor, decompress: Decompressor)
    requires Readable(m) && |SerializedMessage(m)| < 0x8000_0000
    requires m.envelope.compressed ==> decompress(compress(PayloadBytes(m.payload))) == Some(PayloadBytes(m.payload))
    requires EncodeFrameCorrected(m, compress) == Ok(frame)
    ensures DecodeFrame(frame + rest, 0, decompress) == Ok(Parsed(m, |frame|))
  {
    var payload := SerializedCorrected(m, compress);
    DeserializeCorrected(m, compress, decompress);
    AtWhole(frame + rest);
    AtConcat(frame + rest, 0, |frame|, frame, rest);
    DecodeFramedAt(frame + rest, 0, |frame|, payload, decompress);
  }
}
