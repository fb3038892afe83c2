# Frame codec of the agent ↔ collector protocol, in Dafny

The monitoring agent (Rust, `agent/src/protocol.rs`) and the collector server
(C#, `server/Protocol/FrameCodec.cs` with the types of `server/Protocol/Messages.cs`)
exchange messages as length-prefixed binary frames. A message is a 20-byte envelope
(major, minor, type byte, u64 message id, i64 timestamp, compressed flag) followed by
the payload of one of seven variants (handshake identity, handshake ack, heartbeat,
snapshot with its process samples, ack, backpressure signal, error). Integers are
little-endian, strings carry a u64 length, optional values a presence byte, lists a u64
count. The agent frames a body as `[u32 big-endian length][body]`; the server frames
the serialised message as `[u32 big-endian length][payload][u32 little-endian CRC-32]`.
Both refuse bodies over 256 KiB.

The project models both codecs in the form their code takes:

- `bytes.dfy`, `wrappers.dfy`, `utf8.dfy`, `crc32.dfy`: fixed-width integers with their
  little- and big-endian encodings, `Option`/`Result`, UTF-8 well-formedness (the test
  Rust's `String::from_utf8` applies) and the lossy decoding .NET's `Encoding.UTF8`
  performs, and the IEEE 802.3 CRC-32.
- `protocol.dfy`: the shared message data model, the version and capability
  predicates, the type discriminants, the agent's errors.
- `wire.dfy`, `wire_proofs.dfy`: the body layout both codecs write, the primitive
  readers both use, and their round trips.
- `agent_spec.dfy`, `agent_codec.dfy`: what the agent's `encode`/`decode` compute, as
  functions, and the code itself as methods over a growing `Vec` (class `ByteVec`) and a
  `Cursor` (class), proved to compute those functions.
- `agent_proofs.dfy`, `agent_roundtrip.dfy`: field-by-field and frame round trips,
  layout, size limit and refusals of the agent's codec.
- `server_messages.dfy`, `server_spec.dfy`, `server_codec.dfy`: the server's version
  equality and exceptions; what its frame codec computes, following the C# code as
  written; and the code as methods over `BinaryWriter`, `BinaryReader`, a network
  stream and the frame arrays, proved to compute those functions.
- `server_proofs.dfy`, `server_roundtrip.dfy`: the server's field and frame round
  trips, layout, size limit, checksum and refusals.
- `server_findings.dfy`: three defects of the server's codec, each exhibited on a
  concrete input, each with a corrected definition and its proved property.
- `agreement.dfy`: the two codecs side by side: same body bytes, different framing,
  different error order.
- `protocol_laws.dfy`: version compatibility and capability bits.

Compression (zstd) is a parameter: a total `compress` function and a `decompress`
function that may fail. Round trips through compression assume that decompression
undoes compression.

## Model

| member | source | states |
|---|---|---|
| Bytes.LeValueOfLeBytes | agent/src/protocol.rs:566-576 | reading n little-endian bytes gives back every value below 256^n that was written with `to_le_bytes` |
| Bytes.LeBytesOfLeValue | agent/src/protocol.rs:566-576 | every n-byte string is the little-endian encoding of the value read from it |
| Bytes.BeValueOfBeBytes | agent/src/protocol.rs:380-382 | the big-endian length prefix reads back as the length written |
| Bytes.BeBytesOfBeValue | agent/src/protocol.rs:361-364 | every 4-byte prefix is the big-endian encoding of the length read from it |
| Bytes.I64Bits | agent/src/protocol.rs:313-314 | the two's-complement pattern of an i64 has its top bit clear exactly when the value is non-negative |
| Bytes.I64OfBits | agent/src/protocol.rs:578-582 | the signed reading of a 64-bit pattern has that pattern again |
| Bytes.I64OfBitsOfI64 | agent/src/protocol.rs:578-582 | reading the pattern of a signed value gives back that value |
| Bytes.UncheckedInt32 | server/Protocol/FrameCodec.cs:405 | C#'s unchecked `(int)` conversion lies in the int range and differs from its operand by a multiple of 2^32 |
| Utf8.DecodeLossyOfValid | server/Protocol/FrameCodec.cs:406 | `GetString` leaves well-formed UTF-8 unchanged, so the strict and lossy readers agree on it |
| Utf8.DecodeLossyValid | server/Protocol/FrameCodec.cs:406 | whatever the bytes, the lossy decoding is well-formed UTF-8 |
| Utf8.DecodeLossyLength | server/Protocol/FrameCodec.cs:406 | the lossy decoding is at most three times as long as its input |
| Protocol.MessageTypeToU8 | agent/src/protocol.rs:71-73 | every message type has a discriminant in 1..7 |
| Protocol.MessageTypeFromU8 | agent/src/protocol.rs:57-68 | a byte names a message type exactly when it is in 1..7, that type's discriminant is the byte, and every other byte is refused with `InvalidMessageType` carrying it |
| ProtocolLaws.CompatibleReflexive | agent/src/protocol.rs:25-32 | every version is compatible with itself; the current version is 1.0 |
| ProtocolLaws.CompatibleExamples | agent/src/protocol.rs:622-635 | 1.1 reads 1.0; 1.0 does not read 1.1; 1.0 and 2.0 do not read each other |
| ProtocolLaws.CompatibleTransitive | server/Protocol/Messages.cs:30-31 | compatibility is transitive |
| ProtocolLaws.CompatibleBothWays | agent/src/protocol.rs:30-32 | two versions are compatible both ways exactly when they are equal |
| ProtocolLaws.CapabilityBits | agent/src/protocol.rs:122-134 | all-process mode is bit 0 and compression bit 1 of the capability word |
| ProtocolLaws.CapabilitiesIndependent | server/Protocol/Messages.cs:79-102 | each capability predicate reads its own bit only, whatever the other bits hold |
| ProtocolLaws.CapabilityExamples | agent/src/protocol.rs:649-667 | 0x01 gives only all-process, 0x02 only compression, 0x03 both, 0 neither |
| ProtocolLaws.Discriminants | server/Protocol/Messages.cs:53-71 | distinct message types have distinct discriminants; Windows is 1 and Linux 2 |
| ServerMessages.VersionEquals | server/Protocol/Messages.cs:33-34 | `Equals` holds exactly when major and minor are equal |
| ServerMessages.VersionOpEquals | server/Protocol/Messages.cs:41-42 | `==` holds exactly when the versions are equal |
| ServerMessages.VersionOpNotEquals | server/Protocol/Messages.cs:44-45 | `!=` is the negation of `==` |
| Wire.ProcessesBytesSnoc | agent/src/protocol.rs:320-326 | writing one more sample appends exactly its bytes to those of the list |
| Wire.ProcessesBytesPrefix | server/Protocol/FrameCodec.cs:287-294 | after i + 1 iterations of the sample loop the bytes written extend those after i by sample i |
| Wire.TakeAt | agent/src/protocol.rs:390-391 | `read_exact` of n bytes where n bytes x were written returns x and moves past them |
| Wire.ParseU8At | agent/src/protocol.rs:556-560 | `read_u8` returns the byte written and moves one byte on |
| Wire.ParseBoolAt | agent/src/protocol.rs:562-564 | `read_bool` returns the flag written as 0 or 1 |
| Wire.ParseU32At | agent/src/protocol.rs:566-570 | `read_u32_le` returns the u32 written and moves four bytes on |
| Wire.ParseU64At | agent/src/protocol.rs:572-576 | `read_u64_le` returns the u64 written and moves eight bytes on |
| Wire.ParseI64At | agent/src/protocol.rs:578-582 | `read_i64_le` returns the i64 written, negative values included |
| Wire.ParseF32At | agent/src/protocol.rs:584-588 | `read_f32_le` returns the float bits written |
| WireProofs.PresenceAt | agent/src/protocol.rs:562-564 | any non-zero presence byte reads as true |
| WireProofs.ParseOptionalU32FlagAt | agent/src/protocol.rs:606-613 | a value follows any non-zero presence byte, not only 1 |
| WireProofs.ParseOptionalU32At | agent/src/protocol.rs:606-613 | `read_optional_u32` returns the optional value `write_optional_u32` wrote: None stays None |
| WireProofs.ParseAckAt | agent/src/protocol.rs:483-493 | the ack fields are read back in the order they were written |
| WireProofs.ParseBackpressureAt | agent/src/protocol.rs:494-499 | the backpressure level and pause are read back as written |
| WireProofs.ProcessFieldsAt | agent/src/protocol.rs:321-325 | a sample is laid out as pid, name, CPU, memory, command line, each field right after the one before |
| WireProofs.SnapshotFieldsAt | agent/src/protocol.rs:312-328 | a snapshot is laid out as its 28 bytes of totals, the u64 count, the samples, the flag |
| WireProofs.IdentityFieldsAt | agent/src/protocol.rs:302-308 | an identity is laid out as instance id, OS byte, agent version, major, minor, capabilities |
| WireProofs.EnvelopeFieldsAt | agent/src/protocol.rs:292-297 | the envelope puts major at 0, minor at 1, type at 2, id at 3, timestamp at 11, flag at 19 |
| AgentSpec.ParseProcesses | agent/src/protocol.rs:455-470 | a successful sample loop yields exactly as many samples as the count announced |
| AgentSpec.ParseEnvelope | agent/src/protocol.rs:395-410 | a successful envelope read ends at byte 20 of the body |
| AgentCodec.ByteVec.constructor | agent/src/protocol.rs:285 | a new buffer is empty |
| AgentCodec.ByteVec.Push | agent/src/protocol.rs:292 | `push` appends one byte and nothing else |
| AgentCodec.ByteVec.ExtendFromSlice | agent/src/protocol.rs:295 | `extend_from_slice` appends the slice |
| AgentCodec.WriteString | agent/src/protocol.rs:530-534 | appends the u64 length and the bytes of the string |
| AgentCodec.WriteOptionalString | agent/src/protocol.rs:536-544 | appends 0, or 1 and the string |
| AgentCodec.WriteOptionalU32 | agent/src/protocol.rs:546-554 | appends 0, or 1 and the value little-endian |
| AgentCodec.WriteProcess | agent/src/protocol.rs:321-325 | one iteration of the sample loop appends that sample's layout |
| AgentCodec.WriteSnapshotTotals | agent/src/protocol.rs:313-316 | appends window bounds, total CPU and total memory |
| AgentCodec.WriteProcesses | agent/src/protocol.rs:320-326 | the loop appends every sample in list order |
| AgentCodec.WriteSnapshot | agent/src/protocol.rs:312-329 | appends the snapshot layout: totals, count, samples, flag |
| AgentCodec.WriteEnvelope | agent/src/protocol.rs:292-297 | appends the 20-byte envelope |
| AgentCodec.WritePayload | agent/src/protocol.rs:301-343 | appends the layout of the payload variant, OS type as its discriminant |
| AgentCodec.WriteEncodedPayload | agent/src/protocol.rs:345-354 | appends the payload bytes, compressed when the envelope's flag is set |
| AgentCodec.Encode | agent/src/protocol.rs:284-367 | `encode` returns the frame `EncodeFrame` describes, or its `FrameTooLarge` error |
| AgentCodec.Cursor.constructor | agent/src/protocol.rs:393 | a cursor starts at position 0 of its buffer |
| AgentCodec.Cursor.ReadExact | agent/src/protocol.rs:396-400 | `read_exact` returns the next n bytes and advances by n, or fails with an I/O error and leaves the cursor at the end |
| AgentCodec.ReadU8 | agent/src/protocol.rs:556-560 | reads one byte, or fails with an I/O error |
| AgentCodec.ReadBool | agent/src/protocol.rs:562-564 | reads a byte as a flag, any non-zero byte being true |
| AgentCodec.ReadU32Le | agent/src/protocol.rs:566-570 | reads a little-endian u32 |
| AgentCodec.ReadU64Le | agent/src/protocol.rs:572-576 | reads a little-endian u64 |
| AgentCodec.ReadI64Le | agent/src/protocol.rs:578-582 | reads a little-endian two's-complement i64 |
| AgentCodec.ReadF32Le | agent/src/protocol.rs:584-588 | reads four bytes of float bits |
| AgentCodec.ReadString | agent/src/protocol.rs:590-595 | reads a u64 length and that many bytes, refused with `Serialization` unless they are UTF-8 |
| AgentCodec.ReadOptionalString | agent/src/protocol.rs:597-604 | reads a presence flag, then a string when it is set |
| AgentCodec.ReadOptionalU32 | agent/src/protocol.rs:606-613 | reads a presence flag, then a u32 when it is set |
| AgentCodec.ReadProcess | agent/src/protocol.rs:457-469 | reads one sample's fields in order |
| AgentCodec.ReadProcesses | agent/src/protocol.rs:455-470 | the loop reads count samples in order, stopping at the first failure |
| AgentCodec.ReadSnapshot | agent/src/protocol.rs:448-482 | reads the snapshot fields, the counted samples and the flag |
| AgentCodec.ReadIdentity | agent/src/protocol.rs:423-445 | reads every identity field, then refuses an OS byte other than 1 or 2 |
| AgentCodec.ReadPayload | agent/src/protocol.rs:422-505 | reads the payload the type selects |
| AgentCodec.ReadEnvelope | agent/src/protocol.rs:395-410 | reads the envelope, refusing a bad type byte as soon as it is read |
| AgentCodec.DecodeMessageBody | agent/src/protocol.rs:393-516 | decodes a body: envelope, then the payload from the remaining bytes, decompressed when flagged |
| AgentCodec.Decode | agent/src/protocol.rs:378-517 | `decode` returns what `DecodeFrame` describes and leaves the reader just after the frame |
| AgentProofs.ParseStringAt | agent/src/protocol.rs:590-595 | `read_string` returns the UTF-8 string `write_string` wrote and moves past it |
| AgentProofs.ParseStringInvalid | agent/src/protocol.rs:594 | a string whose bytes are not UTF-8 is refused with `Serialization` |
| AgentProofs.ParseOptionalStringFlagAt | agent/src/protocol.rs:597-604 | a string follows any non-zero presence byte |
| AgentProofs.ParseOptionalStringAt | agent/src/protocol.rs:597-604 | `read_optional_string` returns the optional string `write_optional_string` wrote: None stays None |
| AgentProofs.ParseProcessAt | agent/src/protocol.rs:457-469 | the loop body reads back the sample the encoder wrote |
| AgentProofs.ParseProcessesHeadAt | agent/src/protocol.rs:456-470 | one loop iteration: after a sample, the loop continues where it ended with one less to read |
| AgentProofs.ParseProcessesAt | agent/src/protocol.rs:456-470 | the loop reads back, in order, the samples written one after the other, and stops right after them |
| AgentProofs.SnapshotProcessesAt | agent/src/protocol.rs:454-470 | the samples of a snapshot are read back as the list written |
| AgentProofs.ParseSnapshotAt | agent/src/protocol.rs:448-482 | the snapshot arm reads back the snapshot written, `truncated` included |
| AgentProofs.IdentityWithOsOfWire | agent/src/protocol.rs:433-437 | the OS byte of an agent identity maps back to its OS type |
| AgentProofs.ParseIdentityWireAt | agent/src/protocol.rs:423-445 | all identity fields are read back; the OS byte then decides |
| AgentProofs.ParseIdentityAt | agent/src/protocol.rs:423-445 | the handshake arm reads back the identity the encoder wrote |
| AgentProofs.ParseIdentityBadOs | agent/src/protocol.rs:433-437 | an OS byte other than 1 or 2 is refused with `InvalidMessageType` carrying that byte |
| AgentProofs.ErrorFieldsAt | agent/src/protocol.rs:500-504 | the error code and message are read back |
| AgentRoundTrip.MessageTypeRoundTrip | agent/src/protocol.rs:57-73 | `from_u8(to_u8(t)) == t` for all seven types |
| AgentRoundTrip.HandshakePayloadAt | agent/src/protocol.rs:423-445 | a handshake payload is read back |
| AgentRoundTrip.SnapshotPayloadAt | agent/src/protocol.rs:448-482 | a snapshot payload is read back |
| AgentRoundTrip.AckPayloadAt | agent/src/protocol.rs:483-493 | an ack payload is read back |
| AgentRoundTrip.BackpressurePayloadAt | agent/src/protocol.rs:494-499 | a backpressure payload is read back |
| AgentRoundTrip.ErrorPayloadAt | agent/src/protocol.rs:500-504 | an error payload is read back |
| AgentRoundTrip.ParsePayloadAt | agent/src/protocol.rs:422-505 | for every variant, the decoder given that variant's type reads back the payload the encoder wrote, and stops after it |
| AgentRoundTrip.ParseEnvelopeAt | agent/src/protocol.rs:395-410 | the envelope reads return the envelope written and end at byte 20 |
| AgentRoundTrip.DecodeBodyOfEncodeBody | agent/src/protocol.rs:393-516 | decoding an encoded body returns its message when the type matches the variant, the strings are UTF-8 and decompression undoes compression |
| AgentRoundTrip.DecodeFrameAt | agent/src/protocol.rs:378-517 | wherever an encoded frame sits in the input, decode there returns its message and stops exactly at the frame's end |
| AgentRoundTrip.DecodeFrameThenRest | agent/src/protocol.rs:378-391 | decode of a frame followed by anything consumes exactly the frame |
| AgentRoundTrip.DecodeTwoFrames | agent/src/protocol.rs:378-391 | two concatenated frames decode to their two messages in order |
| AgentRoundTrip.EncodeThenDecode | agent/src/protocol.rs:284-517 | the methods themselves: encode then decode on a cursor gives the message back and consumes 4 + body bytes |
| AgentRoundTrip.EncodeFrameLimit | agent/src/protocol.rs:356-364 | encode fails with `FrameTooLarge(body size, 262144)` exactly when the body exceeds 262144 bytes, and otherwise returns the big-endian length then the body |
| AgentRoundTrip.EnvelopeLayout | agent/src/protocol.rs:292-297 | the envelope is 20 bytes, opens the body, holds the type byte at 2 and the flag 0 or 1 at 19 |
| AgentRoundTrip.EmptyPayloadFrame | agent/src/protocol.rs:310-311 | an uncompressed heartbeat or handshake ack frame is exactly 24 bytes |
| AgentRoundTrip.DecodeFrameTooLarge | agent/src/protocol.rs:384-387 | a length prefix above 262144 is refused with that length before any body byte is read |
| AgentRoundTrip.DecodeFrameTruncated | agent/src/protocol.rs:380-391 | fewer than four prefix bytes, or fewer body bytes than announced, give an I/O error |
| AgentRoundTrip.DecodeBodyBadType | agent/src/protocol.rs:402-404 | a type byte outside 1..7 is refused with `InvalidMessageType` carrying it |
| AgentRoundTrip.DecodeBodyShort | agent/src/protocol.rs:395-410 | a body shorter than the envelope is refused with `InvalidMessageType` carrying the type byte when that byte is present and outside 1..7, and with an I/O error otherwise |
| ServerSpec.ReadBytesUpTo | server/Protocol/FrameCodec.cs:405 | `ReadBytes(count)` returns the next count bytes when they are there and otherwise all that remain, never more than count, and advances by what it returns |
| ServerSpec.ParseProcesses | server/Protocol/FrameCodec.cs:380-390 | a successful sample loop yields exactly as many samples as the count |
| ServerSpec.ParsePayload | server/Protocol/FrameCodec.cs:322-373 | a payload read has the type the byte names; a byte outside 1..7 is refused with `InvalidMessageTypeException` carrying it |
| ServerSpec.ParseRawEnvelope | server/Protocol/FrameCodec.cs:215-223 | the envelope is read exactly when the data holds 20 bytes, ending at byte 20; otherwise `EndOfStreamException` |
| ServerSpec.ParseMessagePayload | server/Protocol/FrameCodec.cs:234-248 | the payload read, from the reader or from the decompressed rest, has the type the envelope's byte names |
| ServerCodec.BinaryWriter.constructor | server/Protocol/FrameCodec.cs:189-190 | a new writer has written nothing |
| ServerCodec.BinaryWriter.WriteByte | server/Protocol/FrameCodec.cs:193 | `Write(byte)` appends the byte |
| ServerCodec.BinaryWriter.WriteBoolean | server/Protocol/FrameCodec.cs:198 | `Write(bool)` appends 1 or 0 |
| ServerCodec.BinaryWriter.WriteUInt32 | server/Protocol/FrameCodec.cs:270 | `Write(uint)` appends four little-endian bytes |
| ServerCodec.BinaryWriter.WriteUInt64 | server/Protocol/FrameCodec.cs:196 | `Write(ulong)` appends eight little-endian bytes |
| ServerCodec.BinaryWriter.WriteInt64 | server/Protocol/FrameCodec.cs:197 | `Write(long)` appends the two's-complement bits little-endian |
| ServerCodec.BinaryWriter.WriteSingle | server/Protocol/FrameCodec.cs:284 | `Write(float)` appends the float bits little-endian |
| ServerCodec.BinaryWriter.WriteBytes | server/Protocol/FrameCodec.cs:399 | `Write(byte[])` appends the bytes with no length |
| ServerCodec.WriteString | server/Protocol/FrameCodec.cs:395-400 | appends the u64 byte count and the UTF-8 bytes |
| ServerCodec.WriteOptionalString | server/Protocol/FrameCodec.cs:409-420 | appends 0, or 1 and the string |
| ServerCodec.WriteOptionalUInt32 | server/Protocol/FrameCodec.cs:428-439 | appends 0, or 1 and the value |
| ServerCodec.WriteIdentity | server/Protocol/FrameCodec.cs:264-271 | the handshake arm appends the identity layout, the OS byte as it is |
| ServerCodec.WriteProcess | server/Protocol/FrameCodec.cs:289-293 | the `foreach` body appends one sample's layout |
| ServerCodec.WriteProcesses | server/Protocol/FrameCodec.cs:287-294 | the `foreach` appends every sample in list order |
| ServerCodec.WriteSnapshot | server/Protocol/FrameCodec.cs:281-296 | the snapshot arm appends totals, count, samples, flag |
| ServerCodec.WritePayload | server/Protocol/FrameCodec.cs:260-317 | appends the layout of the payload variant |
| ServerCodec.WriteEnvelope | server/Protocol/FrameCodec.cs:193-198 | appends the 20-byte envelope |
| ServerCodec.SerializeMessage | server/Protocol/FrameCodec.cs:187-204 | returns the envelope bytes followed by the payload bytes |
| ServerCodec.CopyInto | server/Protocol/FrameCodec.cs:113 | copies the source into the array at the offset and keeps every other element |
| ServerCodec.FrameArray | server/Protocol/FrameCodec.cs:111-114 | the frame array holds the big-endian length, the payload and its little-endian CRC-32 |
| ServerCodec.Encode | server/Protocol/FrameCodec.cs:91-117 | `Encode` returns the frame `EncodeFrame` describes, or its `FrameTooLargeException` |
| ServerCodec.BinaryReader.constructor | server/Protocol/FrameCodec.cs:211-212 | a reader starts at position 0 of its data |
| ServerCodec.BinaryReader.ReadExactly | server/Protocol/FrameCodec.cs:221 | a fixed-width read returns the next n bytes, or throws `EndOfStreamException` having consumed the rest |
| ServerCodec.BinaryReader.ReadByte | server/Protocol/FrameCodec.cs:217 | `ReadByte` reads one byte |
| ServerCodec.BinaryReader.ReadBoolean | server/Protocol/FrameCodec.cs:223 | `ReadBoolean` reads a byte, non-zero being true |
| ServerCodec.BinaryReader.ReadUInt32 | server/Protocol/FrameCodec.cs:336 | `ReadUInt32` reads four little-endian bytes |
| ServerCodec.BinaryReader.ReadUInt64 | server/Protocol/FrameCodec.cs:221 | `ReadUInt64` reads eight little-endian bytes |
| ServerCodec.BinaryReader.ReadInt64 | server/Protocol/FrameCodec.cs:222 | `ReadInt64` reads a two's-complement value |
| ServerCodec.BinaryReader.ReadSingle | server/Protocol/FrameCodec.cs:347 | `ReadSingle` reads four bytes of float bits |
| ServerCodec.BinaryReader.ReadBytes | server/Protocol/FrameCodec.cs:405 | a negative count throws `ArgumentOutOfRangeException` and reads nothing; otherwise at most count bytes are returned, without an exception |
| ServerCodec.ReadString | server/Protocol/FrameCodec.cs:402-407 | reads the u64 length, `ReadBytes` of its `(int)` cast, and decodes the bytes lossily |
| ServerCodec.ReadOptionalString | server/Protocol/FrameCodec.cs:422-426 | reads a presence byte, then a string when it is non-zero |
| ServerCodec.ReadOptionalUInt32 | server/Protocol/FrameCodec.cs:441-445 | reads a presence byte, then a u32 when it is non-zero |
| ServerCodec.ReadProcess | server/Protocol/FrameCodec.cs:382-389 | reads one sample's fields in order |
| ServerCodec.ReadProcessList | server/Protocol/FrameCodec.cs:375-393 | reads the count, refuses a negative `(int)` capacity, then loops count times adding samples |
| ServerCodec.ReadSnapshot | server/Protocol/FrameCodec.cs:343-351 | reads the snapshot fields in order |
| ServerCodec.ReadIdentity | server/Protocol/FrameCodec.cs:326-337 | reads the identity fields, keeping the OS byte whatever it is |
| ServerCodec.ReadPayload | server/Protocol/FrameCodec.cs:322-373 | the switch on the type byte |
| ServerCodec.ReadRawEnvelope | server/Protocol/FrameCodec.cs:215-223 | reads the six envelope fields |
| ServerCodec.DeserializeMessage | server/Protocol/FrameCodec.cs:209-255 | returns what the envelope and the selected payload reader compute, decompressing the rest when flagged |
| ServerCodec.ByteStream.constructor | server/Protocol/FrameCodec.cs:44 | the stream starts before its first byte |
| ServerCodec.ByteStream.ReadAsync | server/Protocol/FrameCodec.cs:145-147 | returns 0 only at the end of the stream, otherwise copies 1 to count of the next bytes into the buffer and consumes them |
| ServerCodec.ReadExactAsync | server/Protocol/FrameCodec.cs:135-158 | however the stream splits its data, fills the whole buffer with the next bytes, or throws `EndOfStreamException` at the end of the stream |
| ServerCodec.DecodeAsync | server/Protocol/FrameCodec.cs:43-78 | `DecodeAsync` returns what `DecodeFrame` describes and leaves the stream just after the frame |
| ServerProofs.ParseStringLossyAt | server/Protocol/FrameCodec.cs:402-407 | `ReadString` returns the lossy decoding of the bytes `WriteString` wrote, and never refuses them |
| ServerProofs.ParseStringAt | server/Protocol/FrameCodec.cs:395-407 | `ReadString` returns the UTF-8 string `WriteString` wrote |
| ServerProofs.ParseStringNegativeLength | server/Protocol/FrameCodec.cs:405 | a length whose low 32 bits are 2^31 or more is refused with `ArgumentOutOfRangeException` |
| ServerProofs.ParseOptionalStringFlagAt | server/Protocol/FrameCodec.cs:422-426 | a string follows any non-zero presence byte |
| ServerProofs.ParseOptionalStringAt | server/Protocol/FrameCodec.cs:409-426 | `ReadOptionalString` returns what `WriteOptionalString` wrote |
| ServerProofs.ParseProcessAt | server/Protocol/FrameCodec.cs:382-389 | the loop body reads back the sample the `foreach` wrote |
| ServerProofs.ParseProcessesHeadAt | server/Protocol/FrameCodec.cs:380-390 | one loop iteration: after a sample, the loop continues where it ended |
| ServerProofs.ParseProcessesAt | server/Protocol/FrameCodec.cs:380-390 | the loop reads back, in order, the samples written one after the other |
| ServerProofs.ParseProcessListAt | server/Protocol/FrameCodec.cs:375-393 | `ReadProcessList` reads back the count and samples the snapshot arm wrote |
| ServerProofs.ParseSnapshotAt | server/Protocol/FrameCodec.cs:343-351 | the snapshot arm reads back the snapshot written |
| ServerProofs.ParseIdentityAt | server/Protocol/FrameCodec.cs:326-337 | the handshake arm reads back the identity written, whatever its OS byte |
| ServerProofs.HandshakePayloadAt | server/Protocol/FrameCodec.cs:326-337 | type byte 1 reads back a handshake payload |
| ServerProofs.SnapshotPayloadAt | server/Protocol/FrameCodec.cs:343-351 | type byte 4 reads back a snapshot payload |
| ServerProofs.AckPayloadAt | server/Protocol/FrameCodec.cs:353-358 | type byte 5 reads back an ack payload |
| ServerProofs.BackpressurePayloadAt | server/Protocol/FrameCodec.cs:360-364 | type byte 6 reads back a backpressure payload |
| ServerProofs.ErrorPayloadAt | server/Protocol/FrameCodec.cs:366-369 | type byte 7 reads back an error payload |
| ServerProofs.ParsePayloadAt | server/Protocol/FrameCodec.cs:322-373 | for all seven variants `ReadPayload` reads exactly the fields `WritePayload` wrote, in the same order |
| ServerProofs.ParseRawEnvelopeAt | server/Protocol/FrameCodec.cs:215-223 | the envelope reads return the fields written and end at byte 20 |
| ServerRoundTrip.DeserializePlainAt | server/Protocol/FrameCodec.cs:245-248 | an uncompressed serialised message is deserialised to that message; trailing bytes are ignored |
| ServerRoundTrip.DeserializeCompressedAt | server/Protocol/FrameCodec.cs:236-244 | with the flag set, the message is the one whose payload the bytes after the envelope decompress to |
| ServerRoundTrip.DeserializeShort | server/Protocol/FrameCodec.cs:215-223 | data shorter than 20 bytes is refused with `EndOfStreamException` |
| ServerRoundTrip.DeserializeBadType | server/Protocol/FrameCodec.cs:220-247 | a bad type byte is refused with that byte only after the envelope is read and, when flagged, the rest decompressed |
| ServerRoundTrip.FrameLayout | server/Protocol/FrameCodec.cs:108-114 | a frame is `n + 8` bytes: the length n big-endian, the payload, its CRC-32 little-endian |
| ServerRoundTrip.DecodeFramedAt | server/Protocol/FrameCodec.cs:47-75 | on any framed payload, `DecodeAsync` passes the checks and returns what `DeserializeMessage` makes of the payload, stopping exactly at the frame's end |
| ServerRoundTrip.DecodeFrameAt | server/Protocol/FrameCodec.cs:43-78 | wherever a frame `Encode` produced for an uncompressed message sits, `DecodeAsync` there returns its message and consumes 4 + n + 4 bytes |
| ServerRoundTrip.DecodeFrameThenRest | server/Protocol/FrameCodec.cs:43-78 | for uncompressed messages only, a frame `Encode` produced followed by anything decodes to its message and is consumed exactly |
| ServerRoundTrip.DecodeTwoFrames | server/Protocol/FrameCodec.cs:47-75 | for uncompressed messages only, two concatenated frames decode to their two messages in order |
| ServerRoundTrip.EncodeThenDecode | server/Protocol/FrameCodec.cs:43-117 | for uncompressed messages only, the methods themselves: `Encode` then `DecodeAsync` on a stream delivering the frame in any chunks gives the message back and consumes 4 + n + 4 bytes |
| ServerRoundTrip.EncodeFrameLimit | server/Protocol/FrameCodec.cs:101-105 | `Encode` throws `FrameTooLargeException(payload size, 262144)` exactly when the payload exceeds 262144 bytes, and otherwise returns the frame |
| ServerRoundTrip.DecodeFrameTooLarge | server/Protocol/FrameCodec.cs:53-56 | a length prefix above 262144 is refused before any payload byte is read, reporting the length cast to `int` |
| ServerRoundTrip.DecodeFrameTruncated | server/Protocol/FrameCodec.cs:143-153 | a missing prefix byte, payload byte or trailer byte gives `EndOfStreamException`; one junk byte after a frame makes the next decode fail so |
| ServerRoundTrip.DecodeFrameChecksumMismatch | server/Protocol/FrameCodec.cs:62-72 | a trailer that is not the payload's CRC-32 is refused with both checksums, whatever the payload holds |
| ServerFindings.DecodeFrameSizeWraps | server/Protocol/FrameCodec.cs:53-56 | as written, every length prefix of 2^31 or more is reported as a negative size |
| ServerFindings.DecodeFrameSizeExample | server/Protocol/FrameCodec.cs:55 | the prefix FF FF FF FF is reported as a frame of -1 bytes |
| ServerFindings.DecodeFrameCorrectedReportsLength | server/Protocol/FrameCodec.cs:53-56 | corrected, an oversize frame is reported with its length, always above the limit; other prefixes decode as written |
| ServerFindings.DecodeFrameCorrectedAt | server/Protocol/FrameCodec.cs:43-78 | the corrected decoder keeps the round trip |
| ServerFindings.ParseStringShortRead | server/Protocol/FrameCodec.cs:402-407 | as written, a string announced as 5 bytes with 2 left, or as 2^32 + 2 bytes, is read as those 2 bytes |
| ServerFindings.ParseStringExactConsumesLength | server/Protocol/FrameCodec.cs:402-407 | the corrected reader consumes exactly the 8 length bytes and the length they announce |
| ServerFindings.ParseStringExactRefuses | server/Protocol/FrameCodec.cs:405 | the corrected reader refuses both inputs above |
| ServerFindings.ParseStringExactAt | server/Protocol/FrameCodec.cs:395-407 | on what `WriteString` wrote, the corrected reader returns what the code as written returns |
| ServerFindings.DeserializeZstdFrame | server/Protocol/FrameCodec.cs:209-243 | `DeserializeMessage` refuses every zstd frame, whose magic puts 0x2F where the type byte is read |
| ServerFindings.EncodeCompressedUnreadable | server/Protocol/FrameCodec.cs:94-99 | as written, a compressed message that `Encode` frames with zstd is refused by `DecodeAsync` |
| ServerFindings.EncodeFrameCorrectedPlain | server/Protocol/FrameCodec.cs:91-117 | without compression, the corrected encoder produces the frame the code as written produces |
| ServerFindings.DeserializeCorrected | server/Protocol/FrameCodec.cs:209-255 | `DeserializeMessage` reads back the corrected serialisation, compressed or not |
| ServerFindings.EncodeFrameCorrectedRoundTrip | server/Protocol/FrameCodec.cs:91-117 | with the correction, every frame encoded decodes to its message, compressed or not, and is consumed exactly |
| Agreement.ToWireReadable | agent/src/protocol.rs:301-343 | the server's view of an agent message keeps its type and its UTF-8 strings |
| Agreement.BodiesAgree | server/Protocol/FrameCodec.cs:187-204 | for equal field values the server's serialised message is the agent's body when uncompressed, and the corrected serialisation is the agent's body always |
| Agreement.FramesAgree | server/Protocol/FrameCodec.cs:91-117 | both encoders refuse the same messages with the same size; otherwise the server's frame is the agent's frame followed by the body's CRC-32 |
| Agreement.ServerReadsAgentBody | server/Protocol/FrameCodec.cs:209-255 | `DeserializeMessage` reads back every body the agent encodes, compressed ones included |
| Agreement.AgentReadsServerFrame | agent/src/protocol.rs:378-391 | the agent decodes a server frame to its message but stops 4 bytes short, before the trailer |
| Agreement.ServerRejectsAgentFrame | server/Protocol/FrameCodec.cs:62-65 | the server refuses an agent frame with nothing after it with `EndOfStreamException`: the trailer is missing |
| Agreement.ServerReadsCheckedAgentFrame | server/Protocol/FrameCodec.cs:43-78 | an agent frame followed by the CRC-32 of its body is decoded by the server to the agent's message and consumed exactly |
| Agreement.TypeCheckOrder | agent/src/protocol.rs:402-404 | a body cut inside the envelope after a bad type byte is refused by the agent with that byte, by the server with `EndOfStreamException` |
| Agreement.TypeCheckOrderExample | agent/src/protocol.rs:402-404 | the body 1, 0, 99 is such a body |
| Agreement.OsByteChecks | server/Protocol/FrameCodec.cs:329 | an OS byte other than 1 or 2 is refused by the agent and kept as it is by the server |

## Left out

- Compression: zstd (`zstd::encode_all`/`decode_all`, ZstdSharp) is a foreign library; both directions are parameters. The agent's compressor is taken as total, so its `Compression` error on encoding is not modelled; the decompressor's failure is (`Compression`, `DecompressionException`). Nothing is stated about compressed sizes.
- CRC-32 is written out as IEEE 802.3 defines it, but nothing is proved about its values or its error detection; the proofs use it only as a function.
- Floating point: `f32`/`float` fields are carried as their 32 bit patterns; no float arithmetic happens in the codec.
- C# strings are modelled as their UTF-8 bytes. `Encoding.UTF8.GetBytes` of a string holding lone surrogates (which writes U+FFFD) is not modelled; every string written is a byte string, and `GetString` is modelled as lossy decoding.
- Stream I/O: `FrameCodec::write` and `WriteAsync` (write then flush), `CancellationToken`, `async` scheduling. The network stream is a byte sequence whose reads return any 1 to count bytes that have arrived.
- Allocation failure: Rust's `vec![0u8; len]` and `Vec::with_capacity(count)`, and C#'s `new List((int)count)` and the array of `(int)length` bytes that `BinaryReader.ReadBytes` allocates before reading (server/Protocol/FrameCodec.cs:405), can abort or throw `OutOfMemoryException` for a huge length or count even inside a small frame; the model reads on instead, failing at the end of the data or, for `ReadBytes`, returning the short read.
- ServerCodec.DeserializeMessage: requires data shorter than 2^31 bytes, the bound of a .NET array, which makes the `(int)(ms.Length - ms.Position)` cast exact.
- ServerRoundTrip.DecodeFrameAt, ServerRoundTrip.DecodeFrameThenRest, ServerRoundTrip.DecodeTwoFrames, ServerRoundTrip.EncodeThenDecode: stated for uncompressed messages only, because the server's compressed frames are not readable as written (finding C below); the corrected encoder's round trip covers compression.
- The exception messages and `ProtocolException` hierarchy; `GetHashCode`, `ToString`, `Equals(object)`.
- The `SerializationException` default arm of `WritePayload` and the `From<bincode::Error>` conversion: the payload datatype is closed, so neither is reachable in the model.
- The serde `Serialize`/`Deserialize` implementations of `MessageType` (agent/src/protocol.rs:76-96), which the frame codec does not use, and the unused `TARGET_FRAME_SIZE`/`TargetFrameSize` constants.
- The newer envelope and payload fields declared in `Messages.cs` and the demo files (16-byte id, `TimestampUtcMs`, `AgentId`, `Platform`, `ThrottleDelayMs`/`Reason`, memory totals), which neither codec reads or writes.
- The demo producer and consumer, the file storage writer and `lib.rs`: command-line glue, file I/O and re-exports.
- The cross-language test's file writing (agent/src/protocol.rs:984-999).

## Findings

| source | as written | input that shows it | evidently intended | confidence | as-written member | corrected member |
|---|---|---|---|---|---|---|
| server/Protocol/FrameCodec.cs:53-56 | the oversize report carries the length through an unchecked `(int)` cast | length prefix FF FF FF FF: reported size -1, below the limit it broke | report the length itself, which is above the limit | not executed | ServerFindings.DecodeFrameSizeWraps | ServerFindings.DecodeFrameCorrectedReportsLength |
| server/Protocol/FrameCodec.cs:402-407 | `ReadBytes((int)length)` returns fewer bytes at the end of the data without an exception, and the cast drops the high 32 bits of the length | length 5 then the bytes 61 62, or length 2^32 + 2 then 61 62: both read as "ab" | refuse a length the data does not hold (end of stream) or that does not fit an `int` | not executed | ServerFindings.ParseStringShortRead | ServerFindings.ParseStringExactRefuses |
| server/Protocol/FrameCodec.cs:94-99 | `Encode` compresses the whole serialised message, envelope included, while `DeserializeMessage` reads a plain envelope and decompresses only the rest | any message with the compressed flag: zstd output starts 28 B5 2F FD, so 0x2F is read as the type byte | a plain envelope followed by the compressed payload, as the agent writes | not executed | ServerFindings.EncodeCompressedUnreadable | ServerFindings.EncodeFrameCorrectedRoundTrip |
| agent/src/protocol.rs:361-364 | the agent's frame ends with its body, while the server's `DecodeAsync` then reads a 4-byte CRC-32 trailer (server/Protocol/FrameCodec.cs:62-65) and the server's cross-language test expects it to decode the agent's snapshot frame | the agent frame of any message with nothing after it: `EndOfStreamException` | the agent appends the little-endian CRC-32 of its body | not executed | Agreement.ServerRejectsAgentFrame | Agreement.ServerReadsCheckedAgentFrame |
