/**
 * The parts of the server's message definitions that the agent does not share: the
 * equality operators of `ProtocolVersion` and the exceptions the server's frame codec
 * throws. The message shapes themselves are those of Protocol, read with a raw OS byte
 * (`Message<u8>`), since the server's `OsType` is a byte enum that holds any value.
 */
module ServerMessages {
  import opened Bytes
  import opened Protocol

  /** A message as the server holds it: the handshake OS type is whatever byte arrived. */
  type ServerMessage = Message<u8>

  /** `ProtocolVersion.Equals`: the two fields compared one by one. */
  predicate VersionEquals(self: ProtocolVersion, other: ProtocolVersion)
    ensures VersionEquals(self, other) <==> self == other
  {
    self.major == other.major && self.minor == other.minor
  }

  /** `operator ==`, which calls `Equals`. */
  predicate VersionOpEquals(left: ProtocolVersion, right: ProtocolVersion)
    ensures VersionOpEquals(left, right) <==> left == right
  {
    VersionEquals(left, right)
  }

  /** `operator !=`, the negation of `Equals`. */
  predicate VersionOpNotEquals(left: ProtocolVersion, right: ProtocolVersion)
    ensures VersionOpNotEquals(left, right) <==> left != right
    ensures VersionOpNotEquals(left, right) <==> !VersionOpEquals(left, right)
  {
    !VersionEquals(left, right)
  }

  /**
   * What the server's codec throws. Each exception keeps the values it was built with:
   * the offending size and the maximum, the expected and computed checksums, the
   * offending type byte. `ArgumentOutOfRangeException` is what `BinaryReader.ReadBytes`
   * and the `List` constructor throw for a negative count; `DecompressionException`
   * stands for whatever ZstdSharp throws on an invalid compressed stream.
   */
  datatype ServerError =
    | EndOfStreamException
    | FrameTooLargeException(size: int, maxSize: int)
    | Crc32MismatchException(expected: u32, actual: u32)
    | InvalidMessageTypeException(value: u8)
    | ArgumentOutOfRangeException
    | DecompressionException
}
