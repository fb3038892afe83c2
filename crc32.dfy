/**
 * CRC-32 as IEEE 802.3 defines it (reflected polynomial 0xEDB88320, initial value and
 * final xor 0xFFFFFFFF), the checksum the server computes with `Crc32Algorithm.Compute`.
 * The codec only compares checksums; no property of the polynomial arithmetic is needed.
 */
module Checksum {
  import opened Bytes

  /** One shift of the bitwise CRC register, xoring in the polynomial when a one falls out. */
  function ShiftBits(c: bv32, k: nat): bv32
    decreases k
  {
    if k == 0 then c
    else ShiftBits(if c & 1 == 1 then (c >> 1) ^ 0xEDB8_8320 else c >> 1, k - 1)
  }

  /** The register after feeding the bytes of data, least significant bit first. */
  function Update(c: bv32, data: seq<u8>): bv32
    decreases |data|
  {
    if data == [] then c else Update(ShiftBits(c ^ (data[0] as bv32), 8), data[1..])
  }

  /** The CRC-32 of data, as an unsigned 32-bit value. */
  function Crc32(data: seq<u8>): u32 {
    (Update(0xFFFF_FFFF, data) ^ 0xFFFF_FFFF) as int
  }
}
