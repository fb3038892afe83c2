/** Fixed-width integers and their little- and big-endian byte encodings. */
module Bytes {

  type u8 = x: int | 0 <= x < 0x100
  type u32 = x: int | 0 <= x < 0x1_0000_0000
  type u64 = x: int | 0 <= x < 0x1_0000_0000_0000_0000
  type i64 = x: int | -0x8000_0000_0000_0000 <= x < 0x8000_0000_0000_0000

  /** 256 to the power n: the number of values n bytes can hold. */
  function Pow256(n: nat): (r: nat)
    ensures r > 0
  {
    if n == 0 then 1 else 256 * Pow256(n - 1)
  }

  /** Regrouping of appended byte strings, stated once so that writers need not re-derive it. */
  lemma AppendAssoc(a: seq<u8>, b: seq<u8>, c: seq<u8>)
    ensures a + b + c == a + (b + c)
  {
  }

  // Each encoding below is split into its empty and non-empty cases, the non-empty case
  // in a function of its own: the solver then opens an encoding only where a proof
  // mentions that case, not wherever a byte string is merely carried along.

  /** `to_le_bytes` / BinaryWriter.Write: least significant byte first. */
  function LeBytes(x: nat, n: nat): (r: seq<u8>)
    ensures |r| == n
    decreases n, 1
  {
    if n == 0 then [] else LeBytesNonEmpty(x, n)
  }

  function LeBytesNonEmpty(x: nat, n: nat): (r: seq<u8>)
    requires n > 0
    ensures |r| == n
    decreases n, 0
  {
    [x % 256] + LeBytes(x / 256, n - 1)
  }

  /** `from_le_bytes` / BinaryReader.ReadUInt*: the value of a little-endian byte string. */
  function LeValue(s: seq<u8>): (r: nat)
    ensures r < Pow256(|s|)
    decreases |s|, 1
  {
    if s == [] then 0 else LeValueNonEmpty(s)
  }

  function LeValueNonEmpty(s: seq<u8>): (r: nat)
    requires s != []
    ensures r < Pow256(|s|)
    decreases |s|, 0
  {
    s[0] + 256 * LeValue(s[1..])
  }

  /** `to_be_bytes` / BinaryPrimitives.WriteUInt32BigEndian: most significant byte first. */
  function BeBytes(x: nat, n: nat): (r: seq<u8>)
    ensures |r| == n
    decreases n, 1
  {
    if n == 0 then [] else BeBytesNonEmpty(x, n)
  }

  function BeBytesNonEmpty(x: nat, n: nat): (r: seq<u8>)
    requires n > 0
    ensures |r| == n
    decreases n, 0
  {
    BeBytes(x / 256, n - 1) + [x % 256]
  }

  /** `from_be_bytes` / BinaryPrimitives.ReadUInt32BigEndian. */
  function BeValue(s: seq<u8>): (r: nat)
    ensures r < Pow256(|s|)
    decreases |s|, 1
  {
    if s == [] then 0 else BeValueNonEmpty(s)
  }

  function BeValueNonEmpty(s: seq<u8>): (r: nat)
    requires s != []
    ensures r < Pow256(|s|)
    decreases |s|, 0
  {
    256 * BeValue(s[..|s| - 1]) + s[|s| - 1]
  }

  lemma {:induction false} LeValueOfLeBytes(x: nat, n: nat)
    requires x < Pow256(n)
    ensures LeValue(LeBytes(x, n)) == x
  {
    if n > 0 {
      var s := LeBytes(x, n);
      assert s == LeBytesNonEmpty(x, n);
      assert s[1..] == LeBytes(x / 256, n - 1);
      LeValueOfLeBytes(x / 256, n - 1);
      assert LeValue(s) == LeValueNonEmpty(s);
    }
  }

  lemma {:induction false} LeBytesOfLeValue(s: seq<u8>)
    ensures LeBytes(LeValue(s), |s|) == s
  {
    if s != [] {
      LeBytesOfLeValue(s[1..]);
      assert LeValue(s) == LeValueNonEmpty(s);
      assert LeValue(s) / 256 == LeValue(s[1..]);
      assert LeBytes(LeValue(s), |s|) == LeBytesNonEmpty(LeValue(s), |s|);
    }
  }

  lemma {:induction false} BeValueOfBeBytes(x: nat, n: nat)
    requires x < Pow256(n)
    ensures BeValue(BeBytes(x, n)) == x
  {
    if n > 0 {
      var s := BeBytes(x, n);
      assert s == BeBytesNonEmpty(x, n);
      assert s[..n - 1] == BeBytes(x / 256, n - 1);
      BeValueOfBeBytes(x / 256, n - 1);
      assert BeValue(s) == BeValueNonEmpty(s);
    }
  }

  lemma {:induction false} BeBytesOfBeValue(s: seq<u8>)
    ensures BeBytes(BeValue(s), |s|) == s
  {
    if s != [] {
      BeBytesOfBeValue(s[..|s| - 1]);
      assert BeValue(s) == BeValueNonEmpty(s);
      assert BeValue(s) / 256 == BeValue(s[..|s| - 1]);
      assert BeBytes(BeValue(s), |s|) == BeBytesNonEmpty(BeValue(s), |s|);
    }
  }

  /** Two's complement bit pattern of a signed 64-bit integer (`i64::to_le_bytes`, BinaryWriter.Write(long)). */
  function I64Bits(x: i64): (r: u64)
    ensures r < 0x8000_0000_0000_0000 <==> x >= 0
  {
    if x < 0 then x + 0x1_0000_0000_0000_0000 else x
  }

  /** The signed reading of a 64-bit pattern (`i64::from_le_bytes`, BinaryReader.ReadInt64). */
  function I64OfBits(b: u64): (r: i64)
    ensures I64Bits(r) == b
  {
    if b >= 0x8000_0000_0000_0000 then b - 0x1_0000_0000_0000_0000 else b
  }

  lemma I64OfBitsOfI64(x: i64)
    ensures I64OfBits(I64Bits(x)) == x
  {
  }

  /** C#'s unchecked `(int)` conversion: the low 32 bits read as a signed integer. */
  function UncheckedInt32(x: nat): (r: int)
    ensures -0x8000_0000 <= r < 0x8000_0000
    ensures (r - x) % 0x1_0000_0000 == 0
  {
    var low := x % 0x1_0000_0000;
    if low >= 0x8000_0000 then low - 0x1_0000_0000 else low
  }
}
