/**
 * The version and capability rules, which the agent (`is_compatible_with`,
 * `supports_*`) and the server (`IsCompatibleWith`, `Supports*`) state identically and
 * which Protocol defines once: compatibility is a preorder whose two-way case is
 * equality, and each capability predicate tests its own bit and nothing else.
 */
module ProtocolLaws {
  import opened Bytes
  import opened Protocol

  /** Every version reads itself; in particular the current one, 1.0. */
  lemma CompatibleReflexive(v: ProtocolVersion)
    ensures IsCompatibleWith(v, v)
    ensures CURRENT == ProtocolVersion(1, 0)
  {
  }

  /** A newer minor reads an older one, not the other way round; a different major reads nothing. */
  lemma CompatibleExamples()
    ensures IsCompatibleWith(ProtocolVersion(1, 1), ProtocolVersion(1, 0))
    ensures !IsCompatibleWith(ProtocolVersion(1, 0), ProtocolVersion(1, 1))
    ensures !IsCompatibleWith(ProtocolVersion(1, 0), ProtocolVersion(2, 0))
    ensures !IsCompatibleWith(ProtocolVersion(2, 0), ProtocolVersion(1, 0))
  {
  }

  lemma CompatibleTransitive(a: ProtocolVersion, b: ProtocolVersion, c: ProtocolVersion)
    requires IsCompatibleWith(a, b) && IsCompatibleWith(b, c)
    ensures IsCompatibleWith(a, c)
  {
  }

  /** Two versions read each other exactly when they are the same version. */
  lemma CompatibleBothWays(a: ProtocolVersion, b: ProtocolVersion)
    ensures IsCompatibleWith(a, b) && IsCompatibleWith(b, a) <==> a == b
  {
  }

  /** All-process mode is bit 0 of the capabilities, compression bit 1. */
  lemma CapabilityBits(c: u32)
    ensures SupportsAllProcess(c) <==> c % 2 == 1
    ensures SupportsCompression(c) <==> (c / 2) % 2 == 1
  {
  }

  /** The capability word with the two named bits given and any other bits above them. */
  function Capabilities(allProcess: bool, compression: bool, others: nat): u32
    requires others < 0x4000_0000
  {
    others * 4 + (if compression then CAP_COMPRESSION else 0) + (if allProcess then CAP_ALL_PROCESS else 0)
  }

  /** Each predicate reads its own bit only: neither the other named bit nor the rest matters. */
  lemma {:induction false} CapabilitiesIndependent(allProcess: bool, compression: bool, others: nat)
    requires others < 0x4000_0000
    ensures SupportsAllProcess(Capabilities(allProcess, compression, others)) == allProcess
    ensures SupportsCompression(Capabilities(allProcess, compression, others)) == compression
  {
    var c := Capabilities(allProcess, compression, others);
    var low := (if compression then 2 else 0) + (if allProcess then 1 else 0);
    assert c == others * 4 + low;
    assert c % 2 == low % 2 by {
      assert c == 2 * (others * 2) + low;
    }
    assert c / 2 == others * 2 + low / 2 by {
      assert c == 2 * (others * 2 + low / 2) + low % 2;
    }
    assert (c / 2) % 2 == low / 2;
    CapabilityBits(c);
  }

  /** Only the all-process bit, only the compression bit, both, neither. */
  lemma CapabilityExamples()
    ensures SupportsAllProcess(CAP_ALL_PROCESS) && !SupportsCompression(CAP_ALL_PROCESS)
    ensures !SupportsAllProcess(CAP_COMPRESSION) && SupportsCompression(CAP_COMPRESSION)
    ensures SupportsAllProcess(CAP_ALL_PROCESS + CAP_COMPRESSION) && SupportsCompression(CAP_ALL_PROCESS + CAP_COMPRESSION)
    ensures !SupportsAllProcess(0) && !SupportsCompression(0)
  {
    CapabilityBits(CAP_ALL_PROCESS);
    CapabilityBits(CAP_COMPRESSION);
    CapabilityBits(CAP_ALL_PROCESS + CAP_COMPRESSION);
    CapabilityBits(0);
  }

  /** The seven message types have the distinct discriminants 1..7, the two OS types 1 and 2. */
  lemma Discriminants(t: MessageType, u: MessageType)
    ensures MessageTypeToU8(t) == MessageTypeToU8(u) ==> t == u
    ensures OsTypeToU8(Windows) == 1 && OsTypeToU8(Linux) == 2
  {
  }
}
