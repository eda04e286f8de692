/** Authority bits and the sets of them carried by tasks, callers and handles. */
module Capabilities {
  import opened Machine
  import opened Errors
  import opened Bits

  type TaskId = u64

  datatype Capability =
    | TaskSpawn
    | TaskManage
    | MemoryMap
    | MemoryShare
    | DeviceList
    | DeviceOpen
    | DeviceCall
    | CognitionInfer
    | CognitionMemory
    | SecurityManage
    | AuditAppend
    | AuditQuery
    | AuditVerify
    | DebugTrace
    | KernelMaintenance
  {
    /** The bit position of this capability. */
    function Position(): (k: nat)
      ensures k < 15
    {
      match this
      case TaskSpawn => 0
      case TaskManage => 1
      case MemoryMap => 2
      case MemoryShare => 3
      case DeviceList => 4
      case DeviceOpen => 5
      case DeviceCall => 6
      case CognitionInfer => 7
      case CognitionMemory => 8
      case SecurityManage => 9
      case AuditAppend => 10
      case AuditQuery => 11
      case AuditVerify => 12
      case DebugTrace => 13
      case KernelMaintenance => 14
    }

    function Bit(): nat {
      Pow2(Position())
    }
  }

  /** The union of the bits of all fifteen capabilities. */
  const KNOWN_CAPABILITY_BITS: nat := 0x7fff

  datatype CapabilitySet = CapabilitySet(bits: u64) {
    predicate Known() {
      BitAnd(bits, BitNot(KNOWN_CAPABILITY_BITS, 64)) == 0
    }

    predicate Contains(c: Capability) {
      BitAnd(bits, c.Bit()) != 0
    }

    predicate ContainsAll(required: CapabilitySet) {
      BitAnd(bits, required.bits) == required.bits
    }

    function Derive(requested: CapabilitySet): Result<CapabilitySet> {
      if ContainsAll(requested) then Success(requested) else Failure(MissingCapability)
    }

    function Require(c: Capability): Result<()> {
      if Contains(c) then Success(()) else Failure(MissingCapability)
    }
  }

  /** Every capability of the first set is one of the second's. */
  ghost predicate NoMoreThan(a: CapabilitySet, b: CapabilitySet) {
    forall c: Capability :: a.Contains(c) ==> b.Contains(c)
  }

  const EMPTY_SET := CapabilitySet(0)

  function FromBits(bits: u64): Result<CapabilitySet> {
    if CapabilitySet(bits).Known() then Success(CapabilitySet(bits)) else Failure(ReservedBits)
  }

  /** `contains` tests exactly the bit of the capability. */
  lemma ContainsTestsItsBit(s: CapabilitySet, c: Capability)
    ensures s.Contains(c) <==> TestBit(s.bits, c.Position())
  {
    OneBitMask(s.bits, c.Position());
  }

  /** A set is known exactly when none of its bits lies past the fifteen defined ones. */
  lemma KnownIsLowBits(s: CapabilitySet)
    ensures s.Known() <==> s.bits < 0x8000
  {
    Pow2Values();
    ReservedBitsMask(s.bits, 15, 64);
  }

  /** A contained set has no authority that its container lacks. */
  lemma ContainedAddsNoAuthority(a: CapabilitySet, c: CapabilitySet, x: Capability)
    requires a.ContainsAll(c) && c.Contains(x)
    ensures a.Contains(x)
  {
    MaskContained(a.bits, c.bits);
    ContainsTestsItsBit(a, x);
    ContainsTestsItsBit(c, x);
  }

  /** A set contained in a set of known bits has known bits only. */
  lemma ContainedStaysKnown(a: CapabilitySet, c: CapabilitySet)
    requires a.ContainsAll(c) && a.Known()
    ensures c.Known()
  {
    MaskContained(a.bits, c.bits);
    var mask := BitNot(KNOWN_CAPABILITY_BITS, 64);
    MaskDisjoint(a.bits, mask);
    MaskDisjoint(c.bits, mask);
  }

  lemma ContainmentIsTransitive(a: CapabilitySet, b: CapabilitySet, c: CapabilitySet)
    requires a.ContainsAll(b) && b.ContainsAll(c)
    ensures a.ContainsAll(c)
  {
    MaskContained(a.bits, b.bits);
    MaskContained(b.bits, c.bits);
    MaskContained(a.bits, c.bits);
  }

  lemma ContainmentIsReflexive(a: CapabilitySet)
    ensures a.ContainsAll(a)
  {
    MaskContained(a.bits, a.bits);
  }

  /** The bit of each capability, as the source numbers them. */
  lemma CapabilityBits(c: Capability)
    ensures c.Bit() == match c
                       case TaskSpawn => 0x1 case TaskManage => 0x2 case MemoryMap => 0x4 case MemoryShare => 0x8
                       case DeviceList => 0x10 case DeviceOpen => 0x20 case DeviceCall => 0x40
                       case CognitionInfer => 0x80 case CognitionMemory => 0x100
                       case SecurityManage => 0x200
                       case AuditAppend => 0x400 case AuditQuery => 0x800 case AuditVerify => 0x1000
                       case DebugTrace => 0x2000 case KernelMaintenance => 0x4000
  {
    Pow2Values();
    LowPowers();
  }

  lemma LowPowers()
    ensures Pow2(0) == 1 && Pow2(1) == 2 && Pow2(2) == 4 && Pow2(3) == 8 && Pow2(4) == 0x10 && Pow2(5) == 0x20
    ensures Pow2(6) == 0x40 && Pow2(7) == 0x80 && Pow2(8) == 0x100 && Pow2(9) == 0x200 && Pow2(10) == 0x400
    ensures Pow2(11) == 0x800 && Pow2(12) == 0x1000 && Pow2(13) == 0x2000 && Pow2(14) == 0x4000
  {
  }
}
