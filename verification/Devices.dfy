/** The device registry as a value that syscalls consult and never change. */
module Devices {
  import opened Machine
  import opened Errors
  import opened Bits
  import opened Capabilities

  const OPERATION_COUNT := 7

  datatype DeviceClass =
    Console | Timer | Block | Entropy | NetworkSim | SensorSim | Accelerator | CognitiveMemory | AuditStorage
  {
    function Index(): nat {
      match this
      case Console => 0 case Timer => 1 case Block => 2 case Entropy => 3 case NetworkSim => 4
      case SensorSim => 5 case Accelerator => 6 case CognitiveMemory => 7 case AuditStorage => 8
    }
  }

  datatype DeviceLifecycle = Discovered | Probed | Registered | Configured | Open | Suspended | Removed

  datatype DeviceDescriptor = DeviceDescriptor(
    id: u64,
    deviceClass: DeviceClass,
    lifecycle: DeviceLifecycle,
    requiredCapabilities: CapabilitySet,
    supportedOperations: u32,
    maxInputLen: u32,
    maxOutputLen: u32)
  {
    predicate Supports(operation: nat) {
      BitAnd(supportedOperations, Pow2(operation)) != 0
    }

    predicate IsAvailable() {
      lifecycle.Registered? || lifecycle.Configured? || lifecycle.Open?
    }
  }

  /** The registered devices, in slot order. */
  type DeviceTable = t: seq<DeviceDescriptor> | |t| <= 32

  function Get(table: seq<DeviceDescriptor>, id: u64): Option<DeviceDescriptor> {
    if table == [] then None else if table[0].id == id then Some(table[0]) else Get(table[1..], id)
  }

  function AuthorizeOpen(table: DeviceTable, id: u64, caller: CapabilitySet): Result<DeviceDescriptor> {
    var _ :- caller.Require(DeviceOpen);
    match Get(table, id)
    case None => Failure(NotFound)
    case Some(d) =>
      if !d.IsAvailable() then Failure(Busy)
      else if !caller.ContainsAll(d.requiredCapabilities) then Failure(MissingCapability)
      else Success(d)
  }

  function AuthorizeCall(
    table: DeviceTable, id: u64, operation: nat, caller: CapabilitySet, inputLen: u64, outputLen: u64)
    : Result<DeviceDescriptor>
  {
    var _ :- caller.Require(DeviceCall);
    match Get(table, id)
    case None => Failure(NotFound)
    case Some(d) =>
      if !d.IsAvailable() then Failure(Busy)
      else if !d.Supports(operation) then Failure(InvalidArgument)
      else if !caller.ContainsAll(d.requiredCapabilities) then Failure(MissingCapability)
      else if inputLen > d.maxInputLen || outputLen > d.maxOutputLen then Failure(BufferTooLarge)
      else Success(d)
  }

  /** The lookup finds the first device with the identifier, and none only if none has it. */
  lemma {:induction false} GetIsFirst(table: seq<DeviceDescriptor>, id: u64) returns (i: nat)
    ensures i <= |table| && forall j | 0 <= j < i :: table[j].id != id
    ensures i < |table| ==> table[i].id == id
    ensures Get(table, id) == if i < |table| then Some(table[i]) else None
  {
    if table == [] || table[0].id == id {
      i := 0;
    } else {
      var k := GetIsFirst(table[1..], id);
      i := k + 1;
      forall j | 0 <= j < i ensures table[j].id != id {
        if j > 0 { assert table[j] == table[1..][j - 1]; }
      }
    }
  }

  /** Whether a task may use a device now: it is registered, configured or open. */
  ghost predicate Usable(d: DeviceDescriptor) {
    d.lifecycle.Registered? || d.lifecycle.Configured? || d.lifecycle.Open?
  }

  /** Every capability bit that the device requires is one of the caller's. */
  ghost predicate Trusted(d: DeviceDescriptor, caller: CapabilitySet) {
    forall k: nat :: TestBit(d.requiredCapabilities.bits, k) ==> TestBit(caller.bits, k)
  }

  /** Opening by a holder of DeviceOpen succeeds exactly for the first device of that identifier,
      if it is usable and its requirements are met. */
  lemma OpenIsExact(table: DeviceTable, id: u64, caller: CapabilitySet) returns (i: nat)
    requires caller.Contains(DeviceOpen)
    ensures i <= |table| && (forall j | 0 <= j < i :: table[j].id != id) && (i < |table| ==> table[i].id == id)
    ensures AuthorizeOpen(table, id, caller)
            == if i == |table| then Failure(NotFound)
               else if !Usable(table[i]) then Failure(Busy)
               else if !Trusted(table[i], caller) then Failure(MissingCapability)
               else Success(table[i])
  {
    i := GetIsFirst(table, id);
    if i < |table| { MaskContained(caller.bits, table[i].requiredCapabilities.bits); }
  }

  /** A call by a holder of DeviceCall succeeds exactly if moreover the device supports the
      operation and neither buffer is longer than it takes. */
  lemma CallIsExact(
    table: DeviceTable, id: u64, operation: nat, caller: CapabilitySet, inputLen: u64, outputLen: u64)
    returns (i: nat)
    requires caller.Contains(DeviceCall)
    ensures i <= |table| && (forall j | 0 <= j < i :: table[j].id != id) && (i < |table| ==> table[i].id == id)
    ensures AuthorizeCall(table, id, operation, caller, inputLen, outputLen)
            == if i == |table| then Failure(NotFound)
               else if !Usable(table[i]) then Failure(Busy)
               else if !TestBit(table[i].supportedOperations, operation) then Failure(InvalidArgument)
               else if !Trusted(table[i], caller) then Failure(MissingCapability)
               else if inputLen > table[i].maxInputLen || outputLen > table[i].maxOutputLen then Failure(BufferTooLarge)
               else Success(table[i])
  {
    i := GetIsFirst(table, id);
    if i < |table| {
      MaskContained(caller.bits, table[i].requiredCapabilities.bits);
      OneBitMask(table[i].supportedOperations, operation);
    }
  }
}
