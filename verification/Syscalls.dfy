/** The syscall table and the validation every call passes before it reaches a subsystem. */
module Syscalls {
  import opened Machine
  import opened Errors
  import opened Capabilities
  import Abi

  datatype SyscallNumber =
    | SysInfo | SysYield | SysExit | SysTime | SysTraceContext
    | SysTaskSpawn | SysTaskJoin | SysTaskCancel | SysTaskStatus
    | SysMemMap | SysMemUnmap | SysMemQuery | SysMemShare | SysMemSeal
    | SysDeviceList | SysDeviceOpen | SysDeviceCall | SysDeviceClose
    | SysModelList | SysModelOpen | SysInfer | SysMemoryQuery | SysMemoryPut
    | SysCapDerive | SysCapRevoke | SysAttest | SysRandom
    | SysAuditAppend | SysAuditQuery | SysAuditVerify

  function FromRaw(raw: u64): Option<SyscallNumber> {
    match raw
    case 0x0000 => Some(SysInfo) case 0x0001 => Some(SysYield) case 0x0002 => Some(SysExit)
    case 0x0003 => Some(SysTime) case 0x0004 => Some(SysTraceContext)
    case 0x0100 => Some(SysTaskSpawn) case 0x0101 => Some(SysTaskJoin)
    case 0x0102 => Some(SysTaskCancel) case 0x0103 => Some(SysTaskStatus)
    case 0x0200 => Some(SysMemMap) case 0x0201 => Some(SysMemUnmap) case 0x0202 => Some(SysMemQuery)
    case 0x0203 => Some(SysMemShare) case 0x0204 => Some(SysMemSeal)
    case 0x0300 => Some(SysDeviceList) case 0x0301 => Some(SysDeviceOpen)
    case 0x0302 => Some(SysDeviceCall) case 0x0303 => Some(SysDeviceClose)
    case 0x0400 => Some(SysModelList) case 0x0401 => Some(SysModelOpen) case 0x0402 => Some(SysInfer)
    case 0x0403 => Some(SysMemoryQuery) case 0x0404 => Some(SysMemoryPut)
    case 0x0500 => Some(SysCapDerive) case 0x0501 => Some(SysCapRevoke)
    case 0x0502 => Some(SysAttest) case 0x0503 => Some(SysRandom)
    case 0x0600 => Some(SysAuditAppend) case 0x0601 => Some(SysAuditQuery) case 0x0602 => Some(SysAuditVerify)
    case _ => None
  }

  /** The number under which a call is made. */
  function ToRaw(n: SyscallNumber): u64 {
    match n
    case SysInfo => 0x0000 case SysYield => 0x0001 case SysExit => 0x0002
    case SysTime => 0x0003 case SysTraceContext => 0x0004
    case SysTaskSpawn => 0x0100 case SysTaskJoin => 0x0101
    case SysTaskCancel => 0x0102 case SysTaskStatus => 0x0103
    case SysMemMap => 0x0200 case SysMemUnmap => 0x0201 case SysMemQuery => 0x0202
    case SysMemShare => 0x0203 case SysMemSeal => 0x0204
    case SysDeviceList => 0x0300 case SysDeviceOpen => 0x0301
    case SysDeviceCall => 0x0302 case SysDeviceClose => 0x0303
    case SysModelList => 0x0400 case SysModelOpen => 0x0401 case SysInfer => 0x0402
    case SysMemoryQuery => 0x0403 case SysMemoryPut => 0x0404
    case SysCapDerive => 0x0500 case SysCapRevoke => 0x0501
    case SysAttest => 0x0502 case SysRandom => 0x0503
    case SysAuditAppend => 0x0600 case SysAuditQuery => 0x0601 case SysAuditVerify => 0x0602
  }

  /** Decoding undoes encoding, and nothing else decodes. */
  lemma NumbersRoundTrip(n: SyscallNumber, raw: u64)
    ensures FromRaw(ToRaw(n)) == Some(n)
    ensures FromRaw(raw) == Some(n) <==> raw == ToRaw(n)
  {
  }

  datatype AuditEventKind =
    | TaskSpawned | TaskStateChanged | MemoryMapped | MemoryShared | DeviceOpened | DeviceCalled
    | CognitionInferred | CognitiveMemory | CapabilityChanged | SecurityDecision
    | AuditAppended | AuditQueried | AuditVerified | FaultEmitted

  datatype ExecutionContext = EarlyBoot | InTask | Interrupt

  datatype TraceContext = TraceContext(traceId: u64, spanId: u64, parentSpanId: u64, flags: u32, reserved: u32)

  type Arguments = a: seq<u64> | |a| == 6 witness [0, 0, 0, 0, 0, 0]

  datatype SyscallFrame = SyscallFrame(number: u64, args: Arguments, trace: TraceContext)

  datatype DispatchContext = DispatchContext(taskId: TaskId, capabilities: CapabilitySet, execution: ExecutionContext)

  datatype SyscallResult = SyscallResult(status: Abi.KernelStatus, value: u64, detail: u64)

  function OkResult(value: u64, detail: u64): SyscallResult {
    SyscallResult(Abi.Ok, value, detail)
  }

  function ErrorResult(error: KernelError): SyscallResult {
    SyscallResult(error.Status(), 0, 0)
  }

  datatype SyscallDescriptor = SyscallDescriptor(
    number: SyscallNumber,
    required: Option<Capability>,
    audit: Option<AuditEventKind>,
    earlyBootSafe: bool,
    interruptSafe: bool)
  {
    predicate AllowsContext(execution: ExecutionContext) {
      match execution
      case EarlyBoot => earlyBootSafe
      case Interrupt => interruptSafe
      case InTask => true
    }
  }

  /** The table entry of a call. */
  function Entry(n: SyscallNumber): SyscallDescriptor {
    match n
    case SysInfo => SyscallDescriptor(n, None, None, true, true)
    case SysYield => SyscallDescriptor(n, None, None, false, false)
    case SysExit => SyscallDescriptor(n, None, Some(TaskStateChanged), false, false)
    case SysTime => SyscallDescriptor(n, None, None, true, true)
    case SysTraceContext => SyscallDescriptor(n, None, None, true, true)
    case SysTaskSpawn => SyscallDescriptor(n, Some(TaskSpawn), Some(TaskSpawned), false, false)
    case SysTaskJoin => SyscallDescriptor(n, Some(TaskManage), Some(TaskStateChanged), false, false)
    case SysTaskCancel => SyscallDescriptor(n, Some(TaskManage), Some(TaskStateChanged), false, false)
    case SysTaskStatus => SyscallDescriptor(n, Some(TaskManage), None, false, false)
    case SysMemMap => SyscallDescriptor(n, Some(MemoryMap), Some(MemoryMapped), false, false)
    case SysMemUnmap => SyscallDescriptor(n, Some(MemoryMap), Some(MemoryMapped), false, false)
    case SysMemQuery => SyscallDescriptor(n, None, None, false, false)
    case SysMemShare => SyscallDescriptor(n, Some(MemoryShare), Some(MemoryShared), false, false)
    case SysMemSeal => SyscallDescriptor(n, Some(MemoryShare), Some(MemoryShared), false, false)
    case SysDeviceList => SyscallDescriptor(n, Some(DeviceList), None, false, false)
    case SysDeviceOpen => SyscallDescriptor(n, Some(DeviceOpen), Some(DeviceOpened), false, false)
    case SysDeviceCall => SyscallDescriptor(n, Some(DeviceCall), Some(DeviceCalled), false, false)
    case SysDeviceClose => SyscallDescriptor(n, Some(DeviceCall), Some(DeviceCalled), false, false)
    case SysModelList => SyscallDescriptor(n, None, None, false, false)
    case SysModelOpen => SyscallDescriptor(n, Some(CognitionInfer), Some(CognitionInferred), false, false)
    case SysInfer => SyscallDescriptor(n, Some(CognitionInfer), Some(CognitionInferred), false, false)
    case SysMemoryQuery => SyscallDescriptor(n, Some(CognitionMemory), Some(CognitiveMemory), false, false)
    case SysMemoryPut => SyscallDescriptor(n, Some(CognitionMemory), Some(CognitiveMemory), false, false)
    case SysCapDerive => SyscallDescriptor(n, Some(SecurityManage), Some(CapabilityChanged), false, false)
    case SysCapRevoke => SyscallDescriptor(n, Some(SecurityManage), Some(CapabilityChanged), false, false)
    case SysAttest => SyscallDescriptor(n, Some(SecurityManage), Some(SecurityDecision), false, false)
    case SysRandom => SyscallDescriptor(n, None, None, false, false)
    case SysAuditAppend => SyscallDescriptor(n, Some(AuditAppend), Some(AuditAppended), false, false)
    case SysAuditQuery => SyscallDescriptor(n, Some(AuditQuery), Some(AuditQueried), false, false)
    case SysAuditVerify => SyscallDescriptor(n, Some(AuditVerify), Some(AuditVerified), false, false)
  }

  /** Which authority each call needs, capability by capability; a call listed under none of
      them needs none. */
  lemma RequiredCapabilities(n: SyscallNumber)
    ensures Entry(n).required == Some(TaskSpawn) <==> n.SysTaskSpawn?
    ensures Entry(n).required == Some(TaskManage) <==> n.SysTaskJoin? || n.SysTaskCancel? || n.SysTaskStatus?
    ensures Entry(n).required == Some(MemoryMap) <==> n.SysMemMap? || n.SysMemUnmap?
    ensures Entry(n).required == Some(MemoryShare) <==> n.SysMemShare? || n.SysMemSeal?
    ensures Entry(n).required == Some(DeviceList) <==> n.SysDeviceList?
    ensures Entry(n).required == Some(DeviceOpen) <==> n.SysDeviceOpen?
    ensures Entry(n).required == Some(DeviceCall) <==> n.SysDeviceCall? || n.SysDeviceClose?
    ensures Entry(n).required == Some(CognitionInfer) <==> n.SysModelOpen? || n.SysInfer?
    ensures Entry(n).required == Some(CognitionMemory) <==> n.SysMemoryQuery? || n.SysMemoryPut?
    ensures Entry(n).required == Some(SecurityManage) <==> n.SysCapDerive? || n.SysCapRevoke? || n.SysAttest?
    ensures Entry(n).required == Some(AuditAppend) <==> n.SysAuditAppend?
    ensures Entry(n).required == Some(AuditQuery) <==> n.SysAuditQuery?
    ensures Entry(n).required == Some(AuditVerify) <==> n.SysAuditVerify?
    ensures Entry(n).required != Some(DebugTrace) && Entry(n).required != Some(KernelMaintenance)
  {
  }

  /** Exactly the information, time and trace calls may be made during boot or from an interrupt. */
  lemma SafeContexts(n: SyscallNumber, execution: ExecutionContext)
    ensures Entry(n).AllowsContext(execution) <==>
              execution.InTask? || n.SysInfo? || n.SysTime? || n.SysTraceContext?
  {
  }

  /** What each audited call is audited as. Every call that needs a capability is audited, but for
      the task status and the device list; of the others only the exit is. */
  lemma AuditedCalls(n: SyscallNumber)
    ensures Entry(n).audit.Some? <==>
              n.SysExit? || (Entry(n).required.Some? && !n.SysTaskStatus? && !n.SysDeviceList?)
    ensures Entry(n).audit == Some(TaskSpawned) <==> n.SysTaskSpawn?
    ensures Entry(n).audit == Some(TaskStateChanged) <==> n.SysExit? || n.SysTaskJoin? || n.SysTaskCancel?
    ensures Entry(n).audit == Some(MemoryMapped) <==> n.SysMemMap? || n.SysMemUnmap?
    ensures Entry(n).audit == Some(MemoryShared) <==> n.SysMemShare? || n.SysMemSeal?
    ensures Entry(n).audit == Some(DeviceOpened) <==> n.SysDeviceOpen?
    ensures Entry(n).audit == Some(DeviceCalled) <==> n.SysDeviceCall? || n.SysDeviceClose?
    ensures Entry(n).audit == Some(CognitionInferred) <==> n.SysModelOpen? || n.SysInfer?
    ensures Entry(n).audit == Some(CognitiveMemory) <==> n.SysMemoryQuery? || n.SysMemoryPut?
    ensures Entry(n).audit == Some(CapabilityChanged) <==> n.SysCapDerive? || n.SysCapRevoke?
    ensures Entry(n).audit == Some(SecurityDecision) <==> n.SysAttest?
    ensures Entry(n).audit == Some(AuditAppended) <==> n.SysAuditAppend?
    ensures Entry(n).audit == Some(AuditQueried) <==> n.SysAuditQuery?
    ensures Entry(n).audit == Some(AuditVerified) <==> n.SysAuditVerify?
  {
  }

  /** The calls in the order of the table, group by group. */
  const SYSTEM_CALLS := [SysInfo, SysYield, SysExit, SysTime, SysTraceContext]
  const TASK_CALLS := [SysTaskSpawn, SysTaskJoin, SysTaskCancel, SysTaskStatus]
  const MEMORY_CALLS := [SysMemMap, SysMemUnmap, SysMemQuery, SysMemShare, SysMemSeal]
  const DEVICE_CALLS := [SysDeviceList, SysDeviceOpen, SysDeviceCall, SysDeviceClose]
  const COGNITION_CALLS := [SysModelList, SysModelOpen, SysInfer, SysMemoryQuery, SysMemoryPut]
  const SECURITY_CALLS := [SysCapDerive, SysCapRevoke, SysAttest, SysRandom]
  const AUDIT_CALLS := [SysAuditAppend, SysAuditQuery, SysAuditVerify]

  const ORDER: seq<SyscallNumber> :=
    SYSTEM_CALLS + TASK_CALLS + MEMORY_CALLS + DEVICE_CALLS + COGNITION_CALLS + SECURITY_CALLS + AUDIT_CALLS

  /** The table listing these calls. */
  function Table(order: seq<SyscallNumber>): (t: seq<SyscallDescriptor>)
    ensures |t| == |order| && forall i | 0 <= i < |order| :: t[i] == Entry(order[i])
  {
    seq(|order|, i requires 0 <= i < |order| => Entry(order[i]))
  }

  /** The first table entry with this number. */
  function FirstEntry(table: seq<SyscallDescriptor>, n: SyscallNumber): Option<SyscallDescriptor> {
    if table == [] then None
    else if table[0].number == n then Some(table[0])
    else FirstEntry(table[1..], n)
  }

  function Lookup(raw: u64): Option<SyscallDescriptor> {
    match FromRaw(raw)
    case None => None
    case Some(n) => FirstEntry(Table(ORDER), n)
  }

  lemma EntryNumber(n: SyscallNumber)
    ensures Entry(n).number == n
  {
  }

  lemma {:induction false} FirstEntryIsItsEntry(order: seq<SyscallNumber>, n: SyscallNumber)
    requires n in order
    ensures FirstEntry(Table(order), n) == Some(Entry(n))
  {
    EntryNumber(order[0]);
    if order[0] != n {
      assert Table(order)[1..] == Table(order[1..]);
      FirstEntryIsItsEntry(order[1..], n);
    }
  }

  lemma EveryCallIsListed(n: SyscallNumber)
    ensures n in ORDER
  {
    match n
    case SysInfo | SysYield | SysExit | SysTime | SysTraceContext => assert n in SYSTEM_CALLS;
    case SysTaskSpawn | SysTaskJoin | SysTaskCancel | SysTaskStatus => assert n in TASK_CALLS;
    case SysMemMap | SysMemUnmap | SysMemQuery | SysMemShare | SysMemSeal => assert n in MEMORY_CALLS;
    case SysDeviceList | SysDeviceOpen | SysDeviceCall | SysDeviceClose => assert n in DEVICE_CALLS;
    case SysModelList | SysModelOpen | SysInfer | SysMemoryQuery | SysMemoryPut => assert n in COGNITION_CALLS;
    case SysCapDerive | SysCapRevoke | SysAttest | SysRandom => assert n in SECURITY_CALLS;
    case SysAuditAppend | SysAuditQuery | SysAuditVerify => assert n in AUDIT_CALLS;
  }

  /** The scan of the table is complete and exact: every number that decodes has a descriptor,
      which is the entry of that number, and no other number has one. */
  lemma LookupIsExact(raw: u64)
    ensures Lookup(raw) == match FromRaw(raw) case None => None case Some(n) => Some(Entry(n))
  {
    match FromRaw(raw)
    case None =>
    case Some(n) =>
      EveryCallIsListed(n);
      FirstEntryIsItsEntry(ORDER, n);
  }

  function Validate(frame: SyscallFrame, ctx: DispatchContext): Result<SyscallDescriptor> {
    match Lookup(frame.number)
    case None => Failure(UnknownSyscall)
    case Some(d) =>
      if !d.AllowsContext(ctx.execution) then Failure(Busy)
      else
        match d.required
        case None => Success(d)
        case Some(c) =>
          match ctx.capabilities.Require(c)
          case Failure(e) => Failure(e)
          case Success(_) => Success(d)
  }

  /** A call passes validation exactly if its number decodes, its context is allowed, and the
      caller holds the required capability; what it gets is the entry of its number. A known
      call in an allowed context is denied exactly if the capability is missing. */
  lemma ValidationIsExact(frame: SyscallFrame, ctx: DispatchContext)
    ensures var (n, r) := (FromRaw(frame.number), Validate(frame, ctx));
            match n
            case None => r == Failure(UnknownSyscall)
            case Some(n) =>
              var held := Entry(n).required.Some? ==> ctx.capabilities.Contains(Entry(n).required.value);
              && (r == Success(Entry(n)) <==> Entry(n).AllowsContext(ctx.execution) && held)
              && (r == Failure(MissingCapability) <==> Entry(n).AllowsContext(ctx.execution) && !held)
              && (r == Failure(Busy) <==> !Entry(n).AllowsContext(ctx.execution))
  {
    LookupIsExact(frame.number);
  }
}
