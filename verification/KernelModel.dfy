/** What one syscall does to the kernel, as a function on values. */
module KernelModel {
  import opened Machine
  import opened Errors
  import opened Capabilities
  import opened Syscalls
  import Abi
  import Ring
  import D = Devices
  import M = MemoryModel
  import MT = MemoryTheory
  import S = SchedulerModel
  import SR = SchedulerRuns

  datatype AuditSeverity = Info | Notice | Warning | Critical

  /** An audit record, its sequence number aside. */
  datatype AuditEvent = AuditEvent(
    kind: AuditEventKind,
    severity: AuditSeverity,
    taskId: TaskId,
    syscall: Option<SyscallNumber>,
    status: Abi.KernelStatus,
    trace: TraceContext)

  datatype FaultKind =
    Panic | PageFault | InvalidSyscall | CapabilityDenied | DeviceError | DoubleFault | InvariantViolation
  datatype FaultSeverity = FaultInfo | FaultWarning | FaultError | FaultFatal
  datatype FaultPhase = PreBoot | Boot | Runtime | Shutdown

  /** A fault record, its sequence number aside. */
  datatype FaultRecord = FaultRecord(
    kind: FaultKind,
    severity: FaultSeverity,
    taskId: TaskId,
    status: Abi.KernelStatus,
    phase: FaultPhase,
    trace: TraceContext)

  /** audit and faults are everything ever recorded, retained or not. */
  datatype Kernel = Kernel(
    memory: M.Memory,
    sched: S.Sched,
    devices: D.DeviceTable,
    audit: seq<AuditEvent>,
    faults: seq<FaultRecord>)

  const INITIAL := Kernel(M.INITIAL, S.INITIAL, [], [], [])

  const NO_TRACE := TraceContext(0, 0, 0, 0, 0)
  const NO_EVENT := AuditEvent(SecurityDecision, Info, 0, None, Abi.Ok, NO_TRACE)
  const NO_FAULT := FaultRecord(InvariantViolation, FaultInfo, 0, Abi.Ok, PreBoot, NO_TRACE)

  ghost predicate Wf(k: Kernel) {
    M.Wf(k.memory) && S.Wf(k.sched)
  }

  const PACKED_ABI_VERSION: u64 := 0x1_0000_0000
  const TABLE_INFO_SIZE: u64 := 32
  const DEFAULT_PRIORITY: u8 := 32

  function StateIndex(state: S.TaskState): u64 {
    match state
    case New => 0 case Ready => 1 case Running => 2 case Blocked => 3
    case Sleeping => 4 case Suspended => 5 case Exiting => 6 case Zombie => 7
  }

  // ---------------------------------------------------------------- handlers that change nothing

  function InfoResult(l: M.UserLimits, frame: SyscallFrame): SyscallResult
    requires l.alignment >= 1
  {
    var out := M.UserBuffer(frame.args[0], frame.args[1], LowWord(frame.args[2]), 0);
    match M.ValidateBuffer(l, out, M.AccessWrite)
    case Success(_) => OkResult(PACKED_ABI_VERSION, TABLE_INFO_SIZE)
    case Failure(e) => ErrorResult(e)
  }

  function RandomResult(l: M.UserLimits, frame: SyscallFrame): SyscallResult
    requires l.alignment >= 1
  {
    var out := M.UserBuffer(frame.args[0], frame.args[1], M.USER_BUFFER_WRITE, 0);
    match M.ValidateBuffer(l, out, M.AccessWrite)
    case Success(_) => OkResult(0, frame.args[1])
    case Failure(e) => ErrorResult(e)
  }

  function RangeResult(l: M.UserLimits, frame: SyscallFrame): SyscallResult
    requires l.alignment >= 1
  {
    match M.ValidateRange(l, frame.args[0], frame.args[1])
    case Success(_) => OkResult(frame.args[0], frame.args[1])
    case Failure(e) => ErrorResult(e)
  }

  function StatusResult(task: Option<S.Task>): SyscallResult {
    match task
    case Some(t) => OkResult(StateIndex(t.state), t.contextSwitches)
    case None => ErrorResult(NotFound)
  }

  function OpenResult(devices: D.DeviceTable, frame: SyscallFrame, caller: CapabilitySet): SyscallResult {
    match D.AuthorizeOpen(devices, frame.args[0], caller)
    case Success(d) => OkResult(d.id, d.deviceClass.Index())
    case Failure(e) => ErrorResult(e)
  }

  function CallResult(devices: D.DeviceTable, frame: SyscallFrame, caller: CapabilitySet): SyscallResult {
    if frame.args[1] >= D.OPERATION_COUNT then ErrorResult(InvalidArgument)
    else
      match D.AuthorizeCall(devices, frame.args[0], frame.args[1], caller, frame.args[3], frame.args[5])
      case Success(_) => OkResult(0, 0)
      case Failure(e) => ErrorResult(e)
  }

  function InferResult(frame: SyscallFrame): SyscallResult {
    if frame.args[3] == 0 then ErrorResult(DeadlineExceeded) else OkResult(0, 0)
  }

  /** What spawning checks before it asks the scheduler: the manifest buffer, if there is one,
      and the priority, of which zero stands for the default. */
  function SpawnPriority(l: M.UserLimits, frame: SyscallFrame): Result<u8>
    requires l.alignment >= 1
  {
    var manifest := M.UserBuffer(frame.args[0], frame.args[1], M.USER_BUFFER_READ, 0);
    var checked := if frame.args[1] != 0 then M.ValidateBuffer(l, manifest, M.AccessRead) else Success(());
    match checked
    case Failure(e) => Failure(e)
    case Success(_) =>
      if frame.args[3] > U8_MAX then Failure(InvalidArgument)
      else if frame.args[3] == 0 then Success(DEFAULT_PRIORITY)
      else Success(frame.args[3])
  }

  /** How many records a log of this capacity retains of a history. */
  function RetainedCount(history: nat, capacity: u64): (n: u64)
    ensures n == Min(history, capacity)
  {
    Min(history, capacity)
  }

  function SelectionResult(r: Result<Option<TaskId>>): SyscallResult {
    match r
    case Success(Some(id)) => OkResult(id, 0)
    case Success(None) => OkResult(0, 0)
    case Failure(e) => ErrorResult(e)
  }

  function ChangeResult(id: TaskId, r: Result<S.StateChange>): SyscallResult {
    match r
    case Success(_) => OkResult(id, 0)
    case Failure(e) => ErrorResult(e)
  }

  function SpawnResult(r: Result<TaskId>): SyscallResult {
    match r
    case Success(id) => OkResult(id, 0)
    case Failure(e) => ErrorResult(e)
  }

  function ShareResult(r: Result<M.SharedMemoryHandle>): SyscallResult {
    match r
    case Success(h) => OkResult(h.id, h.permissions)
    case Failure(e) => ErrorResult(e)
  }

  function SealResult(id: u64, r: Result<()>): SyscallResult {
    match r
    case Success(_) => OkResult(id, 0)
    case Failure(e) => ErrorResult(e)
  }

  // ---------------------------------------------------------------- calls that reach the scheduler

  predicate IsSchedCall(n: SyscallNumber) {
    n.SysYield? || n.SysExit? || n.SysTaskSpawn? || n.SysTaskCancel?
  }

  function SpawnOp(ctx: DispatchContext, priority: u8): SR.Op {
    SR.OpSpawn(ctx.taskId, S.Runtime, priority, EMPTY_SET, S.UNLIMITED)
  }

  /** The scheduler operation behind a call, unless an argument is refused first. */
  function SchedOpOf(l: M.UserLimits, n: SyscallNumber, frame: SyscallFrame, ctx: DispatchContext): (op: Result<SR.Op>)
    requires l.alignment >= 1 && IsSchedCall(n)
    ensures op.Success? ==> SR.UnlimitedOp(op.value)
  {
    match n
    case SysYield => Success(SR.OpYield)
    case SysExit => Success(SR.OpCancel(ctx.taskId))
    case SysTaskCancel => Success(SR.OpCancel(frame.args[0]))
    case SysTaskSpawn =>
      var priority :- SpawnPriority(l, frame);
      Success(SpawnOp(ctx, priority))
  }

  /** What the caller is told about an operation started in this state. */
  function SchedReply(s: S.Sched, op: SR.Op): SyscallResult
    requires S.Wf(s) && SR.SyscallOp(op)
  {
    match op
    case OpYield => SelectionResult(S.YieldCurrent(s).1)
    case OpCancel(id) => ChangeResult(id, S.Cancel(s, id).1)
    case OpSpawn(parentId, schedClass, priority, capabilities, budget) =>
      SpawnResult(S.Spawn(s, parentId, schedClass, priority, capabilities, budget).1)
  }

  // ---------------------------------------------------------------- calls that reach shared memory

  predicate IsMemoryCall(n: SyscallNumber) {
    n.SysMemShare? || n.SysMemSeal?
  }

  /** The handle that a seal call presents. */
  function SealHandle(frame: SyscallFrame, ctx: DispatchContext): M.SharedMemoryHandle {
    M.SharedMemoryHandle(frame.args[0], ctx.taskId, 0)
  }

  /** The memory operation behind a call, unless its permission bits are refused first. */
  function MemoryOpOf(n: SyscallNumber, frame: SyscallFrame, ctx: DispatchContext): (op: Result<MT.Op>)
    requires IsMemoryCall(n)
    ensures op.Success? ==> op.value.OpShare? || op.value.OpSeal?
  {
    match n
    case SysMemShare =>
      var permissions :- M.PermissionsFromBits(LowWord(frame.args[2]));
      Success(MT.OpShare(ctx.taskId, frame.args[0], frame.args[1], permissions))
    case SysMemSeal => Success(MT.OpSeal(SealHandle(frame, ctx)))
  }

  function MemoryReply(m: M.Memory, op: MT.Op): SyscallResult
    requires M.Wf(m) && (op.OpShare? || op.OpSeal?)
  {
    match op
    case OpShare(owner, start, len, permissions) =>
      ShareResult(M.Share(m.limits, m.shared, owner, start, len, permissions).1)
    case OpSeal(handle) => SealResult(handle.id, M.SealShared(m.shared, handle).1)
  }

  // ---------------------------------------------------------------- dispatch

  /** The memory totals, which fit in 64 bits because the regions are disjoint. */
  function QueryResult(m: M.Memory): SyscallResult
    requires M.Wf(m)
  {
    MT.TotalCountsAddresses(m.regions, M.Usable);
    OkResult(M.TotalByKind(m.regions, M.Usable), |m.regions|)
  }

  /** The result of a call whose handler only looks. */
  function ReadOnlyResult(k: Kernel, n: SyscallNumber, frame: SyscallFrame, ctx: DispatchContext): SyscallResult
    requires M.Wf(k.memory)
    requires !IsSchedCall(n) && !IsMemoryCall(n)
  {
    match n
    case SysInfo => InfoResult(k.memory.limits, frame)
    case SysTime => OkResult(k.sched.tick, 0)
    case SysTraceContext => OkResult(frame.trace.traceId, frame.trace.spanId)
    case SysTaskStatus =>
      StatusResult(if S.Stored(k.sched, frame.args[0]) then Some(k.sched.tasks[frame.args[0] - 1]) else None)
    case SysMemMap | SysMemUnmap => RangeResult(k.memory.limits, frame)
    case SysMemQuery => QueryResult(k.memory)
    case SysDeviceList => OkResult(|k.devices|, 0)
    case SysDeviceOpen => OpenResult(k.devices, frame, ctx.capabilities)
    case SysDeviceCall => CallResult(k.devices, frame, ctx.capabilities)
    case SysInfer => InferResult(frame)
    case SysRandom => RandomResult(k.memory.limits, frame)
    case SysTaskJoin | SysDeviceClose | SysModelOpen => OkResult(frame.args[0], 0)
    case SysModelList | SysMemoryQuery | SysMemoryPut | SysCapDerive | SysCapRevoke => OkResult(0, 0)
    case SysAttest => OkResult(PACKED_ABI_VERSION, 0)
    case SysAuditAppend => OkResult(Ring.SequenceOf(|k.audit| + 1), 0)
    case SysAuditQuery => OkResult(RetainedCount(|k.audit|, Ring.MAX_AUDIT_EVENTS), 0)
    case SysAuditVerify =>
      var next := Ring.SequenceOf(|k.audit| + 1);
      OkResult(if next == 0 then 0 else next - 1, 0)
  }

  /** The handlers behind the calls that passed validation. */
  function Dispatch(k: Kernel, n: SyscallNumber, frame: SyscallFrame, ctx: DispatchContext)
    : (r: (Kernel, SyscallResult))
    requires Wf(k)
    ensures Wf(r.0)
    ensures r.0.audit == k.audit && r.0.faults == k.faults && r.0.devices == k.devices
    ensures !IsSchedCall(n) ==> r.0.sched == k.sched
    ensures !IsMemoryCall(n) ==> r.0.memory == k.memory
  {
    if IsSchedCall(n) then
      match SchedOpOf(k.memory.limits, n, frame, ctx)
      case Success(op) => (k.(sched := SR.Step(k.sched, op)), SchedReply(k.sched, op))
      case Failure(e) => (k, ErrorResult(e))
    else if IsMemoryCall(n) then
      match MemoryOpOf(n, frame, ctx)
      case Success(op) => (k.(memory := MT.Step(k.memory, op)), MemoryReply(k.memory, op))
      case Failure(e) => (k, ErrorResult(e))
    else (k, ReadOnlyResult(k, n, frame, ctx))
  }

  // ---------------------------------------------------------------- records

  function SyscallEvent(
    kind: AuditEventKind, taskId: TaskId, n: SyscallNumber, status: Abi.KernelStatus, trace: TraceContext): AuditEvent
  {
    var severity := if status.Ok? then Notice else if status.PermissionDenied? then Critical else Warning;
    AuditEvent(kind, severity, taskId, Some(n), status, trace)
  }

  function FaultKindForStatus(status: Abi.KernelStatus): FaultKind {
    if status.PermissionDenied? then CapabilityDenied else InvariantViolation
  }

  function ErrorForStatus(status: Abi.KernelStatus): KernelError {
    match status
    case Ok => Internal
    case InvalidArgument => InvalidArgument
    case PermissionDenied => PermissionDenied
    case NotFound => NotFound
    case Busy => Busy
    case DeadlineExceeded => DeadlineExceeded
    case Internal => Internal
  }

  /** The fault record of a call that passed validation and then failed. */
  function DispatchFault(frame: SyscallFrame, ctx: DispatchContext, status: Abi.KernelStatus): FaultRecord {
    FaultRecord(
      FaultKindForStatus(status), FaultWarning, ctx.taskId, ErrorForStatus(status).Status(), Runtime, frame.trace)
  }

  /** The fault record of a call that validation rejected. */
  function RejectionFault(frame: SyscallFrame, ctx: DispatchContext, error: KernelError): FaultRecord {
    var kind :=
      if error.UnknownSyscall? then InvalidSyscall
      else if error.MissingCapability? || error.PermissionDenied? then CapabilityDenied
      else InvariantViolation;
    var severity := if error.Status().PermissionDenied? then FaultError else FaultWarning;
    var phase := if ctx.execution.EarlyBoot? then Boot else Runtime;
    FaultRecord(kind, severity, ctx.taskId, error.Status(), phase, frame.trace)
  }

  /** The audit records of a call that validation rejected. */
  function RejectionEvents(frame: SyscallFrame, ctx: DispatchContext, error: KernelError): seq<AuditEvent> {
    match Lookup(frame.number)
    case None => []
    case Some(d) =>
      match d.audit
      case Some(kind) => [SyscallEvent(kind, ctx.taskId, d.number, error.Status(), frame.trace)]
      case None =>
        if error.Status().PermissionDenied? then
          [SyscallEvent(SecurityDecision, ctx.taskId, d.number, error.Status(), frame.trace)]
        else []
  }

  /** The kernel after validation rejected a call. */
  function Reject(k: Kernel, frame: SyscallFrame, ctx: DispatchContext, error: KernelError): Kernel {
    k.(audit := k.audit + RejectionEvents(frame, ctx, error), faults := k.faults + [RejectionFault(frame, ctx, error)])
  }

  /** The audit records of a call that reached its handler. */
  function OutcomeEvents(d: SyscallDescriptor, frame: SyscallFrame, ctx: DispatchContext, status: Abi.KernelStatus)
    : seq<AuditEvent>
  {
    if d.audit.Some? then [SyscallEvent(d.audit.value, ctx.taskId, d.number, status, frame.trace)] else []
  }

  function OutcomeFaults(frame: SyscallFrame, ctx: DispatchContext, status: Abi.KernelStatus): seq<FaultRecord> {
    if status.Ok? then [] else [DispatchFault(frame, ctx, status)]
  }

  function Handle(k: Kernel, frame: SyscallFrame, ctx: DispatchContext): (r: (Kernel, SyscallResult))
    requires Wf(k)
    ensures Wf(r.0)
  {
    match Validate(frame, ctx)
    case Failure(e) => (Reject(k, frame, ctx, e), ErrorResult(e))
    case Success(d) =>
      var (k1, result) := Dispatch(k, d.number, frame, ctx);
      (k1.(audit := k1.audit + OutcomeEvents(d, frame, ctx, result.status),
           faults := k1.faults + OutcomeFaults(frame, ctx, result.status)), result)
  }
}
