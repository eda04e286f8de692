/** The kernel facade: it validates a call, hands it to a subsystem and records what happened. */
module Kernel {
  import opened Machine
  import opened Errors
  import opened Capabilities
  import opened Syscalls
  import Abi
  import R = Ring
  import D = Devices
  import M = MemoryModel
  import MT = MemoryTheory
  import S = SchedulerModel
  import SR = SchedulerRuns
  import KM = KernelModel
  import opened DiagnosticRing
  import Mem = MemoryManager
  import Sch = Scheduler

  class Kernel {
    const memory: Mem.MemoryManager
    const scheduler: Sch.Scheduler
    var devices: D.DeviceTable
    const audit: DiagnosticRing<KM.AuditEvent>
    const faults: DiagnosticRing<KM.FaultRecord>

    ghost function View(): KM.Kernel
      reads this, memory, memory.memoryMap, scheduler, scheduler.queue, audit, faults
    {
      KM.Kernel(memory.View(), scheduler.View(), devices, audit.history, faults.history)
    }

    /** The objects of the subsystems, which have none in common. */
    ghost predicate Separate() {
      && memory.Repr() !! scheduler.Repr() !! audit.Repr() !! faults.Repr() !! {this as object}
    }

    ghost function Repr(): set<object> {
      memory.Repr() + scheduler.Repr() + audit.Repr() + faults.Repr() + {this}
    }

    ghost predicate Valid()
      reads this, memory, memory.memoryMap, memory.memoryMap.regions, memory.sharedRegions
      reads scheduler, scheduler.queue, scheduler.queue.slots
      reads audit, audit.events, faults, faults.events
    {
      && Separate()
      && memory.Valid() && scheduler.Valid()
      && audit.Valid() && audit.events.Length == R.MAX_AUDIT_EVENTS
      && faults.Valid() && faults.events.Length == R.MAX_FAULT_RECORDS
    }

    constructor (
      memory: Mem.MemoryManager, scheduler: Sch.Scheduler,
      audit: DiagnosticRing<KM.AuditEvent>, faults: DiagnosticRing<KM.FaultRecord>)
      requires memory.Valid() && scheduler.Valid() && audit.Valid() && faults.Valid()
      requires audit.events.Length == R.MAX_AUDIT_EVENTS && faults.events.Length == R.MAX_FAULT_RECORDS
      requires memory.Repr() !! scheduler.Repr() !! audit.Repr() !! faults.Repr()
      ensures this.memory == memory && this.scheduler == scheduler && this.audit == audit && this.faults == faults
      ensures Valid()
      ensures View() == KM.Kernel(memory.View(), scheduler.View(), [], audit.history, faults.history)
    {
      this.memory, this.scheduler, this.audit, this.faults := memory, scheduler, audit, faults;
      devices := [];
    }

    method HandleSyscall(frame: SyscallFrame, ctx: DispatchContext) returns (r: SyscallResult)
      requires Valid()
      modifies memory.Repr(), scheduler.Repr(), audit.Repr(), faults.Repr()
      ensures Valid()
      ensures (View(), r) == KM.Handle(old(View()), frame, ctx)
    {
      var validated := Validate(frame, ctx);
      if validated.Failure? {
        RecordRejected(frame, ctx, validated.error);
        return ErrorResult(validated.error);
      }
      var d := validated.value;
      r := DispatchValidated(d.number, frame, ctx);
      RecordOutcome(d, frame, ctx, r.status);
    }

    /** Records an audited call, and a failed one. */
    method RecordOutcome(d: SyscallDescriptor, frame: SyscallFrame, ctx: DispatchContext, status: Abi.KernelStatus)
      requires Valid()
      modifies audit.Repr(), faults.Repr()
      ensures Valid()
      ensures audit.history == old(audit.history) + KM.OutcomeEvents(d, frame, ctx, status)
      ensures faults.history == old(faults.history) + KM.OutcomeFaults(frame, ctx, status)
    {
      if d.audit.Some? {
        audit.Append(KM.SyscallEvent(d.audit.value, ctx.taskId, d.number, status, frame.trace));
      }
      if !status.Ok? {
        faults.Append(KM.DispatchFault(frame, ctx, status));
      }
    }

    method RecordRejected(frame: SyscallFrame, ctx: DispatchContext, error: KernelError)
      requires Valid()
      modifies audit.Repr(), faults.Repr()
      ensures Valid()
      ensures audit.history == old(audit.history) + KM.RejectionEvents(frame, ctx, error)
      ensures faults.history == old(faults.history) + [KM.RejectionFault(frame, ctx, error)]
    {
      var status := error.Status();
      var descriptor := Lookup(frame.number);
      if descriptor.Some? {
        var d := descriptor.value;
        if d.audit.Some? {
          audit.Append(KM.SyscallEvent(d.audit.value, ctx.taskId, d.number, status, frame.trace));
        } else if status.PermissionDenied? {
          audit.Append(KM.SyscallEvent(SecurityDecision, ctx.taskId, d.number, status, frame.trace));
        }
      }
      faults.Append(KM.RejectionFault(frame, ctx, error));
    }

    method DispatchValidated(n: SyscallNumber, frame: SyscallFrame, ctx: DispatchContext) returns (r: SyscallResult)
      requires Valid()
      modifies memory.Repr(), scheduler.Repr()
      ensures Valid()
      ensures (View(), r) == KM.Dispatch(old(View()), n, frame, ctx)
    {
      if KM.IsSchedCall(n) {
        r := DispatchTask(n, frame, ctx);
        assert View() == old(View()).(sched := scheduler.View());
      } else if KM.IsMemoryCall(n) {
        r := DispatchMemory(n, frame, ctx);
        assert View() == old(View()).(memory := memory.View());
      } else {
        r := Look(n, frame, ctx);
      }
    }

    method DispatchTask(n: SyscallNumber, frame: SyscallFrame, ctx: DispatchContext) returns (r: SyscallResult)
      requires Valid() && KM.IsSchedCall(n)
      modifies scheduler.Repr()
      ensures Valid()
      ensures match KM.SchedOpOf(memory.Limits(), n, frame, ctx)
              case Failure(e) => scheduler.View() == old(scheduler.View()) && r == ErrorResult(e)
              case Success(op) =>
                && scheduler.View() == SR.Step(old(scheduler.View()), op)
                && r == KM.SchedReply(old(scheduler.View()), op)
    {
      match n
      case SysYield => r := Yield();
      case SysExit => r := CancelTask(ctx.taskId);
      case SysTaskCancel => r := CancelTask(frame.args[0]);
      case SysTaskSpawn => r := SpawnTask(frame, ctx);
    }

    method DispatchMemory(n: SyscallNumber, frame: SyscallFrame, ctx: DispatchContext) returns (r: SyscallResult)
      requires Valid() && KM.IsMemoryCall(n)
      modifies memory.Repr()
      ensures Valid()
      ensures match KM.MemoryOpOf(n, frame, ctx)
              case Failure(e) => memory.View() == old(memory.View()) && r == ErrorResult(e)
              case Success(op) =>
                && memory.View() == MT.Step(old(memory.View()), op)
                && r == KM.MemoryReply(old(memory.View()), op)
    {
      match n
      case SysMemShare => r := ShareMemory(frame, ctx);
      case SysMemSeal => r := SealMemory(frame, ctx);
    }

    method Yield() returns (r: SyscallResult)
      requires Valid()
      modifies scheduler.Repr()
      ensures Valid()
      ensures scheduler.View() == SR.Step(old(scheduler.View()), SR.OpYield)
      ensures r == KM.SchedReply(old(scheduler.View()), SR.OpYield)
    {
      var selected := scheduler.YieldCurrent();
      r := KM.SelectionResult(selected);
    }

    method CancelTask(id: TaskId) returns (r: SyscallResult)
      requires Valid()
      modifies scheduler.Repr()
      ensures Valid()
      ensures scheduler.View() == SR.Step(old(scheduler.View()), SR.OpCancel(id))
      ensures r == KM.SchedReply(old(scheduler.View()), SR.OpCancel(id))
    {
      var cancelled := scheduler.Cancel(id);
      r := KM.ChangeResult(id, cancelled);
    }

    method SpawnTask(frame: SyscallFrame, ctx: DispatchContext) returns (r: SyscallResult)
      requires Valid()
      modifies scheduler.Repr()
      ensures Valid()
      ensures match KM.SpawnPriority(memory.Limits(), frame)
              case Failure(e) => scheduler.View() == old(scheduler.View()) && r == ErrorResult(e)
              case Success(p) =>
                && scheduler.View() == SR.Step(old(scheduler.View()), KM.SpawnOp(ctx, p))
                && r == KM.SchedReply(old(scheduler.View()), KM.SpawnOp(ctx, p))
    {
      var priority := KM.SpawnPriority(memory.Limits(), frame);
      match priority
      case Failure(e) => r := ErrorResult(e);
      case Success(p) =>
        var spawned := scheduler.Spawn(ctx.taskId, S.Runtime, p, EMPTY_SET, S.UNLIMITED);
        r := KM.SpawnResult(spawned);
    }

    method ShareMemory(frame: SyscallFrame, ctx: DispatchContext) returns (r: SyscallResult)
      requires Valid()
      modifies memory.Repr()
      ensures Valid()
      ensures match KM.MemoryOpOf(SysMemShare, frame, ctx)
              case Failure(e) => memory.View() == old(memory.View()) && r == ErrorResult(e)
              case Success(op) =>
                && memory.View() == MT.Step(old(memory.View()), op)
                && r == KM.MemoryReply(old(memory.View()), op)
    {
      var permissions := M.PermissionsFromBits(LowWord(frame.args[2]));
      match permissions
      case Failure(e) => r := ErrorResult(e);
      case Success(p) =>
        var shared := memory.ShareRegion(ctx.taskId, frame.args[0], frame.args[1], p);
        r := KM.ShareResult(shared);
    }

    method SealMemory(frame: SyscallFrame, ctx: DispatchContext) returns (r: SyscallResult)
      requires Valid()
      modifies memory.Repr()
      ensures Valid()
      ensures memory.View() == MT.Step(old(memory.View()), MT.OpSeal(KM.SealHandle(frame, ctx)))
      ensures r == KM.MemoryReply(old(memory.View()), MT.OpSeal(KM.SealHandle(frame, ctx)))
    {
      var sealed := memory.SealRegion(KM.SealHandle(frame, ctx));
      r := KM.SealResult(frame.args[0], sealed);
    }

    /** The calls whose handlers only look. */
    method Look(n: SyscallNumber, frame: SyscallFrame, ctx: DispatchContext) returns (r: SyscallResult)
      requires Valid() && !KM.IsSchedCall(n) && !KM.IsMemoryCall(n)
      ensures r == KM.ReadOnlyResult(View(), n, frame, ctx)
    {
      match n
      case SysInfo => r := KM.InfoResult(memory.Limits(), frame);
      case SysTime => r := OkResult(scheduler.tick, 0);
      case SysTraceContext => r := OkResult(frame.trace.traceId, frame.trace.spanId);
      case SysTaskStatus => r := TaskStatus(frame.args[0]);
      case SysMemMap | SysMemUnmap => r := KM.RangeResult(memory.Limits(), frame);
      case SysMemQuery => r := MemoryTotals();
      case SysDeviceList => r := OkResult(|devices|, 0);
      case SysDeviceOpen => r := KM.OpenResult(devices, frame, ctx.capabilities);
      case SysDeviceCall => r := KM.CallResult(devices, frame, ctx.capabilities);
      case SysInfer => r := KM.InferResult(frame);
      case SysRandom => r := KM.RandomResult(memory.Limits(), frame);
      case SysTaskJoin | SysDeviceClose | SysModelOpen => r := OkResult(frame.args[0], 0);
      case SysModelList | SysMemoryQuery | SysMemoryPut | SysCapDerive | SysCapRevoke => r := OkResult(0, 0);
      case SysAttest => r := OkResult(KM.PACKED_ABI_VERSION, 0);
      case SysAuditAppend | SysAuditQuery | SysAuditVerify => r := AuditNumber(n, frame, ctx);
    }

    method AuditNumber(n: SyscallNumber, ghost frame: SyscallFrame, ghost ctx: DispatchContext)
      returns (r: SyscallResult)
      requires Valid() && (n.SysAuditAppend? || n.SysAuditQuery? || n.SysAuditVerify?)
      ensures r == KM.ReadOnlyResult(View(), n, frame, ctx)
    {
      match n
      case SysAuditAppend => r := OkResult(audit.nextSequence, 0);
      case SysAuditQuery => r := OkResult(audit.Len(), 0);
      case SysAuditVerify => r := OkResult(if audit.nextSequence == 0 then 0 else audit.nextSequence - 1, 0);
    }

    method MemoryTotals() returns (r: SyscallResult)
      requires Valid()
      ensures r == KM.QueryResult(memory.View())
    {
      var usable := memory.memoryMap.Total(M.Usable);
      r := OkResult(usable, memory.memoryMap.len);
    }

    method TaskStatus(id: TaskId) returns (r: SyscallResult)
      requires Valid()
      ensures var s := scheduler.View();
              r == KM.StatusResult(if S.Stored(s, id) then Some(s.tasks[id - 1]) else None)
    {
      var task := scheduler.queue.Get(id);
      scheduler.StoredById(id, task);
      r := KM.StatusResult(task);
    }
  }

  /** A kernel with nothing in it yet. */
  method NewKernel() returns (k: Kernel)
    ensures k.Valid() && fresh(k.Repr())
    ensures k.View() == KM.INITIAL
  {
    var memory, scheduler := NewSubsystems();
    var audit, faults := NewLogs();
    k := new Kernel(memory, scheduler, audit, faults);
  }

  method NewSubsystems() returns (memory: Mem.MemoryManager, scheduler: Sch.Scheduler)
    ensures fresh(memory.Repr() + scheduler.Repr()) && memory.Repr() !! scheduler.Repr()
    ensures memory.Valid() && memory.View() == M.INITIAL
    ensures scheduler.Valid() && scheduler.View() == S.INITIAL
  {
    memory := new Mem.MemoryManager();
    scheduler := new Sch.Scheduler();
  }

  method NewLogs() returns (audit: DiagnosticRing<KM.AuditEvent>, faults: DiagnosticRing<KM.FaultRecord>)
    ensures fresh(audit.Repr() + faults.Repr()) && audit.Repr() !! faults.Repr()
    ensures audit.Valid() && audit.history == [] && audit.events.Length == R.MAX_AUDIT_EVENTS
    ensures faults.Valid() && faults.history == [] && faults.events.Length == R.MAX_FAULT_RECORDS
  {
    audit := new DiagnosticRing(R.MAX_AUDIT_EVENTS, KM.NO_EVENT);
    faults := new DiagnosticRing(R.MAX_FAULT_RECORDS, KM.NO_FAULT);
  }
}
