/** What every call returns and changes, from its arguments and the state: the statuses by cause,
    the values, and the task or region that the call makes, moves or leaves alone. Each answer is a
    predicate on the states before and after and on the result; that the handler gives it is one
    lemma, and that the whole call does another. */
module KernelReplies {
  import opened Machine
  import opened Errors
  import opened Capabilities
  import opened Syscalls
  import opened KernelModel
  import opened KernelTheory
  import Abi
  import Bits
  import D = Devices
  import M = MemoryModel
  import MT = MemoryTheory
  import MO = MemoryOperations
  import S = SchedulerModel
  import SR = SchedulerRuns
  import SO = SchedulerOperations

  const REFUSED := SyscallResult(Abi.InvalidArgument, 0, 0)
  const DENIED := SyscallResult(Abi.PermissionDenied, 0, 0)
  const MISSING := SyscallResult(Abi.NotFound, 0, 0)
  const FULL := SyscallResult(Abi.Busy, 0, 0)

  /** An authorised call returns and does what its handler does. */
  lemma HandlerEffect(k: Kernel, c: Call, n: SyscallNumber)
    requires Wf(k) && c.Authorised(n)
    ensures ResultOf(k, c) == Dispatch(k, n, c.frame, c.ctx).1
    ensures After(k, c).sched == Dispatch(k, n, c.frame, c.ctx).0.sched
    ensures After(k, c).memory == Dispatch(k, n, c.frame, c.ctx).0.memory
  {
    AcceptedIsAuthorised(c);
    AcceptedEffect(k, c);
  }

  /** The first two arguments are a range that the caller may name. */
  ghost predicate GoodRange(l: M.UserLimits, a: Arguments)
    requires l.alignment >= 1
  {
    MT.RangeOk(l, a[0], a[1])
  }

  lemma RangeStatus(l: M.UserLimits, a: Arguments)
    requires M.LimitsOk(l)
    ensures var r := M.ValidateRange(l, a[0], a[1]);
            (r.Success? <==> GoodRange(l, a)) && (r.Failure? ==> ErrorResult(r.error) == REFUSED)
  {
    MT.RangeValidationIsExact(l, a[0], a[1]);
  }

  // ---------------------------------------------------------------- spawning

  /** A spawn is refused for a priority past 255 or a manifest outside the caller's memory, and
      finds the table full at 64 tasks; otherwise it returns the new task, which is Ready, of the
      Runtime class, a child of the caller, without capabilities or a bounded budget, and of the
      priority asked for, or 32 if that is zero. */
  ghost predicate Spawns(k: Kernel, c: Call, s': S.Sched, r: SyscallResult)
    requires Wf(k)
  {
    var (s, a) := (k.sched, c.frame.args);
    var priority: u8 := if 1 <= a[3] <= 255 then a[3] else 32;
    var valid := a[3] <= 255 && (a[1] == 0 || GoodRange(k.memory.limits, a));
    && r == (if !valid then REFUSED
             else if |s.tasks| < 64 then SyscallResult(Abi.Ok, |s.tasks| + 1, 0)
             else if s.nextId == U64_MAX then SyscallResult(Abi.Internal, 0, 0) else FULL)
    && s'.tasks
       == (if valid && |s.tasks| < 64
           then s.tasks + [S.Task(|s.tasks| + 1, c.ctx.taskId, S.Ready, S.Runtime, priority, priority, 1, 0,
                                  S.BudgetAccount(0, 0, 0), CapabilitySet(0), 0)]
           else s.tasks)
    && s'.current == s.current && s'.tick == s.tick
  }

  lemma SpawnHandler(k: Kernel, c: Call)
    requires Wf(k)
    ensures var (k', r) := Dispatch(k, SysTaskSpawn, c.frame, c.ctx); Spawns(k, c, k'.sched, r)
  {
    SpawnArguments(k.memory.limits, c.frame);
    match SpawnPriority(k.memory.limits, c.frame)
    case Failure(_) => assert Spawns(k, c, k.sched, REFUSED);
    case Success(priority) => SpawnOutcome(k, c, priority);
  }

  lemma SpawnOutcome(k: Kernel, c: Call, priority: u8)
    requires Wf(k)
    requires var a := c.frame.args;
             && a[3] <= 255 && (a[1] == 0 || GoodRange(k.memory.limits, a))
             && priority == if a[3] == 0 then 32 else a[3]
    ensures var op := SpawnOp(c.ctx, priority); Spawns(k, c, SR.Step(k.sched, op), SchedReply(k.sched, op))
  {
    SO.SpawnIsExact(k.sched, c.ctx.taskId, S.Runtime, priority, EMPTY_SET, S.UNLIMITED);
  }

  lemma SpawnArguments(l: M.UserLimits, frame: SyscallFrame)
    requires M.LimitsOk(l)
    ensures var (a, r) := (frame.args, SpawnPriority(l, frame));
            && (r.Success? <==> a[3] <= 255 && (a[1] == 0 || GoodRange(l, a)))
            && (r.Success? ==> r.value == if a[3] == 0 then 32 else a[3])
            && (r.Failure? ==> ErrorResult(r.error) == REFUSED)
  {
    var manifest := M.UserBuffer(frame.args[0], frame.args[1], M.USER_BUFFER_READ, 0);
    MT.BufferOutcome(l, manifest, M.AccessRead);
    RangeStatus(l, frame.args);
  }

  lemma SpawnReply(k: Kernel, c: Call)
    requires Wf(k) && c.Authorised(SysTaskSpawn)
    ensures Spawns(k, c, After(k, c).sched, ResultOf(k, c))
  {
    HandlerEffect(k, c, SysTaskSpawn);
    SpawnHandler(k, c);
  }

  // ---------------------------------------------------------------- terminating

  /** Cancelling makes a task a Zombie and returns its identifier. It is refused for a task that is
      leaving or gone, and a task that was never stored is not found. */
  ghost predicate Cancels(s: S.Sched, s': S.Sched, id: TaskId, r: SyscallResult) {
    if !S.Stored(s, id) then r == MISSING && s' == s
    else if s.tasks[id - 1].state.Exiting? || s.tasks[id - 1].state.Zombie? then r == REFUSED && s' == s
    else
      && r == SyscallResult(Abi.Ok, id, 0)
      && s' == s.(tasks := s.tasks[id - 1 := s.tasks[id - 1].(state := S.Zombie)],
                  current := if s.current == Some(id) then None else s.current)
  }

  lemma CancelHandler(k: Kernel, c: Call, n: SyscallNumber)
    requires Wf(k) && (n.SysTaskCancel? || n.SysExit?)
    ensures var (k', r) := Dispatch(k, n, c.frame, c.ctx);
            Cancels(k.sched, k'.sched, if n.SysExit? then c.ctx.taskId else c.frame.args[0], r)
  {
    SO.CancelIsExact(k.sched, if n.SysExit? then c.ctx.taskId else c.frame.args[0]);
  }

  /** A cancel terminates the task that it names, */
  lemma CancelReply(k: Kernel, c: Call)
    requires Wf(k) && c.Authorised(SysTaskCancel)
    ensures Cancels(k.sched, After(k, c).sched, c.frame.args[0], ResultOf(k, c))
  {
    HandlerEffect(k, c, SysTaskCancel);
    CancelHandler(k, c, SysTaskCancel);
  }

  /** an exit the caller. */
  lemma ExitReply(k: Kernel, c: Call)
    requires Wf(k) && c.Authorised(SysExit)
    ensures Cancels(k.sched, After(k, c).sched, c.ctx.taskId, ResultOf(k, c))
  {
    HandlerEffect(k, c, SysExit);
    CancelHandler(k, c, SysExit);
  }

  // ---------------------------------------------------------------- yielding

  /** A yield fails if the current task is out of a bounded budget, which changes nothing, or at
      the last tick; otherwise it moves the clock and returns the task that it leaves current, or
      zero. */
  ghost predicate Yields(s: S.Sched, s': S.Sched, r: SyscallResult)
    requires S.Wf(s)
  {
    if s.current.Some? && s.tasks[s.current.value - 1].budget.maxTicks > 0
       && s.tasks[s.current.value - 1].budget.remainingTicks == 0
    then r == SyscallResult(Abi.DeadlineExceeded, 0, 0) && s' == s
    else if s.tick == U64_MAX then r == SyscallResult(Abi.Internal, 0, 0) && s'.tick == s.tick
    else r == SyscallResult(Abi.Ok, s'.current.GetOr(0), 0) && s'.tick == s.tick + 1
  }

  lemma YieldHandler(k: Kernel, c: Call)
    requires Wf(k)
    ensures var (k', r) := Dispatch(k, SysYield, c.frame, c.ctx); Yields(k.sched, k'.sched, r)
  {
    YieldOutcome(k.sched);
  }

  lemma YieldOutcome(s: S.Sched)
    requires S.Wf(s)
    ensures Yields(s, SR.Step(s, SR.OpYield), SelectionResult(S.YieldCurrent(s).1))
  {
    SR.ExhaustedYield(s);
    if S.ChargeAndDemote(s).Success? { SR.SelectionIsExact(S.ChargeAndDemote(s).value); }
  }

  lemma YieldReply(k: Kernel, c: Call)
    requires Wf(k) && c.Authorised(SysYield)
    ensures Yields(k.sched, After(k, c).sched, ResultOf(k, c))
  {
    HandlerEffect(k, c, SysYield);
    YieldHandler(k, c);
  }

  // ---------------------------------------------------------------- sharing

  /** A share is refused for unknown permission bits, for SEALED and for an unacceptable range, and
      finds the table full at 32 regions; otherwise it returns the next identifier and the
      permissions, and stores the region, unsealed, as the caller's. */
  ghost predicate Shares(k: Kernel, c: Call, shared': seq<M.SharedRegion>, r: SyscallResult)
    requires Wf(k)
  {
    var (shared, a) := (k.memory.shared, c.frame.args);
    var bits: u32 := a[2] % 0x1_0000_0000;
    var valid := bits < 64 && !Bits.TestBit(bits, 5) && GoodRange(k.memory.limits, a);
    && r == (if !valid then REFUSED
             else if |shared| == 32 then FULL else SyscallResult(Abi.Ok, |shared| + 1, bits))
    && shared'
       == (if valid && |shared| < 32
           then shared + [M.SharedRegion(M.SharedMemoryHandle(|shared| + 1, c.ctx.taskId, bits), a[0], a[1], false)]
           else shared)
  }

  lemma ShareHandler(k: Kernel, c: Call)
    requires Wf(k)
    ensures var (k', r) := Dispatch(k, SysMemShare, c.frame, c.ctx); Shares(k, c, k'.memory.shared, r)
  {
    var a := c.frame.args;
    var bits: u32 := a[2] % 0x1_0000_0000;
    MO.PermissionBits(bits);
    if bits < 64 { ShareOutcome(k, c, M.MemoryPermissions(bits)); }
  }

  lemma ShareOutcome(k: Kernel, c: Call, permissions: M.MemoryPermissions)
    requires Wf(k) && permissions.bits == c.frame.args[2] % 0x1_0000_0000 < 64
    ensures var (a, m) := (c.frame.args, k.memory);
            var (shared', r) := M.Share(m.limits, m.shared, c.ctx.taskId, a[0], a[1], permissions);
            Shares(k, c, shared', ShareResult(r))
  {
    var (a, m) := (c.frame.args, k.memory);
    RangeStatus(m.limits, a);
    MO.ShareIsExact(m.limits, m.shared, c.ctx.taskId, a[0], a[1], permissions);
  }

  lemma ShareReply(k: Kernel, c: Call)
    requires Wf(k) && c.Authorised(SysMemShare)
    ensures Shares(k, c, After(k, c).memory.shared, ResultOf(k, c))
  {
    HandlerEffect(k, c, SysMemShare);
    ShareHandler(k, c);
  }

  /** A seal returns the identifier it was given and seals the region of that identifier, whoever
      shared it, and no other; for an unknown one it does nothing. */
  ghost predicate Seals(shared: seq<M.SharedRegion>, shared': seq<M.SharedRegion>, id: u64, r: SyscallResult) {
    && |shared'| == |shared|
    && (if 0 < id <= |shared| then r == SyscallResult(Abi.Ok, id, 0) && MO.SealedForm(shared[id - 1], shared'[id - 1])
        else r == MISSING)
    && forall i | 0 <= i < |shared| && i != id - 1 :: shared'[i] == shared[i]
  }

  lemma SealHandler(k: Kernel, c: Call)
    requires Wf(k)
    ensures var (k', r) := Dispatch(k, SysMemSeal, c.frame, c.ctx);
            Seals(k.memory.shared, k'.memory.shared, c.frame.args[0], r)
  {
    SealOutcome(k.memory.shared, SealHandle(c.frame, c.ctx));
  }

  lemma SealOutcome(shared: seq<M.SharedRegion>, h: M.SharedMemoryHandle)
    ensures var (shared', r) := M.SealShared(shared, h); Seals(shared, shared', h.id, SealResult(h.id, r))
  {
    MO.SealThenLookup(shared, h, h);
  }

  lemma SealReply(k: Kernel, c: Call)
    requires Wf(k) && c.Authorised(SysMemSeal)
    ensures Seals(k.memory.shared, After(k, c).memory.shared, c.frame.args[0], ResultOf(k, c))
  {
    HandlerEffect(k, c, SysMemSeal);
    SealHandler(k, c);
  }

  /** Sharing, sealing and looking up compose: once a seal call has named the handle that a share
      returned, it looks up, for every presenter, as the shared range, sealed and not writable. */
  lemma SharedThenSealed(k: Kernel, share: Call, seal: Call, h: M.SharedMemoryHandle)
    requires Wf(k) && share.Authorised(SysMemShare) && ResultOf(k, share).status.Ok?
    requires seal.Authorised(SysMemSeal) && seal.frame.args[0] == ResultOf(k, share).value == h.id
    ensures ResultOf(After(k, share), seal) == SyscallResult(Abi.Ok, h.id, 0)
    ensures var r := M.LookupShared(After(After(k, share), seal).memory.shared, h);
            && r.Success? && r.value.sealed && !Bits.TestBit(r.value.handle.permissions, 1)
            && r.value.start == share.frame.args[0] && r.value.len == share.frame.args[1]
            && r.value.handle.id == h.id && r.value.handle.owner == share.ctx.taskId
  {
    var k1 := After(k, share);
    ShareReply(k, share);
    SealReply(k1, seal);
    SealedLooksUp(k, share, k1.memory.shared, ResultOf(k, share), After(k1, seal).memory.shared, ResultOf(k1, seal), h);
  }

  lemma SealedLooksUp(
    k: Kernel, share: Call, first: seq<M.SharedRegion>, shareResult: SyscallResult,
    second: seq<M.SharedRegion>, sealResult: SyscallResult, h: M.SharedMemoryHandle)
    requires Wf(k) && Shares(k, share, first, shareResult) && shareResult.status.Ok? && h.id == shareResult.value
    requires Seals(first, second, h.id, sealResult)
    ensures sealResult == SyscallResult(Abi.Ok, h.id, 0)
    ensures var r := M.LookupShared(second, h);
            && r.Success? && r.value.sealed && !Bits.TestBit(r.value.handle.permissions, 1)
            && r.value.start == share.frame.args[0] && r.value.len == share.frame.args[1]
            && r.value.handle.id == h.id && r.value.handle.owner == share.ctx.taskId
  {
  }

  // ---------------------------------------------------------------- calls that only look

  /** The place of the first device with this identifier. */
  ghost predicate FirstAt(devices: D.DeviceTable, id: u64, i: nat) {
    i <= |devices| && (forall j | 0 <= j < i :: devices[j].id != id) && (i < |devices| ==> devices[i].id == id)
  }

  ghost function ClassNumber(c: D.DeviceClass): u64 {
    if c.Console? then 0 else if c.Timer? then 1 else if c.Block? then 2 else if c.Entropy? then 3
    else if c.NetworkSim? then 4 else if c.SensorSim? then 5 else if c.Accelerator? then 6
    else if c.CognitiveMemory? then 7 else 8
  }

  /** Opening returns the identifier and the class of a known device, unless it is not usable or
      asks for capabilities that the caller lacks; i is the place of the device. */
  ghost predicate Opens(devices: D.DeviceTable, c: Call, i: nat, r: SyscallResult) {
    var id := c.frame.args[0];
    && FirstAt(devices, id, i)
    && r == if i == |devices| then MISSING
            else if !D.Usable(devices[i]) then FULL
            else if !D.Trusted(devices[i], c.ctx.capabilities) then DENIED
            else SyscallResult(Abi.Ok, id, ClassNumber(devices[i].deviceClass))
  }

  /** A device call is refused for an operation that does not exist or is not supported and for a
      buffer too long, and otherwise fails as opening does. */
  ghost predicate Calls(devices: D.DeviceTable, c: Call, i: nat, r: SyscallResult) {
    var a := c.frame.args;
    && FirstAt(devices, a[0], i)
    && r == if a[1] >= 7 then REFUSED
            else if i == |devices| then MISSING
            else if !D.Usable(devices[i]) then FULL
            else if !Bits.TestBit(devices[i].supportedOperations, a[1]) then REFUSED
            else if !D.Trusted(devices[i], c.ctx.capabilities) then DENIED
            else if a[3] > devices[i].maxInputLen || a[5] > devices[i].maxOutputLen then REFUSED
            else SyscallResult(Abi.Ok, 0, 0)
  }

  lemma OpenReply(k: Kernel, c: Call) returns (i: nat)
    requires Wf(k) && c.Authorised(SysDeviceOpen)
    ensures Opens(k.devices, c, i, ResultOf(k, c))
  {
    HandlerEffect(k, c, SysDeviceOpen);
    i := OpenHandler(k, c);
  }

  lemma OpenHandler(k: Kernel, c: Call) returns (i: nat)
    requires Wf(k) && c.Authorised(SysDeviceOpen)
    ensures Opens(k.devices, c, i, Dispatch(k, SysDeviceOpen, c.frame, c.ctx).1)
  {
    DeviceAuthority(c);
    i := OpenOutcome(k.devices, c);
  }

  lemma OpenOutcome(devices: D.DeviceTable, c: Call) returns (i: nat)
    requires c.ctx.capabilities.Contains(DeviceOpen)
    ensures Opens(devices, c, i, OpenResult(devices, c.frame, c.ctx.capabilities))
  {
    i := D.OpenIsExact(devices, c.frame.args[0], c.ctx.capabilities);
  }

  lemma DeviceAuthority(c: Call)
    ensures c.Authorised(SysDeviceOpen) ==> c.ctx.capabilities.Contains(DeviceOpen)
    ensures c.Authorised(SysDeviceCall) ==> c.ctx.capabilities.Contains(DeviceCall)
  {
  }

  lemma CallReply(k: Kernel, c: Call) returns (i: nat)
    requires Wf(k) && c.Authorised(SysDeviceCall)
    ensures Calls(k.devices, c, i, ResultOf(k, c))
  {
    HandlerEffect(k, c, SysDeviceCall);
    i := CallHandler(k, c);
  }

  lemma CallHandler(k: Kernel, c: Call) returns (i: nat)
    requires Wf(k) && c.Authorised(SysDeviceCall)
    ensures Calls(k.devices, c, i, Dispatch(k, SysDeviceCall, c.frame, c.ctx).1)
  {
    DeviceAuthority(c);
    i := CallOutcome(k.devices, c);
  }

  lemma CallOutcome(devices: D.DeviceTable, c: Call) returns (i: nat)
    requires c.ctx.capabilities.Contains(DeviceCall)
    ensures Calls(devices, c, i, CallResult(devices, c.frame, c.ctx.capabilities))
  {
    var a := c.frame.args;
    i := D.CallIsExact(devices, a[0], a[1], c.ctx.capabilities, a[3], a[5]);
  }

  /** The number by which a task state is reported. */
  ghost predicate Reports(state: S.TaskState, value: u64) {
    && (value == 0 <==> state.New?) && (value == 1 <==> state.Ready?) && (value == 2 <==> state.Running?)
    && (value == 3 <==> state.Blocked?) && (value == 4 <==> state.Sleeping?) && (value == 5 <==> state.Suspended?)
    && (value == 6 <==> state.Exiting?) && (value == 7 <==> state.Zombie?)
  }

  /** Information needs an output buffer whose flags are known ones, else it is refused, with WRITE
      among them, else denied, and whose range is acceptable. */
  ghost predicate Informs(l: M.UserLimits, a: Arguments, r: SyscallResult)
    requires l.alignment >= 1
  {
    var flags: u32 := a[2] % 0x1_0000_0000;
    r == if flags >= 8 then REFUSED
         else if !Bits.TestBit(flags, 1) then DENIED
         else if GoodRange(l, a) then SyscallResult(Abi.Ok, 0x1_0000_0000, 32) else REFUSED
  }

  /** What a call returns that changes nothing: the queries what they ask for, mapping, unmapping
      and random bytes an acceptable range or a refusal, inference insists on a deadline, and the
      calls without a subsystem behind them give back their argument or a constant. The calls that
      change something, and the device calls, are above. */
  ghost predicate Looks(k: Kernel, c: Call, n: SyscallNumber, r: SyscallResult)
    requires Wf(k)
  {
    var (a, l) := (c.frame.args, k.memory.limits);
    match n
    case SysInfo => Informs(l, a, r)
    case SysTime => r == SyscallResult(Abi.Ok, k.sched.tick, 0)
    case SysTraceContext => r == SyscallResult(Abi.Ok, c.frame.trace.traceId, c.frame.trace.spanId)
    case SysTaskStatus =>
      if 0 < a[0] <= |k.sched.tasks|
      then r.status.Ok? && Reports(k.sched.tasks[a[0] - 1].state, r.value)
           && r.detail == k.sched.tasks[a[0] - 1].contextSwitches
      else r == MISSING
    case SysMemMap | SysMemUnmap => r == if GoodRange(l, a) then SyscallResult(Abi.Ok, a[0], a[1]) else REFUSED
    case SysMemQuery =>
      r.status.Ok? && r.value == |MT.Covered(k.memory.regions, M.Usable)| && r.detail == |k.memory.regions|
    case SysDeviceList => r == SyscallResult(Abi.Ok, |k.devices|, 0)
    case SysRandom => r == if GoodRange(l, a) then SyscallResult(Abi.Ok, 0, a[1]) else REFUSED
    case SysInfer => r == SyscallResult(if a[3] == 0 then Abi.DeadlineExceeded else Abi.Ok, 0, 0)
    case SysTaskJoin | SysDeviceClose | SysModelOpen => r == SyscallResult(Abi.Ok, a[0], 0)
    case SysAttest => r == SyscallResult(Abi.Ok, 0x1_0000_0000, 0)
    case SysAuditQuery => r == SyscallResult(Abi.Ok, Min(|k.audit|, 128), 0)
    case SysAuditAppend => r == SyscallResult(Abi.Ok, (|k.audit| + 1) % 0x1_0000_0000_0000_0000, 0)
    case SysAuditVerify =>
      var next := (|k.audit| + 1) % 0x1_0000_0000_0000_0000;
      r == SyscallResult(Abi.Ok, if next == 0 then 0 else next - 1, 0)
    case SysModelList | SysMemoryQuery | SysMemoryPut | SysCapDerive | SysCapRevoke =>
      r == SyscallResult(Abi.Ok, 0, 0)
    case _ => true
  }

  lemma BufferLooks(k: Kernel, c: Call)
    requires Wf(k)
    ensures Looks(k, c, SysInfo, InfoResult(k.memory.limits, c.frame))
    ensures Looks(k, c, SysRandom, RandomResult(k.memory.limits, c.frame))
    ensures Looks(k, c, SysMemMap, RangeResult(k.memory.limits, c.frame))
  {
    var (a, l) := (c.frame.args, k.memory.limits);
    RangeStatus(l, a);
    MT.BufferOutcome(l, M.UserBuffer(a[0], a[1], LowWord(a[2]), 0), M.AccessWrite);
    MT.BufferOutcome(l, M.UserBuffer(a[0], a[1], M.USER_BUFFER_WRITE, 0), M.AccessWrite);
  }

  lemma StateLooks(k: Kernel, c: Call, n: SyscallNumber)
    requires Wf(k) && (n.SysTaskStatus? || n.SysMemQuery?)
    ensures Looks(k, c, n, ReadOnlyResult(k, n, c.frame, c.ctx))
  {
    MT.TotalCountsAddresses(k.memory.regions, M.Usable);
  }

  lemma OtherLooks(k: Kernel, c: Call, n: SyscallNumber)
    requires Wf(k) && !IsSchedCall(n) && !IsMemoryCall(n)
    requires !n.SysTaskStatus? && !n.SysMemQuery? && !n.SysInfo? && !n.SysRandom? && !n.SysMemMap? && !n.SysMemUnmap?
    ensures Looks(k, c, n, ReadOnlyResult(k, n, c.frame, c.ctx))
  {
  }

  lemma LookHandler(k: Kernel, c: Call, n: SyscallNumber)
    requires Wf(k) && !IsSchedCall(n) && !IsMemoryCall(n)
    ensures Looks(k, c, n, ReadOnlyResult(k, n, c.frame, c.ctx))
  {
    match n
    case SysInfo | SysRandom | SysMemMap | SysMemUnmap => BufferLooks(k, c);
    case SysTaskStatus | SysMemQuery => StateLooks(k, c, n);
    case _ => OtherLooks(k, c, n);
  }

  lemma LookReply(k: Kernel, c: Call, n: SyscallNumber)
    requires Wf(k) && c.Authorised(n)
    ensures Looks(k, c, n, ResultOf(k, c))
  {
    HandlerEffect(k, c, n);
    if !IsSchedCall(n) && !IsMemoryCall(n) { LookHandler(k, c, n); }
  }
}
