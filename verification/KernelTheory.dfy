/** Runs of syscalls: mediation, accounting, and what the subsystem theorems become. */
module KernelTheory {
  import opened Machine
  import opened Errors
  import opened Capabilities
  import opened Syscalls
  import opened KernelModel
  import Abi
  import Bits
  import R = Ring
  import M = MemoryModel
  import MT = MemoryTheory
  import S = SchedulerModel
  import SO = SchedulerOperations
  import SR = SchedulerRuns
  import ST = SchedulerTurns

  datatype Call = Call(frame: SyscallFrame, ctx: DispatchContext) {
    function Number(): Option<SyscallNumber> {
      FromRaw(frame.number)
    }

    predicate Accepted() {
      Number().Some? && Validate(frame, ctx).Success?
    }

    /** The call is this one, from a task, by a holder of the capability it requires. */
    predicate Authorised(n: SyscallNumber) {
      && Number() == Some(n)
      && Entry(n).AllowsContext(ctx.execution)
      && (Entry(n).required.Some? ==> ctx.capabilities.Contains(Entry(n).required.value))
    }
  }

  function After(k: Kernel, c: Call): (k': Kernel)
    requires Wf(k)
    ensures Wf(k')
  {
    Handle(k, c.frame, c.ctx).0
  }

  function ResultOf(k: Kernel, c: Call): SyscallResult
    requires Wf(k)
  {
    Handle(k, c.frame, c.ctx).1
  }

  function Run(k: Kernel, calls: seq<Call>): (k': Kernel)
    requires Wf(k)
    ensures Wf(k')
    decreases |calls|
  {
    if calls == [] then k else Run(After(k, calls[0]), calls[1..])
  }

  /** A call together with what it returned. */
  datatype Answered = Answered(call: Call, result: SyscallResult)

  function Answers(k: Kernel, calls: seq<Call>): (a: seq<Answered>)
    requires Wf(k)
    ensures |a| == |calls|
    decreases |calls|
  {
    if calls == [] then []
    else [Answered(calls[0], ResultOf(k, calls[0]))] + Answers(After(k, calls[0]), calls[1..])
  }

  lemma AcceptedIsAuthorised(c: Call)
    ensures c.Accepted() <==> Validate(c.frame, c.ctx).Success?
    ensures c.Accepted() <==> c.Number().Some? && c.Authorised(c.Number().value)
    ensures c.Accepted() ==> Validate(c.frame, c.ctx).value == Entry(c.Number().value)
  {
    ValidationIsExact(c.frame, c.ctx);
    if c.Number().Some? { EntryNumber(c.Number().value); }
  }

  // ---------------------------------------------------------------- mediation

  /** A call that validation rejects changes the two logs and nothing else, and says why. */
  lemma RejectedCallsOnlyLog(k: Kernel, c: Call)
    requires Wf(k) && !c.Accepted()
    ensures var k' := After(k, c);
            k'.memory == k.memory && k'.sched == k.sched && k'.devices == k.devices
    ensures ResultOf(k, c).status ==
              if c.Number().None? then Abi.InvalidArgument
              else if Entry(c.Number().value).AllowsContext(c.ctx.execution) then Abi.PermissionDenied
              else Abi.Busy
  {
    ValidationIsExact(c.frame, c.ctx);
  }

  /** What an accepted call does, in terms of its handler. */
  lemma AcceptedEffect(k: Kernel, c: Call)
    requires Wf(k) && c.Accepted()
    ensures c.Number().Some? && c.Authorised(c.Number().value)
    ensures var (k', d) := (After(k, c), Dispatch(k, c.Number().value, c.frame, c.ctx));
            && k'.memory == d.0.memory && k'.sched == d.0.sched && k'.devices == d.0.devices
            && ResultOf(k, c) == d.1
  {
    AcceptedIsAuthorised(c);
    EntryNumber(c.Number().value);
  }

  /** Complete mediation: a call that changes the scheduler is an authorised yield, exit, spawn
      or cancel, and one that changes memory is an authorised share or seal. */
  lemma OnlyAuthorisedCallsChangeState(k: Kernel, c: Call)
    requires Wf(k)
    ensures After(k, c).sched != k.sched ==>
              || c.Authorised(SysYield) || c.Authorised(SysExit)
              || c.Authorised(SysTaskSpawn) || c.Authorised(SysTaskCancel)
    ensures After(k, c).memory != k.memory ==> c.Authorised(SysMemShare) || c.Authorised(SysMemSeal)
  {
    if c.Accepted() { AcceptedEffect(k, c); } else { RejectedCallsOnlyLog(k, c); }
  }

  /** No call at all changes a device, a memory region, a userspace limit or the allocator phase. */
  lemma NoCallChangesTheRest(k: Kernel, c: Call)
    requires Wf(k)
    ensures After(k, c).devices == k.devices
    ensures After(k, c).memory.(shared := k.memory.shared) == k.memory
  {
    if c.Accepted() {
      AcceptedEffect(k, c);
      var n := c.Number().value;
      if IsMemoryCall(n) && MemoryOpOf(n, c.frame, c.ctx).Success? {
        MT.SharingKeepsTheRest(k.memory, MemoryOpOf(n, c.frame, c.ctx).value);
      }
    } else {
      RejectedCallsOnlyLog(k, c);
    }
  }

  // ---------------------------------------------------------------- projections

  /** The scheduler operation behind a call, if it has one. */
  function SchedOps(k: Kernel, c: Call): (ops: seq<SR.Op>)
    requires Wf(k)
    ensures |ops| <= 1 && forall i | 0 <= i < |ops| :: SR.UnlimitedOp(ops[i])
  {
    if !c.Accepted() || !IsSchedCall(c.Number().value) then []
    else
      match SchedOpOf(k.memory.limits, c.Number().value, c.frame, c.ctx)
      case Success(op) => [op]
      case Failure(_) => []
  }

  lemma CallStepsOnce(k: Kernel, c: Call)
    requires Wf(k)
    ensures After(k, c).sched == var ops := SchedOps(k, c); if ops == [] then k.sched else SR.Step(k.sched, ops[0])
  {
    if c.Accepted() { AcceptedEffect(k, c); } else { RejectedCallsOnlyLog(k, c); }
  }

  lemma CallStepsScheduler(k: Kernel, c: Call)
    requires Wf(k)
    ensures After(k, c).sched == SR.Run(k.sched, SchedOps(k, c))
  {
    CallStepsOnce(k, c);
    RunOne(k.sched, SchedOps(k, c));
  }

  lemma RunOne(s: S.Sched, ops: seq<SR.Op>)
    requires S.Wf(s) && |ops| <= 1
    ensures SR.Run(s, ops) == if ops == [] then s else SR.Step(s, ops[0])
  {
  }

  function AllSchedOps(k: Kernel, calls: seq<Call>): seq<SR.Op>
    requires Wf(k)
    decreases |calls|
  {
    if calls == [] then [] else SchedOps(k, calls[0]) + AllSchedOps(After(k, calls[0]), calls[1..])
  }

  /** A run of syscalls drives the scheduler through a run of its own operations. */
  lemma {:induction false} SyscallsRunScheduler(k: Kernel, calls: seq<Call>)
    requires Wf(k)
    ensures Run(k, calls).sched == SR.Run(k.sched, AllSchedOps(k, calls))
    decreases |calls|
  {
    if calls != [] {
      CallStepsScheduler(k, calls[0]);
      SyscallsRunScheduler(After(k, calls[0]), calls[1..]);
      SR.RunSplits(k.sched, SchedOps(k, calls[0]), AllSchedOps(After(k, calls[0]), calls[1..]));
    }
  }

  lemma {:induction false} OnlySyscallOps(k: Kernel, calls: seq<Call>, i: nat)
    requires Wf(k) && i < |AllSchedOps(k, calls)|
    ensures SR.SyscallOp(AllSchedOps(k, calls)[i])
    decreases |calls|
  {
    var head := SchedOps(k, calls[0]);
    if i >= |head| { OnlySyscallOps(After(k, calls[0]), calls[1..], i - |head|); }
  }

  // ---------------------------------------------------------------- scheduling

  /** A yield that went through and selected a task, or found none. */
  predicate YieldAnswered(a: Answered) {
    a.call.Number() == Some(SysYield) && a.result.status.Ok?
  }

  /** The values returned by the successful yields of a run, in order. */
  function YieldValues(answers: seq<Answered>): seq<u64> {
    if answers == [] then []
    else (if YieldAnswered(answers[0]) then [answers[0].result.value] else []) + YieldValues(answers[1..])
  }

  function PickValue(pick: Option<TaskId>): u64 {
    if pick.Some? then pick.value else 0
  }

  function PickValues(picks: seq<Option<TaskId>>): (v: seq<u64>)
    ensures |v| == |picks| && forall i | 0 <= i < |picks| :: v[i] == PickValue(picks[i])
  {
    seq(|picks|, i requires 0 <= i < |picks| => PickValue(picks[i]))
  }

  lemma CallPicks(k: Kernel, c: Call)
    requires Wf(k)
    ensures (if YieldAnswered(Answered(c, ResultOf(k, c))) then [ResultOf(k, c).value] else [])
            == PickValues(SR.Selections(k.sched, SchedOps(k, c)))
  {
    if c.Accepted() { AcceptedEffect(k, c); } else { RejectedCallsOnlyLog(k, c); }
    OpPicks(k.sched, SchedOps(k, c));
  }

  /** A syscall's operation makes a successful selection only if it is a yield, whose reply then
      says what was picked. */
  lemma OpPicks(s: S.Sched, ops: seq<SR.Op>)
    requires S.Wf(s) && |ops| <= 1 && forall i | 0 <= i < |ops| :: SR.SyscallOp(ops[i])
    ensures PickValues(SR.Selections(s, ops))
            == if ops != [] && ops[0].OpYield? && SchedReply(s, ops[0]).status.Ok?
               then [SchedReply(s, ops[0]).value] else []
  {
    if ops != [] {
      assert ops[1..] == [];
      SR.ScanIsTheSelection(s, ops[0]);
    }
  }

  lemma {:induction false} YieldsReportSelections(k: Kernel, calls: seq<Call>)
    requires Wf(k)
    ensures YieldValues(Answers(k, calls)) == PickValues(SR.Selections(k.sched, AllSchedOps(k, calls)))
    decreases |calls|
  {
    if calls != [] {
      var k' := After(k, calls[0]);
      YieldsReportSelections(k', calls[1..]);
      CallPicks(k, calls[0]);
      CallStepsScheduler(k, calls[0]);
      SR.RunSplits(k.sched, SchedOps(k, calls[0]), AllSchedOps(k', calls[1..]));
      ValuesAppend(Answered(calls[0], ResultOf(k, calls[0])), Answers(k', calls[1..]),
                   SR.Selections(k.sched, SchedOps(k, calls[0])), SR.Selections(k'.sched, AllSchedOps(k', calls[1..])));
    }
  }

  lemma ValuesAppend(first: Answered, rest: seq<Answered>, a: seq<Option<TaskId>>, b: seq<Option<TaskId>>)
    requires (if YieldAnswered(first) then [first.result.value] else []) == PickValues(a)
    requires YieldValues(rest) == PickValues(b)
    ensures YieldValues([first] + rest) == PickValues(a + b)
  {
  }

  /** Whatever budgets its tasks have: from any state of the shape that syscalls keep, among any
      479 + k successful yields, k the number of tasks at the end and so at most 64, one returns
      t, whatever calls are mixed in, if task t is never terminated. */
  lemma SuccessfulYieldsReachAll(k: Kernel, calls: seq<Call>, t: TaskId)
    requires Wf(k) && SR.SyscallDriven(k.sched)
    requires S.Stored(k.sched, t)
    requires S.Stored(Run(k, calls).sched, t) ==> !Run(k, calls).sched.tasks[t - 1].state.Zombie?
    requires |YieldValues(Answers(k, calls))| >= 479 + |Run(k, calls).sched.tasks|
    ensures t in YieldValues(Answers(k, calls))
  {
    var ops := AllSchedOps(k, calls);
    SyscallsRunScheduler(k, calls);
    YieldsReportSelections(k, calls);
    forall i | 0 <= i < |ops| ensures SR.SyscallOp(ops[i]) { OnlySyscallOps(k, calls, i); }
    SR.LifecycleOverRuns(k.sched, ops, t);
    SR.AliveIsReadyAtScans(k.sched, ops, t);
    SR.BoundedWaiting(k.sched, ops, t);
    var i :| 0 <= i < |SR.Selections(k.sched, ops)| && SR.Selections(k.sched, ops)[i] == Some(t);
    assert YieldValues(Answers(k, calls))[i] == t;
  }

  /** The authorised yields of a run. */
  function YieldCount(calls: seq<Call>): nat {
    if calls == [] then 0 else (if calls[0].Authorised(SysYield) then 1 else 0) + YieldCount(calls[1..])
  }

  lemma CallYields(k: Kernel, c: Call)
    requires Wf(k) && SR.Unlimited(k.sched)
    ensures SR.Unlimited(After(k, c).sched)
    ensures YieldAnswered(Answered(c, ResultOf(k, c))) <==> c.Authorised(SysYield) && k.sched.tick < U64_MAX
    ensures After(k, c).sched.tick == k.sched.tick + if c.Authorised(SysYield) && k.sched.tick < U64_MAX then 1 else 0
  {
    AcceptedIsAuthorised(c);
    if c.Accepted() { AcceptedEffect(k, c); } else { RejectedCallsOnlyLog(k, c); }
    CallStepsOnce(k, c);
    var ops := SchedOps(k, c);
    if ops != [] {
      SR.StepUnlimited(k.sched, ops[0]);
      SR.UnlimitedYield(k.sched);
      if !ops[0].OpYield? { TickNeedsYield(k.sched, ops[0]); }
    }
  }

  lemma TickNeedsYield(s: S.Sched, op: SR.Op)
    requires S.Wf(s) && SR.SyscallOp(op) && !op.OpYield?
    ensures SR.Step(s, op).tick == s.tick
  {
  }

  /** Where no budget is bounded, as in every run from a new or booted kernel, yields succeed:
      all the authorised ones until the tick is exhausted. */
  lemma {:induction false} AuthorisedYieldsSucceed(k: Kernel, calls: seq<Call>)
    requires Wf(k) && SR.Unlimited(k.sched)
    ensures |YieldValues(Answers(k, calls))| == Min(YieldCount(calls), U64_MAX - k.sched.tick)
    ensures SR.Unlimited(Run(k, calls).sched)
    decreases |calls|
  {
    if calls != [] {
      var k' := After(k, calls[0]);
      CallYields(k, calls[0]);
      AuthorisedYieldsSucceed(k', calls[1..]);
      assert Answers(k, calls)[1..] == Answers(k', calls[1..]);
    }
  }

  /** No starvation through the syscall interface: in a run from a kernel without bounded
      budgets, such as a new or booted one, among any 479 + k authorised yields, k the number of
      tasks at the end and so at most 64, one returns t, whatever calls are mixed in, if task t is
      never terminated and the tick is not exhausted first. */
  lemma NoStarvation(k: Kernel, calls: seq<Call>, t: TaskId)
    requires Wf(k) && SR.SyscallDriven(k.sched) && SR.Unlimited(k.sched)
    requires S.Stored(k.sched, t)
    requires S.Stored(Run(k, calls).sched, t) ==> !Run(k, calls).sched.tasks[t - 1].state.Zombie?
    requires Min(YieldCount(calls), U64_MAX - k.sched.tick) >= 479 + |Run(k, calls).sched.tasks|
    ensures t in YieldValues(Answers(k, calls))
  {
    AuthorisedYieldsSucceed(k, calls);
    SuccessfulYieldsReachAll(k, calls, t);
  }

  /** The call neither spawns nor terminates a task. */
  predicate LeavesTasks(c: Call) {
    !c.Authorised(SysExit) && !c.Authorised(SysTaskSpawn) && !c.Authorised(SysTaskCancel)
  }

  lemma YieldIsTheOperation(k: Kernel, c: Call)
    requires Wf(k) && LeavesTasks(c)
    ensures SchedOps(k, c) == if c.Authorised(SysYield) then [SR.OpYield] else []
  {
    AcceptedIsAuthorised(c);
  }

  lemma {:induction false} OnlyYields(k: Kernel, calls: seq<Call>)
    requires Wf(k) && forall i | 0 <= i < |calls| :: LeavesTasks(calls[i])
    ensures AllSchedOps(k, calls) == ST.Yields(YieldCount(calls))
    decreases |calls|
  {
    if calls != [] {
      YieldIsTheOperation(k, calls[0]);
      OnlyYields(After(k, calls[0]), calls[1..]);
    }
  }

  /** Round robin through the syscall interface: while no task is spawned or terminated, the
      authorised yields of a run, whatever other calls are mixed in, return tasks alike in turn. */
  lemma YieldsTakeTurns(k: Kernel, calls: seq<Call>) returns (order: seq<nat>)
    requires Wf(k) && ST.Reachable(k.sched) && ST.TurnsReady(k.sched, YieldCount(calls))
    requires exists i | 0 <= i < |k.sched.tasks| :: k.sched.tasks[i].IsRunnable()
    requires forall i | 0 <= i < |calls| :: LeavesTasks(calls[i])
    ensures ST.Queue(k.sched.tasks, |k.sched.tasks|, order) && order != []
    ensures var values := YieldValues(Answers(k, calls));
            && |values| == YieldCount(calls)
            && forall i: nat | i < |values| :: values[i] == order[i % |order|] + 1
  {
    OnlyYields(k, calls);
    YieldsReportSelections(k, calls);
    order := ST.AlikeTasksTakeTurns(k.sched, YieldCount(calls));
  }

  /** With bounded budgets there can be starvation: a current task out of a bounded budget makes
      every yield fail, with no selection made and the clock standing still, for as long as it is
      not terminated. */
  lemma ExhaustedTaskStarvesOthers(k: Kernel, calls: seq<Call>, t: TaskId)
    requires Wf(k) && SR.Exhausted(k.sched, t)
    requires S.Stored(Run(k, calls).sched, t) ==> !Run(k, calls).sched.tasks[t - 1].state.Zombie?
    ensures YieldValues(Answers(k, calls)) == []
    ensures Run(k, calls).sched.tick == k.sched.tick && SR.Exhausted(Run(k, calls).sched, t)
  {
    var ops := AllSchedOps(k, calls);
    SyscallsRunScheduler(k, calls);
    YieldsReportSelections(k, calls);
    forall i | 0 <= i < |ops| ensures SR.SyscallOp(ops[i]) { OnlySyscallOps(k, calls, i); }
    SR.LifecycleOverRuns(k.sched, ops, t);
    SR.ExhaustedStarves(k.sched, ops, t);
  }

  lemma {:induction false} PicksCounted(picks: seq<Option<TaskId>>, t: TaskId)
    requires t > 0
    ensures multiset(PickValues(picks))[t] == multiset(picks)[Some(t)]
  {
    if picks == [] {
      assert PickValues(picks) == [];
    } else {
      var first, rest := picks[0], picks[1..];
      PicksCounted(rest, t);
      assert picks == [first] + rest;
      assert PickValues(picks) == [PickValue(first)] + PickValues(rest);
    }
  }

  /** The clock and the task status tell the history of yields: over any run the tick that
      sys_time reports grows by the number of successful yields, and the count of context
      switches that sys_task_status reports for a task by the number that returned the task. */
  lemma StatusCountsYields(k: Kernel, calls: seq<Call>, t: TaskId, time: Call, status: Call)
    requires Wf(k) && S.Stored(k.sched, t)
    requires time.Authorised(SysTime)
    requires status.Authorised(SysTaskStatus) && status.frame.args[0] == t
    ensures ResultOf(Run(k, calls), time).value == k.sched.tick + |YieldValues(Answers(k, calls))|
    ensures ResultOf(Run(k, calls), status).status.Ok?
    ensures ResultOf(Run(k, calls), status).detail
            == k.sched.tasks[t - 1].contextSwitches + multiset(YieldValues(Answers(k, calls)))[t]
  {
    var ops, end := AllSchedOps(k, calls), Run(k, calls);
    SyscallsRunScheduler(k, calls);
    YieldsReportSelections(k, calls);
    SR.SwitchesAreSelections(k.sched, ops, t);
    SR.LifecycleOverRuns(k.sched, ops, t);
    PicksCounted(SR.Selections(k.sched, ops), t);
    StatusResults(end, t, time, status);
  }

  lemma StatusResults(k: Kernel, t: TaskId, time: Call, status: Call)
    requires Wf(k) && S.Stored(k.sched, t)
    requires time.Authorised(SysTime)
    requires status.Authorised(SysTaskStatus) && status.frame.args[0] == t
    ensures ResultOf(k, time).value == k.sched.tick
    ensures ResultOf(k, status).status.Ok? && ResultOf(k, status).detail == k.sched.tasks[t - 1].contextSwitches
  {
    AcceptedIsAuthorised(time);
    AcceptedIsAuthorised(status);
    AcceptedEffect(k, time);
    AcceptedEffect(k, status);
  }

  /** Driven only by syscalls, the kernel keeps at most one task Running, the current one, until
      the tick is exhausted. */
  lemma CurrentIsSoleRunning(k: Kernel, calls: seq<Call>)
    requires Wf(k) && SR.SyscallDriven(k.sched)
    ensures SR.SyscallDriven(Run(k, calls).sched)
    ensures var s := Run(k, calls).sched;
            s.tick < U64_MAX ==>
              forall i | 0 <= i < |s.tasks| :: s.tasks[i].state.Running? <==> s.current == Some(i + 1)
  {
    var ops := AllSchedOps(k, calls);
    SyscallsRunScheduler(k, calls);
    forall i | 0 <= i < |ops| ensures SR.SyscallOp(ops[i]) { OnlySyscallOps(k, calls, i); }
    SR.SyscallDrivenOverRuns(k.sched, ops);
  }

  // ---------------------------------------------------------------- starting states

  const BOOT_SPAWN := SR.OpSpawn(0, S.Runtime, DEFAULT_PRIORITY, EMPTY_SET, S.UNLIMITED)

  /** What the host boot sequence does: it brings the allocator up and spawns a runtime task. */
  function Boot(k: Kernel): (k': Kernel)
    requires Wf(k)
    ensures Wf(k')
  {
    var m1 := MT.Step(k.memory, MT.OpSetPhase(M.BootBump));
    var m2 := MT.Step(m1, MT.OpSetPhase(M.Frame));
    var m3 := MT.Step(m2, MT.OpSetPhase(M.Heap));
    k.(memory := m3, sched := SR.Step(k.sched, BOOT_SPAWN))
  }

  /** Booting keeps every invariant, and from a kernel whose allocator is not up and which has no
      task it ends with the heap phase and task 1, Ready, Runtime and of priority 32. */
  lemma BootEffect(k: Kernel)
    requires Wf(k) && SR.SyscallDriven(k.sched) && SR.Unlimited(k.sched)
    ensures SR.SyscallDriven(Boot(k).sched) && SR.Unlimited(Boot(k).sched)
    ensures k.memory.phase.Uninitialized? ==> Boot(k).memory == k.memory.(phase := M.Heap)
    ensures k.sched.tasks == [] ==>
              && Boot(k).sched.current == k.sched.current
              && Boot(k).sched.tasks == [S.Task(1, 0, S.Ready, S.Runtime, 32, 32, 1, 0, S.BudgetAccount(0, 0, 0),
                                                CapabilitySet(0), 0)]
  {
    SO.SpawnIsExact(k.sched, 0, S.Runtime, DEFAULT_PRIORITY, EMPTY_SET, S.UNLIMITED);
    SR.StepSyscallDriven(k.sched, BOOT_SPAWN);
    SR.StepUnlimited(k.sched, BOOT_SPAWN);
  }

  /** Runs may start from a new kernel, booted or not: it satisfies every invariant. */
  lemma RunsMayStart()
    ensures Wf(INITIAL) && SR.SyscallDriven(INITIAL.sched) && SR.Unlimited(INITIAL.sched)
    ensures SR.SyscallDriven(Boot(INITIAL).sched) && SR.Unlimited(Boot(INITIAL).sched)
    ensures ST.Reachable(INITIAL.sched) && ST.Reachable(Boot(INITIAL).sched)
  {
    MT.InitialIsWf();
    SR.ReachableIsWf([]);
    BootEffect(INITIAL);
    assert INITIAL.sched == SR.Run(S.INITIAL, []);
    ST.StepStaysReachable(INITIAL.sched, BOOT_SPAWN);
  }

  /** Runs of syscalls keep the scheduler in states that the theorems about reachable ones cover. */
  lemma SyscallsStayReachable(k: Kernel, calls: seq<Call>)
    requires Wf(k) && ST.Reachable(k.sched)
    ensures ST.Reachable(Run(k, calls).sched)
  {
    SyscallsRunScheduler(k, calls);
    ST.RunStaysReachable(k.sched, AllSchedOps(k, calls));
  }

  // ---------------------------------------------------------------- sealing

  /** The call seals the shared region with this id. */
  predicate Seals(c: Call, id: u64) {
    c.Authorised(SysMemSeal) && c.frame.args[0] == id
  }

  ghost predicate SealedBy(calls: seq<Call>, id: u64) {
    exists i | 0 <= i < |calls| :: Seals(calls[i], id)
  }

  lemma SealedByHead(calls: seq<Call>, id: u64)
    requires calls != []
    ensures SealedBy(calls, id) <==> Seals(calls[0], id) || SealedBy(calls[1..], id)
  {
    if SealedBy(calls[1..], id) {
      var i :| 0 <= i < |calls[1..]| && Seals(calls[1..][i], id);
      assert Seals(calls[i + 1], id);
    }
    if SealedBy(calls, id) && !Seals(calls[0], id) {
      var i :| 0 <= i < |calls| && Seals(calls[i], id);
      assert Seals(calls[1..][i - 1], id);
    }
  }

  /** Sealing over any run of syscalls is exact: a shared region keeps its identity and range, is
      sealed at the end if and only if it was before or an authorised seal call of the run names
      it, keeps every permission bit but WRITE and SEALED, and if sealed is not writable. */
  lemma {:induction false} SealSurvivesSyscalls(k: Kernel, calls: seq<Call>, i: nat)
    requires Wf(k) && i < |k.memory.shared|
    ensures i < |Run(k, calls).memory.shared|
    ensures MT.SharedEvolves(k.memory.shared[i], Run(k, calls).memory.shared[i], SealedBy(calls, i + 1))
    ensures var b := Run(k, calls).memory.shared[i];
            b.sealed ==> !Bits.TestBit(b.handle.permissions, 1)
    decreases |calls|
  {
    if calls == [] {
      assert M.SharedOk(k.memory.shared, i);
    } else {
      var k' := After(k, calls[0]);
      CallEvolvesShared(k, calls[0], i);
      SealSurvivesSyscalls(k', calls[1..], i);
      SealedByHead(calls, i + 1);
      MT.EvolvesTwice(k.memory.shared[i], k'.memory.shared[i], Run(k, calls).memory.shared[i],
                      Seals(calls[0], i + 1), SealedBy(calls[1..], i + 1));
    }
  }

  lemma CallEvolvesShared(k: Kernel, c: Call, i: nat)
    requires Wf(k) && i < |k.memory.shared|
    ensures i < |After(k, c).memory.shared|
    ensures MT.SharedEvolves(k.memory.shared[i], After(k, c).memory.shared[i], Seals(c, i + 1))
  {
    AcceptedIsAuthorised(c);
    if c.Accepted() {
      AcceptedEffect(k, c);
      var n := c.Number().value;
      if IsMemoryCall(n) && MemoryOpOf(n, c.frame, c.ctx).Success? {
        MT.StepEvolvesShared(k.memory, MemoryOpOf(n, c.frame, c.ctx).value, i);
      }
    } else {
      RejectedCallsOnlyLog(k, c);
    }
  }

  // ---------------------------------------------------------------- confinement

  /** No caller of the run holds the capability. */
  ghost predicate NeverHeld(calls: seq<Call>, c: Capability) {
    forall i | 0 <= i < |calls| :: !calls[i].ctx.capabilities.Contains(c)
  }

  /** A run whose callers never hold MemoryShare leaves memory, shared regions included, as it was. */
  lemma {:induction false} SharingIsConfined(k: Kernel, calls: seq<Call>)
    requires Wf(k) && NeverHeld(calls, MemoryShare)
    ensures Run(k, calls).memory == k.memory
    decreases |calls|
  {
    if calls != [] {
      SharingNeedsCapability(k, calls[0]);
      SharingIsConfined(After(k, calls[0]), calls[1..]);
    }
  }

  /** A run whose callers never hold TaskSpawn creates no task. */
  lemma {:induction false} SpawningIsConfined(k: Kernel, calls: seq<Call>)
    requires Wf(k) && NeverHeld(calls, TaskSpawn)
    ensures |Run(k, calls).sched.tasks| == |k.sched.tasks|
    decreases |calls|
  {
    if calls != [] {
      GrowthNeedsSpawn(k, calls[0]);
      SpawningIsConfined(After(k, calls[0]), calls[1..]);
    }
  }

  lemma SharingNeedsCapability(k: Kernel, c: Call)
    requires Wf(k) && !c.ctx.capabilities.Contains(MemoryShare)
    ensures After(k, c).memory == k.memory
  {
    SharingRequires(c);
    OnlyAuthorisedCallsChangeState(k, c);
  }

  lemma SharingRequires(c: Call)
    ensures c.Authorised(SysMemShare) || c.Authorised(SysMemSeal) ==> c.ctx.capabilities.Contains(MemoryShare)
  {
  }

  lemma GrowthNeedsSpawn(k: Kernel, c: Call)
    requires Wf(k)
    ensures |After(k, c).sched.tasks| != |k.sched.tasks| ==> c.ctx.capabilities.Contains(TaskSpawn)
  {
    AcceptedIsAuthorised(c);
    var ops := SchedOps(k, c);
    CallStepsOnce(k, c);
    if ops != [] { SR.StepCountsSpawns(k.sched, ops[0]); }
  }

  /** The call terminates task t: its own exit, or a cancel by a holder of TaskManage. */
  ghost predicate Terminates(c: Call, t: TaskId) {
    || (c.Authorised(SysExit) && c.ctx.taskId == t)
    || (c.Authorised(SysTaskCancel) && c.frame.args[0] == t && c.ctx.capabilities.Contains(TaskManage))
  }

  ghost predicate IsTerminated(k: Kernel, t: TaskId) {
    S.Stored(k.sched, t) && k.sched.tasks[t - 1].state.Zombie?
  }

  ghost predicate TerminatedBy(calls: seq<Call>, t: TaskId) {
    exists i | 0 <= i < |calls| :: Terminates(calls[i], t)
  }

  lemma TerminatedByHead(calls: seq<Call>, t: TaskId)
    requires calls != []
    ensures TerminatedBy(calls, t) <==> Terminates(calls[0], t) || TerminatedBy(calls[1..], t)
  {
    if TerminatedBy(calls[1..], t) {
      var i :| 0 <= i < |calls[1..]| && Terminates(calls[1..][i], t);
      assert Terminates(calls[i + 1], t);
    }
    if TerminatedBy(calls, t) && !Terminates(calls[0], t) {
      var i :| 0 <= i < |calls| && Terminates(calls[i], t);
      assert Terminates(calls[1..][i - 1], t);
    }
  }

  lemma CancelTerminatesTask(k: Kernel, c: Call, t: TaskId)
    requires Wf(k) && SchedOps(k, c) == [SR.OpCancel(t)]
    ensures Terminates(c, t)
  {
    AcceptedIsAuthorised(c);
  }

  lemma OnlyCancelTerminates(s: S.Sched, ops: seq<SR.Op>, s': S.Sched, t: TaskId)
    requires S.Wf(s) && S.Stored(s, t)
    requires |ops| <= 1 && forall i | 0 <= i < |ops| :: SR.UnlimitedOp(ops[i])
    requires s' == if ops == [] then s else SR.Step(s, ops[0])
    ensures S.Stored(s', t)
    ensures s.tasks[t - 1].state.Zombie? ==> s'.tasks[t - 1].state.Zombie?
    ensures s'.tasks[t - 1].state.Zombie? && !s.tasks[t - 1].state.Zombie? ==> ops == [SR.OpCancel(t)]
  {
    if ops != [] { SR.OnlyCancelTerminates(s, ops[0], t - 1); }
  }

  lemma CallTerminates(k: Kernel, c: Call, t: TaskId)
    requires Wf(k) && S.Stored(k.sched, t)
    ensures S.Stored(After(k, c).sched, t)
    ensures IsTerminated(k, t) ==> IsTerminated(After(k, c), t)
    ensures IsTerminated(After(k, c), t) && !IsTerminated(k, t) ==> Terminates(c, t)
  {
    var ops := SchedOps(k, c);
    CallStepsOnce(k, c);
    OnlyCancelTerminates(k.sched, ops, After(k, c).sched, t);
    if ops == [SR.OpCancel(t)] { CancelTerminatesTask(k, c, t); }
  }

  lemma TerminatingCallWorks(k: Kernel, c: Call, t: TaskId)
    requires Wf(k) && SR.SyscallDriven(k.sched) && S.Stored(k.sched, t) && Terminates(c, t)
    ensures IsTerminated(After(k, c), t)
  {
    AcceptedIsAuthorised(c);
    CallStepsOnce(k, c);
    assert SchedOps(k, c) == [SR.OpCancel(t)];
    SR.CancelTerminates(k.sched, t);
  }

  lemma CallKeepsSyscallDriven(k: Kernel, c: Call)
    requires Wf(k) && SR.SyscallDriven(k.sched)
    ensures SR.SyscallDriven(After(k, c).sched)
  {
    CallStepsOnce(k, c);
    if SchedOps(k, c) != [] { SR.StepSyscallDriven(k.sched, SchedOps(k, c)[0]); }
  }

  /** Every termination was authorised: a task alive at the start of a run and terminated at its
      end exited in it or was cancelled in it by a caller with TaskManage. In runs from a state of
      the shape that syscalls keep the converse holds too: a task is terminated at the end if and
      only if it was before or some call of the run is such an exit or cancel. */
  lemma {:induction false} TerminationIsAuthorised(k: Kernel, calls: seq<Call>, t: TaskId)
    requires Wf(k) && S.Stored(k.sched, t)
    ensures S.Stored(Run(k, calls).sched, t)
    ensures IsTerminated(Run(k, calls), t) ==> IsTerminated(k, t) || TerminatedBy(calls, t)
    ensures IsTerminated(k, t) ==> IsTerminated(Run(k, calls), t)
    ensures SR.SyscallDriven(k.sched) ==>
              (IsTerminated(Run(k, calls), t) <==> IsTerminated(k, t) || TerminatedBy(calls, t))
    decreases |calls|
  {
    if calls != [] {
      CallTerminates(k, calls[0], t);
      TerminationIsAuthorised(After(k, calls[0]), calls[1..], t);
      TerminatedByHead(calls, t);
      if SR.SyscallDriven(k.sched) {
        CallKeepsSyscallDriven(k, calls[0]);
        if Terminates(calls[0], t) { TerminatingCallWorks(k, calls[0], t); }
      }
    }
  }

  // ---------------------------------------------------------------- accounting

  /** Calls that must leave an audit record: those of an audited table entry, and those of any
      other table entry that validation denies. */
  predicate MustAudit(a: Answered) {
    && a.call.Number().Some?
    && (Entry(a.call.Number().value).audit.Some? || (!a.call.Accepted() && a.result.status.PermissionDenied?))
  }

  predicate Failed(a: Answered) {
    !a.result.status.Ok?
  }

  /** The calls of a run that must leave an audit record, in order. */
  function Audited(answers: seq<Answered>): seq<Answered> {
    if answers == [] then []
    else (if MustAudit(answers[0]) then [answers[0]] else []) + Audited(answers[1..])
  }

  /** The calls of a run that failed, in order. */
  function Failures(answers: seq<Answered>): seq<Answered> {
    if answers == [] then []
    else (if Failed(answers[0]) then [answers[0]] else []) + Failures(answers[1..])
  }

  /** The record is of this call: its task, its number, its trace and the status it returned, of
      the kind its table entry names or a security decision if it names none, and critical,
      a notice or a warning as the call was denied, succeeded or failed otherwise. */
  predicate EventOf(e: AuditEvent, a: Answered) {
    && a.call.Number().Some?
    && e.kind == Entry(a.call.Number().value).audit.GetOr(SecurityDecision)
    && e.taskId == a.call.ctx.taskId
    && e.syscall == a.call.Number()
    && e.status == a.result.status
    && e.trace == a.call.frame.trace
    && e.severity == if a.result.status.PermissionDenied? then Critical
                     else if a.result.status.Ok? then Notice else Warning
  }

  /** The record is of this call: its task, its trace and the status it returned, an invalid
      syscall if its number is unknown, a denied capability if it was denied and a violation
      otherwise; an error only if validation denied it, of the boot phase only if validation
      rejected it during boot. */
  predicate FaultOf(f: FaultRecord, a: Answered) {
    && f.taskId == a.call.ctx.taskId
    && f.status == a.result.status
    && f.trace == a.call.frame.trace
    && f.kind == (if a.call.Number().None? then InvalidSyscall
                  else if a.result.status.PermissionDenied? then CapabilityDenied else InvariantViolation)
    && f.severity == (if !a.call.Accepted() && a.result.status.PermissionDenied? then FaultError else FaultWarning)
    && f.phase == (if !a.call.Accepted() && a.call.ctx.execution.EarlyBoot? then KernelModel.Boot else Runtime)
  }

  /** The records answer to the calls, one each and in order. */
  ghost predicate EventsOf(events: seq<AuditEvent>, answers: seq<Answered>) {
    |events| == |answers| && forall i | 0 <= i < |events| :: EventOf(events[i], answers[i])
  }

  ghost predicate FaultsOf(faults: seq<FaultRecord>, answers: seq<Answered>) {
    |faults| == |answers| && forall i | 0 <= i < |faults| :: FaultOf(faults[i], answers[i])
  }

  /** The records a call adds to the logs. */
  ghost predicate Accounted(k: Kernel, k': Kernel, a: Answered) {
    && k.audit <= k'.audit
    && EventsOf(k'.audit[|k.audit|..], if MustAudit(a) then [a] else [])
    && k.faults <= k'.faults
    && FaultsOf(k'.faults[|k.faults|..], if Failed(a) then [a] else [])
  }

  /** One call appends one audit record if it must and none otherwise, and one fault record if
      it fails and none otherwise; the records are of that call. */
  lemma CallAccounting(k: Kernel, c: Call)
    requires Wf(k)
    ensures Accounted(k, After(k, c), Answered(c, ResultOf(k, c)))
  {
    if c.Accepted() {
      AcceptedIsAuthorised(c);
      var n := c.Number().value;
      EntryNumber(n);
      var (k1, result) := Dispatch(k, n, c.frame, c.ctx);
      AcceptedAccounting(k, k1, After(k, c), c, result);
    } else {
      AcceptedIsAuthorised(c);
      RejectedAccounting(k, After(k, c), c, Validate(c.frame, c.ctx).error);
    }
  }

  lemma AcceptedAccounting(k: Kernel, k1: Kernel, k': Kernel, c: Call, result: SyscallResult)
    requires c.Accepted() && k1.audit == k.audit && k1.faults == k.faults
    requires k'.audit == k1.audit + OutcomeEvents(Entry(c.Number().value), c.frame, c.ctx, result.status)
    requires k'.faults == k1.faults + OutcomeFaults(c.frame, c.ctx, result.status)
    ensures Accounted(k, k', Answered(c, result))
  {
  }

  lemma RejectedAccounting(k: Kernel, k': Kernel, c: Call, error: KernelError)
    requires !c.Accepted() && Validate(c.frame, c.ctx) == Failure(error)
    requires k' == Reject(k, c.frame, c.ctx, error)
    ensures Accounted(k, k', Answered(c, ErrorResult(error)))
  {
    LookupIsExact(c.frame.number);
    ValidationIsExact(c.frame, c.ctx);
    if c.Number().Some? { EntryNumber(c.Number().value); }
    assert k'.faults[|k.faults|..] == [RejectionFault(c.frame, c.ctx, error)];
    assert k'.audit[|k.audit|..] == RejectionEvents(c.frame, c.ctx, error);
  }

  /** Exact accounting over any run: the audit records added are, one for one and in order, of
      the calls that must be audited; the fault records added, of the calls that failed. */
  lemma {:induction false} RunAccounting(k: Kernel, calls: seq<Call>)
    requires Wf(k)
    ensures k.audit <= Run(k, calls).audit && k.faults <= Run(k, calls).faults
    ensures EventsOf(Run(k, calls).audit[|k.audit|..], Audited(Answers(k, calls)))
    ensures FaultsOf(Run(k, calls).faults[|k.faults|..], Failures(Answers(k, calls)))
    decreases |calls|
  {
    if calls != [] {
      var k' := After(k, calls[0]);
      CallAccounting(k, calls[0]);
      RunAccounting(k', calls[1..]);
      LogsGrow(k, k', Run(k, calls), Answered(calls[0], ResultOf(k, calls[0])), Answers(k', calls[1..]));
    }
  }

  /** Records added by the first call and by the rest of a run are the records of the run. */
  lemma LogsGrow(k: Kernel, k': Kernel, end: Kernel, first: Answered, rest: seq<Answered>)
    requires Accounted(k, k', first)
    requires k'.audit <= end.audit && k'.faults <= end.faults
    requires EventsOf(end.audit[|k'.audit|..], Audited(rest))
    requires FaultsOf(end.faults[|k'.faults|..], Failures(rest))
    ensures k.audit <= end.audit && k.faults <= end.faults
    ensures EventsOf(end.audit[|k.audit|..], Audited([first] + rest))
    ensures FaultsOf(end.faults[|k.faults|..], Failures([first] + rest))
  {
    assert ([first] + rest)[1..] == rest;
    AuditGrows(k.audit, k'.audit, end.audit, if MustAudit(first) then [first] else [], Audited(rest));
    FaultsGrow(k.faults, k'.faults, end.faults, if Failed(first) then [first] else [], Failures(rest));
  }

  lemma AuditGrows(
    log0: seq<AuditEvent>, log1: seq<AuditEvent>, log2: seq<AuditEvent>, a: seq<Answered>, b: seq<Answered>)
    requires log0 <= log1 <= log2
    requires EventsOf(log1[|log0|..], a) && EventsOf(log2[|log1|..], b)
    ensures EventsOf(log2[|log0|..], a + b)
  {
    var e, f, ef := log1[|log0|..], log2[|log1|..], log2[|log0|..];
    assert ef == e + f;
    forall i | 0 <= i < |ef| ensures EventOf(ef[i], (a + b)[i]) {
      if i < |e| { assert EventOf(e[i], a[i]); } else { assert EventOf(f[i - |e|], b[i - |e|]); }
    }
  }

  lemma FaultsGrow(
    log0: seq<FaultRecord>, log1: seq<FaultRecord>, log2: seq<FaultRecord>, a: seq<Answered>, b: seq<Answered>)
    requires log0 <= log1 <= log2
    requires FaultsOf(log1[|log0|..], a) && FaultsOf(log2[|log1|..], b)
    ensures FaultsOf(log2[|log0|..], a + b)
  {
    var e, f, ef := log1[|log0|..], log2[|log1|..], log2[|log0|..];
    assert ef == e + f;
    forall i | 0 <= i < |ef| ensures FaultOf(ef[i], (a + b)[i]) {
      if i < |e| { assert FaultOf(e[i], a[i]); } else { assert FaultOf(f[i - |e|], b[i - |e|]); }
    }
  }

  // ---------------------------------------------------------------- audit numbers

  /** An append call leaves one record and returns the number of that very record. */
  lemma AppendReturnsItsNumber(k: Kernel, c: Call)
    requires Wf(k) && c.Authorised(SysAuditAppend)
    ensures |After(k, c).audit| == |k.audit| + 1
    ensures ResultOf(k, c).value == R.SequenceOf(|After(k, c).audit|)
  {
    AppendIsAudited(k, c, ResultOf(k, c));
    CallAccounting(k, c);
    AuditedOnce(k, After(k, c), Answered(c, ResultOf(k, c)));
    AppendValue(k, c);
  }

  lemma AppendIsAudited(k: Kernel, c: Call, result: SyscallResult)
    requires c.Authorised(SysAuditAppend)
    ensures MustAudit(Answered(c, result))
  {
  }

  lemma AuditedOnce(k: Kernel, k': Kernel, a: Answered)
    requires Accounted(k, k', a) && MustAudit(a)
    ensures |k'.audit| == |k.audit| + 1
  {
    assert |k'.audit[|k.audit|..]| == 1;
  }

  lemma AppendValue(k: Kernel, c: Call)
    requires Wf(k) && c.Authorised(SysAuditAppend)
    ensures ResultOf(k, c).value == R.SequenceOf(|k.audit| + 1)
  {
    AcceptedIsAuthorised(c);
    AcceptedEffect(k, c);
  }

  /** A verify call returns the number of the last record before it, zero if there is none,
      exactly unless that number is 2^64 - 1: there the counter has wrapped, and the saturating
      subtraction returns zero. */
  lemma VerifyReturnsLastNumber(k: Kernel, c: Call)
    requires Wf(k) && c.Authorised(SysAuditVerify)
    ensures ResultOf(k, c).value == R.SequenceOf(|k.audit|) <==> R.SequenceOf(|k.audit|) != U64_MAX
  {
    AcceptedIsAuthorised(c);
    AcceptedEffect(k, c);
    R.SequenceAdvances(|k.audit|);
  }

  // ---------------------------------------------------------------- an unaudited denial

  /** Denials are not all audited. A call that returns PermissionDenied leaves no audit record
      exactly if it asks for system information with an output buffer whose flags are known
      ones but do not include WRITE: that denial comes from the handler, not from validation,
      and the entry of the call is not an audited one. */
  lemma UnauditedDenial(k: Kernel, c: Call)
    requires Wf(k)
    ensures ResultOf(k, c).status.PermissionDenied? && After(k, c).audit == k.audit <==>
              && c.Number() == Some(SysInfo)
              && LowWord(c.frame.args[2]) < 8
              && !Bits.TestBit(LowWord(c.frame.args[2]), 1)
  {
    var a := Answered(c, ResultOf(k, c));
    CallAccounting(k, c);
    AcceptedIsAuthorised(c);
    if MustAudit(a) {
      assert |After(k, c).audit| == |k.audit| + 1;
    } else {
      assert After(k, c).audit == k.audit;
    }
    if c.Accepted() {
      InfoDenied(k.memory.limits, c.frame);
      if !MustAudit(a) && c.Number() != Some(SysInfo) { QuietCallsAreNotDenied(k, c); }
    } else {
      RejectedCallsOnlyLog(k, c);
    }
  }

  lemma InfoDenied(l: M.UserLimits, frame: SyscallFrame)
    requires M.LimitsOk(l)
    ensures InfoResult(l, frame).status.PermissionDenied? <==>
              LowWord(frame.args[2]) < 8 && !Bits.TestBit(LowWord(frame.args[2]), 1)
  {
    var out := M.UserBuffer(frame.args[0], frame.args[1], LowWord(frame.args[2]), 0);
    MT.BufferOutcome(l, out, M.AccessWrite);
  }

  lemma RandomNotDenied(l: M.UserLimits, frame: SyscallFrame)
    requires M.LimitsOk(l)
    ensures !RandomResult(l, frame).status.PermissionDenied?
  {
  }

  /** Of the calls that are not audited, only the information call is ever denied by its handler. */
  lemma QuietCallsAreNotDenied(k: Kernel, c: Call)
    requires Wf(k) && c.Accepted() && Entry(c.Number().value).audit.None? && c.Number() != Some(SysInfo)
    ensures !ResultOf(k, c).status.PermissionDenied?
  {
    AcceptedEffect(k, c);
    var n := c.Number().value;
    if n.SysYield? {
      YieldNotDenied(k.sched);
    } else {
      QuietReadsAreNotDenied(k, n, c.frame, c.ctx);
    }
  }

  lemma YieldNotDenied(s: S.Sched)
    requires S.Wf(s)
    ensures !SchedReply(s, SR.OpYield).status.PermissionDenied?
  {
  }

  lemma QuietReadsAreNotDenied(k: Kernel, n: SyscallNumber, frame: SyscallFrame, ctx: DispatchContext)
    requires M.Wf(k.memory)
    requires Entry(n).audit.None? && !n.SysInfo? && !n.SysYield?
    ensures !IsSchedCall(n) && !IsMemoryCall(n)
    ensures !ReadOnlyResult(k, n, frame, ctx).status.PermissionDenied?
  {
    RandomNotDenied(k.memory.limits, frame);
  }
}
