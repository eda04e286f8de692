# Verification of the Alani kernel skeleton

This project models the authority-bearing core of `alani-kernel` (the cooperative scheduler, the
capability registry, the memory manager, the audit and fault rings, the syscall table and the
kernel facade over them) and proves what that core promises over arbitrary runs.

`dafny verify dfyconfig.toml` checks the whole project.

## How it is built

Each subsystem that the Rust code changes in place is a class over the same fields and fixed-size
arrays, with the same linear scans, early returns and counters: `RunQueue`, `Scheduler`,
`CapabilityRegistry`, `MemoryMap`, `MemoryManager`, `DiagnosticRing` (one class for the audit log
and the fault reporter, which share their logic) and `Kernel`. Every method that changes state is
proved equal to a function on values (`SchedulerModel`, `RegistryModel`, `MemoryModel`, `Ring`,
`KernelModel`): its `ensures` gives the whole new state and the result. The theorems are about
those functions and about runs, that is, arbitrary sequences of public operations or of syscalls.

Machine integers are subset types (`u8`, `u16`, `u32`, `u64`), so an addition that the Rust code
leaves unchecked is a proof obligation here, and truncation, saturation and wrap-around are written
out. Bit masks are numbers below 2^32 or 2^64 with `&`, `|` and `!` defined digit by digit in
`Bits`, where they get their meaning.

| file | models |
|---|---|
| Machine.dfy, Errors.dfy, Bits.dfy, Sets.dfy | integer widths, errors and statuses, bitwise operators, sizes of sets |
| Capabilities.dfy, RegistryModel.dfy, Registry.dfy | capability sets; handles, derivation, revocation |
| SchedulerModel.dfy, SchedulerOperations.dfy, SchedulerRuns.dfy, SchedulerAging.dfy, SchedulerFairness.dfy, SchedulerTurns.dfy, Scheduler.dfy | tasks and operations; what each operation does, field by field; theorems over runs; bounds on aging; waiting while runnable; round robin; the classes |
| MemoryModel.dfy, MemoryOperations.dfy, MemoryTheory.dfy, MemoryManager.dfy | regions, ranges, sharing; what each operation does; theorems; the classes |
| Ring.dfy | the overwriting ring as a view of its full history |
| Syscalls.dfy, Devices.dfy | the syscall table and validation; the device checks that dispatch consults |
| KernelModel.dfy, KernelReplies.dfy, KernelTheory.dfy, Kernel.dfy | one syscall; what every call returns and changes; theorems over runs of syscalls; the facade |

## Findings

Promises of the repository that its code keeps only in part, each with the exact condition:

- The current task is Running (src/scheduler.rs:384-393). A yield at the last tick demotes the
  current task and then fails, leaving it current and Ready (`CurrentRunsUnlessLastTick`; a run from
  the empty scheduler that reaches this: `LastTickWitness`).
- One Running task (src/scheduler.rs:354-374). `transition` to Running demotes no other task
  (`TransitionAgreement`; a run to two Running tasks: `TwoRunningWitness`); no syscall reaches it, so
  runs of syscalls are safe (`CurrentIsSoleRunning`).
- "Security denials are never sampled away" (src/audit.rs:1-5). The denial that `sys_info` itself
  returns for a buffer without WRITE leaves no audit record; it is the only such denial
  (`UnauditedDenial`).
- "Round-robin" (src/scheduler.rs:3-4). Tasks alike take turns when they yield
  (`AlikeTasksTakeTurns`). When they do not, a Running task that loses does not age
  (src/scheduler.rs:424-426), and n >= 4 plain selections among k fresh tasks alike take turns if and
  only if k is not 2 (`SchedulesTakeTurns`): two are picked 1, 2, 1, 1, 2, 1, 1, 2, ...
  (`TwoTasksMissTurns`).

Where the code does what it says, but it matters how:

- "Finds the first region containing the range" (src/memory.rs:244-250): an empty range on the boundary
  of two regions is found in whichever was added first (`BoundaryWitness`); every other lookup is
  independent of the order (`LookupOrderIndependence`).
- Waiting is bounded for a task that is runnable at every selection (`RunnableWaiting`), provided that
  no `transition` forces it to Running again: one before each selection starves it
  (`ForcedTaskStarves`).
- When the host spawns tasks with bounded budgets, a current task out of its budget makes every yield
  fail, with the clock standing still, as long as it is not terminated (`ExhaustedTaskStarvesOthers`).
  Tasks that syscalls or the boot sequence spawn have no bounded budget: with only those, no authorised
  yield fails before the last tick and no task starves (`AuthorisedYieldsSucceed`, `NoStarvation`).

## Model

| member | source | states |
|---|---|---|
| SchedulerRuns.BoundedWaiting | src/scheduler.rs:391-436 | no starvation: whatever is spawned, moved, cancelled or yielded in between, a task that is Ready whenever a selection starts is picked by one of any 479 + k consecutive successful selections, k the number of stored tasks, so by one of any 543 |
| SchedulerRuns.WaitingLosesOften | src/scheduler.rs:395-432 | the count behind it: a task passed over n times has seen at most 478 + k selections, because each late winner is too young to win again |
| SchedulerFairness.RunnableWaiting | src/scheduler.rs:391-436 | the same for a task that may be Ready or Running at each selection and that no transition makes Running: it is picked by one of any 480 + k consecutive successful selections |
| SchedulerFairness.ForcedTaskStarves | src/scheduler.rs:354-374 | that condition is needed: for every n up to 2^64 - 1 a run in which task 2 is runnable at each of n selections, forced to Running before each, and none picks it |
| SchedulerTurns.AlikeTasksTakeTurns | src/scheduler.rs:377-436 | round robin: in every reachable state whose runnable tasks have one class, base priority and deadline and only the current one Running, n yields that no budget stops pick them in one fixed order over and over, longest waiting first and ties by slot |
| SchedulerTurns.FreshTasksTakeTurns | src/scheduler.rs:377-436 | for k tasks alike, all Ready and none aged, that order is 1, 2, ..., k |
| SchedulerTurns.SpawnedTasksTakeTurns | src/scheduler.rs:335-436 | so after k like spawns from the empty scheduler any number of yields pick 1, 2, ..., k, 1, 2, ... |
| SchedulerTurns.SchedulesTakeTurns | src/scheduler.rs:392-436 | without yields, four or more selections among k such tasks take turns if and only if k is not 2 |
| SchedulerTurns.TwoTasksMissTurns | src/scheduler.rs:424-426 | two such tasks are picked 1, 2, 1, 1, 2, 1, ...: selection i picks task 2 if and only if i mod 3 = 1 |
| SchedulerOperations.PickIsExact | src/scheduler.rs:395-411 | a selection picks a task if and only if it is Ready or Running and goes before every other such task: ahead in points of dynamic priority, age, class and deadline at the new tick, or level and in a lower slot |
| SchedulerOperations.ExchangeRates | src/scheduler.rs:463-474 | of two runnable tasks the first is picked if and only if its points are at least the second's, one point for one of priority or of age, 96, 80, 48, 32, 16 and 0 for the classes, 128 for an expired deadline |
| SchedulerOperations.LowerPriorityWaits | src/scheduler.rs:395-411 | no task is picked while one alike in class, age and deadline but of higher dynamic priority is runnable, nor while an equal one in a lower slot is |
| SchedulerOperations.FirstPickIsHighest | src/scheduler.rs:335-411 | after any number of spawns of one class from the empty scheduler the first selection picks the highest priority among the first 64, the earliest of several |
| SchedulerRuns.SelectionIsExact | src/scheduler.rs:392-436 | a selection fails exactly at the last tick and then changes nothing; otherwise it picks the lowest-numbered runnable slot of maximal score and leaves it the one Running task, or finds nothing runnable and changes no task |
| SchedulerOperations.SelectionLeaves | src/scheduler.rs:413-434 | the picked task is Running, aged 0, at its base priority and counted one more switch; other Running tasks are Ready and have not aged; other Ready tasks are older and at the priority of that age; the rest is unchanged |
| SchedulerRuns.BestIsTheLeader | src/scheduler.rs:395-411 | the scan yields slot i if and only if i is the lowest runnable slot of maximal score, and nothing if and only if no task is runnable |
| SchedulerRuns.ScoreRange | src/scheduler.rs:463-474 | a stored task's score lies between its age plus 1 and its age plus 480, and never exceeds 66015 |
| SchedulerRuns.ClassAndDeadlineOrder | src/scheduler.rs:56-68 | of two tasks alike otherwise, one past its deadline scores more whatever the classes, and with no such difference the order is Audit, Kernel, Runtime, Interactive, Cognitive, Background |
| SchedulerRuns.SwitchesAreSelections | src/scheduler.rs:413-436 | over any run the total of the context-switch counters grows by the selections that picked a task, each task's counter by those that picked it, the tick by all of them; the total never exceeds the tick |
| SchedulerOperations.TransitionIsExact | src/scheduler.rs:354-374 | a transition of a stored task succeeds if and only if it goes to Zombie, to Ready from New, Running, Blocked, Sleeping or Suspended, to Running or Suspended from Ready, or to Blocked, Sleeping or Exiting from Running; it returns the states before and after, and changes only the task's state and who is current |
| SchedulerOperations.CancelIsExact | src/scheduler.rs:438-457 | the same for a cancel, which succeeds from every state but Exiting and Zombie |
| SchedulerOperations.ParkedTasksWake | src/scheduler.rs:476-492 | a Running task put to wait or a Ready one suspended, and then moved to Ready, is Ready with all else as it was, and no other task has changed |
| SchedulerOperations.AnyParkedTaskWakes | src/scheduler.rs:476-492 | from any state a Blocked, Sleeping or Suspended task is Ready after one transition, and nothing else in the table changes |
| SchedulerRuns.StepFollowsLifecycle | src/scheduler.rs:476-492 | every operation moves every stored task along the lifecycle graph and keeps its identity, also the ones that write states without consulting it; selections leave alone every task that is not runnable |
| SchedulerRuns.LifecycleOverRuns | src/scheduler.rs:354-374 | over any run Zombie is absorbing, Exiting leads only to Zombie, New is never reached, and no task is dropped, renumbered or re-prioritised |
| SchedulerOperations.SpawnIsExact | src/scheduler.rs:335-351 | a spawn succeeds if and only if fewer than 64 tasks are stored, returns the next identifier and stores a Ready task of age 0 with the given parent, class, priority, budget and capabilities; otherwise it stores nothing and reports CapacityExceeded, or Internal once the identifiers are used up |
| SchedulerRuns.TableCountsSpawns | src/scheduler.rs:335-351 | slots are never freed: after any run the table holds the first 64 tasks ever spawned, slot i holding id i + 1 |
| SchedulerRuns.CurrentRunsUnlessLastTick | src/scheduler.rs:377-393 | before the last tick the current task is stored and Running; an operation breaks this exactly if it is a yield at the last tick whose current task is not out of a bounded budget |
| SchedulerRuns.LastTickWitness | src/scheduler.rs:384-393 | a run from the empty scheduler after which such a failed yield leaves the current task Ready |
| SchedulerRuns.AgreementOverRuns | src/scheduler.rs:377-457 | over any run without `transition` a task is Running if and only if it is current, until the tick is exhausted |
| SchedulerRuns.TransitionAgreement | src/scheduler.rs:354-374 | `transition` breaks that agreement exactly if it makes a Ready task Running while another is current |
| SchedulerRuns.TwoRunningWitness | src/scheduler.rs:354-374 | a run from the empty scheduler after which two tasks are Running |
| SchedulerOperations.YieldIsChargeThenSelection | src/scheduler.rs:377-389 | a yield takes one tick of a bounded budget from the current task and makes it Ready before it selects; out of that budget it fails and changes nothing |
| SchedulerOperations.BoundedIsExact | src/scheduler.rs:92-102 | a budget can be made if and only if ticks or deadline are not zero, and starts out full |
| SchedulerRuns.BudgetConserved | src/scheduler.rs:114-124 | over any run a budget loses exactly one tick per charged yield of its task |
| SchedulerRuns.BoundedBudgetIsExact | src/scheduler.rs:92-102 | a task spawned with a bounded budget is charged at most that often, and maximum minus remaining is the number of charges |
| SchedulerRuns.AgedOverRuns | src/scheduler.rs:415-432 | over any run each dynamic priority is the base priority plus the truncated quarter of the age, capped at 255 |
| SchedulerAging.AgesStayBounded | src/scheduler.rs:415-432 | in every state that any run of public operations reaches from the empty scheduler, no task's age exceeds 990 and no score reaches 992, so the cast to eight bits never truncates: the dynamic priority is the base plus a quarter of the age, capped at 255 |
| SchedulerAging.WaitingRaisesScore | src/scheduler.rs:426-432 | aging does what it is for: in every such state a step that selects raises the score of every task that is Ready at its scan and not picked, one just demoted by the yield included, by one or two |
| SchedulerRuns.AliveIsReadyAtScans | src/scheduler.rs:377-389 | in runs of the operations that syscalls perform, a task that is not terminated is Ready whenever a selection starts |
| SchedulerRuns.ExhaustedStarves | src/scheduler.rs:377-389 | over any run of the operations that syscalls perform, a current task out of a bounded budget keeps every selection from happening and stays current, as long as it is not terminated |
| SchedulerRuns.ReachableIsWf | src/scheduler.rs:308-317 | the empty scheduler satisfies the invariants, and so does every state a run reaches from it |
| RunQueue.RunQueue.Find | src/scheduler.rs:258-272 | the linear scan finds the slot of a stored id, and finds none only if no stored task has the id |
| RunQueue.RunQueue.Insert | src/scheduler.rs:238-256 | insertion appends a task exactly if its id is not zero and not present and a slot is free, and reports which of these failed |
| Scheduler.Scheduler.Locate | src/scheduler.rs:266-272 | in a scheduler the scan agrees with indexing by id, so its failure during a yield never arises |
| Scheduler.Scheduler.Spawn | src/scheduler.rs:334-351 | the new scheduler state and the result are those of the model |
| Scheduler.Scheduler.Transition | src/scheduler.rs:353-374 | the new scheduler state and the result are those of the model |
| Scheduler.Scheduler.Cancel | src/scheduler.rs:438-457 | the new scheduler state and the result are those of the model |
| Scheduler.Scheduler.YieldCurrent | src/scheduler.rs:376-389 | the new scheduler state and the result are those of the model |
| Scheduler.Scheduler.ScheduleNext | src/scheduler.rs:391-436 | the new scheduler state and the result are those of the model, without the error of the counter addition |
| Scheduler.Scheduler.ScanForBest | src/scheduler.rs:395-411 | the loop returns the lowest runnable slot of maximal score |
| Scheduler.Scheduler.UpdateForWin | src/scheduler.rs:413-434 | the in-place loop resets exactly the selected task and ages or demotes every other, its id test hitting one slot only |
| RegistryModel.DeriveIsExact | src/capability.rs:283-292 | deriving fails with NotFound if the parent is not live, ReservedBits if its rights are unknown, MissingCapability if some requested bit is not among its recorded ones, CapacityExceeded at 64 live handles, Internal once the identifiers are used up, and changes nothing; in every other case it returns the next identifier with the requested rights and the given owner, live and recorded as the parent's child |
| RegistryModel.EqualRightsDerive | src/capability.rs:169-175 | a live handle's rights derive whole, and so does the empty set |
| RegistryModel.IssueIsExact | src/capability.rs:253-277 | the outcomes of issuing, by cause, and the handle it returns |
| RegistryModel.ResolveIsExact | src/capability.rs:310-325 | resolving gives NotFound, ReservedBits or the rights recorded at issue exactly as the handle is not live, live with unknown rights, or live with known ones |
| RegistryModel.RevokeIsExact | src/capability.rs:295-307 | revoking succeeds if and only if the handle is live, and then only that handle is not |
| RegistryModel.LiveUntilRevoked | src/capability.rs:294-325 | over any run a live handle stays live if and only if no operation of the run revokes it |
| RegistryModel.RevocationIsPermanent | src/capability.rs:294-325 | after a successful revoke no handle with that identifier, whatever its other fields, resolves in any later state, despite slot reuse and generation wrap-around |
| RegistryModel.DeadStaysDead | src/capability.rs:258-276 | identifiers are never given out twice |
| RegistryModel.ResolveReturnsIssuedRights | src/capability.rs:309-325 | a live handle of known rights, root or derived, resolves after any run to exactly the rights recorded when it was issued, whatever rights and owner the presenter claims, unless the run revokes it |
| RegistryModel.RootResolvesOverRuns | src/capability.rs:249-277 | so a root handle resolves after any run to the rights it was issued with |
| RegistryModel.DerivedResolvesOverRuns | src/capability.rs:283-292 | so a derived handle resolves after any run to the rights that were requested, also when its parent has been revoked, unless it is revoked itself |
| RegistryModel.RightsAttenuate | src/capability.rs:279-292 | along every derivation chain a handle's rights are contained in those of each ancestor, and no capability is ever gained |
| RegistryModel.DeriveIsAttenuated | src/capability.rs:283-292 | a derived handle resolves to the requested rights, which its live parent contains, and is recorded as the parent's descendant |
| RegistryModel.StepExtends | src/capability.rs:253-306 | no operation rewrites an issued record, and failing operations change nothing |
| RegistryModel.NextGeneration | src/capability.rs:271 | the wrapping counter gives identifier id the generation ((id - 1) mod (2^32 - 1)) + 1 |
| Registry.CapabilityRegistry.FindFree | src/capability.rs:258-262 | the slot search fails exactly when 64 handles are live |
| Registry.CapabilityRegistry.Issue | src/capability.rs:253-277 | the slot table with reuse refines the finite map of live handles: new map and result are the model's |
| Registry.CapabilityRegistry.Derive | src/capability.rs:283-292 | the same for derivation |
| Registry.CapabilityRegistry.Revoke | src/capability.rs:295-307 | the same for revocation |
| Registry.CapabilityRegistry.Resolve | src/capability.rs:310-325 | the scan of the slots agrees with the map of live handles |
| Capabilities.ContainmentIsTransitive | src/capability.rs:150-152 | containment of masks is transitive |
| Capabilities.ContainedAddsNoAuthority | src/capability.rs:145-152 | a contained set has no capability its container lacks |
| Capabilities.KnownIsLowBits | src/capability.rs:119-125 | the reserved-bits check accepts exactly masks below 2^15 |
| Capabilities.CapabilityBits | src/capability.rs:22-59 | the mask of each capability, 0x1 to 0x4000 |
| MemoryModel.NewRegion | src/memory.rs:156-174 | a region is made exactly if, over unbounded integers, it is not empty and ends by 2^64 - 1 |
| MemoryTheory.TotalCountsAddresses | src/memory.rs:252-259 | for disjoint regions the total for a kind is the number of addresses of that kind, at most 2^64 - 1, so the unchecked sum cannot overflow |
| MemoryTheory.PushIsExact | src/memory.rs:228-242 | a region is added exactly if there is room and no address lies in it and in a region present, and regions stay disjoint |
| MemoryTheory.OverlapIsCommonAddress | src/memory.rs:182-184 | the overlap test holds exactly if some address lies in both regions |
| MemoryOperations.PushAppends | src/memory.rs:228-242 | a push appends the region, or reports CapacityExceeded at 64 regions or Overlap for a common address and leaves the map as it was |
| MemoryOperations.PushThenFind | src/memory.rs:228-250 | after a successful push a non-empty range finds the new region if every address of it lies there, and otherwise what it found before |
| MemoryOperations.ContainmentIsByAddress | src/memory.rs:187-193 | a region contains a non-empty range if and only if every address of the range is one of its own, and an empty one from its start to its end |
| MemoryOperations.FindIsExact | src/memory.rs:187-250 | the lookup returns the first region in which every address of the range lies, an empty range being enclosed up to and including the end, and none only if there is none |
| MemoryTheory.LookupOrderIndependence | src/memory.rs:245-250 | lookup gives the same answer for every ordering of the same disjoint regions if and only if the range is not an empty one where one region ends and another starts |
| MemoryTheory.BoundaryWitness | src/memory.rs:245-250 | two neighbouring regions for which the order of insertion decides the lookup of the empty range between them |
| MemoryTheory.ContainerIsUnique | src/memory.rs:187-193 | two different regions contain the same range only on such a boundary |
| MemoryTheory.RangeValidationIsExact | src/memory.rs:459-474 | a range is accepted if and only if, over unbounded integers, 1 <= len <= max, lower <= ptr, ptr + len <= upper and ptr mod alignment = 0 |
| MemoryOperations.RangeErrors | src/memory.rs:459-474 | which error each unacceptable range gets |
| MemoryOperations.NewManagerAccepts | src/memory.rs:386-397 | a new manager accepts exactly the non-empty ranges of at most 16 MiB from 0x1000 up to 2^47 |
| MemoryTheory.SettersKeepLimits | src/memory.rs:431-456 | each setter accepts exactly the meaningful values, powers of two for the alignment, and keeps the limits meaningful |
| MemoryOperations.BoundsTakeEffect | src/memory.rs:431-438 | after the call exactly the ranges within the new bounds and the other limits as they were are accepted; refused bounds change nothing |
| MemoryOperations.MaxLenTakesEffect | src/memory.rs:441-447 | the same for the maximal length |
| MemoryOperations.AlignmentTakesEffect | src/memory.rs:450-456 | the same for the alignment |
| MemoryOperations.PhaseNeverGoesBack | src/memory.rs:415-428 | over any run of operations the allocator phase does not go back, and advances by no more phases than it is told to |
| MemoryOperations.PhaseStepIsExact | src/memory.rs:415-428 | the phase may be set to itself or to the next one, and a refusal changes nothing |
| MemoryTheory.BufferValidationIsExact | src/memory.rs:477-499 | a buffer is accepted, and denied for its direction, exactly under these conditions on reserved field, flags, direction and range |
| Bits.LowMaskIsRemainder | src/memory.rs:470-472 | masking with a power of two less one is taking the remainder |
| MemoryTheory.ShareThenLookup | src/memory.rs:502-557 | sharing succeeds exactly for an acceptable range without SEALED while fewer than 32 regions are shared; then its handle looks up just that region and every other handle what it did before |
| MemoryOperations.ShareIsExact | src/memory.rs:502-535 | the error of each failing share, and the handle and region of a successful one |
| MemoryOperations.PermissionBits | src/memory.rs:92-108 | permission bits are accepted exactly below 64 |
| MemoryOperations.SealThenLookup | src/memory.rs:538-557 | sealing succeeds if and only if the handle looks up; afterwards that handle looks up the same region sealed, bit 1 clear, bit 5 set and every other bit as before, and every other handle what it did before |
| MemoryOperations.LookupTellsSealing | src/memory.rs:538-557 | over any run a handle looks up a sealed region at the end if and only if it did at the start or the run seals it once it is shared |
| MemoryOperations.NewManagerTellsSealing | src/memory.rs:538-557 | so from a new manager a looked-up region is sealed if and only if the run seals it after sharing it |
| MemoryTheory.SealBits | src/memory.rs:544-546 | sealing clears WRITE, sets SEALED and touches no other bit |
| MemoryTheory.SealingIsPermanent | src/memory.rs:538-548 | over any run a shared region keeps id, owner and range, is sealed at the end if and only if it was before or the run seals it, and keeps every other permission bit |
| MemoryTheory.ReachableMemory | src/memory.rs:386-397 | in every reachable state ids are slot plus one, sealed agrees with the SEALED bit and excludes WRITE, totals fit in 64 bits and range validation is exact |
| MemoryMap.MemoryMap.PushRegion | src/memory.rs:228-242 | the new map and the result are those of the model |
| MemoryMap.MemoryMap.Find | src/memory.rs:245-250 | the scan returns the first region that contains the range |
| MemoryMap.MemoryMap.Total | src/memory.rs:253-259 | the loop's 64-bit sum is the number of addresses of the kind |
| MemoryManager.MemoryManager.FindUnused | src/memory.rs:513-517 | the slot search fails exactly when 32 regions are shared |
| MemoryManager.MemoryManager.ShareRegion | src/memory.rs:502-535 | the new manager state and the result are those of the model, without the error of the id addition |
| MemoryManager.MemoryManager.SealRegion | src/memory.rs:538-548 | the new manager state and the result are those of the model |
| MemoryManager.MemoryManager.LookupRegion | src/memory.rs:551-557 | the scan agrees with indexing by id |
| Ring.AppendReflects | src/audit.rs:151-159 | writing at the cursor turns a ring that retains the newest records of a history into one that retains the newest of the history with the record added |
| DiagnosticRing.DiagnosticRing.Append | src/audit.rs:151-159 | for any number of appends the ring retains the newest records of the full history, the k-th numbered k mod 2^64 |
| DiagnosticRing.DiagnosticRing.Get | src/audit.rs:205-216 | position i of n records is record n - len + i of the history with its number, and nothing past len |
| DiagnosticRing.DiagnosticRing.Last | src/audit.rs:192-202 | the last record is that of the history |
| DiagnosticRing.DiagnosticRing.Len | src/fault.rs:143-145 | the number retained is the smaller of the history and the capacity |
| Syscalls.NumbersRoundTrip | src/syscall.rs:188-288 | decoding undoes the numbering that frames are made with, and no other number decodes |
| Syscalls.RequiredCapabilities | src/syscall.rs:467-708 | which calls need which capability |
| Syscalls.SafeContexts | src/syscall.rs:455-708 | exactly the information, time and trace calls may be made during boot or from an interrupt |
| Syscalls.AuditedCalls | src/syscall.rs:467-708 | what each call is audited as; every call that needs a capability is audited but for the task status and the device list, and of the others only the exit |
| Errors.StatusOfErrors | src/error.rs:81-101 | which errors a caller sees as which status, and none of them as Ok |
| Syscalls.LookupIsExact | src/syscall.rs:745-750 | the table scan finds a descriptor for exactly the numbers that decode, and it is that number's entry |
| Syscalls.ValidationIsExact | src/syscall.rs:753-768 | a call passes exactly if its number decodes, its context is allowed and the required capability is held; which of these fails decides the error |
| KernelTheory.RejectedCallsOnlyLog | src/lib.rs:185-191 | a call that validation rejects changes the two logs and nothing else, and its status says why |
| KernelReplies.SpawnReply | src/lib.rs:289-319 | an authorised spawn is refused exactly for a priority past 255 or a non-empty manifest outside the caller's memory, is Busy at 64 tasks, and otherwise returns a new Ready Runtime task, child of the caller, without capabilities or a bounded budget, of base priority args[3], or 32 for zero |
| KernelReplies.CancelReply | src/lib.rs:321-326 | an authorised cancel makes the task it names a Zombie and returns its identifier; by cause it fails as not found or refused, and changes nothing |
| KernelReplies.ExitReply | src/lib.rs:282-287 | the same for an exit and the caller |
| KernelReplies.YieldReply | src/lib.rs:274-280 | an authorised yield reports an exceeded budget, the exhausted clock, or the task it leaves current |
| KernelReplies.ShareReply | src/lib.rs:350-362 | an authorised share is refused exactly for unknown permission bits, SEALED or an unacceptable range, is Busy at 32 regions, and otherwise stores the range as the caller's and returns its identifier and permissions |
| KernelReplies.SealReply | src/lib.rs:364-374 | an authorised seal seals the region named, whoever shared it, and no other, and is not found exactly for an unknown identifier |
| KernelReplies.SharedThenSealed | src/lib.rs:350-374 | a region shared by one call and sealed by another looks up, for every presenter, as the shared range of its owner, sealed and not writable |
| KernelReplies.OpenReply | src/lib.rs:376-381 | an authorised open returns the identifier and class of the first device of that identifier, unless it is missing, not usable or asks for a capability bit that the caller lacks |
| KernelReplies.CallReply | src/lib.rs:383-398 | an authorised device call fails, by cause, for an operation out of range or not supported, a missing, unusable or too demanding device, or a buffer too long, and succeeds otherwise |
| KernelReplies.LookReply | src/lib.rs:222-413 | what every other authorised call returns, values and failure statuses, from its arguments and the state |
| KernelTheory.OnlyAuthorisedCallsChangeState | src/lib.rs:222-261 | only an authorised yield, exit, spawn or cancel changes the scheduler, only an authorised share or seal changes memory |
| KernelTheory.NoCallChangesTheRest | src/lib.rs:222-261 | no call changes a device, a memory region, a userspace limit or the allocator phase |
| KernelTheory.SharingIsConfined | src/lib.rs:350-374 | a run whose callers never hold MemoryShare leaves memory as it was |
| KernelTheory.SpawningIsConfined | src/lib.rs:289-319 | a run whose callers never hold TaskSpawn creates no task |
| KernelTheory.TerminationIsAuthorised | src/lib.rs:282-326 | a task alive before a run and terminated after it exited in it or was cancelled in it by a caller with TaskManage; from states of the shape that syscalls keep, a task is terminated at the end if and only if it was before or the run has such a call |
| KernelTheory.NoStarvation | src/lib.rs:274-280 | in a run of syscalls from a kernel without bounded budgets, such as a new or booted one, among any 479 + k authorised yields before the tick is exhausted one returns task t, if t is never terminated |
| KernelTheory.AuthorisedYieldsSucceed | src/lib.rs:274-280 | in such runs every authorised yield succeeds until the tick is exhausted |
| KernelTheory.YieldsTakeTurns | src/lib.rs:274-280 | round robin through the syscall interface: in a run of syscalls that spawns and terminates no task, the authorised yields return tasks alike in turn, whatever other calls are mixed in |
| KernelTheory.SuccessfulYieldsReachAll | src/lib.rs:274-280 | whatever the budgets, among any 479 + k successful yields one returns task t, if t is never terminated |
| KernelTheory.ExhaustedTaskStarvesOthers | src/lib.rs:274-280 | while a current task out of a bounded budget is not terminated, no yield of a run of syscalls succeeds and sys_time stands still |
| KernelTheory.YieldsReportSelections | src/lib.rs:274-280 | the values returned by the successful yields of a run are, in order, the tasks the scheduler picked |
| KernelTheory.StatusCountsYields | src/lib.rs:328-333 | over any run sys_time grows by the number of successful yields, and the switch count that sys_task_status reports by the number that returned the task |
| KernelTheory.CurrentIsSoleRunning | src/lib.rs:274-326 | in runs of syscalls the current task is the one Running task, until the tick is exhausted |
| KernelTheory.SealSurvivesSyscalls | src/lib.rs:364-374 | over any run of syscalls a shared region keeps identity and range, is sealed at the end if and only if it was before or an authorised seal call of the run names it, keeps every permission bit but WRITE and SEALED, and if sealed is not writable |
| KernelTheory.CallAccounting | src/lib.rs:180-220 | a call adds one audit record if its entry is audited or validation denies it and none otherwise, one fault record if it fails and none otherwise, each with the call's task, trace and status and the kind, severity and phase that the call and its status ask for |
| KernelTheory.RunAccounting | src/lib.rs:180-220 | over any run the records added are, one for one and in order, those of the calls that must be audited and of the calls that failed |
| KernelTheory.AppendReturnsItsNumber | src/lib.rs:255 | sys_audit_append leaves one record and returns the number of that very record |
| KernelTheory.VerifyReturnsLastNumber | src/lib.rs:257-259 | sys_audit_verify returns the number of the last record exactly unless that number is 2^64 - 1 |
| KernelTheory.UnauditedDenial | src/lib.rs:263-272 | a call that returns PermissionDenied leaves no audit record exactly if it asks for system information with known buffer flags that lack WRITE |
| KernelTheory.RunsMayStart | src/lib.rs:134-176 | a new kernel, booted or not, satisfies every invariant that the theorems ask for, has no bounded budget and a reachable scheduler |
| KernelTheory.SyscallsStayReachable | src/lib.rs:222-261 | runs of syscalls lead from reachable scheduler states to reachable ones, so the theorems about reachable states hold after any run from a new or booted kernel |
| Kernel.Kernel.HandleSyscall | src/lib.rs:180-220 | the new kernel state and the result are those of the model |
| Kernel.Kernel.DispatchValidated | src/lib.rs:222-261 | the new kernel state and the result are those of the model |
| Kernel.Kernel.RecordRejected | src/lib.rs:415-463 | exactly the audit and fault records of the rejection are appended |
| Kernel.Kernel.RecordOutcome | src/lib.rs:194-218 | exactly the audit and fault records of a dispatched call are appended |

## Left out

- Reason labels, names, data classes and the sequence field inside a record: the ring carries the sequence number beside the record, the rest is presentational.
- The device registry (src/device.rs) is a value that dispatch consults: registration and DMA policy are not modelled, while its authorisation checks are covered by the calls that make them.
- Boot phase tracking (src/boot.rs): runs start from a new kernel or from the state after boot.
- The stub syscalls that return constants are modelled as such; they change nothing.
- `record_panic`, `KernelConfig`, component metadata, ABI layout, the `FrameAllocator` and `AuditSink` traits: they add no behaviour to the runs above.
- Regions built by struct literal without the checks of `MemoryRegion::new`: map operations take proper regions only.
- The kernel holds its subsystems as separate objects handed to its constructor, where the Rust struct holds them inline; their separation is part of its invariant.
- Dispatch is grouped into calls that reach the scheduler, calls that reach shared memory and calls that only look, where the Rust code has one match.
- The diagnostic readers `stats`, `tasks`, `len` of the run queue and `handle_contains`: easy functions of state that is modelled.
