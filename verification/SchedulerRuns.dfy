/** Arbitrary interleavings of the public scheduler operations. */
module SchedulerRuns {
  import opened Machine
  import opened Errors
  import opened Capabilities
  import opened SchedulerModel
  import opened Sets

  datatype Op =
    | OpSpawn(
        parentId: TaskId, schedClass: SchedulerClass, priority: u8, capabilities: CapabilitySet, budget: BudgetAccount)
    | OpTransition(id: TaskId, to: TaskState)
    | OpCancel(id: TaskId)
    | OpYield
    | OpSchedule

  function Step(s: Sched, op: Op): (s': Sched)
    requires Wf(s)
    ensures Wf(s')
  {
    match op
    case OpSpawn(parentId, schedClass, priority, capabilities, budget) =>
      Spawn(s, parentId, schedClass, priority, capabilities, budget).0
    case OpTransition(id, to) => Transition(s, id, to).0
    case OpCancel(id) => Cancel(s, id).0
    case OpYield => YieldCurrent(s).0
    case OpSchedule =>
      ScheduleNext(s).0
  }

  function Run(s: Sched, ops: seq<Op>): (s': Sched)
    requires Wf(s)
    ensures Wf(s')
    decreases |ops|
  {
    if ops == [] then s else Run(Step(s, ops[0]), ops[1..])
  }

  /** The state in which a successful selection scan of this step starts, if it makes one. */
  function BeforeScan(s: Sched, op: Op): (before: Option<Sched>)
    requires Wf(s)
    ensures before.Some? ==> TableOk(before.value) && before.value.tick < U64_MAX
  {
    if s.tick == U64_MAX then None
    else
      match op
      case OpSchedule => Some(s)
      case OpYield => (match ChargeAndDemote(s) case Success(s1) => Some(s1) case Failure(_) => None)
      case _ => None
  }

  /** The outcomes of the successful selections of a run, in order. */
  function Selections(s: Sched, ops: seq<Op>): seq<Option<TaskId>>
    requires Wf(s)
    decreases |ops|
  {
    if ops == [] then []
    else
      var rest := Selections(Step(s, ops[0]), ops[1..]);
      match BeforeScan(s, ops[0])
      case None => rest
      case Some(before) => [ScheduleNext(before).1.value] + rest
  }

  lemma {:induction false} RunSplits(s: Sched, a: seq<Op>, b: seq<Op>)
    requires Wf(s)
    ensures Run(s, a + b) == Run(Run(s, a), b)
    ensures Selections(s, a + b) == Selections(s, a) + Selections(Run(s, a), b)
    decreases |a|
  {
    if a == [] {
      assert a + b == b;
    } else {
      assert (a + b)[0] == a[0] && (a + b)[1..] == a[1..] + b;
      RunSplits(Step(s, a[0]), a[1..], b);
    }
  }

  lemma RunAppend(s: Sched, ops: seq<Op>, op: Op)
    requires Wf(s)
    ensures Run(s, ops + [op]) == Step(Run(s, ops), op)
  {
    RunSplits(s, ops, [op]);
    assert Run(Run(s, ops), [op]) == Run(Step(Run(s, ops), op), [op][1..]);
  }

  /** A step makes a successful selection exactly when its operation reports one. */
  lemma ScanIsTheSelection(s: Sched, op: Op)
    requires Wf(s)
    ensures BeforeScan(s, op).Some? <==>
              (op.OpYield? && YieldCurrent(s).1.Success?) || (op.OpSchedule? && ScheduleNext(s).1.Success?)
    ensures BeforeScan(s, op).Some? ==>
              && ScheduleNext(BeforeScan(s, op).value).1.Success?
              && Step(s, op) == ScheduleNext(BeforeScan(s, op).value).0
              && (op.OpYield? ==> YieldCurrent(s).1 == ScheduleNext(BeforeScan(s, op).value).1)
  {
  }

  // ---------------------------------------------------------------- what a selection picks

  /** Slot i is the lowest runnable slot of maximal score among the first n. */
  ghost predicate Leads(tasks: seq<Task>, now: u64, n: nat, i: nat)
    requires n <= |tasks|
  {
    && i < n
    && tasks[i].IsRunnable()
    && forall j | 0 <= j < n && tasks[j].IsRunnable() ::
         tasks[j].Score(now) <= tasks[i].Score(now) && (j < i ==> tasks[j].Score(now) < tasks[i].Score(now))
  }

  lemma {:induction false} BestIsTheLeader(tasks: seq<Task>, now: u64, n: nat)
    requires n <= |tasks|
    ensures BestOf(tasks, now, n).None? <==> forall i | 0 <= i < n :: !tasks[i].IsRunnable()
    ensures forall i: nat :: Leads(tasks, now, n, i) <==> BestOf(tasks, now, n) == Some(i)
  {
    if n > 0 {
      BestIsTheLeader(tasks, now, n - 1);
      var best := BestOf(tasks, now, n - 1);
      if best.Some? { assert Leads(tasks, now, n - 1, best.value); }
    }
  }

  /** Apart from the age, scores of stored tasks lie within 479 of each other. */
  lemma ScoreRange(s: Sched, i: nat, now: u64)
    requires TableOk(s) && i < |s.tasks|
    ensures s.tasks[i].age + 1 <= s.tasks[i].Score(now) <= s.tasks[i].age + 480 <= 66015
  {
    assert TaskOk(s.tasks, i);
  }

  /** The classes from the one served first to the one served last. */
  function ServiceOrder(c: SchedulerClass): nat {
    match c
    case Audit => 0 case Kernel => 1 case Runtime => 2 case Interactive => 3 case Cognitive => 4 case Background => 5
  }

  /** Two tasks alike in all but class and budget: an expired deadline outweighs any class, and
      without that difference the class served earlier scores more. */
  lemma ClassAndDeadlineOrder(a: Task, b: Task, now: u64)
    requires a.dynamicPriority == b.dynamicPriority && a.weight == b.weight && a.age == b.age
    ensures var (expiredA, expiredB) := (a.budget.DeadlineExpired(now), b.budget.DeadlineExpired(now));
            a.Score(now) > b.Score(now) <==>
              if expiredA == expiredB then ServiceOrder(a.schedClass) < ServiceOrder(b.schedClass) else expiredA
  {
  }

  /** A selection fails exactly at the last tick, changing nothing. Otherwise it picks the
      lowest runnable slot of maximal score and leaves it the only Running task, or finds no
      runnable task and changes no task. */
  lemma SelectionIsExact(s: Sched)
    requires TableOk(s)
    ensures var (s', r) := ScheduleNext(s);
            && (r.Failure? <==> s.tick == U64_MAX)
            && (r.Failure? ==> s' == s && r.error == Internal)
            && (r.Success? ==>
                  && s'.tick == s.tick + 1 && s'.current == r.value
                  && match r.value
                     case None => s'.tasks == s.tasks && forall i | 0 <= i < |s.tasks| :: !s.tasks[i].IsRunnable()
                     case Some(t) =>
                       && Stored(s, t)
                       && Leads(s.tasks, s.tick + 1, |s.tasks|, t - 1)
                       && s'.tasks[t - 1].contextSwitches == s.tasks[t - 1].contextSwitches + 1
                       && forall i | 0 <= i < |s'.tasks| :: s'.tasks[i].state.Running? <==> i == t - 1)
  {
    if s.tick < U64_MAX { BestIsTheLeader(s.tasks, s.tick + 1, |s.tasks|); }
  }

  // ---------------------------------------------------------------- bounded waiting

  /** Task t is Ready whenever a successful selection of the run starts. */
  ghost predicate ReadyAtEachScan(s: Sched, ops: seq<Op>, t: TaskId)
    requires Wf(s)
    decreases |ops|
  {
    ops != [] ==>
      && (BeforeScan(s, ops[0]).Some? ==>
            var before := BeforeScan(s, ops[0]).value;
            Stored(before, t) && before.tasks[t - 1].state.Ready?)
      && ReadyAtEachScan(Step(s, ops[0]), ops[1..], t)
  }

  /** Operations leave alone everything the score of a stored task depends on. */
  ghost predicate SameScoring(a: Task, b: Task) {
    && a.age == b.age && a.contextSwitches == b.contextSwitches
    && a.basePriority == b.basePriority && a.dynamicPriority == b.dynamicPriority
  }

  lemma StepKeepsScoring(s: Sched, op: Op)
    requires Wf(s) && BeforeScan(s, op).None?
    ensures |s.tasks| <= |Step(s, op).tasks|
    ensures forall i | 0 <= i < |s.tasks| :: SameScoring(s.tasks[i], Step(s, op).tasks[i])
  {
  }

  lemma ScanKeepsScoring(s: Sched, op: Op)
    requires Wf(s) && BeforeScan(s, op).Some?
    ensures |BeforeScan(s, op).value.tasks| == |s.tasks|
    ensures forall i | 0 <= i < |s.tasks| :: SameScoring(s.tasks[i], BeforeScan(s, op).value.tasks[i])
  {
  }

  /** After n selections that task t lost while Ready: t has aged n times, and each slot of
      `late`, the winners of the selections past the first 479, is too young to win again. */
  ghost predicate Waited(s: Sched, t: TaskId, n: nat, late: set<nat>) {
    && Stored(s, t)
    && n <= 478 + |s.tasks|
    && s.tasks[t - 1].age >= n
    && |late| == (if n <= 479 then 0 else n - 479)
    && (forall i | i in late :: i < |s.tasks| && i != t - 1)
    && (forall i | i in late :: s.tasks[i].age + 480 <= n)
  }

  lemma LateIsTooYoung(s: Sched, t: TaskId, n: nat, late: set<nat>, i: nat)
    requires TableOk(s) && s.tick < U64_MAX && Waited(s, t, n, late) && i in late
    ensures s.tasks[i].Score(s.tick + 1) < s.tasks[t - 1].Score(s.tick + 1)
  {
    ScoreRange(s, i, s.tick + 1);
    ScoreRange(s, t - 1, s.tick + 1);
  }

  /** A lost selection moves the count on by one; its winner is none of the late winners. */
  lemma LostSelection(s: Sched, t: TaskId, n: nat, late: set<nat>) returns (late': set<nat>)
    requires TableOk(s) && s.tick < U64_MAX
    requires Waited(s, t, n, late) && s.tasks[t - 1].state.Ready?
    requires ScheduleNext(s).1.value != Some(t)
    ensures Waited(ScheduleNext(s).0, t, n + 1, late')
  {
    var w := AgesAfterLoss(s, t);
    forall i | i in late ensures i != w { LateIsTooYoung(s, t, n, late, i); }
    late' := if n < 479 then late else late + {w};
    OnlySlots(late', |s.tasks|, t - 1);
  }

  /** What a selection that task t loses does to the ages; w is the winner's slot. */
  lemma AgesAfterLoss(s: Sched, t: TaskId) returns (w: nat)
    requires TableOk(s) && s.tick < U64_MAX && Stored(s, t) && s.tasks[t - 1].state.Ready?
    requires ScheduleNext(s).1.value != Some(t)
    ensures w < |s.tasks| && w != t - 1
    ensures s.tasks[t - 1].Score(s.tick + 1) <= s.tasks[w].Score(s.tick + 1)
    ensures var s' := ScheduleNext(s).0;
            && |s'.tasks| == |s.tasks|
            && s'.tasks[t - 1].age == Min(s.tasks[t - 1].age + 1, U16_MAX)
            && s'.tasks[w].age == 0
            && forall i | 0 <= i < |s.tasks| :: s'.tasks[i].age <= s.tasks[i].age + 1
  {
    w := WinnerOverRunnable(s.tasks, s.tick + 1, t - 1);
    SelectionOf(s, w);
  }

  /** Where some task is runnable the scan ends on a slot that scores at least as much. */
  lemma WinnerOverRunnable(tasks: seq<Task>, now: u64, i: nat) returns (w: nat)
    requires i < |tasks| && tasks[i].IsRunnable()
    ensures w < |tasks| && BestOf(tasks, now, |tasks|) == Some(w) && tasks[i].Score(now) <= tasks[w].Score(now)
  {
    BestIsTheLeader(tasks, now, |tasks|);
    w := BestOf(tasks, now, |tasks|).value;
    assert Leads(tasks, now, |tasks|, w);
  }

  /** A set of slots other than one given slot misses at least that one. */
  lemma OnlySlots(slots: set<nat>, n: nat, except: nat)
    requires except < n
    requires forall i | i in slots :: i < n && i != except
    ensures |slots| <= n - 1
  {
    SlotsFit(slots + {except}, n);
  }

  lemma {:induction false} WaitingLosesOften(s: Sched, ops: seq<Op>, t: TaskId, n: nat, late: set<nat>)
    requires Wf(s) && Waited(s, t, n, late)
    requires ReadyAtEachScan(s, ops, t)
    requires Some(t) !in Selections(s, ops)
    ensures n + |Selections(s, ops)| <= 478 + |Run(s, ops).tasks|
    decreases |ops|
  {
    if ops != [] {
      var s' := Step(s, ops[0]);
      match BeforeScan(s, ops[0])
      case None =>
        StepKeepsScoring(s, ops[0]);
        assert forall i | i in late :: SameScoring(s.tasks[i], s'.tasks[i]);
        WaitingLosesOften(s', ops[1..], t, n, late);
      case Some(before) =>
        ScanKeepsScoring(s, ops[0]);
        ScanIsTheSelection(s, ops[0]);
        assert forall i | i in late :: SameScoring(s.tasks[i], before.tasks[i]);
        var won := ScheduleNext(before).1.value;
        assert Selections(s, ops) == [won] + Selections(s', ops[1..]);
        assert won == Selections(s, ops)[0];
        var late' := LostSelection(before, t, n, late);
        WaitingLosesOften(s', ops[1..], t, n + 1, late');
    }
  }

  /** Bounded waiting. Whatever else is spawned, moved, cancelled or yielded in between, a task
      that is Ready whenever a selection starts is picked by one of any 479 + k consecutive
      successful selections, k being the number of stored tasks; 543 always suffice. */
  lemma BoundedWaiting(s: Sched, ops: seq<Op>, t: TaskId)
    requires Wf(s) && Stored(s, t)
    requires ReadyAtEachScan(s, ops, t)
    requires |Selections(s, ops)| >= 479 + |Run(s, ops).tasks|
    ensures Some(t) in Selections(s, ops)
    ensures 479 + |Run(s, ops).tasks| <= 543
  {
    if Some(t) !in Selections(s, ops) {
      WaitingLosesOften(s, ops, t, 0, {});
    }
  }

  // ---------------------------------------------------------------- conservation

  function SwitchesOf(s: Sched, id: TaskId): u64 {
    if Stored(s, id) then s.tasks[id - 1].contextSwitches else 0
  }

  lemma StepConservesSwitches(s: Sched, op: Op, id: TaskId)
    requires Wf(s)
    ensures var s' := Step(s, op);
            match BeforeScan(s, op)
            case None => Switches(s'.tasks) == Switches(s.tasks) && s'.tick == s.tick
                         && SwitchesOf(s', id) == SwitchesOf(s, id)
            case Some(before) =>
              var won := ScheduleNext(before).1.value;
              && Switches(s'.tasks) == Switches(s.tasks) + (if won.Some? then 1 else 0)
              && s'.tick == s.tick + 1
              && SwitchesOf(s', id) == SwitchesOf(s, id) + (if won == Some(id) then 1 else 0)
  {
    match BeforeScan(s, op)
    case None => QuietStepConserves(s, op, id);
    case Some(before) =>
      ScanKeepsScoring(s, op);
      ScanIsTheSelection(s, op);
      SameSwitches(s.tasks, before.tasks);
      assert Stored(s, id) ==> SameScoring(s.tasks[id - 1], before.tasks[id - 1]);
      ScanConserves(before, id);
  }

  lemma QuietStepConserves(s: Sched, op: Op, id: TaskId)
    requires Wf(s) && BeforeScan(s, op).None?
    ensures var s' := Step(s, op);
            Switches(s'.tasks) == Switches(s.tasks) && s'.tick == s.tick && SwitchesOf(s', id) == SwitchesOf(s, id)
  {
    var s' := Step(s, op);
    StepKeepsScoring(s, op);
    assert Stored(s, id) ==> SameScoring(s.tasks[id - 1], s'.tasks[id - 1]);
    if op.OpSpawn? && Spawn(s, op.parentId, op.schedClass, op.priority, op.capabilities, op.budget).1.Success? {
      assert s'.tasks[..|s.tasks|] == s.tasks;
    } else {
      assert forall i | 0 <= i < |s.tasks| :: SameScoring(s.tasks[i], s'.tasks[i]);
      SameSwitches(s.tasks, s'.tasks);
    }
  }

  lemma ScanConserves(s: Sched, id: TaskId)
    requires TableOk(s) && s.tick < U64_MAX
    ensures var (s', r) := ScheduleNext(s);
            && r.Success?
            && Switches(s'.tasks) == Switches(s.tasks) + (if r.value.Some? then 1 else 0)
            && s'.tick == s.tick + 1
            && SwitchesOf(s', id) == SwitchesOf(s, id) + (if r.value == Some(id) then 1 else 0)
  {
    match BestOf(s.tasks, s.tick + 1, |s.tasks|)
    case None => NoSelection(s);
    case Some(winner) =>
      SelectionOf(s, winner);
      WinCounts(s.tasks, winner);
  }

  /** Context switches are conserved: over any run the total of the counters grows by the number
      of selections that picked a task, each task's counter by the number that picked it, and
      the tick by the number of all selections. So no counter can overflow before the tick. */
  lemma {:induction false} SwitchesAreSelections(s: Sched, ops: seq<Op>, id: TaskId)
    requires Wf(s)
    ensures var (s', picks) := (Run(s, ops), multiset(Selections(s, ops)));
            && Switches(s'.tasks) == Switches(s.tasks) + |picks| - picks[None]
            && SwitchesOf(s', id) == SwitchesOf(s, id) + picks[Some(id)]
            && s'.tick == s.tick + |picks|
            && Switches(s'.tasks) <= s'.tick
    decreases |ops|
  {
    if ops != [] {
      var s' := Step(s, ops[0]);
      StepConservesSwitches(s, ops[0], id);
      SwitchesAreSelections(s', ops[1..], id);
      match BeforeScan(s, ops[0])
      case None =>
      case Some(before) => OnePickMore(ScheduleNext(before).1.value, Selections(s', ops[1..]), id);
    }
  }

  lemma OnePickMore(won: Option<TaskId>, rest: seq<Option<TaskId>>, id: TaskId)
    ensures var (all, picks) := (multiset([won] + rest), multiset(rest));
            && |all| == |picks| + 1
            && all[None] == picks[None] + (if won.None? then 1 else 0)
            && all[Some(id)] == picks[Some(id)] + (if won == Some(id) then 1 else 0)
  {
    assert multiset([won] + rest) == multiset{won} + multiset(rest);
  }

  // ---------------------------------------------------------------- lifecycle

  /** How one step may change a stored task: only along the lifecycle, and never its identity. */
  ghost predicate Evolves(a: Task, b: Task) {
    && (b.state == a.state || ValidTransition(a.state, b.state))
    && b.id == a.id && b.parentId == a.parentId && b.schedClass == a.schedClass
    && b.basePriority == a.basePriority && b.weight == a.weight && b.capabilities == a.capabilities
    && b.budget.maxTicks == a.budget.maxTicks && b.budget.deadlineTick == a.budget.deadlineTick
    && b.budget.remainingTicks <= a.budget.remainingTicks
  }

  /** What a selection, with the charge of a yield before it, may do to a stored task: nothing
      unless it is runnable. */
  ghost predicate TouchesRunnable(a: Task, b: Task) {
    if a.IsRunnable() then b.IsRunnable() else b.state == a.state && SameScoring(a, b)
  }

  lemma ScanEvolves(s: Sched, i: nat)
    requires TableOk(s) && s.tick < U64_MAX && i < |s.tasks|
    ensures var s' := ScheduleNext(s).0;
            |s'.tasks| == |s.tasks| && Evolves(s.tasks[i], s'.tasks[i]) && TouchesRunnable(s.tasks[i], s'.tasks[i])
  {
    var winner := BestOf(s.tasks, s.tick + 1, |s.tasks|);
    if winner.Some? { EachSwitchCounted(s.tasks, winner.value); }
  }

  lemma ChargeEvolves(s: Sched, i: nat)
    requires Wf(s) && i < |s.tasks| && ChargeAndDemote(s).Success?
    ensures var s' := ChargeAndDemote(s).value;
            |s'.tasks| == |s.tasks| && Evolves(s.tasks[i], s'.tasks[i]) && TouchesRunnable(s.tasks[i], s'.tasks[i])
  {
  }

  /** Every operation keeps every stored task and moves it only along the lifecycle graph, also
      the operations that write states without consulting it; and selections leave alone every
      task that is not runnable. */
  lemma StepFollowsLifecycle(s: Sched, op: Op, i: nat)
    requires Wf(s) && i < |s.tasks|
    ensures |s.tasks| <= |Step(s, op).tasks|
    ensures Evolves(s.tasks[i], Step(s, op).tasks[i])
    ensures op.OpYield? || op.OpSchedule? ==> TouchesRunnable(s.tasks[i], Step(s, op).tasks[i])
  {
    match op
    case OpYield =>
      if ChargeAndDemote(s).Success? {
        ChargeEvolves(s, i);
        var s1 := ChargeAndDemote(s).value;
        if s.tick < U64_MAX { ScanEvolves(s1, i); }
      }
    case OpSchedule =>
      if s.tick < U64_MAX { ScanEvolves(s, i); }
    case _ =>
  }

  /** What any run may do to a stored task. */
  ghost predicate Descends(a: Task, b: Task) {
    && (a.state.Zombie? ==> b.state.Zombie?)
    && (a.state.Exiting? ==> b.state.Exiting? || b.state.Zombie?)
    && !b.state.New?
    && b.id == a.id && b.parentId == a.parentId && b.schedClass == a.schedClass
    && b.basePriority == a.basePriority && b.weight == a.weight && b.capabilities == a.capabilities
    && b.budget.maxTicks == a.budget.maxTicks && b.budget.deadlineTick == a.budget.deadlineTick
  }

  /** Over every run: Zombie is absorbing, Exiting leads only to Zombie, New is never reached,
      and no stored task is ever dropped, renumbered or re-prioritised. */
  lemma {:induction false} LifecycleOverRuns(s: Sched, ops: seq<Op>, id: TaskId)
    requires Wf(s) && Stored(s, id)
    ensures Stored(Run(s, ops), id)
    ensures Descends(s.tasks[id - 1], Run(s, ops).tasks[id - 1])
    decreases |ops|
  {
    if ops == [] {
      assert TaskOk(s.tasks, id - 1);
    } else {
      StepFollowsLifecycle(s, ops[0], id - 1);
      LifecycleOverRuns(Step(s, ops[0]), ops[1..], id);
      EvolvesThenDescends(s.tasks[id - 1], Step(s, ops[0]).tasks[id - 1], Run(s, ops).tasks[id - 1]);
    }
  }

  lemma EvolvesThenDescends(a: Task, b: Task, c: Task)
    requires Evolves(a, b) && Descends(b, c)
    ensures Descends(a, c)
  {
  }

  /** A transition or a cancel touches no task but the one it names, and of that one only the
      state; it succeeds exactly along an edge of the lifecycle, a cancel not from Exiting; and
      afterwards the named task is current exactly if it was made Running, or stayed current
      because nothing happened. */
  lemma NamedTaskOnly(s: Sched, id: TaskId, to: TaskState, i: nat)
    requires Wf(s) && i < |s.tasks|
    ensures var (s1, r1) := Transition(s, id, to);
            && |s1.tasks| == |s.tasks| && (i != id - 1 ==> s1.tasks[i] == s.tasks[i])
            && (r1.Success? <==> Stored(s, id) && ValidTransition(s.tasks[id - 1].state, to))
            && (r1.Success? ==>
                  && s1.tasks[id - 1] == s.tasks[id - 1].(state := to)
                  && (s1.current == Some(id) <==> to.Running?))
            && (r1.Failure? || !(to.Running? || s.current == Some(id)) ==> s1.current == s.current)
    ensures var (s2, r2) := Cancel(s, id);
            && |s2.tasks| == |s.tasks| && (i != id - 1 ==> s2.tasks[i] == s.tasks[i])
            && (r2.Success? <==> Stored(s, id) && !s.tasks[id - 1].state.Zombie? && !s.tasks[id - 1].state.Exiting?)
            && (r2.Success? ==> s2.tasks[id - 1] == s.tasks[id - 1].(state := Zombie) && s2.current != Some(id))
            && (r2.Failure? || s.current != Some(id) ==> s2.current == s.current)
  {
  }

  // ---------------------------------------------------------------- identifiers

  function SpawnCount(ops: seq<Op>): nat {
    if ops == [] then 0 else (if ops[0].OpSpawn? then 1 else 0) + SpawnCount(ops[1..])
  }

  /** Spawning succeeds exactly while fewer than 64 tasks exist, and hands out the next slot's id. */
  lemma SpawnSucceedsWhileRoom(
    s: Sched, parentId: TaskId, schedClass: SchedulerClass, priority: u8, capabilities: CapabilitySet,
    budget: BudgetAccount)
    requires Wf(s)
    ensures var (s', r) := Spawn(s, parentId, schedClass, priority, capabilities, budget);
            && (r.Success? <==> |s.tasks| < MAX_TASKS)
            && (r.Success? ==>
                  && r.value == |s.tasks| + 1 && !Stored(s, r.value) && Stored(s', r.value)
                  && s.tasks <= s'.tasks && s'.current == s.current && s'.tick == s.tick
                  && var task := s'.tasks[r.value - 1];
                     && task.state.Ready? && task.age == 0 && task.contextSwitches == 0
                     && task.parentId == parentId && task.schedClass == schedClass && task.budget == budget
                     && task.capabilities == capabilities
                     && task.basePriority == task.dynamicPriority == priority)
            && (r.Failure? ==> s'.tasks == s.tasks && s'.current == s.current && s'.tick == s.tick)
  {
  }

  /** Slots are never freed: after any run the table holds the first 64 tasks ever spawned. */
  lemma {:induction false} TableCountsSpawns(s: Sched, ops: seq<Op>)
    requires Wf(s)
    ensures |Run(s, ops).tasks| == Min(|s.tasks| + SpawnCount(ops), MAX_TASKS)
    ensures forall i | 0 <= i < |Run(s, ops).tasks| :: Run(s, ops).tasks[i].id == i + 1
    decreases |ops|
  {
    if ops == [] {
      forall i | 0 <= i < |s.tasks| ensures s.tasks[i].id == i + 1 { assert TaskOk(s.tasks, i); }
    } else {
      StepCountsSpawns(s, ops[0]);
      TableCountsSpawns(Step(s, ops[0]), ops[1..]);
    }
  }

  lemma StepCountsSpawns(s: Sched, op: Op)
    requires Wf(s)
    ensures |Step(s, op).tasks| == Min(|s.tasks| + (if op.OpSpawn? then 1 else 0), MAX_TASKS)
  {
  }

  // ---------------------------------------------------------------- the current task

  /** The current task, if any, is Running. */
  ghost predicate CurrentRunning(s: Sched)
    requires Wf(s)
  {
    s.current.Some? ==> s.tasks[s.current.value - 1].state.Running?
  }

  /** A yield reports an exceeded deadline exactly if the current task is out of a bounded
      budget, and then the whole scheduler is unchanged. */
  lemma ExhaustedYield(s: Sched)
    requires Wf(s)
    ensures YieldCurrent(s).1 == Failure(DeadlineExceeded) <==>
              && s.current.Some?
              && var budget := s.tasks[s.current.value - 1].budget;
                 budget.maxTicks > 0 && budget.remainingTicks == 0
    ensures YieldCurrent(s).1 == Failure(DeadlineExceeded) ==> YieldCurrent(s).0 == s
  {
  }

  /** In every state before the last tick the current task is stored and Running. From such a
      state an operation breaks this exactly if it is a yield at the last tick that gets past
      the charge of a current task, because the demotion comes before the tick overflows. */
  lemma CurrentRunsUnlessLastTick(s: Sched, op: Op)
    requires Wf(s)
    ensures s.tick < U64_MAX ==> CurrentRunning(s)
    ensures CurrentRunning(s) ==>
              (!CurrentRunning(Step(s, op)) <==>
               && op.OpYield? && s.tick == U64_MAX && s.current.Some?
               && var budget := s.tasks[s.current.value - 1].budget;
                  budget.maxTicks == 0 || budget.remainingTicks > 0)
  {
    match op
    case OpYield => LastTickYieldDemotes(s);
    case OpTransition(id, to) => if s.current.Some? { NamedTaskOnly(s, id, to, s.current.value - 1); }
    case OpCancel(id) => if s.current.Some? { NamedTaskOnly(s, id, Zombie, s.current.value - 1); }
    case OpSchedule => SelectionIsExact(s);
    case OpSpawn(_, _, _, _, _) => if s.current.Some? { StepFollowsLifecycle(s, op, s.current.value - 1); }
  }

  /** A yield at the last tick demotes the current task if its charge is met, and selects nothing. */
  lemma LastTickYieldDemotes(s: Sched)
    requires Wf(s)
    ensures var s' := YieldCurrent(s).0;
            && (s.tick < U64_MAX ==> CurrentRunning(s'))
            && (s.tick == U64_MAX ==>
                  && s'.current == s.current
                  && (s.current.Some? ==>
                        var c := s.current.value - 1;
                        s'.tasks[c].state
                        == if YieldCurrent(s).1 == Failure(DeadlineExceeded) then s.tasks[c].state else Ready))
  {
    ExhaustedYield(s);
  }

  /** Selections while no task exists. */
  function Idle(n: nat): seq<Op> {
    seq(n, _ => OpSchedule)
  }

  lemma {:induction false} IdleMovesTick(s: Sched, n: nat)
    requires Wf(s) && s.tasks == [] && s.current.None? && s.tick + n <= U64_MAX
    ensures Run(s, Idle(n)) == s.(tick := s.tick + n)
    decreases n
  {
    if n > 0 {
      assert Idle(n)[0] == OpSchedule && Idle(n)[1..] == Idle(n - 1);
      IdleMovesTick(Step(s, OpSchedule), n - 1);
    }
  }

  const PLAIN_SPAWN := OpSpawn(0, Runtime, 32, EMPTY_SET, UNLIMITED)
  const PLAIN_TASK := NewTask(1, 0, Runtime, 32, EMPTY_SET, UNLIMITED)

  /** A run from the empty scheduler to a state in which a yield fails and leaves the current
      task Ready: idle up to the last tick, spawn a task and make it Running. */
  lemma LastTickWitness() returns (ops: seq<Op>)
    ensures var s := Run(INITIAL, ops);
            && s.current == Some(1) && s.tasks[0].state.Running?
            && YieldCurrent(s).1 == Failure(Internal)
            && YieldCurrent(s).0.current == Some(1) && YieldCurrent(s).0.tasks[0].state.Ready?
  {
    ops := LastTickRun(U64_MAX);
    LastTickYield();
  }

  const LAST_TICK_STATE := Sched([PLAIN_TASK.(state := Running)], Some(1), 2, U64_MAX)

  lemma LastTickRun(n: nat) returns (ops: seq<Op>)
    requires n == U64_MAX
    ensures Run(INITIAL, ops) == LAST_TICK_STATE
  {
    ops := Idle(n) + [PLAIN_SPAWN] + [OpTransition(1, Running)];
    IdleMovesTick(INITIAL, n);
    RunAppend(INITIAL, Idle(n), PLAIN_SPAWN);
    RunAppend(INITIAL, Idle(n) + [PLAIN_SPAWN], OpTransition(1, Running));
    LastTickSteps(Run(INITIAL, Idle(n)));
  }

  lemma LastTickSteps(s0: Sched)
    requires s0 == Sched([], None, 1, U64_MAX) && Wf(s0)
    ensures Step(Step(s0, PLAIN_SPAWN), OpTransition(1, Running)) == LAST_TICK_STATE
  {
    FirstSpawn(s0);
    FirstMadeRunning(Step(s0, PLAIN_SPAWN));
  }

  lemma FirstSpawn(s0: Sched)
    requires s0 == Sched([], None, 1, U64_MAX) && Wf(s0)
    ensures Step(s0, PLAIN_SPAWN) == Sched([PLAIN_TASK], None, 2, U64_MAX)
  {
    assert Spawn(s0, 0, Runtime, 32, EMPTY_SET, UNLIMITED).0.tasks == [] + [PLAIN_TASK];
  }

  lemma FirstMadeRunning(s1: Sched)
    requires s1 == Sched([PLAIN_TASK], None, 2, U64_MAX) && Wf(s1)
    ensures Step(s1, OpTransition(1, Running)) == LAST_TICK_STATE
  {
    assert Transition(s1, 1, Running).0.tasks == [PLAIN_TASK.(state := Running)];
  }

  lemma LastTickYield()
    ensures Wf(LAST_TICK_STATE)
    ensures YieldCurrent(LAST_TICK_STATE) == (LAST_TICK_STATE.(tasks := [PLAIN_TASK]), Failure(Internal))
  {
    var tasks := LAST_TICK_STATE.tasks;
    assert Switches(tasks) == Switches([]) by { assert tasks[..0] == []; }
    assert TaskOk(tasks, 0);
    assert ChargeAndDemote(LAST_TICK_STATE).value.tasks == [PLAIN_TASK];
  }

  /** A task is Running exactly if it is the current one. */
  ghost predicate Agreed(s: Sched) {
    forall i | 0 <= i < |s.tasks| :: s.tasks[i].state.Running? <==> s.current == Some(i + 1)
  }

  /** Without `transition`, a Running task and the current task are the same thing for as long
      as the tick can still move. */
  lemma AgreementKept(s: Sched, op: Op)
    requires Wf(s) && !op.OpTransition?
    requires s.tick < U64_MAX ==> Agreed(s)
    ensures Step(s, op).tick < U64_MAX ==> Agreed(Step(s, op))
  {
    if BeforeScan(s, op).Some? {
      ScanIsTheSelection(s, op);
      SelectionIsExact(BeforeScan(s, op).value);
    } else if s.tick == U64_MAX {
      QuietStepConserves(s, op, 1);
    } else {
      match op
      case OpSpawn(_, _, _, _, _) => SpawnKeepsAgreement(s, op);
      case OpCancel(id) => CancelKeepsAgreement(s, id);
      case OpYield => assert Step(s, op) == s;
      case OpSchedule =>
    }
  }

  lemma SpawnKeepsAgreement(s: Sched, op: Op)
    requires Wf(s) && Agreed(s) && op.OpSpawn?
    ensures Agreed(Step(s, op))
  {
  }

  lemma CancelKeepsAgreement(s: Sched, id: TaskId)
    requires Wf(s) && Agreed(s)
    ensures Agreed(Step(s, OpCancel(id)))
  {
  }

  /** `transition` does not demote: from a state where the two agree it breaks that exactly if
      it makes a Ready task Running while another task is current. */
  lemma TransitionAgreement(s: Sched, id: TaskId, to: TaskState)
    requires Wf(s) && Agreed(s) && CurrentRunning(s)
    ensures !Agreed(Step(s, OpTransition(id, to))) <==>
              to.Running? && Stored(s, id) && s.tasks[id - 1].state.Ready? && s.current.Some?
  {
    var s' := Step(s, OpTransition(id, to));
    if to.Running? && Stored(s, id) && s.tasks[id - 1].state.Ready? && s.current.Some? {
      var c := s.current.value;
      assert s'.tasks[c - 1].state.Running? && s'.current == Some(id) && c != id;
    }
  }

  /** A run of four operations that leaves two tasks Running. */
  lemma TwoRunningWitness() returns (ops: seq<Op>)
    ensures var s := Run(INITIAL, ops);
            && |s.tasks| == 2 && s.tasks[0].state.Running? && s.tasks[1].state.Running? && s.current == Some(2)
  {
    var spawn2 := [] + [PLAIN_SPAWN] + [PLAIN_SPAWN];
    RunAppend(INITIAL, [], PLAIN_SPAWN);
    RunAppend(INITIAL, [] + [PLAIN_SPAWN], PLAIN_SPAWN);
    RunAppend(INITIAL, spawn2, OpTransition(1, Running));
    RunAppend(INITIAL, spawn2 + [OpTransition(1, Running)], OpTransition(2, Running));
    ops := spawn2 + [OpTransition(1, Running)] + [OpTransition(2, Running)];
    TwoRunningSteps(INITIAL);
  }

  lemma TwoRunningSteps(s0: Sched)
    requires Wf(s0) && s0.tasks == [] && s0.nextId == 1
    ensures var s2 := Step(Step(s0, PLAIN_SPAWN), PLAIN_SPAWN);
            var s := Step(Step(s2, OpTransition(1, Running)), OpTransition(2, Running));
            && |s.tasks| == 2 && s.tasks[0].state.Running? && s.tasks[1].state.Running? && s.current == Some(2)
  {
  }

  lemma {:induction false} AgreementOverRuns(s: Sched, ops: seq<Op>)
    requires Wf(s) && (s.tick < U64_MAX ==> Agreed(s))
    requires forall i | 0 <= i < |ops| :: !ops[i].OpTransition?
    ensures Run(s, ops).tick < U64_MAX ==> Agreed(Run(s, ops))
    decreases |ops|
  {
    if ops != [] {
      AgreementKept(s, ops[0]);
      AgreementOverRuns(Step(s, ops[0]), ops[1..]);
    }
  }

  // ---------------------------------------------------------------- runs driven by syscalls

  /** The operations that syscalls perform. */
  predicate SyscallOp(op: Op) {
    op.OpSpawn? || op.OpCancel? || op.OpYield?
  }

  /** Every task is Ready, Running or Zombie, and only the current one is Running. */
  ghost predicate SyscallDriven(s: Sched) {
    && (forall i | 0 <= i < |s.tasks| :: s.tasks[i].IsRunnable() || s.tasks[i].state.Zombie?)
    && (s.tick < U64_MAX ==> Agreed(s))
  }

  lemma StepSyscallDriven(s: Sched, op: Op)
    requires Wf(s) && SyscallDriven(s) && SyscallOp(op)
    ensures SyscallDriven(Step(s, op))
  {
    AgreementKept(s, op);
    var s' := Step(s, op);
    forall i | 0 <= i < |s'.tasks| ensures s'.tasks[i].IsRunnable() || s'.tasks[i].state.Zombie? {
      if i < |s.tasks| { StepFollowsLifecycle(s, op, i); }
    }
  }

  /** Among these operations only a cancel of the task itself terminates it, and none revives it. */
  lemma OnlyCancelTerminates(s: Sched, op: Op, i: nat)
    requires Wf(s) && SyscallOp(op) && i < |s.tasks|
    ensures i < |Step(s, op).tasks|
    ensures s.tasks[i].state.Zombie? ==> Step(s, op).tasks[i].state.Zombie?
    ensures Step(s, op).tasks[i].state.Zombie? && !s.tasks[i].state.Zombie? ==> op == OpCancel(i + 1)
  {
    if op.OpYield? { StepFollowsLifecycle(s, op, i); }
  }

  lemma {:induction false} SyscallDrivenOverRuns(s: Sched, ops: seq<Op>)
    requires Wf(s) && SyscallDriven(s)
    requires forall i | 0 <= i < |ops| :: SyscallOp(ops[i])
    ensures SyscallDriven(Run(s, ops))
    decreases |ops|
  {
    if ops != [] {
      StepSyscallDriven(s, ops[0]);
      SyscallDrivenOverRuns(Step(s, ops[0]), ops[1..]);
    }
  }

  /** No task has a bounded budget. */
  ghost predicate Unlimited(s: Sched) {
    forall i | 0 <= i < |s.tasks| :: s.tasks[i].budget.maxTicks == 0
  }

  /** A syscall spawns tasks with unlimited budgets only. */
  predicate UnlimitedOp(op: Op) {
    SyscallOp(op) && (op.OpSpawn? ==> op.budget.maxTicks == 0)
  }

  lemma StepUnlimited(s: Sched, op: Op)
    requires Wf(s) && Unlimited(s) && UnlimitedOp(op)
    ensures Unlimited(Step(s, op))
  {
    forall i | 0 <= i < |Step(s, op).tasks| ensures Step(s, op).tasks[i].budget.maxTicks == 0 {
      if i < |s.tasks| { StepFollowsLifecycle(s, op, i); } else { SpawnedBudget(s, op, i); }
    }
  }

  lemma SpawnedBudget(s: Sched, op: Op, i: nat)
    requires Wf(s) && SyscallOp(op) && |s.tasks| <= i < |Step(s, op).tasks|
    ensures op.OpSpawn? && Step(s, op).tasks[i].budget == op.budget
  {
    StepCountsSpawns(s, op);
  }

  /** Without bounded budgets a yield fails at the last tick only. */
  lemma UnlimitedYield(s: Sched)
    requires Wf(s) && Unlimited(s)
    ensures YieldCurrent(s).1.Success? <==> s.tick < U64_MAX
    ensures YieldCurrent(s).0.tick == if s.tick < U64_MAX then s.tick + 1 else s.tick
  {
    SelectionIsExact(ChargeAndDemote(s).value);
  }

  /** Cancelling a stored task, where all are Ready, Running or Zombie, leaves it Zombie. */
  lemma CancelTerminates(s: Sched, id: TaskId)
    requires Wf(s) && SyscallDriven(s) && Stored(s, id)
    ensures Stored(Step(s, OpCancel(id)), id) && Step(s, OpCancel(id)).tasks[id - 1].state.Zombie?
  {
  }

  /** The current task is out of a bounded budget. */
  ghost predicate Exhausted(s: Sched, t: TaskId)
    requires Wf(s)
  {
    s.current == Some(t) && s.tasks[t - 1].budget.maxTicks > 0 && s.tasks[t - 1].budget.remainingTicks == 0
  }

  /** From then on every yield fails, selects nothing and moves nothing, until the task is
      terminated: it starves all others, and only a cancel can end that. */
  lemma StepStaysExhausted(s: Sched, op: Op, t: TaskId)
    requires Wf(s) && SyscallOp(op) && Exhausted(s, t)
    ensures BeforeScan(s, op).None? && Step(s, op).tick == s.tick
    ensures Stored(Step(s, op), t)
    ensures !Step(s, op).tasks[t - 1].state.Zombie? ==> Exhausted(Step(s, op), t)
  {
  }

  lemma {:induction false} ExhaustedStarves(s: Sched, ops: seq<Op>, t: TaskId)
    requires Wf(s) && Exhausted(s, t)
    requires forall i | 0 <= i < |ops| :: SyscallOp(ops[i])
    requires Stored(Run(s, ops), t) && !Run(s, ops).tasks[t - 1].state.Zombie?
    ensures Selections(s, ops) == [] && Run(s, ops).tick == s.tick && Exhausted(Run(s, ops), t)
    decreases |ops|
  {
    if ops != [] {
      StepStaysExhausted(s, ops[0], t);
      LifecycleOverRuns(Step(s, ops[0]), ops[1..], t);
      ExhaustedStarves(Step(s, ops[0]), ops[1..], t);
    }
  }

  /** In such runs a task that is not terminated is Ready whenever a selection starts: a yield
      has by then demoted the one task that was Running. */
  lemma {:induction false} AliveIsReadyAtScans(s: Sched, ops: seq<Op>, t: TaskId)
    requires Wf(s) && SyscallDriven(s) && Stored(s, t)
    requires forall i | 0 <= i < |ops| :: SyscallOp(ops[i])
    requires Stored(Run(s, ops), t) && !Run(s, ops).tasks[t - 1].state.Zombie?
    ensures ReadyAtEachScan(s, ops, t)
    decreases |ops|
  {
    if ops != [] {
      LifecycleOverRuns(s, ops, t);
      StepSyscallDriven(s, ops[0]);
      StepFollowsLifecycle(s, ops[0], t - 1);
      AliveIsReadyAtScans(Step(s, ops[0]), ops[1..], t);
    }
  }

  // ---------------------------------------------------------------- aging

  /** The dynamic priority is the base priority plus a quarter of the age, that quarter cut down
      to eight bits and the sum to 255. */
  ghost predicate Aged(t: Task) {
    t.dynamicPriority == Min(t.basePriority + (t.age / 4) % 256, U8_MAX)
  }

  ghost predicate AllAged(s: Sched) {
    forall i | 0 <= i < |s.tasks| :: Aged(s.tasks[i])
  }

  lemma StepKeepsAged(s: Sched, op: Op)
    requires Wf(s) && AllAged(s)
    ensures AllAged(Step(s, op))
  {
    if BeforeScan(s, op).Some? {
      var before := BeforeScan(s, op).value;
      ScanIsTheSelection(s, op);
      ScanKeepsScoring(s, op);
      forall i | 0 <= i < |before.tasks| ensures Aged(before.tasks[i]) {
        assert Aged(s.tasks[i]) && SameScoring(s.tasks[i], before.tasks[i]);
      }
      ScanKeepsAged(before);
    } else {
      var s' := Step(s, op);
      StepKeepsScoring(s, op);
      forall i | 0 <= i < |s'.tasks| ensures Aged(s'.tasks[i]) {
        if i < |s.tasks| { assert Aged(s.tasks[i]) && SameScoring(s.tasks[i], s'.tasks[i]); }
      }
    }
  }

  lemma ScanKeepsAged(s: Sched)
    requires TableOk(s) && s.tick < U64_MAX && AllAged(s)
    ensures AllAged(ScheduleNext(s).0)
  {
    var s' := ScheduleNext(s).0;
    var winner := BestOf(s.tasks, s.tick + 1, |s.tasks|);
    if winner.Some? {
      EachSwitchCounted(s.tasks, winner.value);
      assert s'.tasks == AfterWin(s.tasks, winner.value);
      forall i | 0 <= i < |s'.tasks| ensures Aged(s'.tasks[i]) {
        assert Aged(s.tasks[i]);
        OutcomesAreAged(s.tasks[i]);
      }
    }
  }

  lemma OutcomesAreAged(t: Task)
    requires Aged(t)
    ensures Aged(t.Lost())
    ensures t.contextSwitches < U64_MAX ==> Aged(t.Won())
  {
  }

  lemma {:induction false} AgedOverRuns(s: Sched, ops: seq<Op>)
    requires Wf(s) && AllAged(s)
    ensures AllAged(Run(s, ops))
    decreases |ops|
  {
    if ops != [] {
      StepKeepsAged(s, ops[0]);
      AgedOverRuns(Step(s, ops[0]), ops[1..]);
    }
  }

  // ---------------------------------------------------------------- budgets

  /** Whether this step takes one tick from the budget of task id. */
  ghost predicate Charges(s: Sched, op: Op, id: TaskId)
    requires Wf(s)
  {
    && op.OpYield? && s.current == Some(id)
    && var budget := s.tasks[id - 1].budget;
       budget.maxTicks > 0 && budget.ConsumeTick().Success?
  }

  ghost function ChargeCount(s: Sched, ops: seq<Op>, id: TaskId): nat
    requires Wf(s)
    decreases |ops|
  {
    if ops == [] then 0
    else (if Charges(s, ops[0], id) then 1 else 0) + ChargeCount(Step(s, ops[0]), ops[1..], id)
  }

  lemma StepChargesOnce(s: Sched, op: Op, id: TaskId)
    requires Wf(s) && Stored(s, id)
    ensures var s' := Step(s, op);
            && Stored(s', id)
            && s'.tasks[id - 1].budget
               == s.tasks[id - 1].budget.(remainingTicks :=
                    s.tasks[id - 1].budget.remainingTicks - if Charges(s, op, id) then 1 else 0)
  {
    match op
    case OpYield =>
      if ChargeAndDemote(s).Success? {
        ChargeTakesOne(s, id);
        if s.tick < U64_MAX { ScanKeepsBudgets(ChargeAndDemote(s).value, id - 1); }
      }
    case OpSchedule =>
      if s.tick < U64_MAX { ScanKeepsBudgets(s, id - 1); }
    case _ => OtherOpsKeepBudgets(s, op, id - 1);
  }

  lemma ChargeTakesOne(s: Sched, id: TaskId)
    requires Wf(s) && Stored(s, id) && ChargeAndDemote(s).Success?
    ensures var s1 := ChargeAndDemote(s).value;
            && Stored(s1, id)
            && s1.tasks[id - 1].budget
               == s.tasks[id - 1].budget.(remainingTicks :=
                    s.tasks[id - 1].budget.remainingTicks - if Charges(s, OpYield, id) then 1 else 0)
  {
  }

  lemma OtherOpsKeepBudgets(s: Sched, op: Op, i: nat)
    requires Wf(s) && i < |s.tasks| && (op.OpSpawn? || op.OpTransition? || op.OpCancel?)
    ensures |s.tasks| <= |Step(s, op).tasks| && Step(s, op).tasks[i].budget == s.tasks[i].budget
  {
  }

  lemma ScanKeepsBudgets(s: Sched, i: nat)
    requires TableOk(s) && s.tick < U64_MAX && i < |s.tasks|
    ensures var s' := ScheduleNext(s).0;
            |s'.tasks| == |s.tasks| && s'.tasks[i].budget == s.tasks[i].budget
  {
    var winner := BestOf(s.tasks, s.tick + 1, |s.tasks|);
    if winner.Some? { EachSwitchCounted(s.tasks, winner.value); }
  }

  /** A budget loses exactly one tick per charged yield, over any run. */
  lemma {:induction false} BudgetConserved(s: Sched, ops: seq<Op>, id: TaskId)
    requires Wf(s) && Stored(s, id)
    ensures Stored(Run(s, ops), id)
    ensures ChargeCount(s, ops, id) <= s.tasks[id - 1].budget.remainingTicks
    ensures Run(s, ops).tasks[id - 1].budget
            == s.tasks[id - 1].budget.(remainingTicks :=
                 s.tasks[id - 1].budget.remainingTicks - ChargeCount(s, ops, id))
    decreases |ops|
  {
    if ops != [] {
      StepChargesOnce(s, ops[0], id);
      BudgetConserved(Step(s, ops[0]), ops[1..], id);
    }
  }

  /** A task spawned with a bounded budget is charged at most that often, and what it has left
      is what it has not been charged. */
  lemma BoundedBudgetIsExact(
    s: Sched, parentId: TaskId, schedClass: SchedulerClass, priority: u8, capabilities: CapabilitySet,
    maxTicks: u64, deadlineTick: u64, ops: seq<Op>)
    requires Wf(s) && maxTicks > 0 && |s.tasks| < MAX_TASKS
    ensures var budget := Bounded(maxTicks, deadlineTick).value;
            var (s0, id) := Spawn(s, parentId, schedClass, priority, capabilities, budget);
            && id.Success? && Stored(Run(s0, ops), id.value)
            && var budget := Run(s0, ops).tasks[id.value - 1].budget;
               && budget.maxTicks == maxTicks
               && budget.maxTicks - budget.remainingTicks == ChargeCount(s0, ops, id.value) <= maxTicks
  {
    var (s0, id) := Spawn(s, parentId, schedClass, priority, capabilities, Bounded(maxTicks, deadlineTick).value);
    SpawnSucceedsWhileRoom(s, parentId, schedClass, priority, capabilities, Bounded(maxTicks, deadlineTick).value);
    BudgetConserved(s0, ops, id.value);
  }

  /** Every state a run reaches from the empty scheduler satisfies the invariants above. */
  lemma ReachableIsWf(ops: seq<Op>)
    ensures Wf(INITIAL) && SyscallDriven(INITIAL) && Unlimited(INITIAL) && AllAged(INITIAL)
    ensures Wf(Run(INITIAL, ops))
  {
  }
}
