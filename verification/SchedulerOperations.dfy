/** What each scheduler operation does, in terms of the fields of the tasks: which transitions
    succeed, what a spawn stores, what decides a selection and what it leaves behind. */
module SchedulerOperations {
  import opened Machine
  import opened Errors
  import opened Capabilities
  import opened SchedulerModel
  import opened SchedulerRuns

  // ---------------------------------------------------------------- moving a task

  /** The states from which a task may be moved to this one. */
  ghost predicate MayEnter(to: TaskState, from: TaskState) {
    match to
    case Zombie => true
    case Ready => from.New? || from.Running? || from.Blocked? || from.Sleeping? || from.Suspended?
    case Running | Suspended => from.Ready?
    case Blocked | Sleeping | Exiting => from.Running?
    case New => false
  }

  /** A transition of a stored task succeeds exactly from these states, writes exactly the state
      and the current task, and returns where the task came from and where it went; otherwise it
      says why it failed and changes nothing. */
  lemma TransitionIsExact(s: Sched, id: TaskId, to: TaskState)
    requires Wf(s)
    ensures Transition(s, id, to).1
            == if !Stored(s, id) then Failure(NotFound)
               else if MayEnter(to, s.tasks[id - 1].state) then Success(StateChange(id, s.tasks[id - 1].state, to))
               else Failure(InvalidState)
    ensures Transition(s, id, to).0
            == if !Stored(s, id) || !MayEnter(to, s.tasks[id - 1].state) then s
               else s.(tasks := s.tasks[id - 1 := s.tasks[id - 1].(state := to)],
                       current := if to.Running? then Some(id) else if s.current == Some(id) then None else s.current)
  {
  }

  /** So does a cancel, from every state but Exiting and Zombie. */
  lemma CancelIsExact(s: Sched, id: TaskId)
    requires Wf(s)
    ensures Cancel(s, id).1
            == if !Stored(s, id) then Failure(NotFound)
               else if s.tasks[id - 1].state.Exiting? || s.tasks[id - 1].state.Zombie? then Failure(InvalidState)
               else Success(StateChange(id, s.tasks[id - 1].state, Zombie))
    ensures Cancel(s, id).0
            == if Cancel(s, id).1.Failure? then s
               else s.(tasks := s.tasks[id - 1 := s.tasks[id - 1].(state := Zombie)],
                       current := if s.current == Some(id) then None else s.current)
  {
  }

  /** Every parked task is Ready after one transition, with all else as it was when it was parked:
      a Running task may be put to wait and a Ready one set aside, and both come back. */
  lemma ParkedTasksWake(s: Sched, id: TaskId, park: TaskState)
    requires Wf(s) && Stored(s, id) && (park.Blocked? || park.Sleeping? || park.Suspended?)
    requires s.tasks[id - 1].state == if park.Suspended? then Ready else Running
    ensures var parked := Run(s, [OpTransition(id, park)]);
            Stored(parked, id) && parked.tasks[id - 1] == s.tasks[id - 1].(state := park) && parked.current != Some(id)
    ensures var woken := Run(s, [OpTransition(id, park), OpTransition(id, Ready)]);
            && Stored(woken, id) && woken.tasks[id - 1] == s.tasks[id - 1].(state := Ready)
            && forall i | 0 <= i < |s.tasks| && i != id - 1 :: i < |woken.tasks| && woken.tasks[i] == s.tasks[i]
  {
    var parked := Step(s, OpTransition(id, park));
    TransitionIsExact(s, id, park);
    TransitionIsExact(parked, id, Ready);
    RunOfOne(s, OpTransition(id, park));
    RunOfTwo(s, OpTransition(id, park), OpTransition(id, Ready));
  }

  /** In any state a parked task can be woken. */
  lemma AnyParkedTaskWakes(s: Sched, id: TaskId)
    requires Wf(s) && Stored(s, id)
    requires var state := s.tasks[id - 1].state; state.Blocked? || state.Sleeping? || state.Suspended?
    ensures Transition(s, id, Ready).1 == Success(StateChange(id, s.tasks[id - 1].state, Ready))
    ensures Run(s, [OpTransition(id, Ready)]).tasks == s.tasks[id - 1 := s.tasks[id - 1].(state := Ready)]
  {
    TransitionIsExact(s, id, Ready);
    RunOfOne(s, OpTransition(id, Ready));
  }

  lemma RunOfOne(s: Sched, a: Op)
    requires Wf(s)
    ensures Run(s, [a]) == Step(s, a)
  {
    RunAppend(s, [], a);
    assert [] + [a] == [a];
  }

  lemma RunOfTwo(s: Sched, a: Op, b: Op)
    requires Wf(s)
    ensures Run(s, [a, b]) == Step(Step(s, a), b)
  {
    RunOfOne(s, a);
    RunAppend(s, [a], b);
    assert [a] + [b] == [a, b];
  }

  // ---------------------------------------------------------------- making a task

  /** A spawn succeeds exactly while fewer than 64 tasks exist. It stores a Ready task that nothing
      has happened to yet under the next slot's id, which it returns; otherwise it stores nothing
      and says that the table is full or, in the end, that the identifiers are used up. */
  lemma SpawnIsExact(
    s: Sched, parentId: TaskId, schedClass: SchedulerClass, priority: u8, capabilities: CapabilitySet,
    budget: BudgetAccount)
    requires Wf(s)
    ensures var (s', r) := Spawn(s, parentId, schedClass, priority, capabilities, budget);
            && r == (if |s.tasks| < 64 then Success(|s.tasks| + 1)
                     else if s.nextId == U64_MAX then Failure(Internal) else Failure(CapacityExceeded))
            && s'.tasks
               == (if |s.tasks| == 64 then s.tasks
                   else s.tasks + [Task(|s.tasks| + 1, parentId, Ready, schedClass, priority, priority, 1, 0,
                                        budget, capabilities, 0)])
            && s'.current == s.current && s'.tick == s.tick
  {
  }

  /** A budget is made exactly if it bounds something, and starts out full. */
  lemma BoundedIsExact(maxTicks: u64, deadlineTick: u64)
    ensures Bounded(maxTicks, deadlineTick)
            == if maxTicks + deadlineTick == 0 then Failure(InvalidArgument)
               else Success(BudgetAccount(maxTicks, maxTicks, deadlineTick))
  {
  }

  // ---------------------------------------------------------------- what decides a selection

  /** What each class is worth, in points of priority. */
  ghost function Worth(c: SchedulerClass): int {
    match c
    case Audit => 96
    case Kernel => 80
    case Runtime => 48
    case Interactive => 32
    case Cognitive => 16
    case Background => 0
  }

  ghost predicate Late(t: Task, now: int) {
    t.budget.deadlineTick != 0 && t.budget.deadlineTick <= now
  }

  /** By how many points task a is ahead of task b: one point of priority outweighs one of age, a
      class counts its worth, and a deadline that has expired 128. */
  ghost function Lead(a: Task, b: Task, now: int): int {
    (a.dynamicPriority - b.dynamicPriority) + (a.age - b.age) + (Worth(a.schedClass) - Worth(b.schedClass))
    + (if Late(a, now) then 128 else 0) - (if Late(b, now) then 128 else 0)
  }

  /** Slot i goes before slot j: it is ahead, or level with it and lower. */
  ghost predicate GoesBefore(tasks: seq<Task>, i: nat, j: nat, now: int)
    requires i < |tasks| && j < |tasks|
  {
    var lead := Lead(tasks[i], tasks[j], now);
    lead > 0 || (lead == 0 && i < j)
  }

  /** A selection picks a task exactly if it is Ready or Running and goes before every other that
      is, at the tick to which the selection moves the clock. */
  lemma PickIsExact(s: Sched, i: nat)
    requires TableOk(s) && s.tick < U64_MAX && i < |s.tasks|
    ensures ScheduleNext(s).1 == Success(Some(i + 1)) <==>
              && (s.tasks[i].state.Ready? || s.tasks[i].state.Running?)
              && forall j | 0 <= j < |s.tasks| && j != i && (s.tasks[j].state.Ready? || s.tasks[j].state.Running?) ::
                   GoesBefore(s.tasks, i, j, s.tick + 1)
  {
    forall j, k | 0 <= j < |s.tasks| && 0 <= k < |s.tasks|
      ensures s.tasks[j].Score(s.tick + 1) - s.tasks[k].Score(s.tick + 1) == Lead(s.tasks[j], s.tasks[k], s.tick + 1)
    {
      LeadIsExact(s, j, k, s.tick + 1);
    }
    SelectionIsExact(s);
    PickIsTheLeader(s, i);
  }

  lemma LeadIsExact(s: Sched, i: nat, j: nat, now: u64)
    requires TableOk(s) && i < |s.tasks| && j < |s.tasks|
    ensures s.tasks[i].Score(now) - s.tasks[j].Score(now) == Lead(s.tasks[i], s.tasks[j], now)
  {
    assert TaskOk(s.tasks, i) && TaskOk(s.tasks, j);
  }

  lemma PickIsTheLeader(s: Sched, i: nat)
    requires TableOk(s) && s.tick < U64_MAX && i < |s.tasks|
    ensures ScheduleNext(s).1 == Success(Some(i + 1)) <==> Leads(s.tasks, s.tick + 1, |s.tasks|, i)
  {
    BestIsTheLeader(s.tasks, s.tick + 1, |s.tasks|);
    match BestOf(s.tasks, s.tick + 1, |s.tasks|)
    case None => NoSelection(s);
    case Some(w) => SelectionOf(s, w);
  }

  /** Priority counts: while a task alike in class, age and deadline but of higher dynamic priority
      is runnable, a task is never picked; and of two equal ones never the one in the higher slot. */
  lemma LowerPriorityWaits(s: Sched, i: nat, j: nat)
    requires TableOk(s) && s.tick < U64_MAX && i < |s.tasks| && j < |s.tasks|
    requires s.tasks[i].state.Ready? || s.tasks[i].state.Running?
    requires s.tasks[i].schedClass == s.tasks[j].schedClass && s.tasks[i].age == s.tasks[j].age
    requires Late(s.tasks[i], s.tick + 1) == Late(s.tasks[j], s.tick + 1)
    requires s.tasks[i].dynamicPriority > s.tasks[j].dynamicPriority
             || (s.tasks[i].dynamicPriority == s.tasks[j].dynamicPriority && i < j)
    ensures ScheduleNext(s).1 != Success(Some(j + 1))
  {
    PickIsExact(s, j);
    assert !GoesBefore(s.tasks, j, i, s.tick + 1);
  }

  /** The exchange rates are exact: for two runnable tasks alone in the table, the first is picked
      exactly if its points of priority, age, class and deadline are at least those of the second. */
  lemma ExchangeRates(s: Sched)
    requires TableOk(s) && s.tick < U64_MAX && |s.tasks| == 2
    requires forall i | 0 <= i < 2 :: s.tasks[i].state.Ready? || s.tasks[i].state.Running?
    ensures ScheduleNext(s).1 == Success(Some(if Lead(s.tasks[0], s.tasks[1], s.tick + 1) >= 0 then 1 else 2))
  {
    PickIsExact(s, 0);
    PickIsExact(s, 1);
  }

  /** Every operation spawns a task of this class whose deadline is not the first tick. */
  ghost predicate SpawnsOnly(ops: seq<Op>, schedClass: SchedulerClass) {
    forall i | 0 <= i < |ops| ::
      ops[i].OpSpawn? && ops[i].schedClass == schedClass && ops[i].budget.deadlineTick != 1
  }

  /** After any number of spawns of one class from the empty scheduler, the first selection picks
      the highest priority among those there was room for, the earliest of several. */
  lemma FirstPickIsHighest(ops: seq<Op>, schedClass: SchedulerClass, w: nat)
    requires SpawnsOnly(ops, schedClass) && w < Min(|ops|, 64)
    ensures ScheduleNext(Run(INITIAL, ops)).1 == Success(Some(w + 1)) <==>
              forall j | 0 <= j < Min(|ops|, 64) && j != w ::
                ops[w].priority > ops[j].priority || (ops[w].priority == ops[j].priority && w < j)
  {
    SpawnsStore(ops, schedClass);
    FirstPick(Run(INITIAL, ops), ops, schedClass, w);
  }

  lemma FirstPick(s: Sched, ops: seq<Op>, schedClass: SchedulerClass, w: nat)
    requires TableOk(s) && s.tick == 0 && SpawnsOnly(ops, schedClass) && w < |s.tasks| <= |ops|
    requires forall i | 0 <= i < |s.tasks| :: SpawnedBy(s.tasks[i], ops[i])
    ensures ScheduleNext(s).1 == Success(Some(w + 1)) <==>
              forall j | 0 <= j < |s.tasks| && j != w ::
                ops[w].priority > ops[j].priority || (ops[w].priority == ops[j].priority && w < j)
  {
    PickIsExact(s, w);
    forall j | 0 <= j < |s.tasks|
      ensures s.tasks[j].state.Ready?
      ensures GoesBefore(s.tasks, w, j, 1) <==>
                ops[w].priority > ops[j].priority || (ops[w].priority == ops[j].priority && w < j)
    {
      assert SpawnedBy(s.tasks[w], ops[w]) && SpawnedBy(s.tasks[j], ops[j]);
    }
  }

  ghost predicate SpawnedBy(t: Task, op: Op)
    requires op.OpSpawn?
  {
    && t.state.Ready? && t.age == 0 && t.schedClass == op.schedClass
    && t.dynamicPriority == op.priority && t.budget == op.budget
  }

  lemma {:induction false} SpawnsStore(ops: seq<Op>, schedClass: SchedulerClass)
    requires SpawnsOnly(ops, schedClass)
    ensures var s := Run(INITIAL, ops);
            && |s.tasks| == Min(|ops|, 64) && s.tick == 0
            && forall i | 0 <= i < |s.tasks| :: SpawnedBy(s.tasks[i], ops[i])
    decreases |ops|
  {
    if ops != [] {
      var front, op := ops[..|ops| - 1], ops[|ops| - 1];
      assert ops == front + [op];
      assert SpawnsOnly(front, schedClass);
      SpawnsStore(front, schedClass);
      RunAppend(INITIAL, front, op);
      SpawnIsExact(Run(INITIAL, front), op.parentId, op.schedClass, op.priority, op.capabilities, op.budget);
    }
  }

  // ---------------------------------------------------------------- what a selection leaves behind

  /** A selection that picks a task makes it Running and young again, at its base priority, and
      counts the switch; every other Running task becomes Ready, every other Ready task gets older,
      its priority rising above the base by a quarter of its age as eight bits hold it; and tasks
      in other states stay as they are. */
  lemma SelectionLeaves(s: Sched, t: TaskId, i: nat)
    requires TableOk(s) && s.tick < U64_MAX && ScheduleNext(s).1 == Success(Some(t)) && i < |s.tasks|
    ensures var (a, s') := (s.tasks[i], ScheduleNext(s).0);
            && |s'.tasks| == |s.tasks| && s'.current == Some(t) && s'.tick == s.tick + 1 && s'.nextId == s.nextId
            && (i == t - 1 ==>
                  && a.contextSwitches < U64_MAX
                  && s'.tasks[i] == a.(state := Running, age := 0, dynamicPriority := a.basePriority,
                                       contextSwitches := a.contextSwitches + 1))
            && (i != t - 1 && a.state.Running? ==> s'.tasks[i] == a.(state := Ready))
            && (i != t - 1 && a.state.Ready? ==>
                  var age := if a.age == 65535 then 65535 else a.age + 1;
                  var raised := a.basePriority + (age / 4) % 256;
                  s'.tasks[i] == a.(age := age, dynamicPriority := if raised > 255 then 255 else raised))
            && (i != t - 1 && !a.state.Running? && !a.state.Ready? ==> s'.tasks[i] == a)
  {
    match BestOf(s.tasks, s.tick + 1, |s.tasks|)
    case None => NoSelection(s);
    case Some(w) => SelectionOf(s, w);
  }

  /** A yield charges the current task, if there is one, one tick of a bounded budget and makes it
      Ready, and then selects; out of its budget it fails and changes nothing. */
  lemma YieldIsChargeThenSelection(s: Sched)
    requires Wf(s)
    ensures s.current.None? ==> YieldCurrent(s) == ScheduleNext(s)
    ensures s.current.Some? ==>
              var c := s.current.value - 1;
              var (t, b) := (s.tasks[c], s.tasks[c].budget);
              if b.maxTicks > 0 && b.remainingTicks == 0 then YieldCurrent(s) == (s, Failure(DeadlineExceeded))
              else
                var charged := if b.maxTicks > 0 then b.(remainingTicks := b.remainingTicks - 1) else b;
                var before := s.(tasks := s.tasks[c := t.(budget := charged, state := Ready)]);
                TableOk(before) && YieldCurrent(s) == ScheduleNext(before)
  {
    if s.current.Some? {
      var c := s.current.value - 1;
      if !(s.tasks[c].budget.maxTicks > 0 && s.tasks[c].budget.remainingTicks == 0) {
        var budget := s.tasks[c].budget.ConsumeTick().value;
        assert s.tasks[c].Charged(budget) == s.tasks[c].(budget := budget, state := Ready);
        assert ChargeAndDemote(s) == Success(s.(tasks := s.tasks[c := s.tasks[c].Charged(budget)]));
      }
    }
  }
}
