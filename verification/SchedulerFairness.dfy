/** Fairness among runnable tasks: bounded waiting for tasks that may be Running at a scan, and
    the turns that tasks alike take. */
module SchedulerFairness {
  import opened Machine
  import opened Errors
  import opened Capabilities
  import opened SchedulerModel
  import opened SchedulerRuns

  // ---------------------------------------------------------------- waiting while runnable

  /** Task t is Ready or Running whenever a successful selection of the run starts. */
  ghost predicate RunnableAtEachScan(s: Sched, ops: seq<Op>, t: TaskId)
    requires Wf(s)
    decreases |ops|
  {
    ops != [] ==>
      && (BeforeScan(s, ops[0]).Some? ==>
            var before := BeforeScan(s, ops[0]).value;
            Stored(before, t) && before.tasks[t - 1].IsRunnable())
      && RunnableAtEachScan(Step(s, ops[0]), ops[1..], t)
  }

  /** The run has no transition of task t to Running. */
  ghost predicate NeverForced(ops: seq<Op>, t: TaskId) {
    forall i | 0 <= i < |ops| :: ops[i] != OpTransition(t, Running)
  }

  /** A task that is not Running becomes so only if it is picked or forced. */
  lemma OnlyPicksRun(s: Sched, op: Op, t: TaskId)
    requires Wf(s) && Stored(s, t) && !s.tasks[t - 1].state.Running? && op != OpTransition(t, Running)
    requires BeforeScan(s, op).Some? ==> ScheduleNext(BeforeScan(s, op).value).1.value != Some(t)
    ensures Stored(Step(s, op), t) && !Step(s, op).tasks[t - 1].state.Running?
  {
    match op
    case OpTransition(id, to) => NamedTaskOnly(s, id, to, t - 1);
    case OpCancel(id) => NamedTaskOnly(s, id, Zombie, t - 1);
    case OpSpawn(_, _, _, _, _) => StepFollowsLifecycle(s, op, t - 1);
    case _ => OnlyPicksRunAtScans(s, op, t);
  }

  lemma OnlyPicksRunAtScans(s: Sched, op: Op, t: TaskId)
    requires Wf(s) && Stored(s, t) && !s.tasks[t - 1].state.Running? && (op.OpYield? || op.OpSchedule?)
    requires BeforeScan(s, op).Some? ==> ScheduleNext(BeforeScan(s, op).value).1.value != Some(t)
    ensures Stored(Step(s, op), t) && !Step(s, op).tasks[t - 1].state.Running?
  {
    if BeforeScan(s, op).Some? {
      ScanIsTheSelection(s, op);
      ScanKeepsScoring(s, op);
      NoneButTheWinnerRuns(BeforeScan(s, op).value, t);
    } else if op.OpYield? && ChargeAndDemote(s).Success? {
      ChargeEvolves(s, t - 1);
      ChargeRunsNone(s, t);
    }
  }

  lemma ChargeRunsNone(s: Sched, t: TaskId)
    requires Wf(s) && Stored(s, t) && !s.tasks[t - 1].state.Running? && ChargeAndDemote(s).Success?
    ensures Stored(ChargeAndDemote(s).value, t) && !ChargeAndDemote(s).value.tasks[t - 1].state.Running?
  {
  }

  lemma NoneButTheWinnerRuns(s: Sched, t: TaskId)
    requires TableOk(s) && s.tick < U64_MAX && Stored(s, t) && ScheduleNext(s).1.value != Some(t)
    requires BestOf(s.tasks, s.tick + 1, |s.tasks|).None? ==> !s.tasks[t - 1].state.Running?
    ensures Stored(ScheduleNext(s).0, t) && !ScheduleNext(s).0.tasks[t - 1].state.Running?
  {
    match BestOf(s.tasks, s.tick + 1, |s.tasks|)
    case None => NoSelection(s);
    case Some(w) => SelectionOf(s, w);
  }

  lemma {:induction false} ReadyOnceDemoted(s: Sched, ops: seq<Op>, t: TaskId)
    requires Wf(s) && Stored(s, t) && !s.tasks[t - 1].state.Running?
    requires RunnableAtEachScan(s, ops, t) && NeverForced(ops, t)
    requires Some(t) !in Selections(s, ops)
    ensures ReadyAtEachScan(s, ops, t)
    decreases |ops|
  {
    if ops != [] {
      PickedFirstOrLater(s, ops, t);
      OnlyPicksRun(s, ops[0], t);
      assert NeverForced(ops[1..], t);
      ReadyOnceDemoted(Step(s, ops[0]), ops[1..], t);
    }
  }

  /** A run that never picks t does not pick it first and does not pick it later. */
  lemma PickedFirstOrLater(s: Sched, ops: seq<Op>, t: TaskId)
    requires Wf(s) && ops != [] && Some(t) !in Selections(s, ops)
    ensures Some(t) !in Selections(Step(s, ops[0]), ops[1..])
    ensures BeforeScan(s, ops[0]).Some? ==> ScheduleNext(BeforeScan(s, ops[0]).value).1.value != Some(t)
    ensures |Selections(s, ops)|
            == |Selections(Step(s, ops[0]), ops[1..])| + if BeforeScan(s, ops[0]).Some? then 1 else 0
  {
    var rest := Selections(Step(s, ops[0]), ops[1..]);
    match BeforeScan(s, ops[0])
    case None =>
    case Some(before) => assert Selections(s, ops) == [ScheduleNext(before).1.value] + rest;
  }

  lemma {:induction false} RunnableLosesOften(s: Sched, ops: seq<Op>, t: TaskId)
    requires Wf(s) && Stored(s, t)
    requires RunnableAtEachScan(s, ops, t) && NeverForced(ops, t)
    requires Some(t) !in Selections(s, ops)
    ensures |Selections(s, ops)| <= 479 + |Run(s, ops).tasks|
    decreases |ops|
  {
    if !s.tasks[t - 1].state.Running? {
      ReadyOnceDemoted(s, ops, t);
      WaitingLosesOften(s, ops, t, 0, {});
    } else if ops != [] {
      var s' := Step(s, ops[0]);
      PickedFirstOrLater(s, ops, t);
      StepFollowsLifecycle(s, ops[0], t - 1);
      assert NeverForced(ops[1..], t);
      if BeforeScan(s, ops[0]).Some? {
        ScanIsTheSelection(s, ops[0]);
        SelectionIsExact(BeforeScan(s, ops[0]).value);
        ReadyOnceDemoted(s', ops[1..], t);
        WaitingLosesOften(s', ops[1..], t, 0, {});
      } else {
        RunnableLosesOften(s', ops[1..], t);
      }
    }
  }

  /** Bounded waiting for a task that may also be Running when a selection starts, as the current
      task of a plain `schedule_next` is: unless a transition forces it to Running again, it is
      picked by one of any 480 + k consecutive successful selections, k being the number of stored
      tasks. */
  lemma RunnableWaiting(s: Sched, ops: seq<Op>, t: TaskId)
    requires Wf(s) && Stored(s, t)
    requires RunnableAtEachScan(s, ops, t) && NeverForced(ops, t)
    requires |Selections(s, ops)| >= 480 + |Run(s, ops).tasks|
    ensures Some(t) in Selections(s, ops)
  {
    if Some(t) !in Selections(s, ops) {
      RunnableLosesOften(s, ops, t);
    }
  }

  // ---------------------------------------------------------------- why it must not be forced

  /** Before each of n selections task 2 is forced to Running. */
  function Forcing(n: nat): (ops: seq<Op>)
  {
    if n == 0 then [] else [OpTransition(2, Running)] + ([OpSchedule] + Forcing(n - 1))
  }

  /** Task 1 scores more than task 2 by its class, and neither has aged. */
  ghost predicate Unequal(s: Sched) {
    && |s.tasks| == 2
    && s.tasks[0].IsRunnable() && s.tasks[0].schedClass.Audit?
    && s.tasks[1].state.Ready? && s.tasks[1].schedClass.Background?
    && forall i | 0 <= i < 2 ::
         && s.tasks[i].age == 0 && s.tasks[i].dynamicPriority == s.tasks[i].basePriority == 32
         && s.tasks[i].budget == UNLIMITED
  }

  lemma ForcedRound(s: Sched)
    requires Wf(s) && Unequal(s) && s.tick < U64_MAX
    ensures var s1 := Step(s, OpTransition(2, Running));
            && BeforeScan(s, OpTransition(2, Running)).None?
            && BeforeScan(s1, OpSchedule) == Some(s1)
            && Stored(s1, 2) && s1.tasks[1].IsRunnable()
            && ScheduleNext(s1).1 == Success(Some(1))
            && Unequal(Step(s1, OpSchedule)) && Step(s1, OpSchedule).tick == s.tick + 1
  {
    var s1 := Step(s, OpTransition(2, Running));
    NamedTaskOnly(s, 2, Running, 0);
    StepKeepsScoring(s, OpTransition(2, Running));
    OtherOpsKeepBudgets(s, OpTransition(2, Running), 0);
    OtherOpsKeepBudgets(s, OpTransition(2, Running), 1);
    ForcedScan(s1);
  }

  lemma ForcedScan(s: Sched)
    requires Wf(s) && s.tick < U64_MAX && |s.tasks| == 2 && s.tasks[1].state.Running?
    requires Unequal(s.(tasks := SetState(s.tasks, 2, Ready)))
    ensures ScheduleNext(s).1 == Success(Some(1))
    ensures Unequal(ScheduleNext(s).0) && ScheduleNext(s).0.tick == s.tick + 1
  {
    assert TaskOk(s.tasks, 0) && TaskOk(s.tasks, 1);
    BestIsTheLeader(s.tasks, s.tick + 1, 2);
    assert s.tasks[0] == SetState(s.tasks, 2, Ready)[0];
    assert s.tasks[1] == SetState(s.tasks, 2, Ready)[1].(state := Running);
    assert Leads(s.tasks, s.tick + 1, 2, 0);
    SelectionOf(s, 0);
  }

  lemma StepThenRest(s: Sched, op: Op, rest: seq<Op>, t: TaskId)
    requires Wf(s)
    ensures var (before, s') := (BeforeScan(s, op), Step(s, op));
            && Selections(s, [op] + rest)
               == (if before.Some? then [ScheduleNext(before.value).1.value] else []) + Selections(s', rest)
            && (RunnableAtEachScan(s, [op] + rest, t) <==>
                  && (before.Some? ==> Stored(before.value, t) && before.value.tasks[t - 1].IsRunnable())
                  && RunnableAtEachScan(s', rest, t))
  {
    var ops := [op] + rest;
    assert ops[0] == op && ops[1..] == rest;
  }

  function AfterForcing(s: Sched): (s': Sched)
    requires Wf(s)
    ensures Wf(s')
  {
    Step(Step(s, OpTransition(2, Running)), OpSchedule)
  }

  lemma ForcedRoundFirst(s: Sched, n: nat)
    requires Wf(s) && Unequal(s) && s.tick < U64_MAX && n > 0
    ensures Unequal(AfterForcing(s)) && AfterForcing(s).tick == s.tick + 1
    ensures Selections(s, Forcing(n)) == [Some(1)] + Selections(AfterForcing(s), Forcing(n - 1))
    ensures RunnableAtEachScan(AfterForcing(s), Forcing(n - 1), 2) ==> RunnableAtEachScan(s, Forcing(n), 2)
  {
    ForcedRound(s);
    StepThenRest(s, OpTransition(2, Running), [OpSchedule] + Forcing(n - 1), 2);
    StepThenRest(Step(s, OpTransition(2, Running)), OpSchedule, Forcing(n - 1), 2);
  }

  lemma {:induction false} ForcedRounds(s: Sched, n: nat)
    requires Wf(s) && Unequal(s) && s.tick + n <= U64_MAX
    ensures RunnableAtEachScan(s, Forcing(n), 2)
    ensures AllFirst(Selections(s, Forcing(n)), n)
    decreases n
  {
    if n == 0 {
      assert Forcing(n) == [];
    } else {
      ForcedRoundFirst(s, n);
      ForcedRounds(AfterForcing(s), n - 1);
      OneMoreFirst(Selections(AfterForcing(s), Forcing(n - 1)), n);
    }
  }

  ghost predicate AllFirst(picks: seq<Option<TaskId>>, n: nat) {
    |picks| == n && forall i | 0 <= i < n :: picks[i] == Some(1)
  }

  lemma OneMoreFirst(picks: seq<Option<TaskId>>, n: nat)
    requires n > 0 && AllFirst(picks, n - 1)
    ensures AllFirst([Some(1)] + picks, n)
  {
  }

  /** The condition on transitions is needed: for every n there is a run in which task 2 is
      runnable at every scan, because a transition forces it to Running before each, and n
      selections in a row pick task 1. */
  lemma ForcedTaskStarves(n: nat) returns (s: Sched, ops: seq<Op>)
    requires n <= U64_MAX
    ensures Wf(s) && s == Run(INITIAL, [UNEQUAL_SPAWN_1, UNEQUAL_SPAWN_2]) && Stored(s, 2)
    ensures RunnableAtEachScan(s, ops, 2)
    ensures |Selections(s, ops)| == n && Some(2) !in Selections(s, ops)
  {
    var first := [] + [UNEQUAL_SPAWN_1];
    s, ops := Run(INITIAL, first + [UNEQUAL_SPAWN_2]), Forcing(n);
    RunAppend(INITIAL, [], UNEQUAL_SPAWN_1);
    RunAppend(INITIAL, first, UNEQUAL_SPAWN_2);
    UnequalStart(INITIAL);
    ForcedRounds(s, n);
  }

  const UNEQUAL_SPAWN_1 := OpSpawn(0, Audit, 32, EMPTY_SET, UNLIMITED)
  const UNEQUAL_SPAWN_2 := OpSpawn(0, Background, 32, EMPTY_SET, UNLIMITED)

  lemma UnequalStart(s: Sched)
    requires Wf(s) && s.tasks == [] && s.nextId == 1
    ensures var s2 := Step(Step(s, UNEQUAL_SPAWN_1), UNEQUAL_SPAWN_2);
            Unequal(s2) && s2.tick == s.tick
  {
  }
}
