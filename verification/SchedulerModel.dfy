/** What each scheduler operation does to the task table, as functions on values. */
module SchedulerModel {
  import opened Machine
  import opened Errors
  import opened Capabilities

  const MAX_TASKS := 64

  datatype TaskState = New | Ready | Running | Blocked | Sleeping | Suspended | Exiting | Zombie

  datatype SchedulerClass = Kernel | Runtime | Interactive | Cognitive | Background | Audit {
    function Boost(): (b: u32)
      ensures b <= 96
    {
      match this
      case Audit => 96
      case Kernel => 80
      case Runtime => 48
      case Interactive => 32
      case Cognitive => 16
      case Background => 0
    }
  }

  datatype BudgetAccount = BudgetAccount(maxTicks: u64, remainingTicks: u64, deadlineTick: u64) {
    predicate DeadlineExpired(now: u64) {
      deadlineTick != 0 && now >= deadlineTick
    }

    function ConsumeTick(): Result<BudgetAccount> {
      if maxTicks == 0 then Success(this)
      else if remainingTicks == 0 then Failure(DeadlineExceeded)
      else Success(this.(remainingTicks := remainingTicks - 1))
    }
  }

  const UNLIMITED := BudgetAccount(0, 0, 0)

  function Bounded(maxTicks: u64, deadlineTick: u64): Result<BudgetAccount> {
    if maxTicks == 0 && deadlineTick == 0 then Failure(InvalidArgument)
    else Success(BudgetAccount(maxTicks, maxTicks, deadlineTick))
  }

  datatype Task = Task(
    id: TaskId,
    parentId: TaskId,
    state: TaskState,
    schedClass: SchedulerClass,
    basePriority: u8,
    dynamicPriority: u8,
    weight: u16,
    age: u16,
    budget: BudgetAccount,
    capabilities: CapabilitySet,
    contextSwitches: u64)
  {
    predicate IsRunnable() {
      state.Ready? || state.Running?
    }

    /** The weighted score of the selection scan at tick `now`. */
    function Score(now: u64): u32 {
      dynamicPriority + weight + schedClass.Boost() + age + if budget.DeadlineExpired(now) then 128 else 0
    }

    /** The task after its yield was charged. */
    function Charged(budget: BudgetAccount): Task {
      this.(budget := budget, state := if state.Running? then Ready else state)
    }

    /** The task after a selection that it won. */
    function Won(): Task
      requires contextSwitches < U64_MAX
    {
      this.(state := Running, age := 0, dynamicPriority := basePriority, contextSwitches := contextSwitches + 1)
    }

    /** The task after a selection that another task won. A quarter of the age is added to
        the base priority after being cut down to eight bits. */
    function Lost(): Task {
      if state.Running? then this.(state := Ready)
      else if state.Ready? then
        var older := Min(age + 1, U16_MAX);
        this.(age := older, dynamicPriority := Min(basePriority + (older / 4) % 256, U8_MAX))
      else this
    }
  }

  const EMPTY_TASK := Task(0, 0, Zombie, Background, 0, 0, 0, 0, UNLIMITED, EMPTY_SET, 0)

  function NewTask(
    id: TaskId, parentId: TaskId, schedClass: SchedulerClass, priority: u8, capabilities: CapabilitySet,
    budget: BudgetAccount): Task
  {
    Task(id, parentId, Ready, schedClass, priority, priority, 1, 0, budget, capabilities, 0)
  }

  datatype StateChange = StateChange(taskId: TaskId, from: TaskState, to: TaskState)

  predicate ValidTransition(from: TaskState, to: TaskState) {
    match (from, to)
    case (New, Ready) | (Ready, Running) | (Running, Ready) | (Running, Blocked) | (Running, Sleeping)
      | (Ready, Suspended) | (Suspended, Ready) | (Blocked, Ready) | (Sleeping, Ready)
      | (Running, Exiting) | (Exiting, Zombie) => true
    case (_, to) => to.Zombie?
  }

  /** tasks[i] is the content of slot i; the slots past the end are unoccupied. */
  datatype Sched = Sched(tasks: seq<Task>, current: Option<TaskId>, nextId: TaskId, tick: u64)

  const INITIAL := Sched([], None, 1, 0)

  predicate Stored(s: Sched, id: TaskId) {
    1 <= id <= |s.tasks|
  }

  /** The total number of selections the stored tasks have won. */
  function Switches(tasks: seq<Task>): nat {
    if tasks == [] then 0 else Switches(tasks[..|tasks| - 1]) + tasks[|tasks| - 1].contextSwitches
  }

  /** Slot i holds the task with id i + 1, in every state but New, of the weight all tasks get. */
  ghost predicate TaskOk(tasks: seq<Task>, i: nat)
    requires i < |tasks|
  {
    tasks[i].id == i + 1 && !tasks[i].state.New? && tasks[i].weight == 1
  }

  ghost predicate TableOk(s: Sched) {
    && 1 <= s.nextId
    && |s.tasks| == Min(s.nextId - 1, MAX_TASKS)
    && (forall i | 0 <= i < |s.tasks| :: TaskOk(s.tasks, i))
    && Switches(s.tasks) <= s.tick
  }

  /** A current task is stored and Running; only at the last tick can it have been left Ready. */
  ghost predicate CurrentOk(s: Sched) {
    s.current.Some? ==>
      && Stored(s, s.current.value)
      && var state := s.tasks[s.current.value - 1].state;
         state.Running? || (s.tick == U64_MAX && state.Ready?)
  }

  /** Holds in every reachable state. */
  ghost predicate Wf(s: Sched) {
    TableOk(s) && CurrentOk(s)
  }

  function Spawn(
    s: Sched, parentId: TaskId, schedClass: SchedulerClass, priority: u8, capabilities: CapabilitySet,
    budget: BudgetAccount): (r: (Sched, Result<TaskId>))
    requires Wf(s)
    ensures Wf(r.0)
  {
    if s.nextId == U64_MAX then (s, Failure(Internal))
    else if |s.tasks| == MAX_TASKS then (s.(nextId := s.nextId + 1), Failure(CapacityExceeded))
    else
      var task := NewTask(s.nextId, parentId, schedClass, priority, capabilities, budget);
      var s' := s.(tasks := s.tasks + [task], nextId := s.nextId + 1);
      assert Wf(s') by {
        assert s'.tasks[..|s.tasks|] == s.tasks;
        assert forall i | 0 <= i < |s.tasks| :: TaskOk(s.tasks, i) ==> TaskOk(s'.tasks, i);
      }
      (s', Success(s.nextId))
  }

  /** The task table with the state of one stored task replaced. */
  function SetState(tasks: seq<Task>, id: TaskId, state: TaskState): seq<Task>
    requires 1 <= id <= |tasks|
  {
    tasks[id - 1 := tasks[id - 1].(state := state)]
  }

  function Transition(s: Sched, id: TaskId, to: TaskState): (r: (Sched, Result<StateChange>))
    requires Wf(s)
    ensures Wf(r.0)
  {
    if !Stored(s, id) then (s, Failure(NotFound))
    else
      var from := s.tasks[id - 1].state;
      if !ValidTransition(from, to) then (s, Failure(InvalidState))
      else
        SetStateKeepsTable(s, id, to);
        var current := if to.Running? then Some(id) else if s.current == Some(id) then None else s.current;
        (s.(tasks := SetState(s.tasks, id, to), current := current), Success(StateChange(id, from, to)))
  }

  function Cancel(s: Sched, id: TaskId): (r: (Sched, Result<StateChange>))
    requires Wf(s)
    ensures Wf(r.0)
  {
    if !Stored(s, id) then (s, Failure(NotFound))
    else
      var from := s.tasks[id - 1].state;
      if from.Zombie? || from.Exiting? then (s, Failure(InvalidState))
      else
        SetStateKeepsTable(s, id, Zombie);
        var current := if s.current == Some(id) then None else s.current;
        (s.(tasks := SetState(s.tasks, id, Zombie), current := current), Success(StateChange(id, from, Zombie)))
  }

  /** What the selection scan has found in the first n slots. */
  function BestOf(tasks: seq<Task>, now: u64, n: nat): (best: Option<nat>)
    requires n <= |tasks|
    ensures best.Some? ==> best.value < n && tasks[best.value].IsRunnable()
  {
    if n == 0 then None
    else
      var best := BestOf(tasks, now, n - 1);
      if !tasks[n - 1].IsRunnable() then best
      else if best.None? || tasks[n - 1].Score(now) > tasks[best.value].Score(now) then Some(n - 1)
      else best
  }

  /** The task table after slot `winner` won a selection. */
  function AfterWin(tasks: seq<Task>, winner: nat): (r: seq<Task>)
    requires winner < |tasks| && tasks[winner].contextSwitches < U64_MAX
    ensures |r| == |tasks|
    ensures forall i | 0 <= i < |tasks| :: r[i] == if i == winner then tasks[i].Won() else tasks[i].Lost()
  {
    seq(|tasks|, i requires 0 <= i < |tasks| => if i == winner then tasks[i].Won() else tasks[i].Lost())
  }

  function ScheduleNext(s: Sched): (r: (Sched, Result<Option<TaskId>>))
    requires TableOk(s)
    ensures TableOk(r.0)
    ensures s.tick < U64_MAX ==> Wf(r.0)
  {
    if s.tick == U64_MAX then (s, Failure(Internal))
    else
      match BestOf(s.tasks, s.tick + 1, |s.tasks|)
      case None => (s.(tick := s.tick + 1, current := None), Success(None))
      case Some(winner) =>
        EachSwitchCounted(s.tasks, winner);
        WinCounts(s.tasks, winner);
        var tasks := AfterWin(s.tasks, winner);
        assert forall i | 0 <= i < |tasks| :: TaskOk(s.tasks, i) ==> TaskOk(tasks, i);
        assert TaskOk(s.tasks, winner);
        (s.(tick := s.tick + 1, tasks := tasks, current := Some(winner + 1)), Success(Some(winner + 1)))
  }

  /** A selection whose scan finds nothing, spelled out. */
  lemma NoSelection(s: Sched)
    requires TableOk(s) && s.tick < U64_MAX && BestOf(s.tasks, s.tick + 1, |s.tasks|).None?
    ensures ScheduleNext(s) == (Sched(s.tasks, None, s.nextId, s.tick + 1), Success(None))
  {
  }

  /** A selection whose scan ends on `winner`, spelled out. */
  lemma SelectionOf(s: Sched, winner: nat)
    requires TableOk(s) && s.tick < U64_MAX
    requires BestOf(s.tasks, s.tick + 1, |s.tasks|) == Some(winner)
    ensures winner < |s.tasks| && s.tasks[winner].contextSwitches < U64_MAX
    ensures forall i | 0 <= i < |s.tasks| :: s.tasks[i].id == i + 1
    ensures ScheduleNext(s)
            == (Sched(AfterWin(s.tasks, winner), Some(winner + 1), s.nextId, s.tick + 1), Success(Some(winner + 1)))
  {
    EachSwitchCounted(s.tasks, winner);
    forall i | 0 <= i < |s.tasks| ensures s.tasks[i].id == i + 1 { assert TaskOk(s.tasks, i); }
  }

  /** What `yield_current` does before it selects: charge the current task and demote it. */
  function ChargeAndDemote(s: Sched): (r: Result<Sched>)
    requires Wf(s)
    ensures r.Success? ==> TableOk(r.value) && (s.tick == U64_MAX ==> Wf(r.value)) && r.value.tick == s.tick
  {
    if s.current.None? then Success(s)
    else
      var i := s.current.value - 1;
      match s.tasks[i].budget.ConsumeTick()
      case Failure(e) => Failure(e)
      case Success(budget) =>
        ChargeKeepsTable(s, i, budget);
        Success(s.(tasks := s.tasks[i := s.tasks[i].Charged(budget)]))
  }

  function YieldCurrent(s: Sched): (r: (Sched, Result<Option<TaskId>>))
    requires Wf(s)
    ensures Wf(r.0)
  {
    match ChargeAndDemote(s)
    case Failure(e) => (s, Failure(e))
    case Success(s1) => ScheduleNext(s1)
  }

  lemma {:induction false} SameSwitches(a: seq<Task>, b: seq<Task>)
    requires |a| == |b|
    requires forall i | 0 <= i < |a| :: a[i].contextSwitches == b[i].contextSwitches
    ensures Switches(a) == Switches(b)
  {
    if a != [] {
      SameSwitches(a[..|a| - 1], b[..|b| - 1]);
    }
  }

  lemma SetStateKeepsTable(s: Sched, id: TaskId, state: TaskState)
    requires TableOk(s) && Stored(s, id) && !state.New?
    ensures TableOk(s.(tasks := SetState(s.tasks, id, state)))
  {
    var tasks := SetState(s.tasks, id, state);
    SameSwitches(s.tasks, tasks);
    assert forall i | 0 <= i < |s.tasks| :: TaskOk(s.tasks, i) ==> TaskOk(tasks, i);
  }

  lemma ChargeKeepsTable(s: Sched, i: nat, budget: BudgetAccount)
    requires TableOk(s) && i < |s.tasks|
    ensures TableOk(s.(tasks := s.tasks[i := s.tasks[i].Charged(budget)]))
  {
    var tasks := s.tasks[i := s.tasks[i].Charged(budget)];
    SameSwitches(s.tasks, tasks);
    forall j | 0 <= j < |tasks| ensures TaskOk(tasks, j) {
      assert TaskOk(s.tasks, j);
    }
  }

  lemma {:induction false} EachSwitchCounted(tasks: seq<Task>, i: nat)
    requires i < |tasks|
    ensures tasks[i].contextSwitches <= Switches(tasks)
  {
    if i < |tasks| - 1 {
      EachSwitchCounted(tasks[..|tasks| - 1], i);
    }
  }

  lemma {:induction false} WinCounts(tasks: seq<Task>, winner: nat)
    requires winner < |tasks| && tasks[winner].contextSwitches < U64_MAX
    ensures Switches(AfterWin(tasks, winner)) == Switches(tasks) + 1
  {
    var front, after := tasks[..|tasks| - 1], AfterWin(tasks, winner);
    if winner == |tasks| - 1 {
      SameSwitches(front, after[..|tasks| - 1]);
    } else {
      WinCounts(front, winner);
      assert after[..|tasks| - 1] == AfterWin(front, winner);
    }
  }
}
