/** The run queue: 64 task slots searched linearly, filled in order and never freed. */
module RunQueue {
  import opened Machine
  import opened Errors
  import opened Capabilities
  import opened SchedulerModel

  datatype TaskSlot = TaskSlot(occupied: bool, task: Task)

  const EMPTY_SLOT := TaskSlot(false, EMPTY_TASK)

  ghost predicate DistinctIds(tasks: seq<Task>) {
    forall i, j | 0 <= i < j < |tasks| :: tasks[i].id != tasks[j].id
  }

  /** The occupied slots are the first ones, and hold these tasks. */
  ghost predicate Lists(slots: seq<TaskSlot>, tasks: seq<Task>) {
    && |tasks| <= |slots|
    && (forall i | 0 <= i < |slots| :: slots[i].occupied <==> i < |tasks|)
    && (forall i | 0 <= i < |tasks| :: slots[i].task == tasks[i])
  }

  class RunQueue {
    const slots: array<TaskSlot>
    /** The stored tasks, in slot order. */
    ghost var tasks: seq<Task>

    ghost predicate Valid()
      reads this, slots
    {
      && slots.Length == MAX_TASKS
      && Lists(slots[..], tasks)
      && DistinctIds(tasks)
    }

    constructor ()
      ensures Valid() && fresh(slots)
      ensures tasks == []
    {
      slots := new TaskSlot[MAX_TASKS](_ => EMPTY_SLOT);
      tasks := [];
    }

    /** The first occupied slot with this id, found by scanning from slot zero. */
    method Find(id: TaskId) returns (slot: Option<nat>)
      requires Valid()
      ensures slot.Some? ==> slot.value < |tasks| && tasks[slot.value].id == id
      ensures slot.None? ==> forall i | 0 <= i < |tasks| :: tasks[i].id != id
    {
      for i := 0 to slots.Length
        invariant forall j | 0 <= j < i && j < |tasks| :: tasks[j].id != id
      {
        if slots[i].occupied && slots[i].task.id == id { return Some(i); }
      }
      return None;
    }

    /** The stored task with this id. */
    method Get(id: TaskId) returns (task: Option<Task>)
      requires Valid()
      ensures task.Some? ==> task.value in tasks && task.value.id == id
      ensures task.None? ==> forall i | 0 <= i < |tasks| :: tasks[i].id != id
    {
      var slot := Find(id);
      match slot
      case None => return None;
      case Some(i) => return Some(slots[i].task);
    }

    /** Overwrites the task of an occupied slot, as a holder of a mutable reference may. */
    method Put(slot: nat, task: Task)
      requires Valid() && slot < |tasks| && task.id == tasks[slot].id
      modifies `tasks, slots
      ensures Valid()
      ensures tasks == old(tasks)[slot := task]
    {
      slots[slot] := slots[slot].(task := task);
      tasks := tasks[slot := task];
    }

    /** Inserts a task into the first free slot. */
    method Insert(task: Task) returns (r: Result<()>)
      requires Valid()
      modifies `tasks, slots
      ensures Valid()
      ensures r.Success? <==>
                && task.id != 0
                && (forall i | 0 <= i < |old(tasks)| :: old(tasks)[i].id != task.id)
                && |old(tasks)| < MAX_TASKS
      ensures tasks == if r.Success? then old(tasks) + [task] else old(tasks)
      ensures r.Failure? ==>
                r.error == if task.id == 0 then InvalidArgument
                           else if exists i | 0 <= i < |tasks| :: tasks[i].id == task.id then Duplicate
                           else CapacityExceeded
    {
      if task.id == 0 { return Failure(InvalidArgument); }
      var present := Find(task.id);
      if present.Some? { return Failure(Duplicate); }
      var free := 0;
      while free < slots.Length && slots[free].occupied
        invariant 0 <= free <= |tasks|
      {
        free := free + 1;
      }
      if free == slots.Length { return Failure(CapacityExceeded); }
      slots[free] := TaskSlot(true, task);
      tasks := tasks + [task];
      return Success(());
    }
  }
}

/** The cooperative scheduler, changing its run queue in place. */
module Scheduler {
  import opened Machine
  import opened Errors
  import opened Capabilities
  import M = SchedulerModel
  import Runs = SchedulerRuns
  import Q = RunQueue

  class Scheduler {
    const queue: Q.RunQueue
    var currentTask: Option<TaskId>
    var nextTaskId: TaskId
    var tick: u64

    ghost function View(): M.Sched
      reads this, queue
    {
      M.Sched(queue.tasks, currentTask, nextTaskId, tick)
    }

    ghost function Repr(): set<object> {
      {this, queue, queue.slots}
    }

    ghost predicate Valid()
      reads this, queue, queue.slots
    {
      queue.Valid() && M.Wf(View())
    }

    constructor ()
      ensures Valid() && fresh(Repr())
      ensures View() == M.INITIAL
    {
      queue := new Q.RunQueue();
      currentTask, nextTaskId, tick := None, 1, 0;
    }

    /** Where the scan for a stored id ends: in the slot that the id numbers. */
    method Locate(id: TaskId) returns (slot: Option<nat>)
      requires queue.Valid() && M.TableOk(View())
      ensures slot == if M.Stored(View(), id) then Some(id - 1) else None
    {
      slot := queue.Find(id);
      if slot.Some? { assert M.TaskOk(queue.tasks, slot.value); }
      if M.Stored(View(), id) { assert M.TaskOk(queue.tasks, id - 1); }
    }

    /** What the run queue finds under an id is the content of the slot the id numbers. */
    lemma StoredById(id: TaskId, task: Option<M.Task>)
      requires Valid()
      requires task.Some? ==> task.value in queue.tasks && task.value.id == id
      requires task.None? ==> forall i | 0 <= i < |queue.tasks| :: queue.tasks[i].id != id
      ensures task == if M.Stored(View(), id) then Some(queue.tasks[id - 1]) else None
    {
      forall i | 0 <= i < |queue.tasks| ensures queue.tasks[i].id == i + 1 { assert M.TaskOk(queue.tasks, i); }
    }

    method Spawn(
      parentId: TaskId, schedClass: M.SchedulerClass, priority: u8, capabilities: CapabilitySet,
      budget: M.BudgetAccount)
      returns (r: Result<TaskId>)
      requires Valid()
      modifies this, queue, queue.slots
      ensures Valid()
      ensures (View(), r) == M.Spawn(old(View()), parentId, schedClass, priority, capabilities, budget)
    {
      ghost var spec := M.Spawn(View(), parentId, schedClass, priority, capabilities, budget);
      var taskId := nextTaskId;
      var successor := CheckedAdd(nextTaskId, 1);
      if successor.None? { return Failure(Internal); }
      nextTaskId := successor.value;
      var task := M.NewTask(taskId, parentId, schedClass, priority, capabilities, budget);
      forall i | 0 <= i < |queue.tasks| ensures queue.tasks[i].id < taskId { assert M.TaskOk(queue.tasks, i); }
      var inserted := queue.Insert(task);
      assert View() == spec.0;
      match inserted
      case Failure(e) => return Failure(e);
      case Success(_) => return Success(taskId);
    }

    method Transition(id: TaskId, to: M.TaskState) returns (r: Result<M.StateChange>)
      requires Valid()
      modifies this, queue, queue.slots
      ensures Valid()
      ensures (View(), r) == M.Transition(old(View()), id, to)
    {
      ghost var spec := M.Transition(View(), id, to);
      var slot := Locate(id);
      if slot.None? { return Failure(NotFound); }
      var task := queue.slots[slot.value].task;
      var from := task.state;
      if !M.ValidTransition(from, to) { return Failure(InvalidState); }
      queue.Put(slot.value, task.(state := to));
      if to.Running? {
        currentTask := Some(id);
      } else if currentTask == Some(id) {
        currentTask := None;
      }
      assert View() == spec.0;
      return Success(M.StateChange(id, from, to));
    }

    method Cancel(id: TaskId) returns (r: Result<M.StateChange>)
      requires Valid()
      modifies this, queue, queue.slots
      ensures Valid()
      ensures (View(), r) == M.Cancel(old(View()), id)
    {
      ghost var spec := M.Cancel(View(), id);
      var slot := Locate(id);
      if slot.None? { return Failure(NotFound); }
      var task := queue.slots[slot.value].task;
      var from := task.state;
      if from.Zombie? || from.Exiting? { return Failure(InvalidState); }
      queue.Put(slot.value, task.(state := M.Zombie));
      if currentTask == Some(id) {
        currentTask := None;
      }
      assert View() == spec.0;
      return Success(M.StateChange(id, from, M.Zombie));
    }

    method YieldCurrent() returns (r: Result<Option<TaskId>>)
      requires Valid()
      modifies this, queue, queue.slots
      ensures Valid()
      ensures (View(), r) == M.YieldCurrent(old(View()))
    {
      if currentTask.Some? {
        var slot := Locate(currentTask.value);
        if slot.None? { return Failure(NotFound); }
        var task := queue.slots[slot.value].task;
        var charged := task.budget.ConsumeTick();
        if charged.Failure? { return Failure(charged.error); }
        queue.Put(slot.value, task.Charged(charged.value));
      }
      assert M.ChargeAndDemote(old(View())) == Success(View());
      r := ScheduleNext();
    }

    /** Also called by a yield, in a state where the current task has been demoted already. */
    method ScheduleNext() returns (r: Result<Option<TaskId>>)
      requires queue.Valid() && M.TableOk(View())
      modifies this, queue, queue.slots
      ensures queue.Valid()
      ensures (View(), r) == M.ScheduleNext(old(View()))
    {
      var successor := CheckedAdd(tick, 1);
      if successor.None? { return Failure(Internal); }
      var selected := SelectAt(successor.value);
      return Success(selected);
    }

    /** The selection proper, at the tick it has been counted for. */
    method SelectAt(now: u64) returns (selected: Option<TaskId>)
      requires queue.Valid() && M.TableOk(View()) && now == tick + 1
      modifies this, queue, queue.slots
      ensures queue.Valid()
      ensures (View(), Success(selected)) == M.ScheduleNext(old(View()))
    {
      ghost var before := View();
      tick := now;
      var best := ScanForBest();
      match best
      case None =>
        M.NoSelection(before);
        currentTask := None;
        return None;
      case Some(slot) =>
        M.SelectionOf(before, slot);
        var id := Select(slot);
        assert View() == M.Sched(M.AfterWin(before.tasks, slot), Some(id), before.nextId, now);
        return Some(id);
    }

    /** Makes the task in a slot the Running and current one. */
    method Select(slot: nat) returns (selected: TaskId)
      requires queue.Valid() && slot < |queue.tasks| && queue.tasks[slot].contextSwitches < U64_MAX
      requires forall i | 0 <= i < |queue.tasks| :: queue.tasks[i].id == i + 1
      modifies this`currentTask, queue`tasks, queue.slots
      ensures queue.Valid() && selected == slot + 1
      ensures queue.tasks == M.AfterWin(old(queue.tasks), slot) && currentTask == Some(selected)
    {
      selected := queue.slots[slot].task.id;
      UpdateForWin(selected);
      currentTask := Some(selected);
    }

    /** The selection scan: the first runnable slot of maximal score. */
    method ScanForBest() returns (best: Option<nat>)
      requires queue.Valid()
      ensures best == M.BestOf(queue.tasks, tick, |queue.tasks|)
      ensures best.None? <==> forall i | 0 <= i < |queue.tasks| :: !queue.tasks[i].IsRunnable()
      ensures best.Some? ==> Runs.Leads(queue.tasks, tick, |queue.tasks|, best.value)
    {
      best := None;
      var bestScore: u32 := 0;
      for i := 0 to queue.slots.Length
        invariant best == M.BestOf(queue.tasks, tick, Min(i, |queue.tasks|))
        invariant best.Some? ==> bestScore == queue.tasks[best.value].Score(tick)
      {
        if queue.slots[i].occupied && queue.slots[i].task.IsRunnable() {
          var score := queue.slots[i].task.Score(tick);
          if best.None? || score > bestScore {
            best, bestScore := Some(i), score;
          }
        }
      }
      Runs.BestIsTheLeader(queue.tasks, tick, |queue.tasks|);
    }

    /** Resets the selected task and ages or demotes the others. */
    method UpdateForWin(selected: TaskId)
      requires queue.Valid() && 1 <= selected <= |queue.tasks|
      requires forall i | 0 <= i < |queue.tasks| :: queue.tasks[i].id == i + 1
      requires queue.tasks[selected - 1].contextSwitches < U64_MAX
      modifies queue`tasks, queue.slots
      ensures queue.Valid()
      ensures queue.tasks == M.AfterWin(old(queue.tasks), selected - 1)
    {
      ghost var before := queue.tasks;
      ghost var after := M.AfterWin(before, selected - 1);
      for i := 0 to queue.slots.Length
        invariant queue.Valid() && |queue.tasks| == |before|
        invariant forall j | 0 <= j < |before| :: queue.tasks[j] == if j < i then after[j] else before[j]
      {
        if queue.slots[i].occupied {
          var task := queue.slots[i].task;
          // The addition to the counter fits in 64 bits, so its error case never arises.
          queue.Put(i, if task.id == selected then task.Won() else task.Lost());
        }
      }
      assert queue.tasks == after;
    }
  }
}
