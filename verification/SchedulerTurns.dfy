/** Round robin: tasks that differ in nothing the score depends on but their age take turns. */
module SchedulerTurns {
  import opened Machine
  import opened Errors
  import opened Capabilities
  import opened SchedulerModel
  import opened SchedulerRuns
  import opened SchedulerAging
  import Bits

  // ---------------------------------------------------------------- who waits in which order

  /** Slot i is served before slot j: it has waited longer, or as long in a lower slot. */
  ghost predicate Sooner(tasks: seq<Task>, i: nat, j: nat)
    requires i < |tasks| && j < |tasks|
  {
    tasks[i].age > tasks[j].age || (tasks[i].age == tasks[j].age && i < j)
  }

  /** The runnable ones of the first n slots, in some order. */
  ghost predicate Lists(tasks: seq<Task>, n: nat, order: seq<nat>)
    requires n <= |tasks|
  {
    && (forall a | 0 <= a < |order| :: order[a] < n && tasks[order[a]].IsRunnable())
    && (forall i | 0 <= i < n && tasks[i].IsRunnable() :: i in order)
  }

  /** The runnable ones of the first n slots, in the order in which they are served. */
  ghost predicate Queue(tasks: seq<Task>, n: nat, order: seq<nat>)
    requires n <= |tasks|
  {
    && Lists(tasks, n, order)
    && (forall a, b | 0 <= a < b < |order| :: Sooner(tasks, order[a], order[b]))
  }

  /** Runnable tasks have the same class, base priority and deadline. */
  ghost predicate Alike(tasks: seq<Task>) {
    forall i, j | 0 <= i < |tasks| && 0 <= j < |tasks| && tasks[i].IsRunnable() && tasks[j].IsRunnable() ::
      && tasks[i].schedClass == tasks[j].schedClass && tasks[i].basePriority == tasks[j].basePriority
      && tasks[i].budget.deadlineTick == tasks[j].budget.deadlineTick
  }

  /** No runnable task runs out of its budget within n yields. */
  ghost predicate Affords(tasks: seq<Task>, n: int) {
    forall i | 0 <= i < |tasks| && tasks[i].IsRunnable() ::
      tasks[i].budget.maxTicks == 0 || tasks[i].budget.remainingTicks >= n
  }

  ghost predicate OnlyCurrentRuns(s: Sched) {
    forall i | 0 <= i < |s.tasks| && s.tasks[i].state.Running? :: s.current == Some(i + 1)
  }

  ghost predicate YoungTask(t: Task) {
    t.age <= 990 && t.weight == 1 && t.dynamicPriority == Min(t.basePriority + t.age / 4, U8_MAX)
  }

  /** What AgesStayBounded says of every reachable state. */
  ghost predicate Young(tasks: seq<Task>) {
    forall i | 0 <= i < |tasks| :: YoungTask(tasks[i])
  }

  /** A state from which n yields can take turns. */
  ghost predicate TurnsReady(s: Sched, n: nat) {
    s.tick + n <= U64_MAX && Alike(s.tasks) && Affords(s.tasks, n) && OnlyCurrentRuns(s)
  }

  function Rotated<T>(order: seq<T>): (r: seq<T>)
    requires order != []
    ensures |r| == |order|
  {
    order[1..] + [order[0]]
  }

  // ---------------------------------------------------------------- one turn

  /** Of two such tasks alike the older scores more. */
  lemma OlderScoresMore(a: Task, b: Task, now: u64)
    requires YoungTask(a) && YoungTask(b)
    requires a.schedClass == b.schedClass && a.basePriority == b.basePriority
    requires a.budget.deadlineTick == b.budget.deadlineTick
    ensures a.age > b.age ==> a.Score(now) > b.Score(now)
    ensures a.age == b.age ==> a.Score(now) == b.Score(now)
  {
  }

  lemma HeadLeads(tasks: seq<Task>, order: seq<nat>, now: u64)
    requires Lists(tasks, |tasks|, order) && order != [] && Alike(tasks) && Young(tasks)
    requires forall b | 0 < b < |order| :: Sooner(tasks, order[0], order[b])
    ensures BestOf(tasks, now, |tasks|) == Some(order[0])
  {
    var head := order[0];
    forall j | 0 <= j < |tasks| && tasks[j].IsRunnable()
      ensures tasks[j].Score(now) <= tasks[head].Score(now)
      ensures j < head ==> tasks[j].Score(now) < tasks[head].Score(now)
    {
      var b :| 0 <= b < |order| && order[b] == j;
      assert b > 0 ==> Sooner(tasks, order[0], order[b]);
      assert YoungTask(tasks[head]) && YoungTask(tasks[j]);
      OlderScoresMore(tasks[head], tasks[j], now);
    }
    assert Leads(tasks, now, |tasks|, head);
    BestIsTheLeader(tasks, now, |tasks|);
  }

  /** What a yield does before it selects: every runnable task is Ready then, and of what decides
      the order nothing has changed. */
  lemma BeforeTheTurn(s: Sched, n: nat)
    requires Wf(s) && n > 0 && TurnsReady(s, n) && Young(s.tasks)
    ensures ChargeAndDemote(s).Success?
    ensures var before := ChargeAndDemote(s).value;
            && |before.tasks| == |s.tasks|
            && (forall i | 0 <= i < |s.tasks| :: Demoted(s.tasks[i], before.tasks[i]))
            && Affords(before.tasks, n - 1)
  {
  }

  /** What demotion keeps of a task. */
  ghost predicate Demoted(a: Task, b: Task) {
    && b.state == (if a.state.Running? then Ready else a.state)
    && b.age == a.age && b.weight == a.weight && b.dynamicPriority == a.dynamicPriority
    && b.schedClass == a.schedClass && b.basePriority == a.basePriority
    && b.budget.deadlineTick == a.budget.deadlineTick
  }

  lemma DemotedKeepsOrder(a: seq<Task>, b: seq<Task>, order: seq<nat>)
    requires |a| == |b| && forall i | 0 <= i < |a| :: Demoted(a[i], b[i])
    requires Queue(a, |a|, order) && Alike(a) && Young(a)
    ensures Queue(b, |b|, order) && Alike(b) && Young(b)
  {
    forall i, j | 0 <= i < |b| && 0 <= j < |b| && b[i].IsRunnable() && b[j].IsRunnable()
      ensures b[i].schedClass == b[j].schedClass && b[i].basePriority == b[j].basePriority
      ensures b[i].budget.deadlineTick == b[j].budget.deadlineTick
    {
      assert Demoted(a[i], b[i]) && Demoted(a[j], b[j]);
    }
    forall i | 0 <= i < |b| ensures YoungTask(b[i]) { assert Demoted(a[i], b[i]) && YoungTask(a[i]); }
    forall i, j | 0 <= i < |b| && 0 <= j < |b| ensures Sooner(a, i, j) <==> Sooner(b, i, j) {
      assert Demoted(a[i], b[i]) && Demoted(a[j], b[j]);
    }
  }

  /** What a selection does to a task: a Running one that loses does not age. */
  ghost predicate TookPart(a: Task, b: Task, won: bool) {
    && (b.state.Running? <==> won)
    && (a.IsRunnable() <==> b.IsRunnable())
    && (a.IsRunnable() ==> b.age == if won then 0 else if a.state.Running? then a.age else a.age + 1)
    && b.schedClass == a.schedClass && b.basePriority == a.basePriority && b.budget == a.budget
  }

  lemma AfterTheTurn(tasks: seq<Task>, w: nat, i: nat)
    requires w < |tasks| && tasks[w].contextSwitches < U64_MAX && tasks[w].IsRunnable()
    requires i < |tasks| && YoungTask(tasks[i])
    ensures TookPart(tasks[i], AfterWin(tasks, w)[i], i == w)
  {
  }

  lemma ListRotates(a: seq<Task>, b: seq<Task>, order: seq<nat>)
    requires |a| == |b| && order != [] && Lists(a, |a|, order)
    requires forall i | 0 <= i < |a| :: TookPart(a[i], b[i], i == order[0])
    ensures Lists(b, |b|, Rotated(order))
  {
    var next := Rotated(order);
    forall i | 0 <= i < |b| && b[i].IsRunnable() ensures i in next {
      assert TookPart(a[i], b[i], i == order[0]);
      var p :| 0 <= p < |order| && order[p] == i;
      assert next[if p == 0 then |order| - 1 else p - 1] == i;
    }
    forall p | 0 <= p < |next| ensures next[p] < |b| && b[next[p]].IsRunnable() {
      assert next[p] == order[if p == |order| - 1 then 0 else p + 1];
      assert TookPart(a[next[p]], b[next[p]], next[p] == order[0]);
    }
  }

  /** Where none is Running, the winner goes to the end of the queue. */
  lemma QueueRotates(a: seq<Task>, b: seq<Task>, order: seq<nat>)
    requires |a| == |b| && order != [] && Queue(a, |a|, order)
    requires forall i | 0 <= i < |a| :: TookPart(a[i], b[i], i == order[0]) && !a[i].state.Running?
    ensures Queue(b, |b|, Rotated(order))
  {
    var next := Rotated(order);
    ListRotates(a, b, order);
    forall p, q | 0 <= p < q < |next| ensures Sooner(b, next[p], next[q]) {
      assert next[p] == order[p + 1] && Sooner(a, order[0], order[p + 1]);
      assert TookPart(a[next[p]], b[next[p]], next[p] == order[0]);
      assert TookPart(a[next[q]], b[next[q]], next[q] == order[0]);
      if q < |order| - 1 {
        assert next[q] == order[q + 1] && Sooner(a, order[0], order[q + 1]) && Sooner(a, order[p + 1], order[q + 1]);
      }
    }
  }

  lemma TurnKeepsAlike(a: seq<Task>, b: seq<Task>, w: nat, n: nat)
    requires |a| == |b| && Alike(a) && Affords(a, n)
    requires forall i | 0 <= i < |a| :: TookPart(a[i], b[i], i == w)
    ensures Alike(b) && Affords(b, n)
  {
    forall i, j | 0 <= i < |b| && 0 <= j < |b| && b[i].IsRunnable() && b[j].IsRunnable()
      ensures b[i].schedClass == b[j].schedClass && b[i].basePriority == b[j].basePriority
      ensures b[i].budget.deadlineTick == b[j].budget.deadlineTick
    {
      assert TookPart(a[i], b[i], i == w) && TookPart(a[j], b[j], j == w);
    }
    forall i | 0 <= i < |b| && b[i].IsRunnable()
      ensures b[i].budget.maxTicks == 0 || b[i].budget.remainingTicks >= n
    {
      assert TookPart(a[i], b[i], i == w);
    }
  }

  /** One yield picks the head of the queue and moves it to the end. */
  lemma OneTurn(s: Sched, order: seq<nat>, n: nat)
    requires Wf(s) && n > 0 && TurnsReady(s, n) && Young(s.tasks)
    requires order != [] && Queue(s.tasks, |s.tasks|, order)
    ensures BeforeScan(s, OpYield).Some?
    ensures ScheduleNext(BeforeScan(s, OpYield).value).1 == Success(Some(order[0] + 1))
    ensures var s' := Step(s, OpYield);
            TurnsReady(s', n - 1) && Queue(s'.tasks, |s'.tasks|, Rotated(order))
  {
    BeforeTheTurn(s, n);
    var before := ChargeAndDemote(s).value;
    DemotedKeepsOrder(s.tasks, before.tasks, order);
    ScanIsTheSelection(s, OpYield);
    assert forall i | 0 <= i < |s.tasks| :: Demoted(s.tasks[i], before.tasks[i]);
    ScanTurn(before, order, n - 1);
  }

  lemma ScanTurn(s: Sched, order: seq<nat>, n: nat)
    requires TableOk(s) && s.tick + n < U64_MAX
    requires Alike(s.tasks) && Young(s.tasks) && Affords(s.tasks, n)
    requires forall i | 0 <= i < |s.tasks| :: !s.tasks[i].state.Running?
    requires order != [] && Queue(s.tasks, |s.tasks|, order)
    ensures var (s', r) := ScheduleNext(s);
            && r == Success(Some(order[0] + 1))
            && TurnsReady(s', n) && Queue(s'.tasks, |s'.tasks|, Rotated(order))
  {
    var w := order[0];
    HeadLeads(s.tasks, order, s.tick + 1);
    SelectionOf(s, w);
    var after := AfterWin(s.tasks, w);
    forall i | 0 <= i < |s.tasks| ensures TookPart(s.tasks[i], after[i], i == w) {
      assert YoungTask(s.tasks[i]);
      AfterTheTurn(s.tasks, w, i);
    }
    QueueRotates(s.tasks, after, order);
    TurnKeepsAlike(s.tasks, after, w, n);
  }

  // ---------------------------------------------------------------- all the turns

  function Yields(n: nat): (ops: seq<Op>)
    ensures |ops| == n && forall i | 0 <= i < n :: ops[i] == OpYield
  {
    seq(n, _ => OpYield)
  }

  /** The tasks that n turns pick. */
  function Turns(order: seq<nat>, n: nat): (picks: seq<Option<int>>)
    requires order != []
    ensures |picks| == n
    decreases n
  {
    if n == 0 then [] else [Some(order[0] + 1)] + Turns(Rotated(order), n - 1)
  }

  /** They repeat with the length of the queue as period. */
  lemma {:induction false} TurnsCycle(order: seq<nat>, n: nat, i: nat)
    requires order != [] && i < n
    ensures Turns(order, n)[i] == Some(order[i % |order|] + 1)
    decreases n
  {
    if i > 0 {
      TurnsCycle(Rotated(order), n - 1, i - 1);
      NextPlace(i - 1, |order|);
    }
  }

  lemma NextPlace(i: nat, k: nat)
    requires k > 0
    ensures (i + 1) % k == if i % k == k - 1 then 0 else i % k + 1
  {
    var q, r := i / k, i % k;
    assert i == q * k + r;
    if r == k - 1 {
      assert i + 1 == (q + 1) * k;
      Bits.QuotientIsUnique(i + 1, k, q + 1, 0);
    } else {
      Bits.QuotientIsUnique(i + 1, k, q, r + 1);
    }
  }

  lemma FirstYield(s: Sched, n: nat)
    requires Wf(s) && n > 0 && BeforeScan(s, OpYield).Some?
    ensures Selections(s, Yields(n))
            == [ScheduleNext(BeforeScan(s, OpYield).value).1.value] + Selections(Step(s, OpYield), Yields(n - 1))
  {
    assert Yields(n)[0] == OpYield && Yields(n)[1..] == Yields(n - 1);
  }

  /** Some run from the empty scheduler ends here. */
  ghost predicate Reachable(s: Sched) {
    exists ops: seq<Op> :: s == Run(INITIAL, ops)
  }

  lemma StepStaysReachable(s: Sched, op: Op)
    requires Wf(s) && Reachable(s)
    ensures Reachable(Step(s, op))
  {
    var ops: seq<Op> :| s == Run(INITIAL, ops);
    RunAppend(INITIAL, ops, op);
    assert Step(s, op) == Run(INITIAL, ops + [op]);
  }

  lemma RunStaysReachable(s: Sched, more: seq<Op>)
    requires Wf(s) && Reachable(s)
    ensures Reachable(Run(s, more))
  {
    var ops: seq<Op> :| s == Run(INITIAL, ops);
    RunSplits(INITIAL, ops, more);
    assert Run(s, more) == Run(INITIAL, ops + more);
  }

  lemma ReachableIsYoung(s: Sched)
    requires Reachable(s)
    ensures Wf(s) && Young(s.tasks)
  {
    var ops: seq<Op> :| s == Run(INITIAL, ops);
    forall i | 0 <= i < |s.tasks| ensures YoungTask(s.tasks[i]) {
      AgesStayBounded(ops, i);
      assert TaskOk(s.tasks, i);
    }
  }

  lemma {:induction false} TurnsFrom(s: Sched, order: seq<nat>, n: nat)
    requires Wf(s) && Reachable(s) && TurnsReady(s, n)
    requires order != [] && Queue(s.tasks, |s.tasks|, order)
    ensures Selections(s, Yields(n)) == Turns(order, n)
    decreases n
  {
    if n > 0 {
      var s' := NextYield(s, order, n);
      TurnsFrom(s', Rotated(order), n - 1);
    }
  }

  lemma NextYield(s: Sched, order: seq<nat>, n: nat) returns (s': Sched)
    requires Wf(s) && Reachable(s) && TurnsReady(s, n) && n > 0
    requires order != [] && Queue(s.tasks, |s.tasks|, order)
    ensures Wf(s') && Reachable(s') && TurnsReady(s', n - 1) && Queue(s'.tasks, |s'.tasks|, Rotated(order))
    ensures Selections(s, Yields(n)) == [Some(order[0] + 1)] + Selections(s', Yields(n - 1))
  {
    s' := Step(s, OpYield);
    ReachableIsYoung(s);
    OneTurn(s, order, n);
    StepStaysReachable(s, OpYield);
    FirstYield(s, n);
  }

  // ---------------------------------------------------------------- the queue exists

  lemma {:induction false} QueueExists(tasks: seq<Task>, n: nat) returns (order: seq<nat>)
    requires n <= |tasks|
    ensures Queue(tasks, n, order)
  {
    if n == 0 {
      order := [];
    } else {
      order := QueueExists(tasks, n - 1);
      if tasks[n - 1].IsRunnable() {
        var p := PlaceOf(tasks, order, n - 1, |order|);
        order := InsertedAt(tasks, order, n - 1, p);
      }
    }
  }

  /** The next slot belongs at place p: behind all that are at least as old. */
  ghost predicate Belongs(tasks: seq<Task>, order: seq<nat>, x: nat, p: nat)
    requires x < |tasks| && forall a | 0 <= a < |order| :: order[a] < |tasks|
  {
    && p <= |order|
    && (forall a | 0 <= a < p :: tasks[order[a]].age >= tasks[x].age)
    && (forall b | p <= b < |order| :: tasks[order[b]].age < tasks[x].age)
  }

  lemma {:induction false} PlaceOf(tasks: seq<Task>, order: seq<nat>, x: nat, top: nat) returns (p: nat)
    requires x < |tasks| && Queue(tasks, x, order) && top <= |order|
    requires forall b | top <= b < |order| :: tasks[order[b]].age < tasks[x].age
    ensures Belongs(tasks, order, x, p)
  {
    if top == 0 || tasks[order[top - 1]].age >= tasks[x].age {
      p := top;
      forall a | 0 <= a < p ensures tasks[order[a]].age >= tasks[x].age {
        assert a < top - 1 ==> Sooner(tasks, order[a], order[top - 1]);
      }
    } else {
      p := PlaceOf(tasks, order, x, top - 1);
    }
  }

  function Inserted(order: seq<nat>, x: nat, p: nat): (r: seq<nat>)
    requires p <= |order|
    ensures |r| == |order| + 1
    ensures forall a | 0 <= a < |r| :: r[a] == if a < p then order[a] else if a == p then x else order[a - 1]
  {
    order[..p] + [x] + order[p..]
  }

  lemma InsertedAt(tasks: seq<Task>, order: seq<nat>, x: nat, p: nat) returns (order': seq<nat>)
    requires x < |tasks| && Queue(tasks, x, order) && tasks[x].IsRunnable() && Belongs(tasks, order, x, p)
    ensures Queue(tasks, x + 1, order')
  {
    order' := Inserted(order, x, p);
    forall i | 0 <= i < x + 1 && tasks[i].IsRunnable() ensures i in order' {
      KeepsElement(order, x, p, i);
    }
    forall a, b | 0 <= a < b < |order'| ensures Sooner(tasks, order'[a], order'[b]) {
      InsertedInOrder(tasks, order, x, p, a, b);
    }
  }

  lemma KeepsElement(order: seq<nat>, x: nat, p: nat, i: nat)
    requires p <= |order| && (i == x || i in order)
    ensures i in Inserted(order, x, p)
  {
    var order' := Inserted(order, x, p);
    if i == x {
      assert order'[p] == i;
    } else {
      var a :| 0 <= a < |order| && order[a] == i;
      assert order'[if a < p then a else a + 1] == i;
    }
  }

  lemma InsertedInOrder(tasks: seq<Task>, order: seq<nat>, x: nat, p: nat, a: nat, b: nat)
    requires x < |tasks| && Queue(tasks, x, order) && Belongs(tasks, order, x, p) && a < b <= |order|
    ensures var order' := Inserted(order, x, p);
            order'[a] <= x && order'[b] <= x && Sooner(tasks, order'[a], order'[b])
  {
    if a != p && b != p {
      var (a', b') := (if a < p then a else a - 1, if b < p then b else b - 1);
      assert Sooner(tasks, order[a'], order[b']);
    }
  }

  // ---------------------------------------------------------------- round robin

  /** Round robin. In every reachable state whose runnable tasks have the same class, base
      priority and deadline, only the current one Running, n yields that no budget stops pick the
      runnable tasks in turn, over and over: longest waiting first, ties by slot. */
  lemma AlikeTasksTakeTurns(s: Sched, n: nat) returns (order: seq<nat>)
    requires Wf(s) && Reachable(s) && TurnsReady(s, n)
    requires exists i | 0 <= i < |s.tasks| :: s.tasks[i].IsRunnable()
    ensures Queue(s.tasks, |s.tasks|, order) && order != []
    ensures var picks := Selections(s, Yields(n));
            |picks| == n && forall i: nat | i < n :: picks[i] == Some(order[i % |order|] + 1)
  {
    order := QueueExists(s.tasks, |s.tasks|);
    TurnsFrom(s, order, n);
    forall i: nat | i < n ensures Turns(order, n)[i] == Some(order[i % |order|] + 1) {
      TurnsCycle(order, n, i);
    }
  }

  /** The picks go 1, 2, ..., k, 1, 2, ... */
  ghost predicate Cyclic(picks: seq<Option<int>>, k: nat)
    requires k > 0
  {
    forall i: nat | i < |picks| :: picks[i] == Some(i % k + 1)
  }

  /** All tasks are Ready, none has aged, and they are alike. */
  ghost predicate Fresh(s: Sched) {
    s.tasks != [] && Alike(s.tasks) && forall i | 0 <= i < |s.tasks| :: s.tasks[i].state.Ready? && s.tasks[i].age == 0
  }

  /** In particular k fresh tasks alike are picked 1, 2, ..., k, 1, 2, ... */
  lemma FreshTasksTakeTurns(s: Sched, n: nat)
    requires Wf(s) && Reachable(s) && Fresh(s) && s.tick + n <= U64_MAX && Affords(s.tasks, n)
    ensures |Selections(s, Yields(n))| == n && Cyclic(Selections(s, Yields(n)), |s.tasks|)
  {
    var order := SlotOrder(s.tasks);
    TurnsFrom(s, order, n);
    SlotOrderIsCyclic(order, n);
  }

  function Spawns(k: nat, op: Op): (ops: seq<Op>) {
    if k == 0 then [] else Spawns(k - 1, op) + [op]
  }

  /** Tasks spawned alike from the empty scheduler are such tasks: k spawns, then n yields. */
  lemma SpawnedTasksTakeTurns(k: nat, op: Op, n: nat)
    requires 1 <= k <= MAX_TASKS && op.OpSpawn? && op.budget == UNLIMITED && n <= U64_MAX
    ensures var picks := Selections(Run(INITIAL, Spawns(k, op)), Yields(n));
            |picks| == n && Cyclic(picks, k)
  {
    var s := SpawnedAlike(k, op, n);
    FreshTasksTakeTurns(s, n);
  }

  lemma SpawnedAlike(k: nat, op: Op, n: nat) returns (s: Sched)
    requires 1 <= k <= MAX_TASKS && op.OpSpawn? && op.budget == UNLIMITED
    ensures s == Run(INITIAL, Spawns(k, op)) && Wf(s) && Reachable(s)
    ensures |s.tasks| == k && s.tick == 0 && Fresh(s) && Affords(s.tasks, n)
  {
    s := Run(INITIAL, Spawns(k, op));
    SpawnsFill(k, op);
    SpawnedAreFresh(s, op, n);
  }

  ghost predicate Filled(s: Sched, k: nat, op: Op)
    requires op.OpSpawn?
  {
    && |s.tasks| == k && s.nextId == k + 1 && s.current.None? && s.tick == 0
    && forall i | 0 <= i < k ::
         s.tasks[i] == NewTask(i + 1, op.parentId, op.schedClass, op.priority, op.capabilities, op.budget)
  }

  lemma {:induction false} SpawnsFill(k: nat, op: Op)
    requires k <= MAX_TASKS && op.OpSpawn?
    ensures Filled(Run(INITIAL, Spawns(k, op)), k, op)
  {
    if k > 0 {
      SpawnsFill(k - 1, op);
      RunAppend(INITIAL, Spawns(k - 1, op), op);
      SpawnFillsOne(Run(INITIAL, Spawns(k - 1, op)), k - 1, op);
    }
  }

  lemma SpawnFillsOne(s: Sched, k: nat, op: Op)
    requires k < MAX_TASKS && op.OpSpawn? && Wf(s) && Filled(s, k, op)
    ensures Filled(Step(s, op), k + 1, op)
  {
  }

  lemma SpawnedAreFresh(s: Sched, op: Op, n: nat)
    requires op.OpSpawn? && op.budget == UNLIMITED && s.tasks != [] && Filled(s, |s.tasks|, op)
    ensures Fresh(s) && Affords(s.tasks, n)
  {
  }

  lemma SlotOrderIsCyclic(order: seq<nat>, n: nat)
    requires order != [] && (forall i | 0 <= i < |order| :: order[i] == i)
    ensures Cyclic(Turns(order, n), |order|)
  {
    forall i: nat | i < n ensures Turns(order, n)[i] == Some(i % |order| + 1) {
      TurnsCycle(order, n, i);
    }
  }

  lemma SlotOrder(tasks: seq<Task>) returns (order: seq<nat>)
    requires forall i | 0 <= i < |tasks| :: tasks[i].state.Ready? && tasks[i].age == 0
    ensures |order| == |tasks| && (forall i | 0 <= i < |tasks| :: order[i] == i)
    ensures Queue(tasks, |tasks|, order)
  {
    order := seq(|tasks|, i requires 0 <= i < |tasks| => i);
    forall i | 0 <= i < |tasks| ensures i in order { assert order[i] == i; }
  }

  // ---------------------------------------------------------------- turns without yielding

  function Schedules(n: nat): (ops: seq<Op>)
    ensures |ops| == n && forall i | 0 <= i < n :: ops[i] == OpSchedule
  {
    seq(n, _ => OpSchedule)
  }

  /** The last pick, Running, and the one before it. */
  ghost predicate LevelPair(tasks: seq<Task>, i: nat, j: nat)
    requires i < |tasks| && j < |tasks|
  {
    tasks[i].state.Ready? && tasks[j].state.Running?
  }

  /** The queue where the last pick may still be Running: it has not aged, and neither need the
      pick before it have. */
  ghost predicate RunningQueue(tasks: seq<Task>, order: seq<nat>) {
    && Lists(tasks, |tasks|, order)
    && (forall a, b | 0 <= a < b < |order| ::
          Sooner(tasks, order[a], order[b]) || (a + 2 == b + 1 == |order| && LevelPair(tasks, order[a], order[b])))
    && (forall i | 0 <= i < |tasks| && tasks[i].state.Running? ::
          order != [] && order[|order| - 1] == i && tasks[i].age == 0)
  }

  lemma RunningQueueRotates(a: seq<Task>, b: seq<Task>, order: seq<nat>)
    requires |a| == |b| && order != [] && |order| != 2 && RunningQueue(a, order)
    requires forall i | 0 <= i < |a| :: TookPart(a[i], b[i], i == order[0])
    ensures RunningQueue(b, Rotated(order))
  {
    var next, last := Rotated(order), |order| - 1;
    ListRotates(a, b, order);
    forall p, q | 0 <= p < q < |next|
      ensures Sooner(b, next[p], next[q]) || (p + 2 == q + 1 == |next| && LevelPair(b, next[p], next[q]))
    {
      assert next[p] == order[p + 1] && Sooner(a, order[0], order[p + 1]);
      assert TookPart(a[next[p]], b[next[p]], next[p] == order[0]);
      assert TookPart(a[next[q]], b[next[q]], next[q] == order[0]);
      assert next[q] == order[if q < last then q + 1 else 0];
      if q < last { assert Sooner(a, order[0], order[q + 1]); }
    }
    forall i | 0 <= i < |b| && b[i].state.Running? ensures next[last] == i && b[i].age == 0 {
      assert TookPart(a[i], b[i], i == order[0]);
    }
  }

  lemma ScheduleTurn(s: Sched, order: seq<nat>)
    requires TableOk(s) && s.tick < U64_MAX && Alike(s.tasks) && Young(s.tasks)
    requires order != [] && |order| != 2 && RunningQueue(s.tasks, order)
    ensures var (s', r) := ScheduleNext(s);
            && r == Success(Some(order[0] + 1)) && s'.tick == s.tick + 1
            && Alike(s'.tasks) && RunningQueue(s'.tasks, Rotated(order))
  {
    var w := order[0];
    HeadLeads(s.tasks, order, s.tick + 1);
    SelectionOf(s, w);
    var after := AfterWin(s.tasks, w);
    forall i | 0 <= i < |s.tasks| ensures TookPart(s.tasks[i], after[i], i == w) {
      assert YoungTask(s.tasks[i]);
      AfterTheTurn(s.tasks, w, i);
    }
    RunningQueueRotates(s.tasks, after, order);
    TurnKeepsAlike(s.tasks, after, w, 0);
  }

  lemma FirstSchedule(s: Sched, n: nat)
    requires Wf(s) && n > 0 && s.tick < U64_MAX
    ensures Selections(s, Schedules(n)) == [ScheduleNext(s).1.value] + Selections(Step(s, OpSchedule), Schedules(n - 1))
  {
    assert Schedules(n)[0] == OpSchedule && Schedules(n)[1..] == Schedules(n - 1);
  }

  lemma {:induction false} ScheduleTurnsFrom(s: Sched, order: seq<nat>, n: nat)
    requires Wf(s) && Reachable(s) && s.tick + n <= U64_MAX && Alike(s.tasks)
    requires order != [] && |order| != 2 && RunningQueue(s.tasks, order)
    ensures Selections(s, Schedules(n)) == Turns(order, n)
    decreases n
  {
    if n > 0 {
      var s' := NextSchedule(s, order, n);
      ScheduleTurnsFrom(s', Rotated(order), n - 1);
    }
  }

  lemma NextSchedule(s: Sched, order: seq<nat>, n: nat) returns (s': Sched)
    requires Wf(s) && Reachable(s) && 0 < n <= U64_MAX - s.tick && Alike(s.tasks)
    requires order != [] && |order| != 2 && RunningQueue(s.tasks, order)
    ensures Wf(s') && Reachable(s') && s'.tick == s.tick + 1
    ensures Alike(s'.tasks) && RunningQueue(s'.tasks, Rotated(order))
    ensures Selections(s, Schedules(n)) == [Some(order[0] + 1)] + Selections(s', Schedules(n - 1))
  {
    s' := Step(s, OpSchedule);
    ReachableIsYoung(s);
    ScheduleTurn(s, order);
    StepStaysReachable(s, OpSchedule);
    FirstSchedule(s, n);
  }

  /** The ages of two tasks alike, and which of them is Running. */
  ghost predicate Pair(s: Sched, age1: nat, running1: bool, age2: nat, running2: bool) {
    && |s.tasks| == 2 && Alike(s.tasks)
    && s.tasks[0].IsRunnable() && s.tasks[0].age == age1 && (s.tasks[0].state.Running? <==> running1)
    && s.tasks[1].IsRunnable() && s.tasks[1].age == age2 && (s.tasks[1].state.Running? <==> running2)
  }

  lemma PairLeads(tasks: seq<Task>, now: u64)
    requires |tasks| == 2 && Alike(tasks) && Young(tasks) && tasks[0].IsRunnable() && tasks[1].IsRunnable()
    ensures BestOf(tasks, now, 2) == Some(if tasks[0].age >= tasks[1].age then 0 else 1)
  {
    var w := if tasks[0].age >= tasks[1].age then 0 else 1;
    assert YoungTask(tasks[0]) && YoungTask(tasks[1]);
    OlderScoresMore(tasks[w], tasks[1 - w], now);
    BestIsTheLeader(tasks, now, 2);
    assert Leads(tasks, now, 2, w);
  }

  lemma PairSelects(s: Sched, age1: nat, running1: bool, age2: nat, running2: bool)
    requires TableOk(s) && Young(s.tasks) && s.tick < U64_MAX && Pair(s, age1, running1, age2, running2)
    ensures var (s', r) := ScheduleNext(s);
            && s'.tick == s.tick + 1
            && if age1 >= age2
               then r == Success(Some(1)) && Pair(s', 0, true, if running2 then age2 else age2 + 1, false)
               else r == Success(Some(2)) && Pair(s', if running1 then age1 else age1 + 1, false, 0, true)
  {
    var w := if age1 >= age2 then 0 else 1;
    PairLeads(s.tasks, s.tick + 1);
    SelectionOf(s, w);
    var after := AfterWin(s.tasks, w);
    forall i | 0 <= i < 2 ensures TookPart(s.tasks[i], after[i], i == w) {
      assert YoungTask(s.tasks[i]);
      AfterTheTurn(s.tasks, w, i);
    }
    TurnKeepsAlike(s.tasks, after, w, 0);
    assert TookPart(s.tasks[0], after[0], 0 == w) && TookPart(s.tasks[1], after[1], 1 == w);
  }

  /** Task 1 is picked twice for every time that task 2 is. */
  function InThirds(j: nat): int {
    if j % 3 == 1 then 2 else 1
  }

  /** The picks from the j-th on go 1, 2, 1, 1, 2, 1, 1, 2, 1, ... */
  ghost predicate Uneven(picks: seq<Option<int>>, j: nat) {
    forall i: nat | i < |picks| :: picks[i] == Some(InThirds(j + i))
  }

  lemma OneEarlier(picks: seq<Option<int>>, j: nat)
    requires Uneven(picks, j + 1)
    ensures Uneven([Some(InThirds(j))] + picks, j)
  {
  }

  /** The state before the j-th of these picks. */
  ghost predicate BeforePick(s: Sched, j: nat) {
    if j % 3 == 1 then Pair(s, 0, true, 1, false)
    else if j % 3 == 2 then Pair(s, 0, false, 0, true)
    else Pair(s, 0, true, 0, false) || Pair(s, 0, false, 0, false)
  }

  lemma NextPick(s: Sched, j: nat, n: nat) returns (s': Sched)
    requires Wf(s) && Reachable(s) && BeforePick(s, j) && 0 < n <= U64_MAX - s.tick
    ensures Wf(s') && Reachable(s') && BeforePick(s', j + 1) && s'.tick == s.tick + 1
    ensures Selections(s, Schedules(n)) == [Some(InThirds(j))] + Selections(s', Schedules(n - 1))
  {
    s' := Step(s, OpSchedule);
    ReachableIsYoung(s);
    StepStaysReachable(s, OpSchedule);
    NextPair(s, j);
    FirstSchedule(s, n);
  }

  lemma NextPair(s: Sched, j: nat)
    requires TableOk(s) && Young(s.tasks) && s.tick < U64_MAX && BeforePick(s, j)
    ensures var (s', r) := ScheduleNext(s);
            s'.tick == s.tick + 1 && r == Success(Some(InThirds(j))) && BeforePick(s', j + 1)
  {
    if j % 3 == 1 {
      PairSelects(s, 0, true, 1, false);
    } else if j % 3 == 2 {
      PairSelects(s, 0, false, 0, true);
    } else {
      PairSelects(s, 0, s.tasks[0].state.Running?, 0, false);
    }
  }

  lemma {:induction false} PicksInThirds(s: Sched, j: nat, n: nat)
    requires Wf(s) && Reachable(s) && BeforePick(s, j) && n <= U64_MAX - s.tick
    ensures Uneven(Selections(s, Schedules(n)), j) && |Selections(s, Schedules(n))| == n
    decreases n
  {
    if n == 0 {
      assert Schedules(n) == [];
    } else {
      var s' := NextPick(s, j, n);
      PicksInThirds(s', j + 1, n - 1);
      OneEarlier(Selections(s', Schedules(n - 1)), j);
    }
  }

  /** Two tasks alike that do not yield are picked 1, 2, 1, 1, 2, 1, 1, 2, 1, ...: a Running task
      that loses does not age, so after every third selection the two are level again, and ties
      go to slot 0. */
  lemma TwoTasksMissTurns(s: Sched, n: nat)
    requires Wf(s) && Reachable(s) && Fresh(s) && |s.tasks| == 2 && n <= U64_MAX - s.tick
    ensures var picks := Selections(s, Schedules(n));
            |picks| == n && forall i: nat | i < n :: picks[i] == Some(if i % 3 == 1 then 2 else 1)
  {
    PicksInThirds(s, 0, n);
    var picks := Selections(s, Schedules(n));
    forall i: nat | i < n ensures picks[i] == Some(if i % 3 == 1 then 2 else 1) {
      assert picks[i] == Some(InThirds(0 + i));
    }
  }

  /** Selections without yields take turns too, unless there are exactly two tasks. */
  lemma SchedulesTakeTurns(s: Sched, n: nat)
    requires Wf(s) && Reachable(s) && Fresh(s) && 4 <= n <= U64_MAX - s.tick
    ensures |Selections(s, Schedules(n))| == n
    ensures Cyclic(Selections(s, Schedules(n)), |s.tasks|) <==> |s.tasks| != 2
  {
    if |s.tasks| == 2 {
      TwoTasksMissTurns(s, n);
      FourthIsOutOfTurn(Selections(s, Schedules(n)));
    } else {
      var order := SlotOrder(s.tasks);
      ScheduleTurnsFrom(s, order, n);
      SlotOrderIsCyclic(order, n);
    }
  }

  lemma FourthIsOutOfTurn(picks: seq<Option<int>>)
    requires |picks| >= 4 && picks[3] == Some(1)
    ensures !Cyclic(picks, 2)
  {
    assert picks[3] != Some(3 % 2 + 1);
  }
}
