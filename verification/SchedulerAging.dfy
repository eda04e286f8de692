/** Numbers that climb a ladder of rungs two apart: in each round every number climbs by at most
    two, only the largest of those that climb may set the pace, and the largest falls to the ground. */
module Ladder {
  import opened Sets

  /** The members whose number has reached rung j above the base. */
  ghost function Rung(a: seq<nat>, members: set<nat>, base: nat, j: nat): set<nat> {
    set i | i in members && i < |a| && a[i] >= base + 2 * j
  }

  /** The higher the rung the fewer have reached it, and none the last. */
  ghost predicate Thinning(a: seq<nat>, members: set<nat>, base: nat, rungs: nat) {
    forall j: nat | j <= rungs :: |Rung(a, members, base, j)| <= rungs - j
  }

  /** One round won by number w: it falls to at most `ground`, and every other number stays or
      climbs by at most two, climbing only if it was no larger than the winner. */
  ghost predicate Round(a: seq<nat>, b: seq<nat>, w: nat, ground: nat) {
    && |a| == |b| && w < |a|
    && b[w] <= ground
    && (forall i | 0 <= i < |a| && i != w :: b[i] <= a[i] || (b[i] <= a[i] + 2 && a[i] <= a[w]))
  }

  lemma BelowTheTop(a: seq<nat>, members: set<nat>, base: nat, rungs: nat, i: nat)
    requires Thinning(a, members, base, rungs) && i in members && i < |a|
    ensures a[i] < base + 2 * rungs
  {
    assert |Rung(a, members, base, rungs)| <= 0;
    assert i !in Rung(a, members, base, rungs);
  }

  /** Fewer members, none of them larger, thin out no less. */
  lemma FewerMembers(a: seq<nat>, members: set<nat>, b: seq<nat>, fewer: set<nat>, base: nat, rungs: nat)
    requires Thinning(a, members, base, rungs)
    requires forall i | i in fewer && i < |b| && b[i] >= base :: i in members && i < |a| && b[i] <= a[i]
    ensures Thinning(b, fewer, base, rungs)
  {
    forall j: nat | j <= rungs ensures |Rung(b, fewer, base, j)| <= rungs - j {
      SubsetSize(Rung(b, fewer, base, j), Rung(a, members, base, j));
    }
  }

  /** A round won by a member: whoever reaches a rung was below the winner, which leaves it. */
  lemma MemberWins(a: seq<nat>, b: seq<nat>, w: nat, members: set<nat>, after: set<nat>, base: nat, rungs: nat)
    requires Round(a, b, w, base) && Thinning(a, members, base, rungs)
    requires w in members && members - {w} <= after <= members && |a| <= rungs
    ensures Thinning(b, after, base, rungs)
  {
    forall j: nat | j <= rungs ensures |Rung(b, after, base, j)| <= rungs - j {
      var now := Rung(b, after, base, j);
      if j == 0 {
        SlotsFit(now, |a|);
      } else if now <= Rung(a, members, base, j) {
        SubsetSize(now, Rung(a, members, base, j));
      } else {
        var i :| i in now && i !in Rung(a, members, base, j);
        SubsetSize(now, Rung(a, members, base, j - 1) - {w});
      }
    }
  }

  /** A round won from outside by a newcomer: it adds a rung, and everyone climbs at most one. */
  lemma NewcomerWins(a: seq<nat>, b: seq<nat>, w: nat, members: set<nat>, base: nat, rungs: nat)
    requires Round(a, b, w, base) && Thinning(a, members, base, rungs)
    requires |a| <= rungs
    ensures Thinning(b, members + {w}, base, rungs + 1)
  {
    forall j: nat | j <= rungs + 1 ensures |Rung(b, members + {w}, base, j)| <= rungs + 1 - j {
      var now := Rung(b, members + {w}, base, j);
      if j == 0 {
        SlotsFit(now, |a|);
      } else {
        SubsetSize(now, Rung(a, members, base, j - 1));
      }
    }
  }

  /** A round won by a number below the base lets no one reach a rung that had not reached it. */
  lemma OutsiderWins(a: seq<nat>, b: seq<nat>, w: nat, members: set<nat>, base: nat, rungs: nat, ground: nat)
    requires Round(a, b, w, ground) && Thinning(a, members, base, rungs)
    requires w !in members && a[w] < base && |a| <= rungs
    ensures Thinning(b, members, base, rungs)
  {
    forall j: nat | j <= rungs ensures |Rung(b, members, base, j)| <= rungs - j {
      var now := Rung(b, members, base, j);
      if j == 0 {
        SlotsFit(now, |a|);
      } else {
        SubsetSize(now, Rung(a, members, base, j));
      }
    }
  }
}

/** Aging over arbitrary runs: no score ever reaches 992, so no age exceeds 990, the eight-bit cast
    of the aging formula never truncates, and waiting always raises a score. */
module SchedulerAging {
  import opened Machine
  import opened SchedulerModel
  import opened SchedulerRuns
  import opened Ladder
  import opened Sets

  /** No stored task scores more than this when it starts or has just been picked. */
  const GROUND: nat := 480
  /** What no task reaches without its deadline expiring: 128 rungs above the ground. */
  const COOL_TOP: nat := 736
  /** What none has reached when its deadline expires. */
  const HOT_BASE: nat := 864
  /** What none reaches at all: 64 rungs above that. */
  const HOT_TOP: nat := 992

  ghost function Scores(tasks: seq<Task>, now: u64): (a: seq<nat>)
    ensures |a| == |tasks|
    ensures forall i | 0 <= i < |tasks| :: a[i] == tasks[i].Score(now)
  {
    seq(|tasks|, i requires 0 <= i < |tasks| => tasks[i].Score(now))
  }

  /** The slots of tasks whose deadline has expired. */
  ghost function Expired(tasks: seq<Task>, now: u64): set<nat> {
    set i: nat | i < |tasks| && tasks[i].budget.DeadlineExpired(now)
  }

  ghost function Slots(n: nat): (r: set<nat>)
    ensures forall i: nat :: i in r <==> i < n
  {
    if n == 0 then {} else Slots(n - 1) + {n - 1}
  }

  /** `hot` are tasks whose deadline expired in their slot and that have not been picked since;
      `cooled` counts those that have been picked since. Every cooled task gives the others one
      rung more, and there are at most 64 of them. */
  ghost predicate Tempered(tasks: seq<Task>, now: u64, hot: set<nat>, cooled: nat) {
    && |tasks| <= MAX_TASKS
    && hot <= Expired(tasks, now)
    && |hot| + cooled <= |Expired(tasks, now)|
    && Thinning(Scores(tasks, now), Slots(|tasks|) - hot, GROUND, MAX_TASKS + cooled)
    && Thinning(Scores(tasks, now), hot, HOT_BASE, MAX_TASKS)
  }

  lemma TemperedBounds(tasks: seq<Task>, now: u64, hot: set<nat>, cooled: nat, i: nat)
    requires Tempered(tasks, now, hot, cooled) && i < |tasks|
    ensures cooled <= MAX_TASKS
    ensures i !in hot ==> tasks[i].Score(now) < COOL_TOP
    ensures tasks[i].Score(now) < HOT_TOP
  {
    SlotsFit(Expired(tasks, now), |tasks|);
    if i in hot {
      BelowTheTop(Scores(tasks, now), hot, HOT_BASE, MAX_TASKS, i);
    } else {
      BelowTheTop(Scores(tasks, now), Slots(|tasks|) - hot, GROUND, MAX_TASKS + cooled, i);
    }
  }

  /** Operations that do not select change no score and add tasks at the ground only. */
  lemma QuietKeepsTempered(a: seq<Task>, b: seq<Task>, now: u64, hot: set<nat>, cooled: nat)
    requires Tempered(a, now, hot, cooled) && |a| <= |b| <= MAX_TASKS
    requires forall i | 0 <= i < |a| :: SameScore(a[i], b[i])
    requires forall i | |a| <= i < |b| :: b[i].Score(now) <= GROUND
    ensures Tempered(b, now, hot, cooled)
  {
    var rungs := MAX_TASKS + cooled;
    SubsetSize(Expired(a, now), Expired(b, now));
    forall j: nat | j <= rungs ensures |Rung(Scores(b, now), Slots(|b|) - hot, GROUND, j)| <= rungs - j {
      var now' := Rung(Scores(b, now), Slots(|b|) - hot, GROUND, j);
      if j == 0 {
        SlotsFit(now', |b|);
      } else {
        SubsetSize(now', Rung(Scores(a, now), Slots(|a|) - hot, GROUND, j));
      }
    }
    FewerMembers(Scores(a, now), hot, Scores(b, now), hot, HOT_BASE, MAX_TASKS);
  }

  /** Everything the score of a task depends on is the same. */
  ghost predicate SameScore(a: Task, b: Task) {
    && b.dynamicPriority == a.dynamicPriority && b.weight == a.weight && b.schedClass == a.schedClass
    && b.age == a.age && b.budget.deadlineTick == a.budget.deadlineTick
  }

  /** When the tick moves, the tasks whose deadlines expire turn hot, short of the hot base. */
  lemma TickKeepsTempered(tasks: seq<Task>, now: u64, hot: set<nat>, cooled: nat) returns (hot': set<nat>)
    requires Tempered(tasks, now, hot, cooled) && now < U64_MAX
    ensures Tempered(tasks, now + 1, hot', cooled)
  {
    var fresh' := Expired(tasks, now + 1) - Expired(tasks, now);
    hot' := hot + fresh';
    assert Expired(tasks, now + 1) == Expired(tasks, now) + fresh';
    var a, b := Scores(tasks, now), Scores(tasks, now + 1);
    FewerMembers(a, Slots(|tasks|) - hot, b, Slots(|tasks|) - hot', GROUND, MAX_TASKS + cooled);
    forall i | i in hot' && i < |b| && b[i] >= HOT_BASE ensures i in hot && b[i] <= a[i] {
      TemperedBounds(tasks, now, hot, cooled, i);
    }
    FewerMembers(a, hot, b, hot', HOT_BASE, MAX_TASKS);
  }

  /** While ages are small, a lost selection raises a waiting task's score, by one or two. */
  lemma LossRaisesScore(t: Task, now: u64)
    requires t.state.Ready? && t.dynamicPriority == Min(t.basePriority + t.age / 4, U8_MAX) && t.age <= 990
    ensures t.Score(now) < t.Lost().Score(now) <= t.Score(now) + 2
  {
  }

  /** Losing a selection adds at most two to a score, and nothing to that of a task not Ready. */
  lemma LoserClimbs(t: Task, now: u64)
    requires Aged(t) && t.age <= 990
    ensures t.Lost().Score(now) <= t.Score(now) + if t.IsRunnable() then 2 else 0
  {
    if t.state.Ready? {
      LossRaisesScore(t, now);
    }
  }

  lemma ScanIsARound(s: Sched, s': Sched, hot: set<nat>, cooled: nat, w: nat)
    requires TableOk(s) && AllAged(s) && s.tick < U64_MAX && s' == ScheduleNext(s).0
    requires Tempered(s.tasks, s.tick + 1, hot, cooled)
    requires BestOf(s.tasks, s.tick + 1, |s.tasks|) == Some(w)
    ensures s'.tick == s.tick + 1
    ensures Round(Scores(s.tasks, s'.tick), Scores(s'.tasks, s'.tick), w, GROUND)
  {
    SelectionOf(s, w);
    ScoreRange(s', w, s'.tick);
    forall i: nat | i < |s.tasks| && i != w ensures s.tasks[i].age <= 990 {
      TemperedBounds(s.tasks, s.tick + 1, hot, cooled, i);
      ScoreRange(s, i, s.tick + 1);
    }
    forall i: nat | i < |s.tasks| && i != w
      ensures var (before, after) := (s.tasks[i].Score(s'.tick), s'.tasks[i].Score(s'.tick));
              after <= before || (after <= before + 2 && before <= s.tasks[w].Score(s'.tick))
    {
      assert Aged(s.tasks[i]);
      LoserClimbs(s.tasks[i], s'.tick);
      if s.tasks[i].IsRunnable() { var _ := WinnerOverRunnable(s.tasks, s'.tick, i); }
    }
  }

  /** A round cools its winner down and lets the others climb one rung at most. */
  lemma RoundKeepsTempered(a: seq<Task>, b: seq<Task>, now: u64, hot: set<nat>, cooled: nat, w: nat)
    requires Tempered(a, now, hot, cooled) && |b| == |a|
    requires Expired(b, now) == Expired(a, now)
    requires Round(Scores(a, now), Scores(b, now), w, GROUND)
    ensures Tempered(b, now, hot - {w}, if w in hot then cooled + 1 else cooled)
  {
    var from, to, n := Scores(a, now), Scores(b, now), |a|;
    if w in hot {
      NewcomerWins(from, to, w, Slots(n) - hot, GROUND, MAX_TASKS + cooled);
      assert Slots(n) - hot + {w} == Slots(n) - (hot - {w});
      MemberWins(from, to, w, hot, hot - {w}, HOT_BASE, MAX_TASKS);
    } else {
      assert hot - {w} == hot;
      MemberWins(from, to, w, Slots(n) - hot, Slots(n) - hot, GROUND, MAX_TASKS + cooled);
      TemperedBounds(a, now, hot, cooled, w);
      OutsiderWins(from, to, w, hot, HOT_BASE, MAX_TASKS, GROUND);
    }
  }

  lemma ScanKeepsTempered(s: Sched, s': Sched, hot: set<nat>, cooled: nat) returns (hot': set<nat>, cooled': nat)
    requires TableOk(s) && AllAged(s) && s.tick < U64_MAX && s' == ScheduleNext(s).0
    requires Tempered(s.tasks, s.tick + 1, hot, cooled)
    ensures Tempered(s'.tasks, s'.tick, hot', cooled')
  {
    var best := BestOf(s.tasks, s.tick + 1, |s.tasks|);
    match best
    case None =>
      NoSelection(s);
      return hot, cooled;
    case Some(w) =>
      ScanIsARound(s, s', hot, cooled, w);
      ScanKeepsDeadlines(s, s');
      RoundKeepsTempered(s.tasks, s'.tasks, s'.tick, hot, cooled, w);
      return hot - {w}, if w in hot then cooled + 1 else cooled;
  }

  lemma ScanKeepsDeadlines(s: Sched, s': Sched)
    requires TableOk(s) && s.tick < U64_MAX && s' == ScheduleNext(s).0
    ensures |s'.tasks| == |s.tasks| && Expired(s'.tasks, s'.tick) == Expired(s.tasks, s'.tick)
  {
    forall i: nat | i < |s.tasks| ensures i < |s'.tasks| && s'.tasks[i].budget == s.tasks[i].budget {
      ScanKeepsBudgets(s, i);
    }
  }

  lemma SelectionKeepsTempered(s: Sched, s': Sched, hot: set<nat>, cooled: nat)
    returns (hot': set<nat>, cooled': nat)
    requires TableOk(s) && AllAged(s) && s.tick < U64_MAX && s' == ScheduleNext(s).0
    requires Tempered(s.tasks, s.tick, hot, cooled)
    ensures Tempered(s'.tasks, s'.tick, hot', cooled')
  {
    var h := TickKeepsTempered(s.tasks, s.tick, hot, cooled);
    hot', cooled' := ScanKeepsTempered(s, s', h, cooled);
  }

  lemma StepKeepsTempered(s: Sched, op: Op, hot: set<nat>, cooled: nat) returns (hot': set<nat>, cooled': nat)
    requires Wf(s) && AllAged(s) && Tempered(s.tasks, s.tick, hot, cooled)
    ensures Tempered(Step(s, op).tasks, Step(s, op).tick, hot', cooled')
  {
    if BeforeScan(s, op).Some? {
      ScanIsTheSelection(s, op);
      BeforeScanKeepsTempered(s, op, hot, cooled);
      hot', cooled' := SelectionKeepsTempered(BeforeScan(s, op).value, Step(s, op), hot, cooled);
    } else {
      QuietSameScores(s, op);
      QuietKeepsTempered(s.tasks, Step(s, op).tasks, s.tick, hot, cooled);
      return hot, cooled;
    }
  }

  lemma BeforeScanKeepsTempered(s: Sched, op: Op, hot: set<nat>, cooled: nat)
    requires Wf(s) && AllAged(s) && Tempered(s.tasks, s.tick, hot, cooled) && BeforeScan(s, op).Some?
    ensures var before := BeforeScan(s, op).value;
            before.tick == s.tick && AllAged(before) && Tempered(before.tasks, s.tick, hot, cooled)
  {
    var before := BeforeScan(s, op).value;
    ScanSameScores(s, op);
    QuietKeepsTempered(s.tasks, before.tasks, s.tick, hot, cooled);
    forall i | 0 <= i < |before.tasks| ensures Aged(before.tasks[i]) { assert Aged(s.tasks[i]); }
  }

  lemma ScanSameScores(s: Sched, op: Op)
    requires Wf(s) && BeforeScan(s, op).Some?
    ensures var before := BeforeScan(s, op).value;
            && |before.tasks| == |s.tasks| && before.tick == s.tick
            && forall i | 0 <= i < |s.tasks| ::
                 SameScore(s.tasks[i], before.tasks[i]) && before.tasks[i].basePriority == s.tasks[i].basePriority
  {
  }

  lemma QuietSameScores(s: Sched, op: Op)
    requires Wf(s) && BeforeScan(s, op).None?
    ensures var s' := Step(s, op);
            && |s.tasks| <= |s'.tasks| && s'.tick == s.tick
            && (forall i | 0 <= i < |s.tasks| :: SameScore(s.tasks[i], s'.tasks[i]))
            && (forall i | |s.tasks| <= i < |s'.tasks| :: s'.tasks[i].Score(s.tick) <= GROUND)
  {
  }

  lemma {:induction false} TemperedOverRuns(s: Sched, ops: seq<Op>, hot: set<nat>, cooled: nat)
    returns (hot': set<nat>, cooled': nat)
    requires Wf(s) && AllAged(s) && Tempered(s.tasks, s.tick, hot, cooled)
    ensures Tempered(Run(s, ops).tasks, Run(s, ops).tick, hot', cooled')
    decreases |ops|
  {
    hot', cooled' := hot, cooled;
    if ops != [] {
      var h, c := StepKeepsTempered(s, ops[0], hot, cooled);
      StepKeepsAged(s, ops[0]);
      hot', cooled' := TemperedOverRuns(Step(s, ops[0]), ops[1..], h, c);
    }
  }

  /** In every reachable state, whatever was parked, resumed, cancelled or spawned and whenever
      deadlines expired, no task's age exceeds 990. So the eight-bit cast of the aging formula
      never truncates, and the age counter never saturates. */
  lemma AgesStayBounded(ops: seq<Op>, i: nat)
    requires i < |Run(INITIAL, ops).tasks|
    ensures var t := Run(INITIAL, ops).tasks[i];
            && t.age <= 990
            && t.Score(Run(INITIAL, ops).tick) < HOT_TOP
            && t.dynamicPriority == Min(t.basePriority + t.age / 4, U8_MAX)
  {
    ReachableIsWf(ops);
    NothingIsTempered();
    var hot, cooled := TemperedOverRuns(INITIAL, ops, {}, 0);
    AgedOverRuns(INITIAL, ops);
    TemperedAges(Run(INITIAL, ops), hot, cooled, i);
  }

  lemma NothingIsTempered()
    ensures Tempered([], 0, {}, 0)
  {
  }

  lemma TemperedAges(s: Sched, hot: set<nat>, cooled: nat, i: nat)
    requires TableOk(s) && AllAged(s) && Tempered(s.tasks, s.tick, hot, cooled) && i < |s.tasks|
    ensures s.tasks[i].age <= 990 && s.tasks[i].Score(s.tick) < HOT_TOP
    ensures s.tasks[i].dynamicPriority == Min(s.tasks[i].basePriority + s.tasks[i].age / 4, U8_MAX)
  {
    TemperedBounds(s.tasks, s.tick, hot, cooled, i);
    ScoreRange(s, i, s.tick);
    assert Aged(s.tasks[i]);
  }

  /** Priority aging does what it is for: in every reachable state a step that selects raises the
      score of every task that waits at its scan and is not picked, by one or two. That includes
      the task that a yield has just demoted. */
  lemma WaitingRaisesScore(ops: seq<Op>, op: Op, i: nat, now: u64)
    requires BeforeScan(Run(INITIAL, ops), op).Some?
    requires var before := BeforeScan(Run(INITIAL, ops), op).value;
             i < |before.tasks| && before.tasks[i].state.Ready? && ScheduleNext(before).1.value != Some(i + 1)
    ensures var before := BeforeScan(Run(INITIAL, ops), op).value;
            var after := Run(INITIAL, ops + [op]);
            && i < |after.tasks|
            && before.tasks[i].Score(now) < after.tasks[i].Score(now) <= before.tasks[i].Score(now) + 2
  {
    var s := Run(INITIAL, ops);
    RunAppend(INITIAL, ops, op);
    ScanIsTheSelection(s, op);
    ScanSameScores(s, op);
    AgesStayBounded(ops, i);
    LostScanRaisesScore(BeforeScan(s, op).value, i, now);
  }

  lemma LostScanRaisesScore(s: Sched, i: nat, now: u64)
    requires TableOk(s) && s.tick < U64_MAX && i < |s.tasks| && s.tasks[i].state.Ready?
    requires var t := s.tasks[i]; t.age <= 990 && t.dynamicPriority == Min(t.basePriority + t.age / 4, U8_MAX)
    requires ScheduleNext(s).1.value != Some(i + 1)
    ensures var s' := ScheduleNext(s).0;
            i < |s'.tasks| && s.tasks[i].Score(now) < s'.tasks[i].Score(now) <= s.tasks[i].Score(now) + 2
  {
    var w := WinnerOverRunnable(s.tasks, s.tick + 1, i);
    SelectionOf(s, w);
    LossRaisesScore(s.tasks[i], now);
  }
}
