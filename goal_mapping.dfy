/** The response shape of a goal (MapToDto) and its progress percentage
    (CalculateProgress), both computed from a goal loaded with its children. */
module GoalMapping {
  import opened Wrappers
  import opened Seqs
  import opened Entities
  import opened Dtos
  import opened Store

  function TaskDone(t: TaskItem): bool { t.completed }
  function SubGoalDone(sg: SubGoal): bool { sg.completed }

  /** All tasks of all the months, month after month. */
  function TasksOf(months: seq<MonthGraph>): (r: seq<TaskItem>)
    ensures forall t :: t in r <==> exists i :: 0 <= i < |months| && t in months[i].tasks
  {
    if |months| == 0 then []
    else
      assert forall i :: 0 < i < |months| ==> months[i] == months[1..][i - 1];
      months[0].tasks + TasksOf(months[1..])
  }

  /** The size of the collection that the goal's type makes active: all tasks
      of all months for a plan goal, the subgoals for a subgoals goal. */
  function ActiveTotal(g: GoalGraph): nat
  {
    if g.goal.goalType == Plan then |TasksOf(g.months)| else |g.subGoals|
  }

  /** How many items of the active collection are completed. */
  function ActiveCompleted(g: GoalGraph): (r: nat)
    ensures r <= ActiveTotal(g)
  {
    if g.goal.goalType == Plan then |Filter(TasksOf(g.months), TaskDone)|
    else |Filter(g.subGoals, SubGoalDone)|
  }

  /** `r` is an integer nearest to num / den, the even one on a tie:
      what `Math.Round` does by default. */
  ghost predicate NearestHalfEven(r: int, num: int, den: int)
  {
    && 2 * (r * den) <= 2 * num + den
    && 2 * num <= 2 * (r * den) + den
    && (2 * (r * den) == 2 * num + den || 2 * num == 2 * (r * den) + den ==> r % 2 == 0)
  }

  function RoundHalfEven(num: nat, den: nat): (r: nat)
    requires den > 0
    ensures NearestHalfEven(r, num, den)
  {
    var q, m := num / den, num % den;
    assert num == q * den + m;
    assert (q + 1) * den == q * den + den;
    if 2 * m < den then q
    else if 2 * m > den then q + 1
    else if q % 2 == 0 then q
    else q + 1
  }

  lemma MulMonotone(a: int, b: int, n: int)
    requires a <= b && n >= 0
    ensures a * n <= b * n
  {
    assert b * n - a * n == (b - a) * n;
  }

  lemma MulGap(lo: int, hi: int, n: int)
    requires lo < hi && n >= 0
    ensures hi * n >= lo * n + n
    ensures hi >= lo + 2 ==> hi * n >= lo * n + 2 * n
  {
    MulMonotone(lo + 1, hi, n);
    assert (lo + 1) * n == lo * n + n;
    if hi >= lo + 2 {
      MulMonotone(lo + 2, hi, n);
      assert (lo + 2) * n == lo * n + 2 * n;
    }
  }

  /** Only one integer is nearest with ties to even. */
  lemma NearestHalfEvenUnique(r1: int, r2: int, num: int, den: int)
    requires den > 0
    requires NearestHalfEven(r1, num, den) && NearestHalfEven(r2, num, den)
    ensures r1 == r2
  {
    if r1 != r2 {
      var lo, hi := if r1 < r2 then r1 else r2, if r1 < r2 then r2 else r1;
      MulGap(lo, hi, den);
    }
  }

  /** A nearest integer to part / whole (times 100) lies in [0, 100]
      when 0 <= part <= whole. */
  lemma PercentInRange(r: int, part: nat, whole: nat)
    requires whole > 0 && part <= whole
    requires NearestHalfEven(r, 100 * part, whole)
    ensures 0 <= r <= 100
    ensures part == whole ==> r == 100
  {
    if r < 0 {
      MulMonotone(r, -1, whole);
    }
    if r > 100 {
      MulMonotone(101, r, whole);
    }
    if part == whole && r < 100 {
      MulMonotone(r, 99, whole);
    }
  }

  /** The share of completed items in the active collection, as a whole
      percentage rounded half to even; 0 for an empty collection. */
  function CalculateProgress(g: GoalGraph): (r: int)
    ensures 0 <= r <= 100
    ensures ActiveTotal(g) == 0 ==> r == 0
    ensures ActiveTotal(g) > 0 ==> NearestHalfEven(r, 100 * ActiveCompleted(g), ActiveTotal(g))
    ensures ActiveTotal(g) > 0 && ActiveCompleted(g) == ActiveTotal(g) ==> r == 100
  {
    var total := ActiveTotal(g);
    if total == 0 then 0
    else
      var p := RoundHalfEven(100 * ActiveCompleted(g), total);
      PercentInRange(p, ActiveCompleted(g), total);
      p
  }

  /** Months ascending by their order number. */
  function ByOrder(a: MonthGraph, b: MonthGraph): bool
  {
    a.month.order <= b.month.order
  }

  function ToMonthDto(mg: MonthGraph): MonthDto
  {
    MonthDto(mg.month.id, mg.month.name, mg.month.order, seq(|mg.tasks|, i requires 0 <= i < |mg.tasks| => ToTaskDto(mg.tasks[i])))
  }

  function MonthDtos(ms: seq<MonthGraph>): (r: seq<MonthDto>)
    ensures |r| == |ms|
    ensures forall i :: 0 <= i < |ms| ==> r[i] == ToMonthDto(ms[i])
  {
    seq(|ms|, i requires 0 <= i < |ms| => ToMonthDto(ms[i]))
  }

  function SubGoalDtos(sgs: seq<SubGoal>): (r: seq<SubGoalDto>)
    ensures |r| == |sgs|
    ensures forall i :: 0 <= i < |sgs| ==> r[i] == ToSubGoalDto(sgs[i])
  {
    seq(|sgs|, i requires 0 <= i < |sgs| => ToSubGoalDto(sgs[i]))
  }

  function TypeName(t: GoalType): string
  {
    if t == Plan then "plan" else "subgoals"
  }

  /** The goal's response: the active collection only (months ordered by
      `Order`, subgoals in stored order), the other collection null. */
  function MapToDto(g: GoalGraph): (r: GoalDto)
    ensures r.id == g.goal.id && r.title == g.goal.title && r.description == g.goal.description
    ensures r.year == g.goal.year && r.createdAt == g.goal.createdAt
    ensures r.goalType == (if g.goal.goalType == Plan then "plan" else "subgoals")
    ensures r.months.Some? <==> g.goal.goalType == Plan
    ensures r.subGoals.Some? <==> g.goal.goalType == SubGoals
    ensures r.months.Some? ==> |r.months.value| == |g.months|
    ensures r.months.Some? ==> multiset(r.months.value) == multiset(MonthDtos(g.months))
    ensures r.months.Some? ==> forall i, j :: 0 <= i < j < |r.months.value| ==> r.months.value[i].order <= r.months.value[j].order
    ensures r.months.Some? ==> forall d :: d in r.months.value <==> exists mg :: mg in g.months && d == ToMonthDto(mg)
    ensures r.subGoals.Some? ==> r.subGoals.value == SubGoalDtos(g.subGoals)
    ensures r.progress == CalculateProgress(g) && 0 <= r.progress <= 100
  {
    var months :=
      if g.goal.goalType == Plan then
        var sorted := SortBy(g.months, ByOrder);
        MonthsSortedByOrder(g.months);
        Some(MonthDtos(sorted))
      else None;
    var subGoals := if g.goal.goalType == SubGoals then Some(SubGoalDtos(g.subGoals)) else None;
    GoalDto(g.goal.id, g.goal.title, g.goal.description, TypeName(g.goal.goalType),
            g.goal.year, g.goal.createdAt, months, subGoals, CalculateProgress(g))
  }

  /** The month responses of a goal, in `Order` order, are its months' responses,
      each as many times as the month occurs. */
  lemma MonthsSortedByOrder(ms: seq<MonthGraph>)
    ensures var r := MonthDtos(SortBy(ms, ByOrder));
      && |r| == |ms|
      && multiset(r) == multiset(MonthDtos(ms))
      && (forall i, j :: 0 <= i < j < |r| ==> r[i].order <= r[j].order)
      && (forall d :: d in r <==> exists mg :: mg in ms && d == ToMonthDto(mg))
  {
    var sorted := SortBy(ms, ByOrder);
    assert TotalPreorder(ByOrder);
    SortBySorted(ms, ByOrder);
    var r := MonthDtos(sorted);
    MapPermutation(sorted, ms, ToMonthDto);
    assert MonthDtos(sorted) == Map(sorted, ToMonthDto);
    assert MonthDtos(ms) == Map(ms, ToMonthDto);
    forall i, j | 0 <= i < j < |r| ensures r[i].order <= r[j].order {
      assert ByOrder(sorted[i], sorted[j]);
    }
    forall d | d in r ensures exists mg :: mg in ms && d == ToMonthDto(mg) {
      var i :| 0 <= i < |r| && r[i] == d;
      assert sorted[i] in multiset(sorted);
    }
    forall d | exists mg :: mg in ms && d == ToMonthDto(mg) ensures d in r {
      var mg :| mg in ms && d == ToMonthDto(mg);
      assert mg in multiset(ms);
      var i :| 0 <= i < |sorted| && sorted[i] == mg;
      assert r[i] == d;
    }
  }
}
