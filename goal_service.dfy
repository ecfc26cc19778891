/** The goal service: ownership-checked reads and changes of the goal
    tables, the daily-activity upsert, and the analytics summary.
    Every change is checked against the full ownership chain first and
    leaves the store untouched when the chain does not match. */
module GoalService {
  import opened Wrappers
  import opened Seqs
  import opened Text
  import opened Entities
  import opened Dtos
  import opened Store
  import opened GoalMapping
  import opened Streak

  // ---------------------------------------------------------------------
  // Reads

  /** The goals that belong to the user, in stored order. */
  function OwnedGoals(goals: seq<Goal>, userId: Id): (r: seq<Goal>)
    ensures forall g :: g in r <==> g in goals && g.userId == userId
  {
    Filter(goals, (g: Goal) => g.userId == userId)
  }

  /** Later year first; within one year, later creation first. */
  function NewerGoal(a: Goal, b: Goal): bool
  {
    a.year > b.year || (a.year == b.year && a.createdAt >= b.createdAt)
  }

  function GoalDtos(graphs: seq<GoalGraph>): (r: seq<GoalDto>)
    ensures |r| == |graphs|
    ensures forall i :: 0 <= i < |graphs| ==> r[i] == MapToDto(graphs[i])
  {
    seq(|graphs|, i requires 0 <= i < |graphs| => MapToDto(graphs[i]))
  }

  /** All of the user's goals, newest year first and, within a year, newest first. */
  function GetGoalsByUser(db: AppDb, userId: Id): (r: seq<GoalDto>)
    reads db
    ensures |r| == |OwnedGoals(db.goals, userId)|
    ensures forall i, j :: 0 <= i < j < |r| ==>
      r[i].year > r[j].year || (r[i].year == r[j].year && r[i].createdAt >= r[j].createdAt)
    ensures forall d :: d in r <==>
      exists g :: g in db.goals && g.userId == userId && d == MapToDto(LoadGoal(db.months, db.tasks, db.subGoals, g))
  {
    var owned := OwnedGoals(db.goals, userId);
    var sorted := SortBy(owned, NewerGoal);
    SortedOwnedGoals(owned);
    GoalDtos(LoadGoals(db.months, db.tasks, db.subGoals, sorted))
  }

  lemma SortedOwnedGoals(owned: seq<Goal>)
    ensures var sorted := SortBy(owned, NewerGoal);
      && SortedBy(sorted, NewerGoal)
      && (forall g :: g in sorted <==> g in owned)
  {
    assert TotalPreorder(NewerGoal);
    SortBySorted(owned, NewerGoal);
    var sorted := SortBy(owned, NewerGoal);
    forall g ensures g in sorted <==> g in owned {
      assert g in sorted <==> g in multiset(sorted);
      assert g in owned <==> g in multiset(owned);
    }
  }

  /** The goal when it exists and belongs to the user, else null. */
  function GetGoalById(db: AppDb, goalId: Id, userId: Id): (r: Option<GoalDto>)
    reads db
    ensures r.Some? <==> OwnsGoal(db.goals, goalId, userId)
    ensures r.Some? ==> r.value.id == goalId
    ensures r.Some? ==>
      exists g :: g in db.goals && g.id == goalId && g.userId == userId && r.value == MapToDto(LoadGoal(db.months, db.tasks, db.subGoals, g))
  {
    match FindOwnedGoal(db.goals, goalId, userId)
    case Some(k) => Some(MapToDto(LoadGoal(db.months, db.tasks, db.subGoals, db.goals[k])))
    case None => None
  }

  // ---------------------------------------------------------------------
  // Goals

  /** The goal type named in a create request: plan for any casing of "plan",
      subgoals for every other name. */
  function ParseGoalType(typeName: string): (t: GoalType)
    ensures t == Plan <==> Lower(typeName) == "plan"
  {
    if Lower(typeName) == "plan" then Plan else SubGoals
  }

  /** Plan is chosen exactly for the sixteen casings of "plan"; the casing of
      the request never matters. */
  lemma ParseGoalTypeMeaning(typeName: string, other: string)
    ensures ParseGoalType(typeName) == Plan <==>
      |typeName| == 4 && typeName[0] in "pP" && typeName[1] in "lL" && typeName[2] in "aA" && typeName[3] in "nN"
    ensures SameIgnoringCase(typeName, other) ==> ParseGoalType(typeName) == ParseGoalType(other)
  {
    var low := Lower(typeName);
    if |typeName| == 4 {
      assert low == "plan" <==> low[0] == 'p' && low[1] == 'l' && low[2] == 'a' && low[3] == 'n';
    }
  }

  lemma CreateGoalKeepsSchema(
    users: seq<User>, goals: seq<Goal>, months: seq<Month>,
    tasks: seq<TaskItem>, subGoals: seq<SubGoal>, activities: seq<DailyActivity>, goal: Goal)
    requires Schema(users, goals, months, tasks, subGoals, activities)
    requires HasUser(users, goal.userId)
    requires forall g :: g in goals ==> g.id != goal.id
    ensures Schema(users, goals + [goal], months, tasks, subGoals, activities)
    ensures MonthsOfGoal(months, goal.id) == [] && SubGoalsOfGoal(subGoals, goal.id) == []
  {
    var goals' := goals + [goal];
    UniqueByAppend(goals, goal, GoalKey);
    forall m | m in months ensures HasGoalOfType(goals', m.goalId, Plan) && m.goalId != goal.id {
      var g :| g in goals && g.id == m.goalId && g.goalType == Plan;
      assert g in goals';
    }
    forall sg | sg in subGoals ensures HasGoalOfType(goals', sg.goalId, SubGoals) && sg.goalId != goal.id {
      var g :| g in goals && g.id == sg.goalId && g.goalType == SubGoals;
      assert g in goals';
    }
    FilterNone(months, (m: Month) => m.goalId == goal.id);
    FilterNone(subGoals, (sg: SubGoal) => sg.goalId == goal.id);
  }

  /** Adds a goal of the requested type for the user; the year defaults to the current year. */
  method CreateGoal(
    db: AppDb, userId: Id, title: string, description: Option<string>, typeName: string,
    year: Option<int>, currentYear: int, now: Instant, newId: Id) returns (r: GoalDto)
    requires db.Valid()
    requires HasUser(db.users, userId)
    requires forall g :: g in db.goals ==> g.id != newId
    modifies db
    ensures db.Valid()
    ensures var goal := Goal(newId, title, description, ParseGoalType(typeName), year.GetOr(currentYear), now, userId);
      && db.goals == old(db.goals) + [goal]
      && r == MapToDto(GoalGraph(goal, [], []))
    ensures r.id == newId && r.progress == 0
    ensures r.months == (if ParseGoalType(typeName) == Plan then Some([]) else None)
    ensures r.subGoals == (if ParseGoalType(typeName) == SubGoals then Some([]) else None)
    ensures GetGoalById(db, newId, userId) == Some(r)
    ensures db.users == old(db.users) && db.months == old(db.months) && db.tasks == old(db.tasks)
    ensures db.subGoals == old(db.subGoals) && db.activities == old(db.activities)
  {
    var goal := Goal(newId, title, description, ParseGoalType(typeName), year.GetOr(currentYear), now, userId);
    CreateGoalKeepsSchema(db.users, db.goals, db.months, db.tasks, db.subGoals, db.activities, goal);
    db.goals := db.goals + [goal];
    r := MapToDto(GoalGraph(goal, [], []));
    assert LoadGoal(db.months, db.tasks, db.subGoals, goal) == GoalGraph(goal, [], []);
    assert goal in db.goals;
    var k := FindOwnedGoal(db.goals, newId, userId).value;
    UniqueByMembers(db.goals, db.goals[k], goal, GoalKey);
  }

  /** Rewrites the goal at index `k` keeping every foreign key that points at it valid. */
  lemma ReplaceGoalKeepsSchema(
    users: seq<User>, goals: seq<Goal>, months: seq<Month>,
    tasks: seq<TaskItem>, subGoals: seq<SubGoal>, activities: seq<DailyActivity>, k: nat, goal: Goal)
    requires Schema(users, goals, months, tasks, subGoals, activities)
    requires k < |goals| && goal.id == goals[k].id && goal.goalType == goals[k].goalType && goal.userId == goals[k].userId
    ensures Schema(users, goals[k := goal], months, tasks, subGoals, activities)
  {
    var goals' := goals[k := goal];
    UniqueByUpdate(goals, k, goal, GoalKey);
    forall g | g in goals' ensures HasUser(users, g.userId) {
      var i :| 0 <= i < |goals'| && goals'[i] == g;
      assert goals[i] in goals;
    }
    forall id, ty | HasGoalOfType(goals, id, ty) ensures HasGoalOfType(goals', id, ty) {
      var g :| g in goals && g.id == id && g.goalType == ty;
      var i :| 0 <= i < |goals| && goals[i] == g;
      assert goals'[i] in goals';
    }
  }

  /** Overwrites the title and description of an owned goal. */
  method UpdateGoal(db: AppDb, goalId: Id, userId: Id, title: string, description: Option<string>) returns (r: Option<GoalDto>)
    requires db.Valid()
    modifies db
    ensures db.Valid()
    ensures var k := FindOwnedGoal(old(db.goals), goalId, userId);
      && (r.Some? <==> k.Some?)
      && (k.None? ==> unchanged(db))
      && (k.Some? ==>
            && db.goals == old(db.goals)[k.value := old(db.goals)[k.value].(title := title, description := description)]
            && r == GetGoalById(db, goalId, userId))
    ensures db.users == old(db.users) && db.months == old(db.months) && db.tasks == old(db.tasks)
    ensures db.subGoals == old(db.subGoals) && db.activities == old(db.activities)
  {
    var k := FindOwnedGoal(db.goals, goalId, userId);
    if k.None? {
      return None;
    }
    var goal := db.goals[k.value].(title := title, description := description);
    ReplaceGoalKeepsSchema(db.users, db.goals, db.months, db.tasks, db.subGoals, db.activities, k.value, goal);
    db.goals := db.goals[k.value := goal];
    assert db.goals[k.value] == goal;
    assert goal in db.goals;
    var k' := FindOwnedGoal(db.goals, goalId, userId);
    UniqueByMembers(db.goals, db.goals[k'.value], goal, GoalKey);
    r := Some(MapToDto(LoadGoal(db.months, db.tasks, db.subGoals, goal)));
  }

  function GoalsWithout(goals: seq<Goal>, goalId: Id): (r: seq<Goal>)
    ensures forall g :: g in r <==> g in goals && g.id != goalId
  {
    Filter(goals, (g: Goal) => g.id != goalId)
  }

  function MonthsOutsideGoal(months: seq<Month>, goalId: Id): (r: seq<Month>)
    ensures forall m :: m in r <==> m in months && m.goalId != goalId
  {
    Filter(months, (m: Month) => m.goalId != goalId)
  }

  function TasksOutsideGoal(tasks: seq<TaskItem>, months: seq<Month>, goalId: Id): (r: seq<TaskItem>)
    ensures forall t :: t in r <==> t in tasks && !MonthOfGoal(months, t.monthId, goalId)
  {
    Filter(tasks, (t: TaskItem) => !MonthOfGoal(months, t.monthId, goalId))
  }

  function SubGoalsOutsideGoal(subGoals: seq<SubGoal>, goalId: Id): (r: seq<SubGoal>)
    ensures forall sg :: sg in r <==> sg in subGoals && sg.goalId != goalId
  {
    Filter(subGoals, (sg: SubGoal) => sg.goalId != goalId)
  }

  /** Deleting a goal cascades to its months, their tasks and its subgoals,
      leaves no row pointing at a deleted one, and keeps every other row. */
  lemma DeleteGoalCascades(
    users: seq<User>, goals: seq<Goal>, months: seq<Month>,
    tasks: seq<TaskItem>, subGoals: seq<SubGoal>, activities: seq<DailyActivity>, goalId: Id)
    requires Schema(users, goals, months, tasks, subGoals, activities)
    ensures Schema(users, GoalsWithout(goals, goalId), MonthsOutsideGoal(months, goalId),
                   TasksOutsideGoal(tasks, months, goalId), SubGoalsOutsideGoal(subGoals, goalId), activities)
    ensures forall g :: g in GoalsWithout(goals, goalId) ==> g.id != goalId
    ensures forall m :: m in MonthsOutsideGoal(months, goalId) ==> m.goalId != goalId
    ensures forall t :: t in TasksOutsideGoal(tasks, months, goalId) ==> !MonthOfGoal(months, t.monthId, goalId)
    ensures forall sg :: sg in SubGoalsOutsideGoal(subGoals, goalId) ==> sg.goalId != goalId
  {
    var goals', months' := GoalsWithout(goals, goalId), MonthsOutsideGoal(months, goalId);
    var tasks', subGoals' := TasksOutsideGoal(tasks, months, goalId), SubGoalsOutsideGoal(subGoals, goalId);
    UniqueByFilter(goals, (g: Goal) => g.id != goalId, GoalKey);
    UniqueByFilter(months, (m: Month) => m.goalId != goalId, MonthKey);
    UniqueByFilter(months, (m: Month) => m.goalId != goalId, MonthNameKey);
    UniqueByFilter(tasks, (t: TaskItem) => !MonthOfGoal(months, t.monthId, goalId), TaskKey);
    UniqueByFilter(subGoals, (sg: SubGoal) => sg.goalId != goalId, SubGoalKey);
    forall m | m in months' ensures HasGoalOfType(goals', m.goalId, Plan) {
      var g :| g in goals && g.id == m.goalId && g.goalType == Plan;
      assert g in goals';
    }
    forall t | t in tasks' ensures HasMonth(months', t.monthId) {
      var m :| m in months && m.id == t.monthId;
      assert m in months';
    }
    forall sg | sg in subGoals' ensures HasGoalOfType(goals', sg.goalId, SubGoals) {
      var g :| g in goals && g.id == sg.goalId && g.goalType == SubGoals;
      assert g in goals';
    }
  }

  /** Deletes an owned goal and, by cascade, everything under it. */
  method DeleteGoal(db: AppDb, goalId: Id, userId: Id) returns (deleted: bool)
    requires db.Valid()
    modifies db
    ensures db.Valid()
    ensures deleted <==> old(OwnsGoal(db.goals, goalId, userId))
    ensures !deleted ==> unchanged(db)
    ensures deleted ==>
      && db.goals == GoalsWithout(old(db.goals), goalId)
      && db.months == MonthsOutsideGoal(old(db.months), goalId)
      && db.tasks == TasksOutsideGoal(old(db.tasks), old(db.months), goalId)
      && db.subGoals == SubGoalsOutsideGoal(old(db.subGoals), goalId)
    ensures db.users == old(db.users) && db.activities == old(db.activities)
  {
    var k := FindOwnedGoal(db.goals, goalId, userId);
    if k.None? {
      return false;
    }
    DeleteGoalCascades(db.users, db.goals, db.months, db.tasks, db.subGoals, db.activities, goalId);
    db.tasks := TasksOutsideGoal(db.tasks, db.months, goalId);
    db.months := MonthsOutsideGoal(db.months, goalId);
    db.subGoals := SubGoalsOutsideGoal(db.subGoals, goalId);
    db.goals := GoalsWithout(db.goals, goalId);
    return true;
  }

  // ---------------------------------------------------------------------
  // Months

  /** The goal exists, is the user's, is a plan goal, and has no month of that name. */
  predicate CanAddMonth(goals: seq<Goal>, months: seq<Month>, goalId: Id, userId: Id, name: string)
  {
    && (exists g :: g in goals && g.id == goalId && g.userId == userId && g.goalType == Plan)
    && !(exists m :: m in months && m.goalId == goalId && m.name == name)
  }

  lemma AddMonthKeepsSchema(
    users: seq<User>, goals: seq<Goal>, months: seq<Month>,
    tasks: seq<TaskItem>, subGoals: seq<SubGoal>, activities: seq<DailyActivity>, month: Month, userId: Id)
    requires Schema(users, goals, months, tasks, subGoals, activities)
    requires CanAddMonth(goals, months, month.goalId, userId, month.name)
    requires forall m :: m in months ==> m.id != month.id
    ensures Schema(users, goals, months + [month], tasks, subGoals, activities)
  {
    UniqueByAppend(months, month, MonthKey);
    UniqueByAppend(months, month, MonthNameKey);
    forall t | t in tasks ensures HasMonth(months + [month], t.monthId) {
      var m :| m in months && m.id == t.monthId;
      assert m in months + [month];
    }
  }

  /** Adds an empty month to an owned plan goal, unless a month of that name is already there. */
  method AddMonth(db: AppDb, goalId: Id, userId: Id, name: string, order: int, newId: Id) returns (r: Option<MonthDto>)
    requires db.Valid()
    requires forall m :: m in db.months ==> m.id != newId
    modifies db
    ensures db.Valid()
    ensures r.Some? <==> old(CanAddMonth(db.goals, db.months, goalId, userId, name))
    ensures r.None? ==> unchanged(db)
    ensures r.Some? ==>
      && db.months == old(db.months) + [Month(newId, name, order, goalId)]
      && r.value == MonthDto(newId, name, order, [])
    ensures db.users == old(db.users) && db.goals == old(db.goals) && db.tasks == old(db.tasks)
    ensures db.subGoals == old(db.subGoals) && db.activities == old(db.activities)
  {
    var k := FindOwnedGoal(db.goals, goalId, userId);
    if k.None? || db.goals[k.value].goalType != Plan {
      if k.Some? {
        forall g | g in db.goals && g.id == goalId && g.userId == userId ensures g.goalType != Plan {
          UniqueByMembers(db.goals, g, db.goals[k.value], GoalKey);
        }
      }
      return None;
    }
    if exists m :: m in MonthsOfGoal(db.months, goalId) && m.name == name {
      return None;
    }
    var month := Month(newId, name, order, goalId);
    AddMonthKeepsSchema(db.users, db.goals, db.months, db.tasks, db.subGoals, db.activities, month, userId);
    db.months := db.months + [month];
    r := Some(MonthDto(month.id, month.name, month.order, []));
  }

  function MonthsWithout(months: seq<Month>, monthId: Id): (r: seq<Month>)
    ensures forall m :: m in r <==> m in months && m.id != monthId
  {
    Filter(months, (m: Month) => m.id != monthId)
  }

  function TasksOutsideMonth(tasks: seq<TaskItem>, monthId: Id): (r: seq<TaskItem>)
    ensures forall t :: t in r <==> t in tasks && t.monthId != monthId
  {
    Filter(tasks, (t: TaskItem) => t.monthId != monthId)
  }

  /** Deleting a month cascades to its tasks. */
  lemma DeleteMonthCascades(
    users: seq<User>, goals: seq<Goal>, months: seq<Month>,
    tasks: seq<TaskItem>, subGoals: seq<SubGoal>, activities: seq<DailyActivity>, monthId: Id)
    requires Schema(users, goals, months, tasks, subGoals, activities)
    ensures Schema(users, goals, MonthsWithout(months, monthId), TasksOutsideMonth(tasks, monthId), subGoals, activities)
  {
    var months', tasks' := MonthsWithout(months, monthId), TasksOutsideMonth(tasks, monthId);
    UniqueByFilter(months, (m: Month) => m.id != monthId, MonthKey);
    UniqueByFilter(months, (m: Month) => m.id != monthId, MonthNameKey);
    UniqueByFilter(tasks, (t: TaskItem) => t.monthId != monthId, TaskKey);
    forall t | t in tasks' ensures HasMonth(months', t.monthId) {
      var m :| m in months && m.id == t.monthId;
      assert m in months';
    }
  }

  method DeleteMonth(db: AppDb, goalId: Id, monthId: Id, userId: Id) returns (deleted: bool)
    requires db.Valid()
    modifies db
    ensures db.Valid()
    ensures deleted <==> old(MonthInOwnedGoal(db.months, db.goals, monthId, goalId, userId))
    ensures !deleted ==> unchanged(db)
    ensures deleted ==>
      && db.months == MonthsWithout(old(db.months), monthId)
      && db.tasks == TasksOutsideMonth(old(db.tasks), monthId)
    ensures db.users == old(db.users) && db.goals == old(db.goals)
    ensures db.subGoals == old(db.subGoals) && db.activities == old(db.activities)
  {
    var k := FindMonthInGoal(db.months, db.goals, monthId, goalId, userId);
    if k.None? {
      return false;
    }
    DeleteMonthCascades(db.users, db.goals, db.months, db.tasks, db.subGoals, db.activities, monthId);
    db.months := MonthsWithout(db.months, monthId);
    db.tasks := TasksOutsideMonth(db.tasks, monthId);
    return true;
  }

  // ---------------------------------------------------------------------
  // Tasks

  /** The task with its completion flipped; a task that becomes completed is
      stamped with the current instant, one that becomes open loses its stamp. */
  function ToggledTask(t: TaskItem, now: Instant): (r: TaskItem)
    ensures r.completed == !t.completed
    ensures StampAgrees(r.completed, r.completedAt)
    ensures r.completed ==> r.completedAt == Some(now)
    ensures r.id == t.id && r.text == t.text && r.monthId == t.monthId
  {
    var done := !t.completed;
    t.(completed := done, completedAt := if done then Some(now) else None)
  }

  /** Toggling twice restores the flag, and restores the whole task when it was not completed. */
  lemma ToggleTaskTwice(t: TaskItem, now1: Instant, now2: Instant)
    ensures ToggledTask(ToggledTask(t, now1), now2).completed == t.completed
    ensures !t.completed && StampAgrees(t.completed, t.completedAt) ==> ToggledTask(ToggledTask(t, now1), now2) == t
  {
  }

  lemma AddTaskKeepsSchema(
    users: seq<User>, goals: seq<Goal>, months: seq<Month>,
    tasks: seq<TaskItem>, subGoals: seq<SubGoal>, activities: seq<DailyActivity>, task: TaskItem)
    requires Schema(users, goals, months, tasks, subGoals, activities)
    requires HasMonth(months, task.monthId) && StampAgrees(task.completed, task.completedAt)
    requires forall t :: t in tasks ==> t.id != task.id
    ensures Schema(users, goals, months, tasks + [task], subGoals, activities)
  {
    UniqueByAppend(tasks, task, TaskKey);
  }

  /** Adds an incomplete task to a month of an owned goal. */
  method AddTask(db: AppDb, goalId: Id, monthId: Id, userId: Id, text: string, newId: Id) returns (r: Option<TaskDto>)
    requires db.Valid()
    requires forall t :: t in db.tasks ==> t.id != newId
    modifies db
    ensures db.Valid()
    ensures r.Some? <==> old(MonthInOwnedGoal(db.months, db.goals, monthId, goalId, userId))
    ensures r.None? ==> unchanged(db)
    ensures r.Some? ==>
      && db.tasks == old(db.tasks) + [TaskItem(newId, text, false, None, monthId)]
      && r.value == TaskDto(newId, text, false, None)
    ensures db.users == old(db.users) && db.goals == old(db.goals) && db.months == old(db.months)
    ensures db.subGoals == old(db.subGoals) && db.activities == old(db.activities)
  {
    var k := FindMonthInGoal(db.months, db.goals, monthId, goalId, userId);
    if k.None? {
      return None;
    }
    var task := TaskItem(newId, text, false, None, monthId);
    assert db.months[k.value] in db.months;
    AddTaskKeepsSchema(db.users, db.goals, db.months, db.tasks, db.subGoals, db.activities, task);
    db.tasks := db.tasks + [task];
    r := Some(ToTaskDto(task));
  }

  lemma ToggleTaskKeepsSchema(
    users: seq<User>, goals: seq<Goal>, months: seq<Month>,
    tasks: seq<TaskItem>, subGoals: seq<SubGoal>, activities: seq<DailyActivity>, k: nat, now: Instant)
    requires Schema(users, goals, months, tasks, subGoals, activities)
    requires k < |tasks|
    ensures Schema(users, goals, months, tasks[k := ToggledTask(tasks[k], now)], subGoals, activities)
  {
    var tasks' := tasks[k := ToggledTask(tasks[k], now)];
    UniqueByUpdate(tasks, k, ToggledTask(tasks[k], now), TaskKey);
    forall t | t in tasks' ensures HasMonth(months, t.monthId) && StampAgrees(t.completed, t.completedAt) {
      var i :| 0 <= i < |tasks'| && tasks'[i] == t;
      assert tasks[i] in tasks;
    }
  }

  /** Flips a task reached through month, goal and owner; completing it records one unit of activity for today. */
  method ToggleTask(db: AppDb, goalId: Id, taskId: Id, userId: Id, today: Day, now: Instant, newActivityId: Id)
    returns (r: Option<TaskDto>)
    requires db.Valid()
    requires forall a :: a in db.activities ==> a.id != newActivityId
    modifies db
    ensures db.Valid()
    ensures var k := FindTaskInGoal(old(db.tasks), old(db.months), old(db.goals), taskId, goalId, userId);
      && (r.Some? <==> k.Some?)
      && (k.None? ==> unchanged(db))
      && (k.Some? ==>
            var t := ToggledTask(old(db.tasks)[k.value], now);
            && db.tasks == old(db.tasks)[k.value := t]
            && r == Some(ToTaskDto(t))
            && db.activities == if t.completed then Upserted(old(db.activities), userId, today, newActivityId) else old(db.activities))
    ensures db.users == old(db.users) && db.goals == old(db.goals) && db.months == old(db.months)
    ensures db.subGoals == old(db.subGoals)
  {
    var k := FindTaskInGoal(db.tasks, db.months, db.goals, taskId, goalId, userId);
    if k.None? {
      return None;
    }
    var task := ToggledTask(db.tasks[k.value], now);
    ToggleTaskKeepsSchema(db.users, db.goals, db.months, db.tasks, db.subGoals, db.activities, k.value, now);
    db.tasks := db.tasks[k.value := task];
    if task.completed {
      OwnerExists(db.users, db.goals, goalId, userId);
      RecordActivity(db, userId, today, newActivityId);
    }
    r := Some(ToTaskDto(task));
  }

  function TasksWithout(tasks: seq<TaskItem>, taskId: Id): (r: seq<TaskItem>)
    ensures forall t :: t in r <==> t in tasks && t.id != taskId
  {
    Filter(tasks, (t: TaskItem) => t.id != taskId)
  }

  lemma DeleteTaskKeepsSchema(
    users: seq<User>, goals: seq<Goal>, months: seq<Month>,
    tasks: seq<TaskItem>, subGoals: seq<SubGoal>, activities: seq<DailyActivity>, taskId: Id)
    requires Schema(users, goals, months, tasks, subGoals, activities)
    ensures Schema(users, goals, months, TasksWithout(tasks, taskId), subGoals, activities)
  {
    UniqueByFilter(tasks, (t: TaskItem) => t.id != taskId, TaskKey);
  }

  /** Deletes a task when task, month, goal and owner all match. */
  method DeleteTask(db: AppDb, goalId: Id, monthId: Id, taskId: Id, userId: Id) returns (deleted: bool)
    requires db.Valid()
    modifies db
    ensures db.Valid()
    ensures deleted <==> old(exists t :: t in db.tasks && t.id == taskId && t.monthId == monthId &&
                                         MonthInOwnedGoal(db.months, db.goals, monthId, goalId, userId))
    ensures !deleted ==> unchanged(db)
    ensures deleted ==> db.tasks == TasksWithout(old(db.tasks), taskId)
    ensures db.users == old(db.users) && db.goals == old(db.goals) && db.months == old(db.months)
    ensures db.subGoals == old(db.subGoals) && db.activities == old(db.activities)
  {
    var k := FindTaskInMonth(db.tasks, db.months, db.goals, taskId, monthId, goalId, userId);
    if k.None? {
      return false;
    }
    DeleteTaskKeepsSchema(db.users, db.goals, db.months, db.tasks, db.subGoals, db.activities, taskId);
    db.tasks := TasksWithout(db.tasks, taskId);
    return true;
  }

  // ---------------------------------------------------------------------
  // Subgoals

  function ToggledSubGoal(sg: SubGoal, now: Instant): (r: SubGoal)
    ensures r.completed == !sg.completed
    ensures StampAgrees(r.completed, r.completedAt)
    ensures r.completed ==> r.completedAt == Some(now)
    ensures r.id == sg.id && r.text == sg.text && r.goalId == sg.goalId
  {
    var done := !sg.completed;
    sg.(completed := done, completedAt := if done then Some(now) else None)
  }

  lemma ToggleSubGoalTwice(sg: SubGoal, now1: Instant, now2: Instant)
    ensures ToggledSubGoal(ToggledSubGoal(sg, now1), now2).completed == sg.completed
    ensures !sg.completed && StampAgrees(sg.completed, sg.completedAt) ==> ToggledSubGoal(ToggledSubGoal(sg, now1), now2) == sg
  {
  }

  /** The goal exists, is the user's, and is a subgoals goal. */
  predicate CanAddSubGoal(goals: seq<Goal>, goalId: Id, userId: Id)
  {
    exists g :: g in goals && g.id == goalId && g.userId == userId && g.goalType == SubGoals
  }

  lemma AddSubGoalKeepsSchema(
    users: seq<User>, goals: seq<Goal>, months: seq<Month>,
    tasks: seq<TaskItem>, subGoals: seq<SubGoal>, activities: seq<DailyActivity>, subGoal: SubGoal)
    requires Schema(users, goals, months, tasks, subGoals, activities)
    requires HasGoalOfType(goals, subGoal.goalId, SubGoals) && StampAgrees(subGoal.completed, subGoal.completedAt)
    requires forall sg :: sg in subGoals ==> sg.id != subGoal.id
    ensures Schema(users, goals, months, tasks, subGoals + [subGoal], activities)
  {
    UniqueByAppend(subGoals, subGoal, SubGoalKey);
  }

  /** Adds an incomplete subgoal to an owned subgoals goal. */
  method AddSubGoal(db: AppDb, goalId: Id, userId: Id, text: string, newId: Id) returns (r: Option<SubGoalDto>)
    requires db.Valid()
    requires forall sg :: sg in db.subGoals ==> sg.id != newId
    modifies db
    ensures db.Valid()
    ensures r.Some? <==> old(CanAddSubGoal(db.goals, goalId, userId))
    ensures r.None? ==> unchanged(db)
    ensures r.Some? ==>
      && db.subGoals == old(db.subGoals) + [SubGoal(newId, text, false, None, goalId)]
      && r.value == SubGoalDto(newId, text, false, None)
    ensures db.users == old(db.users) && db.goals == old(db.goals) && db.months == old(db.months)
    ensures db.tasks == old(db.tasks) && db.activities == old(db.activities)
  {
    var k := FindOwnedGoal(db.goals, goalId, userId);
    if k.None? || db.goals[k.value].goalType != SubGoals {
      if k.Some? {
        forall g | g in db.goals && g.id == goalId && g.userId == userId ensures g.goalType != SubGoals {
          UniqueByMembers(db.goals, g, db.goals[k.value], GoalKey);
        }
      }
      return None;
    }
    var subGoal := SubGoal(newId, text, false, None, goalId);
    assert db.goals[k.value] in db.goals;
    AddSubGoalKeepsSchema(db.users, db.goals, db.months, db.tasks, db.subGoals, db.activities, subGoal);
    db.subGoals := db.subGoals + [subGoal];
    r := Some(ToSubGoalDto(subGoal));
  }

  lemma ToggleSubGoalKeepsSchema(
    users: seq<User>, goals: seq<Goal>, months: seq<Month>,
    tasks: seq<TaskItem>, subGoals: seq<SubGoal>, activities: seq<DailyActivity>, k: nat, now: Instant)
    requires Schema(users, goals, months, tasks, subGoals, activities)
    requires k < |subGoals|
    ensures Schema(users, goals, months, tasks, subGoals[k := ToggledSubGoal(subGoals[k], now)], activities)
  {
    var subGoals' := subGoals[k := ToggledSubGoal(subGoals[k], now)];
    UniqueByUpdate(subGoals, k, ToggledSubGoal(subGoals[k], now), SubGoalKey);
    forall sg | sg in subGoals' ensures HasGoalOfType(goals, sg.goalId, SubGoals) && StampAgrees(sg.completed, sg.completedAt) {
      var i :| 0 <= i < |subGoals'| && subGoals'[i] == sg;
      assert subGoals[i] in subGoals;
    }
  }

  /** Flips a subgoal reached through goal and owner; completing it records one unit of activity for today. */
  method ToggleSubGoal(db: AppDb, goalId: Id, subGoalId: Id, userId: Id, today: Day, now: Instant, newActivityId: Id)
    returns (r: Option<SubGoalDto>)
    requires db.Valid()
    requires forall a :: a in db.activities ==> a.id != newActivityId
    modifies db
    ensures db.Valid()
    ensures var k := FindSubGoalInGoal(old(db.subGoals), old(db.goals), subGoalId, goalId, userId);
      && (r.Some? <==> k.Some?)
      && (k.None? ==> unchanged(db))
      && (k.Some? ==>
            var sg := ToggledSubGoal(old(db.subGoals)[k.value], now);
            && db.subGoals == old(db.subGoals)[k.value := sg]
            && r == Some(ToSubGoalDto(sg))
            && db.activities == if sg.completed then Upserted(old(db.activities), userId, today, newActivityId) else old(db.activities))
    ensures db.users == old(db.users) && db.goals == old(db.goals) && db.months == old(db.months)
    ensures db.tasks == old(db.tasks)
  {
    var k := FindSubGoalInGoal(db.subGoals, db.goals, subGoalId, goalId, userId);
    if k.None? {
      return None;
    }
    var subGoal := ToggledSubGoal(db.subGoals[k.value], now);
    ToggleSubGoalKeepsSchema(db.users, db.goals, db.months, db.tasks, db.subGoals, db.activities, k.value, now);
    db.subGoals := db.subGoals[k.value := subGoal];
    if subGoal.completed {
      OwnerExists(db.users, db.goals, goalId, userId);
      RecordActivity(db, userId, today, newActivityId);
    }
    r := Some(ToSubGoalDto(subGoal));
  }

  function SubGoalsWithout(subGoals: seq<SubGoal>, subGoalId: Id): (r: seq<SubGoal>)
    ensures forall sg :: sg in r <==> sg in subGoals && sg.id != subGoalId
  {
    Filter(subGoals, (sg: SubGoal) => sg.id != subGoalId)
  }

  lemma DeleteSubGoalKeepsSchema(
    users: seq<User>, goals: seq<Goal>, months: seq<Month>,
    tasks: seq<TaskItem>, subGoals: seq<SubGoal>, activities: seq<DailyActivity>, subGoalId: Id)
    requires Schema(users, goals, months, tasks, subGoals, activities)
    ensures Schema(users, goals, months, tasks, SubGoalsWithout(subGoals, subGoalId), activities)
  {
    UniqueByFilter(subGoals, (sg: SubGoal) => sg.id != subGoalId, SubGoalKey);
  }

  /** Deletes a subgoal when subgoal, goal and owner all match. */
  method DeleteSubGoal(db: AppDb, goalId: Id, subGoalId: Id, userId: Id) returns (deleted: bool)
    requires db.Valid()
    modifies db
    ensures db.Valid()
    ensures deleted <==> old(exists sg :: sg in db.subGoals && sg.id == subGoalId && sg.goalId == goalId &&
                                          OwnsGoal(db.goals, goalId, userId))
    ensures !deleted ==> unchanged(db)
    ensures deleted ==> db.subGoals == SubGoalsWithout(old(db.subGoals), subGoalId)
    ensures db.users == old(db.users) && db.goals == old(db.goals) && db.months == old(db.months)
    ensures db.tasks == old(db.tasks) && db.activities == old(db.activities)
  {
    var k := FindSubGoalInGoal(db.subGoals, db.goals, subGoalId, goalId, userId);
    if k.None? {
      return false;
    }
    DeleteSubGoalKeepsSchema(db.users, db.goals, db.months, db.tasks, db.subGoals, db.activities, subGoalId);
    db.subGoals := SubGoalsWithout(db.subGoals, subGoalId);
    return true;
  }

  // ---------------------------------------------------------------------
  // Daily activity

  /** The owner of an owned goal is a stored user. */
  lemma OwnerExists(users: seq<User>, goals: seq<Goal>, goalId: Id, userId: Id)
    requires GoalsOk(goals, users) && OwnsGoal(goals, goalId, userId)
    ensures HasUser(users, userId)
  {
  }

  /** The activity table after one unit of activity for (userId, today):
      the existing row's count goes up by one, or a row with count 1 is added. */
  function Upserted(activities: seq<DailyActivity>, userId: Id, today: Day, newId: Id): seq<DailyActivity>
  {
    match FindActivity(activities, userId, today)
    case Some(k) => activities[k := activities[k].(tasksCompleted := activities[k].tasksCompleted + 1)]
    case None => activities + [DailyActivity(newId, today, 1, userId)]
  }

  /** The count recorded for (userId, day), 0 when there is no row. */
  function CompletedOn(activities: seq<DailyActivity>, userId: Id, day: Day): nat
    requires forall a :: a in activities ==> a.tasksCompleted >= 0
  {
    match FindActivity(activities, userId, day)
    case Some(k) => assert activities[k] in activities; activities[k].tasksCompleted
    case None => 0
  }

  lemma UpsertedKeepsActivitiesOk(activities: seq<DailyActivity>, users: seq<User>, userId: Id, today: Day, newId: Id)
    requires ActivitiesOk(activities, users) && HasUser(users, userId)
    requires forall a :: a in activities ==> a.id != newId
    ensures ActivitiesOk(Upserted(activities, userId, today, newId), users)
  {
    var r := Upserted(activities, userId, today, newId);
    match FindActivity(activities, userId, today)
    case Some(k) =>
      var row := activities[k].(tasksCompleted := activities[k].tasksCompleted + 1);
      UniqueByUpdate(activities, k, row, ActivityKey);
      UniqueByUpdate(activities, k, row, ActivityDayKey);
      forall a | a in r ensures HasUser(users, a.userId) && a.tasksCompleted >= 1 {
        var i :| 0 <= i < |r| && r[i] == a;
        assert activities[i] in activities;
      }
    case None =>
      var row := DailyActivity(newId, today, 1, userId);
      UniqueByAppend(activities, row, ActivityKey);
      UniqueByAppend(activities, row, ActivityDayKey);
  }

  /** Exactly one unit is added to (userId, today), and every other day's count is unchanged. */
  lemma UpsertedCounts(activities: seq<DailyActivity>, userId: Id, today: Day, newId: Id, u: Id, d: Day)
    requires forall a :: a in activities ==> a.tasksCompleted >= 0
    ensures forall a :: a in Upserted(activities, userId, today, newId) ==> a.tasksCompleted >= 0
    ensures CompletedOn(Upserted(activities, userId, today, newId), u, d) ==
      CompletedOn(activities, u, d) + (if u == userId && d == today then 1 else 0)
  {
    match FindActivity(activities, userId, today)
    case Some(k) => UpsertedCountsExisting(activities, k, userId, today, newId, u, d);
    case None => UpsertedCountsNew(activities, userId, today, newId, u, d);
  }

  lemma UpsertedCountsExisting(activities: seq<DailyActivity>, k: nat, userId: Id, today: Day, newId: Id, u: Id, d: Day)
    requires forall a :: a in activities ==> a.tasksCompleted >= 0
    requires FindActivity(activities, userId, today) == Some(k)
    ensures forall a :: a in Upserted(activities, userId, today, newId) ==> a.tasksCompleted >= 0
    ensures CompletedOn(Upserted(activities, userId, today, newId), u, d) ==
      CompletedOn(activities, u, d) + (if u == userId && d == today then 1 else 0)
  {
    var row := activities[k].(tasksCompleted := activities[k].tasksCompleted + 1);
    var r := activities[k := row];
    assert Upserted(activities, userId, today, newId) == r;
    assert activities[k] in activities;
    forall a | a in r ensures a.tasksCompleted >= 0 {
      var i :| 0 <= i < |r| && r[i] == a;
      assert activities[i] in activities;
    }
    FindIndexUpdate(activities, k, row, ActivityOn(u, d));
    assert FindActivity(r, u, d) == FindActivity(activities, u, d);
  }

  lemma UpsertedCountsNew(activities: seq<DailyActivity>, userId: Id, today: Day, newId: Id, u: Id, d: Day)
    requires forall a :: a in activities ==> a.tasksCompleted >= 0
    requires FindActivity(activities, userId, today).None?
    ensures forall a :: a in Upserted(activities, userId, today, newId) ==> a.tasksCompleted >= 0
    ensures CompletedOn(Upserted(activities, userId, today, newId), u, d) ==
      CompletedOn(activities, u, d) + (if u == userId && d == today then 1 else 0)
  {
    var row := DailyActivity(newId, today, 1, userId);
    var r := activities + [row];
    assert Upserted(activities, userId, today, newId) == r;
    FindIndexAppend(activities, row, ActivityOn(u, d));
    assert FindActivity(r, u, d) == FindIndex(r, ActivityOn(u, d));
    if FindActivity(activities, u, d).Some? {
      var j := FindActivity(activities, u, d).value;
      assert r[j] == activities[j];
    }
  }

  /** The upsert keeps every row of another day or user, and adds a row only when (userId, today) had none. */
  lemma UpsertedKeepsOtherRows(activities: seq<DailyActivity>, userId: Id, today: Day, newId: Id)
    ensures var r := Upserted(activities, userId, today, newId);
      && (forall a :: a in activities && (a.userId != userId || a.date != today) ==> a in r)
      && |r| == |activities| + (if FindActivity(activities, userId, today).Some? then 0 else 1)
  {
    var r := Upserted(activities, userId, today, newId);
    match FindActivity(activities, userId, today)
    case Some(k) =>
      forall a | a in activities && (a.userId != userId || a.date != today) ensures a in r {
        var i :| 0 <= i < |activities| && activities[i] == a;
        assert r[i] == a;
      }
    case None =>
  }

  /** Records one unit of activity for the user today (RecordActivityAsync). */
  method RecordActivity(db: AppDb, userId: Id, today: Day, newId: Id)
    requires db.Valid()
    requires HasUser(db.users, userId)
    requires forall a :: a in db.activities ==> a.id != newId
    modifies db
    ensures db.Valid()
    ensures db.activities == Upserted(old(db.activities), userId, today, newId)
    ensures db.users == old(db.users) && db.goals == old(db.goals) && db.months == old(db.months)
    ensures db.tasks == old(db.tasks) && db.subGoals == old(db.subGoals)
  {
    UpsertedKeepsActivitiesOk(db.activities, db.users, userId, today, newId);
    var existing := FindActivity(db.activities, userId, today);
    if existing.Some? {
      var k := existing.value;
      db.activities := db.activities[k := db.activities[k].(tasksCompleted := db.activities[k].tasksCompleted + 1)];
    } else {
      db.activities := db.activities + [DailyActivity(newId, today, 1, userId)];
    }
  }

  // ---------------------------------------------------------------------
  // Analytics

  /** The inactive collection of a stored goal is always empty: months only
      hang under plan goals and subgoals only under subgoals goals. */
  lemma LoadedInactiveEmpty(
    users: seq<User>, goals: seq<Goal>, months: seq<Month>,
    tasks: seq<TaskItem>, subGoals: seq<SubGoal>, activities: seq<DailyActivity>, g: Goal)
    requires Schema(users, goals, months, tasks, subGoals, activities)
    requires g in goals
    ensures g.goalType == Plan ==> LoadGoal(months, tasks, subGoals, g).subGoals == []
    ensures g.goalType == SubGoals ==> LoadGoal(months, tasks, subGoals, g).months == []
  {
    forall sg | sg in subGoals && sg.goalId == g.id ensures g.goalType == SubGoals {
      var g' :| g' in goals && g'.id == sg.goalId && g'.goalType == SubGoals;
      UniqueByMembers(goals, g, g', GoalKey);
    }
    forall m | m in months && m.goalId == g.id ensures g.goalType == Plan {
      var g' :| g' in goals && g'.id == m.goalId && g'.goalType == Plan;
      UniqueByMembers(goals, g, g', GoalKey);
    }
    if g.goalType == Plan {
      FilterNone(subGoals, (sg: SubGoal) => sg.goalId == g.id);
    } else {
      FilterNone(months, (m: Month) => m.goalId == g.id);
    }
  }

  /** Every task of every month of the plan goals among `graphs`. */
  function PlanTasks(graphs: seq<GoalGraph>): seq<TaskItem>
  {
    if |graphs| == 0 then []
    else (if graphs[0].goal.goalType == Plan then TasksOf(graphs[0].months) else []) + PlanTasks(graphs[1..])
  }

  /** Every subgoal of the subgoals goals among `graphs`. */
  function SubGoalItems(graphs: seq<GoalGraph>): seq<SubGoal>
  {
    if |graphs| == 0 then []
    else (if graphs[0].goal.goalType == SubGoals then graphs[0].subGoals else []) + SubGoalItems(graphs[1..])
  }

  function SumActiveTotal(graphs: seq<GoalGraph>): nat
  {
    if |graphs| == 0 then 0 else ActiveTotal(graphs[0]) + SumActiveTotal(graphs[1..])
  }

  function SumActiveCompleted(graphs: seq<GoalGraph>): nat
  {
    if |graphs| == 0 then 0 else ActiveCompleted(graphs[0]) + SumActiveCompleted(graphs[1..])
  }

  /** Counting all plan tasks and all subgoals at once gives the sum, over the
      goals, of the active collection of each: the totals the progress of
      each goal is computed from. */
  lemma {:induction false} AnalyticsSumsPerGoal(graphs: seq<GoalGraph>)
    ensures |PlanTasks(graphs)| + |SubGoalItems(graphs)| == SumActiveTotal(graphs)
    ensures |Filter(PlanTasks(graphs), TaskDone)| + |Filter(SubGoalItems(graphs), SubGoalDone)| == SumActiveCompleted(graphs)
  {
    if |graphs| > 0 {
      var g := graphs[0];
      AnalyticsSumsPerGoal(graphs[1..]);
      var own: seq<TaskItem> := if g.goal.goalType == Plan then TasksOf(g.months) else [];
      var ownSub: seq<SubGoal> := if g.goal.goalType == SubGoals then g.subGoals else [];
      FilterConcat(own, PlanTasks(graphs[1..]), TaskDone);
      FilterConcat(ownSub, SubGoalItems(graphs[1..]), SubGoalDone);
    }
  }

  const ActivityWindow: nat := 365

  function UserActivity(activities: seq<DailyActivity>, userId: Id): (r: seq<DailyActivity>)
    ensures forall a :: a in r <==> a in activities && a.userId == userId
  {
    Filter(activities, (a: DailyActivity) => a.userId == userId)
  }

  /** The user's rows, newest first, at most 365 of them, and none left out
      that is newer than one kept. */
  function RecentActivity(activities: seq<DailyActivity>, userId: Id): (r: seq<DailyActivity>)
    ensures |r| == if |UserActivity(activities, userId)| < ActivityWindow then |UserActivity(activities, userId)| else ActivityWindow
    ensures forall a :: a in r ==> a in activities && a.userId == userId
    ensures multiset(r) <= multiset(UserActivity(activities, userId))
    ensures SortedBy(r, NewestFirst)
    ensures forall a, b :: a in UserActivity(activities, userId) && a !in r && b in r ==> b.date >= a.date
  {
    var rows := UserActivity(activities, userId);
    var sorted := SortBy(rows, NewestFirst);
    var n := if |sorted| < ActivityWindow then |sorted| else ActivityWindow;
    RecentActivityFacts(rows, n);
    sorted[..n]
  }

  lemma RecentActivityFacts(rows: seq<DailyActivity>, n: nat)
    requires n <= |rows|
    ensures var r := SortBy(rows, NewestFirst)[..n];
      && (forall a :: a in r ==> a in rows)
      && multiset(r) <= multiset(rows)
      && SortedBy(r, NewestFirst)
      && (forall a, b :: a in rows && a !in r && b in r ==> b.date >= a.date)
  {
    var sorted := SortBy(rows, NewestFirst);
    NewestFirstIsPreorder();
    SortBySorted(rows, NewestFirst);
    PrefixOfSorted(sorted, n);
    MultisetPrefix(sorted, n);
    forall a | a in sorted[..n] ensures a in rows {
      assert a in sorted;
      assert a in multiset(sorted);
    }
    forall a | a in rows ensures a in sorted {
      assert a in multiset(sorted);
    }
  }

  /** A prefix of a newest-first sequence is newest first, and nothing after it is newer. */
  lemma PrefixOfSorted(sorted: seq<DailyActivity>, n: nat)
    requires n <= |sorted| && SortedBy(sorted, NewestFirst)
    ensures SortedBy(sorted[..n], NewestFirst)
    ensures forall a, b :: a in sorted && a !in sorted[..n] && b in sorted[..n] ==> b.date >= a.date
  {
    var r := sorted[..n];
    forall a, b | a in sorted && a !in r && b in r ensures b.date >= a.date {
      var j :| 0 <= j < |sorted| && sorted[j] == a;
      var i :| 0 <= i < n && r[i] == b;
      assert j >= n;
      assert NewestFirst(sorted[i], sorted[j]);
    }
  }

  /** With one row per user and day, the recent activity has strictly decreasing dates. */
  lemma RecentActivityStrict(activities: seq<DailyActivity>, users: seq<User>, userId: Id)
    requires ActivitiesOk(activities, users)
    ensures StrictlyNewestFirst(RecentActivity(activities, userId))
  {
    var rows := UserActivity(activities, userId);
    UniqueByFilter(activities, (a: DailyActivity) => a.userId == userId, ActivityDayKey);
    SortByUnique(rows, NewestFirst, ActivityDayKey);
    NewestFirstIsPreorder();
    SortBySorted(rows, NewestFirst);
    var sorted := SortBy(rows, NewestFirst);
    forall a | a in sorted ensures a.userId == userId {
      assert a in multiset(sorted);
    }
    SortedUniqueStrict(sorted, userId);
    var r := RecentActivity(activities, userId);
    assert r == sorted[..|r|];
    forall i, j | 0 <= i < j < |r| ensures r[i].date > r[j].date {
      assert r[i] == sorted[i] && r[j] == sorted[j];
    }
  }

  /** One user's rows, newest first with one row per day, have strictly decreasing dates. */
  lemma SortedUniqueStrict(rows: seq<DailyActivity>, userId: Id)
    requires SortedBy(rows, NewestFirst) && UniqueBy(rows, ActivityDayKey)
    requires forall a :: a in rows ==> a.userId == userId
    ensures StrictlyNewestFirst(rows)
  {
    forall i, j | 0 <= i < j < |rows| ensures rows[i].date > rows[j].date {
      assert ActivityDayKey(rows[i]) != ActivityDayKey(rows[j]);
      assert rows[i] in rows && rows[j] in rows;
      assert NewestFirst(rows[i], rows[j]);
    }
  }

  /** The analytics streak is the user's current run of consecutive days
      among the recent rows, counted from the newest row not after today
      when that row is today's or yesterday's, and 0 otherwise. */
  lemma AnalyticsStreakIsCurrentRun(activities: seq<DailyActivity>, users: seq<User>, userId: Id, today: Day)
    requires ActivitiesOk(activities, users)
    ensures
      var past := PastRows(RecentActivity(activities, userId), today);
      var s := StreakFrom(RecentActivity(activities, userId), today);
      && s <= |past|
      && (s == 0 <==> |past| == 0 || past[0].date < today - 1)
      && (forall i :: 0 <= i < s ==> past[i].date == past[0].date - i)
      && (0 < s < |past| ==> past[s].date < past[0].date - s)
  {
    RecentActivityStrict(activities, users, userId);
    StreakIsCurrentRun(RecentActivity(activities, userId), today);
  }

  function ActivityDtos(rows: seq<DailyActivity>): (r: seq<DailyActivityDto>)
    ensures |r| == |rows|
    ensures forall i :: 0 <= i < |rows| ==> r[i] == DailyActivityDto(rows[i].date, rows[i].tasksCompleted)
  {
    seq(|rows|, i requires 0 <= i < |rows| => DailyActivityDto(rows[i].date, rows[i].tasksCompleted))
  }

  /** The user's summary: goal count, completed and total items over the
      active collections, the recent activity, and the current streak. */
  method GetAnalytics(db: AppDb, userId: Id, today: Day) returns (a: AnalyticsDto)
    requires db.Valid()
    ensures var graphs := LoadGoals(db.months, db.tasks, db.subGoals, OwnedGoals(db.goals, userId));
      && a.totalGoals == |OwnedGoals(db.goals, userId)|
      && a.totalTasks == SumActiveTotal(graphs)
      && a.completedTasks == SumActiveCompleted(graphs)
    ensures a.completedTasks <= a.totalTasks
    ensures a.activity == ActivityDtos(RecentActivity(db.activities, userId))
    ensures |a.activity| <= ActivityWindow
    ensures forall i, j :: 0 <= i < j < |a.activity| ==> a.activity[i].date >= a.activity[j].date
    ensures a.currentStreak == StreakFrom(RecentActivity(db.activities, userId), today)
    ensures a.currentStreak <= |a.activity|
  {
    var goals := LoadGoals(db.months, db.tasks, db.subGoals, OwnedGoals(db.goals, userId));
    var activity := RecentActivity(db.activities, userId);
    var totalGoals := |goals|;
    var allTasks := PlanTasks(goals);
    var allSubGoals := SubGoalItems(goals);
    var completedTasks := |Filter(allTasks, TaskDone)| + |Filter(allSubGoals, SubGoalDone)|;
    var totalTasks := |allTasks| + |allSubGoals|;
    AnalyticsSumsPerGoal(goals);
    var currentStreak := CalculateStreak(activity, today);
    SortByOfSorted(activity, NewestFirst);
    a := AnalyticsDto(ActivityDtos(activity), totalGoals, completedTasks, totalTasks, currentStreak);
  }
}
