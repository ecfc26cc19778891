/** The database context: six tables, the integrity rules the schema and the
    services keep on them, the ownership-scoped queries the services run, and
    the eager loading (`Include`/`ThenInclude`) of a goal with its children. */
module Store {
  import opened Wrappers
  import opened Seqs
  import opened Text
  import opened Entities

  // Keys of the unique indexes

  function UserKey(u: User): Id { u.id }
  function UserEmail(u: User): string { u.email }
  function GoalKey(g: Goal): Id { g.id }
  function MonthKey(m: Month): Id { m.id }
  function MonthNameKey(m: Month): (Id, string) { (m.goalId, m.name) }
  function TaskKey(t: TaskItem): Id { t.id }
  function SubGoalKey(sg: SubGoal): Id { sg.id }
  function ActivityKey(a: DailyActivity): Id { a.id }
  function ActivityDayKey(a: DailyActivity): (Id, Day) { (a.userId, a.date) }

  // Foreign-key targets

  predicate HasUser(users: seq<User>, userId: Id)
  {
    exists u :: u in users && u.id == userId
  }

  predicate HasGoalOfType(goals: seq<Goal>, goalId: Id, goalType: GoalType)
  {
    exists g :: g in goals && g.id == goalId && g.goalType == goalType
  }

  predicate HasMonth(months: seq<Month>, monthId: Id)
  {
    exists m :: m in months && m.id == monthId
  }

  /** A completion time is recorded exactly when the item is completed. */
  predicate StampAgrees(completed: bool, completedAt: Option<Instant>)
  {
    completed <==> completedAt.Some?
  }

  // Table invariants

  /** Primary key, the unique index on Email, and emails stored lower-cased. */
  ghost predicate UsersOk(users: seq<User>)
  {
    && UniqueBy(users, UserKey)
    && UniqueBy(users, UserEmail)
    && (forall u :: u in users ==> Lower(u.email) == u.email)
  }

  ghost predicate GoalsOk(goals: seq<Goal>, users: seq<User>)
  {
    && UniqueBy(goals, GoalKey)
    && (forall g :: g in goals ==> HasUser(users, g.userId))
  }

  /** Months hang under plan goals only, and a goal's month names are distinct. */
  ghost predicate MonthsOk(months: seq<Month>, goals: seq<Goal>)
  {
    && UniqueBy(months, MonthKey)
    && UniqueBy(months, MonthNameKey)
    && (forall m :: m in months ==> HasGoalOfType(goals, m.goalId, Plan))
  }

  ghost predicate TasksOk(tasks: seq<TaskItem>, months: seq<Month>)
  {
    && UniqueBy(tasks, TaskKey)
    && (forall t :: t in tasks ==> HasMonth(months, t.monthId))
    && (forall t :: t in tasks ==> StampAgrees(t.completed, t.completedAt))
  }

  /** Subgoals hang under subgoals goals only. */
  ghost predicate SubGoalsOk(subGoals: seq<SubGoal>, goals: seq<Goal>)
  {
    && UniqueBy(subGoals, SubGoalKey)
    && (forall sg :: sg in subGoals ==> HasGoalOfType(goals, sg.goalId, SubGoals))
    && (forall sg :: sg in subGoals ==> StampAgrees(sg.completed, sg.completedAt))
  }

  /** Primary key, the unique index on (UserId, Date), and a row only ever
      exists because something was completed that day. */
  ghost predicate ActivitiesOk(activities: seq<DailyActivity>, users: seq<User>)
  {
    && UniqueBy(activities, ActivityKey)
    && UniqueBy(activities, ActivityDayKey)
    && (forall a :: a in activities ==> HasUser(users, a.userId) && a.tasksCompleted >= 1)
  }

  ghost predicate Schema(
    users: seq<User>, goals: seq<Goal>, months: seq<Month>,
    tasks: seq<TaskItem>, subGoals: seq<SubGoal>, activities: seq<DailyActivity>)
  {
    && UsersOk(users)
    && GoalsOk(goals, users)
    && MonthsOk(months, goals)
    && TasksOk(tasks, months)
    && SubGoalsOk(subGoals, goals)
    && ActivitiesOk(activities, users)
  }

  /** The shared database context. */
  class AppDb {
    var users: seq<User>
    var goals: seq<Goal>
    var months: seq<Month>
    var tasks: seq<TaskItem>
    var subGoals: seq<SubGoal>
    var activities: seq<DailyActivity>

    ghost predicate Valid()
      reads this
    {
      Schema(users, goals, months, tasks, subGoals, activities)
    }

    constructor ()
      ensures Valid()
      ensures users == [] && goals == [] && months == []
      ensures tasks == [] && subGoals == [] && activities == []
    {
      users, goals, months := [], [], [];
      tasks, subGoals, activities := [], [], [];
    }
  }

  // Ownership-scoped queries

  /** The goal exists and belongs to the user. */
  predicate OwnsGoal(goals: seq<Goal>, goalId: Id, userId: Id)
  {
    exists g :: g in goals && g.id == goalId && g.userId == userId
  }

  /** Some month with that id hangs under that goal. */
  predicate MonthOfGoal(months: seq<Month>, monthId: Id, goalId: Id)
  {
    exists m :: m in months && m.id == monthId && m.goalId == goalId
  }

  /** The month with that id under that goal, whose goal the user owns. */
  predicate MonthInOwnedGoal(months: seq<Month>, goals: seq<Goal>, monthId: Id, goalId: Id, userId: Id)
  {
    MonthOfGoal(months, monthId, goalId) && OwnsGoal(goals, goalId, userId)
  }

  function FindOwnedGoal(goals: seq<Goal>, goalId: Id, userId: Id): (r: Option<nat>)
    ensures r.Some? <==> OwnsGoal(goals, goalId, userId)
    ensures r.Some? ==> r.value < |goals| && goals[r.value].id == goalId && goals[r.value].userId == userId
  {
    FindIndex(goals, (g: Goal) => g.id == goalId && g.userId == userId)
  }

  function FindMonthInGoal(months: seq<Month>, goals: seq<Goal>, monthId: Id, goalId: Id, userId: Id): (r: Option<nat>)
    ensures r.Some? <==> MonthInOwnedGoal(months, goals, monthId, goalId, userId)
    ensures r.Some? ==> r.value < |months| && months[r.value].id == monthId && months[r.value].goalId == goalId
  {
    FindIndex(months, (m: Month) => m.id == monthId && m.goalId == goalId && OwnsGoal(goals, goalId, userId))
  }

  /** The task with that id whose month lies under that goal, whose goal the user owns. */
  function FindTaskInGoal(tasks: seq<TaskItem>, months: seq<Month>, goals: seq<Goal>, taskId: Id, goalId: Id, userId: Id): (r: Option<nat>)
    ensures r.Some? <==> exists t :: t in tasks && t.id == taskId && MonthInOwnedGoal(months, goals, t.monthId, goalId, userId)
    ensures r.Some? ==> r.value < |tasks| && tasks[r.value].id == taskId
    ensures r.Some? ==> MonthInOwnedGoal(months, goals, tasks[r.value].monthId, goalId, userId)
  {
    FindIndex(tasks, (t: TaskItem) => t.id == taskId && MonthInOwnedGoal(months, goals, t.monthId, goalId, userId))
  }

  /** As FindTaskInGoal, and the task must also sit in month `monthId`. */
  function FindTaskInMonth(tasks: seq<TaskItem>, months: seq<Month>, goals: seq<Goal>, taskId: Id, monthId: Id, goalId: Id, userId: Id): (r: Option<nat>)
    ensures r.Some? <==> exists t :: t in tasks && t.id == taskId && t.monthId == monthId && MonthInOwnedGoal(months, goals, monthId, goalId, userId)
    ensures r.Some? ==> r.value < |tasks| && tasks[r.value].id == taskId && tasks[r.value].monthId == monthId
  {
    FindIndex(tasks, (t: TaskItem) => t.id == taskId && t.monthId == monthId && MonthInOwnedGoal(months, goals, t.monthId, goalId, userId))
  }

  /** The subgoal with that id under that goal, whose goal the user owns. */
  function FindSubGoalInGoal(subGoals: seq<SubGoal>, goals: seq<Goal>, subGoalId: Id, goalId: Id, userId: Id): (r: Option<nat>)
    ensures r.Some? <==> exists sg :: sg in subGoals && sg.id == subGoalId && sg.goalId == goalId && OwnsGoal(goals, goalId, userId)
    ensures r.Some? ==> r.value < |subGoals| && subGoals[r.value].id == subGoalId && subGoals[r.value].goalId == goalId
  {
    FindIndex(subGoals, (sg: SubGoal) => sg.id == subGoalId && sg.goalId == goalId && OwnsGoal(goals, goalId, userId))
  }

  /** The activity row of `userId` for `day`, if there is one. */
  function FindActivity(activities: seq<DailyActivity>, userId: Id, day: Day): (r: Option<nat>)
    ensures r.Some? <==> exists a :: a in activities && a.userId == userId && a.date == day
    ensures r.Some? ==> r.value < |activities| && activities[r.value].userId == userId && activities[r.value].date == day
  {
    FindIndex(activities, ActivityOn(userId, day))
  }

  /** The row of `userId` for `day`. */
  function ActivityOn(userId: Id, day: Day): DailyActivity -> bool
  {
    (a: DailyActivity) => a.userId == userId && a.date == day
  }

  // Eager loading of a goal with its months, their tasks, and its subgoals

  datatype MonthGraph = MonthGraph(month: Month, tasks: seq<TaskItem>)

  datatype GoalGraph = GoalGraph(goal: Goal, months: seq<MonthGraph>, subGoals: seq<SubGoal>)

  function MonthsOfGoal(months: seq<Month>, goalId: Id): (r: seq<Month>)
    ensures forall m :: m in r <==> m in months && m.goalId == goalId
  {
    Filter(months, (m: Month) => m.goalId == goalId)
  }

  function TasksOfMonth(tasks: seq<TaskItem>, monthId: Id): (r: seq<TaskItem>)
    ensures forall t :: t in r <==> t in tasks && t.monthId == monthId
  {
    Filter(tasks, (t: TaskItem) => t.monthId == monthId)
  }

  function SubGoalsOfGoal(subGoals: seq<SubGoal>, goalId: Id): (r: seq<SubGoal>)
    ensures forall sg :: sg in r <==> sg in subGoals && sg.goalId == goalId
  {
    Filter(subGoals, (sg: SubGoal) => sg.goalId == goalId)
  }

  function LoadMonths(ms: seq<Month>, tasks: seq<TaskItem>): (r: seq<MonthGraph>)
    ensures |r| == |ms|
    ensures forall i :: 0 <= i < |ms| ==> r[i] == MonthGraph(ms[i], TasksOfMonth(tasks, ms[i].id))
  {
    seq(|ms|, i requires 0 <= i < |ms| => MonthGraph(ms[i], TasksOfMonth(tasks, ms[i].id)))
  }

  /** The goal together with the months that point at it, each month with its
      tasks, and the subgoals that point at it. */
  function LoadGoal(months: seq<Month>, tasks: seq<TaskItem>, subGoals: seq<SubGoal>, g: Goal): GoalGraph
  {
    GoalGraph(g, LoadMonths(MonthsOfGoal(months, g.id), tasks), SubGoalsOfGoal(subGoals, g.id))
  }

  function LoadGoals(months: seq<Month>, tasks: seq<TaskItem>, subGoals: seq<SubGoal>, goals: seq<Goal>): (r: seq<GoalGraph>)
    ensures |r| == |goals|
    ensures forall i :: 0 <= i < |goals| ==> r[i] == LoadGoal(months, tasks, subGoals, goals[i])
  {
    seq(|goals|, i requires 0 <= i < |goals| => LoadGoal(months, tasks, subGoals, goals[i]))
  }
}
