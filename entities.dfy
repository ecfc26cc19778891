/** The rows of the persisted tables: one datatype per entity class.
    Navigation properties are replaced by the foreign-key ids they follow. */
module Entities {
  import opened Wrappers

  /** A `Guid`. */
  type Id = int

  /** A `DateOnly`, as a day number: `d - 1` is the day before `d`. */
  type Day = int

  /** A `DateTime`, as a point on a time line. */
  type Instant = int

  datatype GoalType = Plan | SubGoals

  datatype User = User(id: Id, email: string, passwordHash: string, name: string, createdAt: Instant)

  datatype Goal = Goal(
    id: Id,
    title: string,
    description: Option<string>,
    goalType: GoalType,
    year: int,
    createdAt: Instant,
    userId: Id)

  datatype Month = Month(id: Id, name: string, order: int, goalId: Id)

  datatype TaskItem = TaskItem(id: Id, text: string, completed: bool, completedAt: Option<Instant>, monthId: Id)

  datatype SubGoal = SubGoal(id: Id, text: string, completed: bool, completedAt: Option<Instant>, goalId: Id)

  datatype DailyActivity = DailyActivity(id: Id, date: Day, tasksCompleted: int, userId: Id)
}
