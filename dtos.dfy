/** The response records the services return. */
module Dtos {
  import opened Wrappers
  import opened Entities

  datatype TaskDto = TaskDto(id: Id, text: string, completed: bool, completedAt: Option<Instant>)

  datatype SubGoalDto = SubGoalDto(id: Id, text: string, completed: bool, completedAt: Option<Instant>)

  datatype MonthDto = MonthDto(id: Id, name: string, order: int, tasks: seq<TaskDto>)

  /** `months` is present only for a plan goal and `subGoals` only for a
      subgoals goal; the other is null. */
  datatype GoalDto = GoalDto(
    id: Id,
    title: string,
    description: Option<string>,
    goalType: string,
    year: int,
    createdAt: Instant,
    months: Option<seq<MonthDto>>,
    subGoals: Option<seq<SubGoalDto>>,
    progress: int)

  /** One day of activity; the day is kept as a day number (see README). */
  datatype DailyActivityDto = DailyActivityDto(date: Day, tasksCompleted: int)

  datatype AnalyticsDto = AnalyticsDto(
    activity: seq<DailyActivityDto>,
    totalGoals: nat,
    completedTasks: nat,
    totalTasks: nat,
    currentStreak: nat)

  datatype UserDto = UserDto(id: Id, email: string, name: string)

  datatype AuthResponse = AuthResponse(token: string, user: UserDto)

  function ToTaskDto(t: TaskItem): TaskDto
  {
    TaskDto(t.id, t.text, t.completed, t.completedAt)
  }

  function ToSubGoalDto(sg: SubGoal): SubGoalDto
  {
    SubGoalDto(sg.id, sg.text, sg.completed, sg.completedAt)
  }

  function ToUserDto(u: User): UserDto
  {
    UserDto(u.id, u.email, u.name)
  }
}
