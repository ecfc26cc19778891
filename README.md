# Goal manager service core, modelled in Dafny

This project models the service layer of a personal goal tracker's backend.
Users register and log in. Each user owns yearly goals of one of two kinds:
a *plan* goal is split into months that hold tasks, and a *subgoals* goal
holds a flat list of subgoals. Users tick items off, and every completion
adds one unit to the user's count for the day. Analytics report totals, the
recent daily activity and the current streak of consecutive active days.

Layout:

- `wrappers.dfy`: the `Option` type, which stands for C#'s nullable results.
- `seqs.dfy`: generic sequence operations used as LINQ stand-ins. `Filter` is `Where` and `FindIndex` is `FirstOrDefault`. `SortBy` is a stable `OrderBy`, modelled as insertion sort over a total preorder. `UniqueBy` says that keys are unique. Each comes with its lemmas.
- `text.dfy`: ASCII lower-casing, standing for `string.ToLower()`.
- `entities.dfy` and `dtos.dfy`: the stored rows and the response records.
- `store.dfy`: the database context as the class `AppDb`, with one `seq` field per table. It holds the schema invariant `Valid()`: primary keys are unique, user addresses are unique and lower-case, there is one activity row per user and day, and every foreign key resolves. Months hang only under plan goals and subgoals only under subgoals goals. Completion stamps agree with completion flags. The file also holds the ownership-chain lookups and the eager loading of a goal with its months, tasks and subgoals.
- `streak.dfy`: `CalculateStreak` as a loop, proved against the recursive specification `StreakFrom`, plus what the streak means.
- `goal_mapping.dfy`: progress with exact round-half-to-even, and the goal-to-response mapping.
- `goal_service.dfy` and `auth_service.dfy`: the two services. Each state change is a module-level method that takes the store `db: AppDb` and `modifies db`. It keeps `Valid()`, states its new tables exactly, and leaves the store unchanged when the ownership check fails.

The clock, fresh ids, password hashing, hash verification and token issuing are all parameters. Today's date is a day number and `now` is an instant, both passed in. A fresh id comes with a precondition that no row of that table uses it yet. Hashing, verification and token issuing are passed in as functions.

Two behaviours of the code are worth stating outright:

- Progress is rounded with `Math.Round`'s default mode, half to even (TaskManager.API/Services/GoalService.cs:374). The model's rounding is exactly that.
- RecordActivity looks the user's row for today up, then increments it or inserts a new row (TaskManager.API/Services/GoalService.cs:294-311). A failed insert is not retried.

## Model

| member | source | states |
|---|---|---|
| Streak.CalculateStreak | TaskManager.API/Services/GoalService.cs:314-336 | The loop's result equals the walk `StreakFrom` over the rows sorted newest first, starting from today. It is 0 for no rows and never more than the number of rows. |
| Streak.StreakBounded | TaskManager.API/Services/GoalService.cs:322-333 | The walk counts at most one per row. |
| Streak.FutureRowsSkipped | TaskManager.API/Services/GoalService.cs:322-333 | Leading rows dated after today do not change the streak. |
| Streak.StreakIsCurrentRun | TaskManager.API/Services/GoalService.cs:314-336 | Assume dates strictly decrease and drop the rows after today. Then the streak is 0 exactly when no row is left or the newest is older than yesterday. Otherwise the first `streak` rows are consecutive days back from the newest, and the next row leaves a gap. |
| GoalService.AnalyticsStreakIsCurrentRun | TaskManager.API/Services/GoalService.cs:260-283 | The analytics streak is the user's current run of consecutive days, as above, over their recent rows. |
| GoalMapping.RoundHalfEven | TaskManager.API/Services/GoalService.cs:374 | The result is nearest to num/den. Ties go to the even neighbour. |
| GoalMapping.NearestHalfEvenUnique | TaskManager.API/Services/GoalService.cs:374 | At most one integer is nearest with ties to even, so the rounding is determined. |
| GoalMapping.PercentInRange | TaskManager.API/Services/GoalService.cs:374-379 | The rounded percentage of part over whole lies in 0..100. It is 100 when part equals whole. |
| GoalMapping.ActiveCompleted | TaskManager.API/Services/GoalService.cs:372-379 | The completed count of a goal's active collection never exceeds its size. |
| GoalMapping.CalculateProgress | TaskManager.API/Services/GoalService.cs:368-381 | Progress is 0 with no items and always in 0..100. It is 100 when every item is done. Otherwise it is 100·completed/total rounded half to even. Only the goal type's own collection counts. |
| GoalMapping.TasksOf | TaskManager.API/Services/GoalService.cs:372 | The tasks of all months, flattened: a task is in the result exactly when it is in some month. |
| GoalMapping.MapToDto | TaskManager.API/Services/GoalService.cs:338-366 | Copies id, title, description, year and creation time, and gives the type string "plan" or "subgoals". Months are present exactly for plan goals, sorted by order, and a permutation of the loaded months' responses, duplicates included. Subgoals are present exactly for subgoals goals. Progress is `CalculateProgress`. |
| GoalMapping.MonthsSortedByOrder | TaskManager.API/Services/GoalService.cs:341 | Month responses are non-decreasing in order, and as a multiset they equal the responses of the goal's months, each month's response occurring as often as the month. |
| Seqs.MapPermutation | TaskManager.API/Services/GoalService.cs:341 | Mapping each element of two permutations of each other gives permutations of each other, which carries the sort's permutation over to the month responses. |
| Store.AppDb.constructor | TaskManager.API/Data/AppDbContext.cs:12-17 | An empty store satisfies the schema invariant. |
| Store.FindOwnedGoal | TaskManager.API/Services/GoalService.cs:83-84 | Finds a goal with that id and owner exactly when one exists. |
| Store.FindMonthInGoal | TaskManager.API/Services/GoalService.cs:121-123 | Finds a month with that id under that goal of that owner exactly when one exists. |
| Store.FindTaskInGoal | TaskManager.API/Services/GoalService.cs:157-160 | Finds a task whose month is under that goal of that owner exactly when one exists. |
| Store.FindTaskInMonth | TaskManager.API/Services/GoalService.cs:180-184 | The same, with the month id also matched. |
| Store.FindSubGoalInGoal | TaskManager.API/Services/GoalService.cs:217-219 | Finds a subgoal under that goal of that owner exactly when one exists. |
| Store.FindActivity | TaskManager.API/Services/GoalService.cs:295-296 | Finds the user's row for the day exactly when one exists. |
| Store.LoadGoal | TaskManager.API/Services/GoalService.cs:33-38 | Eager loading: the goal with exactly the months, tasks and subgoals that point at it. |
| Seqs.SortBy | TaskManager.API/Services/GoalService.cs:24-25 | Sorting returns a permutation of its input. |
| Seqs.SortBySorted | TaskManager.API/Services/GoalService.cs:262 | Under a total preorder, the result is sorted. |
| Seqs.SortByOfSorted | TaskManager.API/Services/GoalService.cs:322 | Re-sorting an already sorted sequence returns it unchanged. |
| GoalService.OwnedGoals | TaskManager.API/Services/GoalService.cs:20 | A goal is kept exactly when it belongs to the user. |
| GoalService.SortedOwnedGoals | TaskManager.API/Services/GoalService.cs:24-25 | The user's goals come sorted by year descending, then by creation time descending, with the same members. |
| GoalService.GetGoalsByUser | TaskManager.API/Services/GoalService.cs:17-29 | One response per owned goal, ordered by year descending then creation time descending. A response is in the list exactly when it is the mapping of one of the user's loaded goals. |
| GoalService.GetGoalById | TaskManager.API/Services/GoalService.cs:31-41 | Null exactly when the user owns no goal with that id. Otherwise the mapped loaded goal. |
| GoalService.ParseGoalTypeMeaning | TaskManager.API/Services/GoalService.cs:50 | Plan is chosen exactly for a four-letter name spelling p, l, a, n in either case, for example "Plan" or "PLAN"; every other name gives SubGoals. Two names that differ only in ASCII case give the same type. |
| GoalService.CreateGoal | TaskManager.API/Services/GoalService.cs:43-60 | Appends exactly one goal of the parsed type. The year defaults to the current year. The response has progress 0 and the empty collection of the goal's type. A later read by id returns the same response. No other table changes. |
| GoalService.CreateGoalKeepsSchema | TaskManager.API/Services/GoalService.cs:43-57 | Adding a goal with a fresh id for a stored user keeps the schema. The new goal has no months and no subgoals. |
| GoalService.UpdateGoal | TaskManager.API/Services/GoalService.cs:62-79 | An unowned goal gives null and changes nothing. Otherwise only that goal's title and description change, and the response is what a read by id returns. |
| GoalService.ReplaceGoalKeepsSchema | TaskManager.API/Services/GoalService.cs:73-76 | Rewriting a goal while keeping its id, type and owner keeps the schema. |
| GoalService.DeleteGoal | TaskManager.API/Services/GoalService.cs:81-91 | This is false exactly when the user owns no such goal, and then nothing changes. When true, the goal, its months, their tasks and its subgoals are removed and nothing else is touched. |
| GoalService.DeleteGoalCascades | TaskManager.API/Data/AppDbContext.cs:53-80 | After the cascade the schema still holds. No goal with that id remains, and no month, task or subgoal still points at it. |
| GoalService.CanAddMonth | TaskManager.API/Services/GoalService.cs:96-103 | The creation guard: the goal is owned and of plan type, and has no month of that name. |
| GoalService.AddMonth | TaskManager.API/Services/GoalService.cs:94-117 | Null exactly when the guard fails, and then nothing changes. Otherwise exactly one month is appended, and the response has no tasks. |
| GoalService.AddMonthKeepsSchema | TaskManager.API/Services/GoalService.cs:102-113 | Appending a month that passes the guard keeps ids unique, month names unique within the goal, and plan-only parents. |
| GoalService.DeleteMonth | TaskManager.API/Services/GoalService.cs:119-130 | This is false exactly when the month is not in an owned goal, and then nothing changes. When true, the month and its tasks are removed. |
| GoalService.DeleteMonthCascades | TaskManager.API/Data/AppDbContext.cs:65-68 | Removing a month with its tasks keeps the schema. |
| GoalService.AddTask | TaskManager.API/Services/GoalService.cs:133-153 | Null exactly when the month is not in an owned goal, and then nothing changes. Otherwise one incomplete task with no stamp is appended. |
| GoalService.AddTaskKeepsSchema | TaskManager.API/Services/GoalService.cs:141-150 | Appending a task with a fresh id under a stored month keeps the schema. |
| GoalService.ToggledTask | TaskManager.API/Services/GoalService.cs:164-165 | The flag is negated. The stamp is set to now exactly when the task becomes completed. Id, text and month stay the same. |
| GoalService.ToggleTaskTwice | TaskManager.API/Services/GoalService.cs:164-165 | Toggling twice restores the flag. For a task that was incomplete, it restores the whole task. |
| GoalService.ToggleTask | TaskManager.API/Services/GoalService.cs:155-176 | Null exactly when the task is not reachable through an owned goal, and then nothing changes. Otherwise only that task is toggled. Activity is upserted for today exactly when the task became completed. |
| GoalService.ToggleTaskKeepsSchema | TaskManager.API/Services/GoalService.cs:164-173 | Toggling a task keeps the schema, stamps included. |
| GoalService.DeleteTask | TaskManager.API/Services/GoalService.cs:178-191 | This is false exactly when no task matches task, month, goal and owner, and then nothing changes. When true, only that task is removed. |
| GoalService.DeleteTaskKeepsSchema | TaskManager.API/Services/GoalService.cs:188-189 | Removing a task keeps the schema. |
| GoalService.CanAddSubGoal | TaskManager.API/Services/GoalService.cs:196-199 | The creation guard: the goal is owned and of subgoals type. |
| GoalService.AddSubGoal | TaskManager.API/Services/GoalService.cs:194-213 | Null exactly when the guard fails, and then nothing changes. Otherwise one incomplete subgoal is appended. |
| GoalService.AddSubGoalKeepsSchema | TaskManager.API/Services/GoalService.cs:201-210 | Appending a subgoal under a subgoals goal keeps the schema. |
| GoalService.ToggledSubGoal | TaskManager.API/Services/GoalService.cs:223-224 | The flag is negated. The stamp is set to now exactly when the subgoal becomes completed. The other fields stay the same. |
| GoalService.ToggleSubGoalTwice | TaskManager.API/Services/GoalService.cs:223-224 | Toggling twice restores the flag, and the whole subgoal when it was incomplete. |
| GoalService.ToggleSubGoal | TaskManager.API/Services/GoalService.cs:215-235 | Null exactly when the subgoal is not under an owned goal, and then nothing changes. Otherwise only that subgoal is toggled. Activity is upserted exactly on completion. |
| GoalService.ToggleSubGoalKeepsSchema | TaskManager.API/Services/GoalService.cs:223-232 | Toggling a subgoal keeps the schema. |
| GoalService.DeleteSubGoal | TaskManager.API/Services/GoalService.cs:237-248 | This is false exactly when no subgoal matches subgoal, goal and owner, and then nothing changes. When true, only that subgoal is removed. |
| GoalService.DeleteSubGoalKeepsSchema | TaskManager.API/Services/GoalService.cs:245-246 | Removing a subgoal keeps the schema. |
| GoalService.OwnerExists | TaskManager.API/Data/AppDbContext.cs:41-44 | The owner of a stored goal is a stored user, so activity can be recorded for them. |
| GoalService.RecordActivity | TaskManager.API/Services/GoalService.cs:292-312 | The activity table becomes the upsert for (user, today), the schema holds afterwards, and no other table changes. |
| GoalService.UpsertedKeepsActivitiesOk | TaskManager.API/Data/AppDbContext.cs:87 | The upsert keeps one row per user and day, unique ids, and counts of at least 1. |
| GoalService.UpsertedCounts | TaskManager.API/Services/GoalService.cs:298-311 | The count for (user, today) grows by exactly 1, from 0 when there was no row. Every other (user, day) count is unchanged. |
| GoalService.UpsertedKeepsOtherRows | TaskManager.API/Services/GoalService.cs:298-311 | Every row of another user or day survives. The table grows by one row exactly when there was no row for (user, today). |
| GoalService.LoadedInactiveEmpty | TaskManager.API/Services/GoalService.cs:268-277 | Under the schema, a plan goal loads no subgoals and a subgoals goal loads no months, so the inactive collection is always empty. |
| GoalService.AnalyticsSumsPerGoal | TaskManager.API/Services/GoalService.cs:268-280 | The flattened item totals and completed counts equal the sums of each goal's active-collection totals and completed counts. |
| GoalService.UserActivity | TaskManager.API/Services/GoalService.cs:261 | A row is kept exactly when it is the user's. |
| GoalService.RecentActivity | TaskManager.API/Services/GoalService.cs:260-264 | A sub-multiset of the user's rows of size min(365, their number), so all of them when there are fewer. They are sorted newest first, and no row left out is newer than one kept. |
| GoalService.RecentActivityFacts | TaskManager.API/Services/GoalService.cs:262-263 | A prefix of the sorted rows is a sub-multiset of the rows, is sorted, and holds the newest ones. |
| GoalService.PrefixOfSorted | TaskManager.API/Services/GoalService.cs:263 | Taking a prefix of a newest-first sequence keeps the newest rows. |
| GoalService.RecentActivityStrict | TaskManager.API/Data/AppDbContext.cs:87 | With one row per user and day, the recent rows have strictly decreasing dates. |
| GoalService.GetAnalytics | TaskManager.API/Services/GoalService.cs:251-290 | The goal count is the number of goals the user owns. The totals are the sums over their goals of active-collection sizes and completed counts, and completed ≤ total. The activity is the recent rows (≤ 365), each as its date and count, with dates non-increasing. The streak is the walk over them from today and never exceeds their number. The store is not changed. |
| Text.Lower | TaskManager.API/Services/AuthService.cs:26 | Same length, each ASCII capital mapped to its small letter, and no capital remains. |
| Text.LowerIdempotent | TaskManager.API/Services/AuthService.cs:34-50 | Lower-casing a lower-cased address changes nothing. |
| AuthService.FindByEmail | TaskManager.API/Services/AuthService.cs:49-50 | Finds the first user with exactly that address, when one exists. |
| AuthService.NewUser | TaskManager.API/Services/AuthService.cs:31-38 | The new user row has the fresh id, the lower-cased address, the hash of the password, the name and the creation time. Its address is already lower-case. |
| AuthService.RegisterKeepsSchema | TaskManager.API/Data/AppDbContext.cs:26-27 | Appending a user with a fresh id and an unused lower-case address keeps the schema. |
| AuthService.Register | TaskManager.API/Services/AuthService.cs:23-45 | Null exactly when the lower-cased address is already stored, and then nothing changes. Otherwise exactly one user is appended, and the response carries the issued token and the new user's id, lower-cased address and name. Emails stay unique. |
| AuthService.Login | TaskManager.API/Services/AuthService.cs:47-59 | Null when no user has the lower-cased address, or when the password does not verify against it. A success carries the token and view of a stored user with that address whose hash verifies. It is a function of the user table, so it changes nothing. |
| AuthService.LoginSucceedsIff | TaskManager.API/Services/AuthService.cs:49-55 | With unique addresses, login succeeds exactly when the stored user with that address verifies the password. |
| AuthService.LoginAfterRegister | TaskManager.API/Services/AuthService.cs:26-50 | After a registration, logging in with the same password and any casing of the address returns that user, provided verification accepts a password against its own hash. A lookup by the new id finds them. |
| AuthService.FindUserById | TaskManager.API/Services/AuthService.cs:63 | Finds a user with that id exactly when one exists. |
| AuthService.GetUserById | TaskManager.API/Services/AuthService.cs:61-65 | Null exactly when no user has that id. Otherwise it is the view of a stored user with that id. |
| AuthService.GetUserByIdFindsStored | TaskManager.API/Services/AuthService.cs:61-65 | With unique ids, looking up a stored user returns their own id, email and name. |

## Left out

- Async I/O, the HTTP controllers, dependency injection and configuration are not modelled. The services are called directly on the in-memory store.
- Transactions and concurrency are left out. Each method is one atomic step, so two concurrent toggles, or two concurrent first completions of a day, cannot interleave in the model.
- BCrypt hashing, which uses a random salt, and its verification are function parameters. Only the property "a password verifies against its own hash" is assumed, as a precondition of `AuthService.LoginAfterRegister`.
- `GenerateJwtToken` (AuthService.cs:67-90) is the parameter `issueToken`. Its claims, signing and expiry are cryptography and clock reads.
- `DateTime.UtcNow`, `DateOnly.FromDateTime` and `Guid.NewGuid()` are parameters: `now`, `today`, `currentYear` and fresh ids. Freshness is a precondition.
- GoalService.GetAnalytics: activity dates stay day numbers. The `yyyy-MM-dd` string formatting is calendar formatting and is not modelled.
- GoalMapping.CalculateProgress: the source computes `100.0 * completed / total` in double precision and rounds it. The model rounds the exact rational half to even. For these small counts this is taken to agree, but double-precision error is not modelled.
- Text.Lower: `ToLower()` is culture-sensitive Unicode lower-casing. The model lower-cases ASCII letters only.
- Integer widths are not modelled. Counts, years and the `TasksCompleted++` increment use unbounded integers, so 32-bit overflow is not captured.
- Seqs.SortBy: the sort is stable by construction (each element is inserted in front of the equal elements that came after it in the input), but only sortedness and the permutation are proved. Among goals with equal year and creation time, or months with equal order, the relative order is therefore unspecified in the contracts.
- The unique index on (user, day) and the unique email index are held as schema invariants that the model's operations keep. The database's enforcement of them, a failed insert, is not modelled, since no operation here violates them. The one-name-per-month rule inside a goal is kept only by `AddMonth`'s check, as in the code.
- GoalService.CreateGoal: it requires that the user is stored. The code performs no such check: for an unknown user the insert fails on the goal-to-user foreign key (TaskManager.API/Data/AppDbContext.cs:41-44) and the save throws. That failing path is excluded because callers are authenticated users, and no operation here deletes users.
- Store.LoadGoal: the model loads a goal's months, each month's tasks and the goal's subgoals in table order. The code's `Include`/`ThenInclude` (GoalService.cs:21-23, 35-37, 66-68) sets no order on them, so the order of tasks in each month response and of the subgoal list (GoalService.cs:345, 350) is whatever the database returns. The contracts of `GoalMapping.MapToDto`, `GoalService.GetGoalById`, `GoalService.GetGoalsByUser` and `GoalService.UpdateGoal` therefore fix an order that the code does not promise. Only membership and multiplicity of those collections are promised by the code. The month list itself is sorted by `Order` in the code and in the model alike.
- Deleting a user, with its cascade to goals and activity, is not an operation of these services and is not modelled.
- Field length limits (AppDbContext.cs:28-75) and request validation belong to the ORM and controller layers and are not modelled.
