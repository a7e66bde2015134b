# rootin-server core, modelled in Dafny

rootin-server is the back end of a habit-routine tracker. A user creates a
*routine* (a title, a start date, a duration in days and a list of *tasks*),
and each day checks the tasks done; every check is a *task log* row for a
(task, day) pair. This project models the core of that server:

- the progress engine of `src/utils/routines.ts`: end date, completion rate,
  the completed classification, the per-day per-task grid, today's counts,
  the overall summary and pagination;
- the repository of `src/data/routines.ts` and `src/data/tasks.ts` over an
  in-memory store: the detail query with its grid, creation with nested
  tasks, the transactional update that reconciles a routine's task list, the
  ownership-checked delete with its cascade, and the check/uncheck toggle;
- the routine handlers of `src/controllers/routines.ts`, the error mapping
  and user-id accessor of `src/utils/controller.ts`, and the bearer-token
  middleware of `src/middlewares/auth.ts`.

Files and modules:

| file | module | models |
|---|---|---|
| `wrappers.dfy` | `Wrappers` | `Option` and `Result` |
| `strings.dfy` | `Strings` | JavaScript `split`/`join` on one separator character |
| `progress.dfy` | `Progress` | `src/utils/routines.ts`, as pure functions over a routine snapshot |
| `store.dfy` | `Store` | the routine, task and task-log tables (`class Db`) and their invariant |
| `routine_repository.dfy` | `RoutineRepository` | `src/data/routines.ts` |
| `task_repository.dfy` | `TaskRepository` | `src/data/tasks.ts` |
| `controller_util.dfy` | `ControllerUtil` | `src/utils/controller.ts` |
| `auth_middleware.dfy` | `AuthMiddleware` | `src/middlewares/auth.ts` |
| `routine_controller.dfy` | `RoutineController` | `src/controllers/routines.ts` |

Modelling choices:

- **Dates and time.** Calendar days are integers (day numbers), so "the next
  day" is `d + 1`. The current instant (`new Date()`) is a parameter `now`
  in milliseconds on the same clock, so day `d` begins at
  `DayStart(d) = d * 86400000`. The current day is a parameter `today`.
- **Tables.** The database is a `class Db` with one `seq` per table. Rows are
  kept in ascending id order, and ids come from per-table counters that
  start at 1, as an autoincrement column does. A `findFirst` therefore
  returns the first matching row in the sequence.
- **Table invariant.** `Db.Valid()` (via `Store.ValidTables`) says ids are
  unique, ascending and below their counter, and every task and log
  references an existing parent. Every repository method keeps it.
- **Errors.** A Prisma failure the source swallows (`catch` then
  `console.log`) becomes a `None` result with the tables unchanged.
- **Update transaction.** The update works on a copy of the tables and
  commits only at the end, as the transaction's rollback does.
- **Properties.** Each method is proved against specification functions
  (`ToggleRows`, `ReconciledTasks`, `ApplyEdits`, `DeleteMissing`,
  `KeepLogsOfTasks`, `BuildDailyStatus`). The lemmas beside them state
  round trips, invariants, cascades and agreement between the views.

The code has no cross-routine "today" summary and no sorting of the
listing, so the model has neither. The list handler calls `findAllRoutines`
with user, page, limit and filter, but that function takes no arguments;
the model stops at the query the handler builds.

## Model

| member | source | states |
|---|---|---|
| Progress.CalcEndDate | src/utils/routines.ts:7-14 | the end date is `durationDays` days after the start, never before it |
| Progress.CompletedSlots | src/utils/routines.ts:30-38 | the `reduce` is 0 for an empty window and for no tasks |
| Progress.CountInWindow | src/utils/routines.ts:33-36 | the per-task filter of the half-open window `[start, end)` keeps at most all logs, and none when the window is empty |
| Progress.CalcCompletionRate | src/utils/routines.ts:16-41 | the rate is never negative and is 0 when there are no slots (no days or no tasks) |
| Progress.RoundHalfUpBounds | src/utils/routines.ts:40 | `Math.round(n / d)` lies within half a unit of `n / d`, ties rounding up |
| Progress.RoundHalfUpUnique | src/utils/routines.ts:40 | that rounding is the only integer within half a unit, ties up |
| Progress.RoundHalfUpAtMost | src/utils/routines.ts:40 | rounding `n / d` with `n <= m * d` gives at most `m` |
| Progress.RateRoundsHalfUp | src/utils/routines.ts:22-40 | the rate is `100 * completed / total` rounded, within half a percent |
| Progress.CountInWindowIgnoresOutside | src/utils/routines.ts:33-36 | inserting a log outside the window anywhere does not change the count |
| Progress.CountInWindowIsDaysLogged | src/utils/routines.ts:30-38 | with one log per task and day, the window count is the number of logged days |
| Progress.CompletedSlotsIsSlotsLogged | src/utils/routines.ts:30-38 | the `reduce` over tasks equals the logged (task, day) slots of the window |
| Progress.SlotsLoggedAtMost | src/utils/routines.ts:30-38 | there are at most `durationDays * tasks` logged slots |
| Progress.RateIsPercentage | src/utils/routines.ts:16-41 | with one log per task and day, the rate is between 0 and 100 |
| Progress.RateFullWhenAllSlotsLogged | src/utils/routines.ts:16-41 | every slot logged once gives exactly 100 |
| Progress.RateZeroWhenNoLogInWindow | src/utils/routines.ts:25-38 | no log inside the window gives 0 |
| Progress.RateIgnoresLogOutsideWindow | src/utils/routines.ts:25-38 | adding or removing a log outside the window leaves the rate unchanged |
| Progress.RateExample | src/utils/routines.ts:16-41 | 10 days, 2 tasks, 5 + 3 logged days give 40 |
| Progress.CheckIsCompleted | src/utils/routines.ts:43-48 | a rate of 100, or a `now` later than midnight at the start of the end date, makes the routine completed; below 100 it is active up to and including that midnight |
| Progress.CompletedByDayOfNow | src/utils/routines.ts:43-48 | below 100, a routine is completed iff `now` falls after its end date's day, or on that day after its first instant |
| Progress.EndDayExample | src/utils/routines.ts:43-48 | at 50%, a 10-day routine from day 0 is active at 10:00 on day 9 and at midnight of day 10, and completed at 10:00 on day 10 |
| Progress.CompletedWhenAllSlotsLogged | src/utils/routines.ts:43-48 | a fully logged routine is completed whatever `now` is |
| Progress.CompletedIsStable | src/utils/routines.ts:43-48 | once completed, a routine stays completed as `now` grows |
| Progress.BuildDailyStatus | src/utils/routines.ts:50-80 | one entry per day; entry `i` is day `i + 1` dated `start + i`, with one flag per task in task order, set iff that task has a log that day |
| Progress.DailyStatusCoversWindow | src/utils/routines.ts:68-79 | the grid's dates are exactly the days of `[start, end date)` |
| Progress.DailyStatusCountsCompletedSlots | src/utils/routines.ts:30-38 | the grid's checked cells are the completed slots the rate counts, so grid and rate agree |
| Progress.DaysLogged | src/utils/routines.ts:68-79 | one grid column: all `n` days logged iff the count is `n`, none iff 0 |
| Progress.TasksDoneOn | src/utils/routines.ts:87-93 | the tasks with some log on a day: all iff every task, none iff no task |
| Progress.CheckedInRowIsTasksDoneOn | src/utils/routines.ts:73-76 | each row of the grid counts the tasks done that day |
| Progress.CalcTodayProgress | src/utils/routines.ts:82-96 | the total is the number of tasks; the completed count is at most that, and equal iff every task has a log today |
| Progress.TodayCountsTaskOnce | src/utils/routines.ts:87-93 | a second log today on a task already done does not count again |
| Progress.TasksDoneOnDependsOnMembership | src/utils/routines.ts:87-93 | today's count depends only on whether each task has a log that day |
| Progress.TodayProgressMatchesGrid | src/utils/routines.ts:82-96 | on a day in the window, today's count equals the checked cells of that day's grid row |
| Progress.EnrichRoutineSummary | src/utils/routines.ts:108-132 | the listing entry passes the routine's other fields through unchanged, keeps start date and duration, and carries its end date, rate and completion, the task count as today's total, and today's completed count exactly as `calcTodayProgress` gives it for `today` |
| Progress.EnrichRoutineDetail | src/utils/routines.ts:134-163 | the detail passes the routine's other fields through, keeps all tasks, and adds the grid, the end date `start + durationDays`, the rate and completion; the rate is the rounded share of checked grid cells |
| Progress.CalcOverallSummary | src/utils/routines.ts:165-192 | counts at most all routines; `{0, 0}` when none is active; the average is not negative |
| Progress.OverallSummaryIgnoresCompleted | src/utils/routines.ts:170-181 | a completed routine does not change the summary |
| Progress.OverallSummaryCountsActive | src/utils/routines.ts:170-191 | an active routine adds one to the count and its rate to the sum |
| Progress.ActiveRatesArePercentages | src/utils/routines.ts:170-181 | with well-formed logs, every active rate is a percentage |
| Progress.AverageRateIsPercentage | src/utils/routines.ts:183-191 | with well-formed logs, the average rate is between 0 and 100 |
| Progress.AverageRateRoundsMean | src/utils/routines.ts:186-189 | the average is the mean of the active rates, rounded half up |
| Progress.Slice | src/utils/routines.ts:200 | `items.slice(start, end)` has at most all items, is `items[start..end]` for in-range bounds, and is empty when `0 <= end <= start` |
| Progress.SliceIndex | src/utils/routines.ts:200 | a `slice` bound is clipped to the length, and an in-range bound is kept |
| Progress.CeilDiv | src/utils/routines.ts:208 | `Math.ceil(n / d)` is the least `q` with `n <= d * q` |
| Progress.Paginate | src/utils/routines.ts:194-211 | at most `limit` items; the header echoes total, page and limit, and the page count covers all items with no empty last page |
| Progress.PaginateWindow | src/utils/routines.ts:199-200 | page `p` holds the items from `(p - 1) * limit` on, at most `limit` of them |
| Progress.PaginateEmptyPastLastPage | src/utils/routines.ts:199-208 | a page is empty iff it lies past the last page |
| Progress.PagesArePrefix | src/utils/routines.ts:199-200 | the first `k` pages together are the first `k * limit` items |
| Progress.PagesCoverItems | src/utils/routines.ts:194-211 | read page by page, the listing shows every item once, in order |
| Progress.PaginateExample | src/utils/routines.ts:194-211 | 10 items, page 2 of 6 gives the last 4 items and 2 pages |
| Store.FirstRoutine | src/data/routines.ts:33-37 | `findFirst` on (id, user): the first row matching both, and none iff no row matches |
| Store.TasksOf | src/data/routines.ts:44-55 | the routine's tasks are exactly the tasks that reference it |
| Store.LogsOf | src/data/routines.ts:49-53 | a task's logs are exactly the logs that reference it |
| RoutineRepository.Snapshot | src/data/routines.ts:63-72 | one entry per task, in order, with the task's id |
| RoutineRepository.SnapshotHasDay | src/data/routines.ts:66-70 | a day is in a task's set iff the log table has that (task, day) row |
| RoutineRepository.TaskViews | src/data/routines.ts:44-55 | each task keeps id, name and order and carries exactly its own logs |
| RoutineRepository.FindRoutineById | src/data/routines.ts:31-100 | `null` iff user 1 owns no such routine; otherwise that routine's fields, its tasks with their logs, and the grid over them |
| RoutineRepository.GridFlagIsLogRow | src/data/routines.ts:76-94 | the grid flags a task on a day iff the log table has that row |
| RoutineRepository.FindRoutineByIdGrid | src/data/routines.ts:63-94 | the detail's grid has one row per day, numbered and dated, a flag per task of the routine, set iff its log row exists |
| RoutineRepository.NewTasks | src/data/routines.ts:107-112 | one row per input, in order, all of the given routine, with ids from the counter on, and each input's name and order |
| RoutineRepository.CreateRoutine | src/data/routines.ts:102-120 | no task list makes `tasks.map` throw and changes nothing; otherwise the routine is appended with a new id and the body's own fields, its `user_id` included, and its tasks follow with new ids |
| RoutineRepository.CreatedRoutineOwnsItsTasks | src/data/routines.ts:104-114 | the new routine's tasks are exactly its nested inputs, in order; other routines keep theirs |
| RoutineRepository.NewTasksJoinRoutine | src/data/routines.ts:168-176 | appended tasks join their routine's task list at the end |
| RoutineRepository.TaskIdsOfNewTasks | src/data/routines.ts:169-175 | the created tasks get the next `n` ids from the counter |
| RoutineRepository.CreateKeepsValid | src/data/routines.ts:102-120 | creation keeps ids unique and ascending, and keeps foreign keys valid |
| RoutineRepository.WithIds | src/data/routines.ts:144 | the inputs with a truthy `id`, and only those |
| RoutineRepository.WithoutIds | src/data/routines.ts:145 | the inputs without a truthy `id`, and only those |
| RoutineRepository.UpdateRoutineRow | src/data/routines.ts:133-142 | only title and description change, each only when given |
| RoutineRepository.DeleteMissing | src/data/routines.ts:149-154 | `deleteMany` keeps exactly the tasks of other routines and the kept ids |
| RoutineRepository.UpdateById | src/data/routines.ts:158-164 | `task.update` by id edits the rows with that id, and fails iff no row has it |
| RoutineRepository.ApplyEdits | src/data/routines.ts:157-165 | when the loop succeeds, the table keeps its length, and every row its id and routine |
| RoutineRepository.LastEdit | src/data/routines.ts:157-165 | the last edit naming an id, and none iff no edit names it |
| RoutineRepository.ApplyEditsEffect | src/data/routines.ts:157-165 | the update loop fails iff an edit names an unknown id; otherwise each row keeps id and routine and carries the last edit naming it |
| RoutineRepository.ApplyEditsPrefixFails | src/data/routines.ts:157-165 | once an update fails, the whole loop fails |
| RoutineRepository.UpdateEach | src/data/routines.ts:157-165 | the loop computes `ApplyEdits`: one update per input, in order, stopping at the first failure |
| RoutineRepository.ReconciledTasks | src/data/routines.ts:144-176 | the reconciled table is the surviving rows, with ids and routines kept, followed by one new row of the routine per input without id |
| RoutineRepository.ReconcileFailsOnUnknownId | src/data/routines.ts:144-165 | the reconciliation fails iff some input id names no task that survived the delete |
| RoutineRepository.ReconcileDeletesMissing | src/data/routines.ts:149-154 | the routine's tasks survive iff the client kept their id, and every other routine's task survives |
| RoutineRepository.ReconcileEditsAndAppends | src/data/routines.ts:157-176 | the survivors come first, edited, followed by one new task per input without id; with none, nothing is created |
| RoutineRepository.ApplyEditsAscending | src/data/routines.ts:157-165 | edits keep the ids and the routine links |
| RoutineRepository.RoutineUpdateKeepsIds | src/data/routines.ts:133-142 | the routine update keeps the routine ids |
| RoutineRepository.ReconcileKeepsValid | src/data/routines.ts:144-176 | the reconciled tables keep unique ascending ids and valid foreign keys |
| RoutineRepository.UpdateRoutine | src/data/routines.ts:122-184 | fails, with the store unchanged, iff the id is not a number, user 1 owns no such routine, there is no task list, or an edit names an unknown task; otherwise it commits the routine edit, the reconciled tasks and the log cascade |
| RoutineRepository.DeleteMissingOtherRoutine | src/data/routines.ts:149-154 | deleting a routine's tasks leaves other routines' task lists untouched |
| RoutineRepository.KeepLogsOfSurvivor | src/data/routines.ts:197 | a surviving task keeps exactly its logs |
| RoutineRepository.RemoveRoutine | src/data/routines.ts:198-200 | `routine.delete where id` keeps exactly the routines with another id |
| RoutineRepository.KeepLogsOfTasks | src/data/routines.ts:197 | the cascaded log table keeps exactly the logs whose task is still present |
| RoutineRepository.DeleteCascade | src/data/routines.ts:197-200 | after deleting a routine, none of its tasks remain, no log is orphaned, other routines keep their tasks, and survivors keep their logs |
| RoutineRepository.DeleteKeepsValid | src/data/routines.ts:197-200 | the cascade keeps the table invariant |
| RoutineRepository.DeleteRoutine | src/data/routines.ts:186-207 | succeeds iff the id is a number of a routine user 1 owns, then removes it with its tasks and their logs; otherwise reports failure with the store unchanged |
| TaskRepository.PairCountAppend | src/data/tasks.ts:25-32 | counting a pair's rows distributes over concatenation |
| TaskRepository.HasLogIsLogged | src/data/tasks.ts:13-18 | counting the pair's rows agrees with looking for one |
| TaskRepository.FindLog | src/data/tasks.ts:13-18 | `findFirst` on (task, day): the first matching row, and none iff the pair has no log |
| TaskRepository.DeleteLogById | src/data/tasks.ts:21-23 | `delete where id` keeps exactly the rows with another id |
| TaskRepository.DeleteLogByIdRemovesRow | src/data/tasks.ts:20-23 | with unique ids, deleting by row `k`'s id removes exactly row `k` |
| TaskRepository.ToggleRows | src/data/tasks.ts:13-32 | a toggle adds no row but the new one; a logged pair only loses rows; an unlogged pair gains the new row and keeps every old one |
| TaskRepository.ToggleRowsDeletesFirstMatch | src/data/tasks.ts:13-24 | toggling a logged pair deletes its first log row and nothing else |
| TaskRepository.ToggleRowsPairCounts | src/data/tasks.ts:13-33 | a toggle moves its own pair's count by one (down if present, to 1 if absent) and leaves every other pair alone |
| TaskRepository.ToggleRowsFlips | src/data/tasks.ts:13-33 | toggling keeps at most one log per pair and flips whether the pair is logged |
| TaskRepository.ToggleRowsAscending | src/data/tasks.ts:20-32 | toggling keeps log ids unique, ascending and below the counter |
| TaskRepository.ToggleRowsTwice | src/data/tasks.ts:13-33 | toggling twice restores an absent pair's table exactly, and every pair's count otherwise |
| TaskRepository.ToggleFlipsLogged | src/data/tasks.ts:13-33 | after a toggle, the pair has a log row iff it had none before |
| TaskRepository.ToggleShowsInDailyGrid | src/data/tasks.ts:13-33 | after toggling a task on a grid day, the detail grid shows it completed iff it was not before |
| TaskRepository.SnapshotWellFormed | src/data/routines.ts:63-72 | with at most one log per (task, day), no task of a snapshot has a day twice |
| TaskRepository.DetailRateIsPercentage | src/data/routines.ts:31-100 | with at most one log per (task, day), the rate computed from the routine a detail query returns is between 0 and 100 |
| TaskRepository.ToggleTaskLog | src/data/tasks.ts:3-37 | a store error or an insert for an unknown task yields nothing and changes nothing; otherwise a logged pair is deleted and reported unchecked, an unlogged one inserted with the next id and reported checked, with the matching message |
| TaskRepository.ToggleTwice | src/data/tasks.ts:3-37 | two toggles of a known task report opposite states and restore every pair's count |
| ControllerUtil.ErrorMap | src/utils/controller.ts:3-34 | the table has exactly its six keys, with statuses 400, 401, 404 and 409 |
| ControllerUtil.RawMessage | src/utils/controller.ts:43 | a thrown non-`Error` becomes `UnknownError`, text without a colon and not a key of the table |
| ControllerUtil.ErrorKey | src/utils/controller.ts:44 | the key is the colon-free prefix before the first colon, or all the text when there is none |
| ControllerUtil.CustomMessage | src/utils/controller.ts:44-45 | a custom message exists iff the text has a colon, and then the text is key, colon, message |
| ControllerUtil.HandleError | src/utils/controller.ts:42-55 | a known key answers its status and error, anything else the fixed 500 body; the status sent equals the body's |
| ControllerUtil.KeyAndCustomMessage | src/utils/controller.ts:44-45 | the key is the text before the first colon; the custom message is the rest, colons included |
| ControllerUtil.KeyWithoutColon | src/utils/controller.ts:44-45 | without a colon the whole text is the key and there is no custom message |
| ControllerUtil.HandleErrorKnownKey | src/utils/controller.ts:48-51 | `Key:msg` answers the key's entry with message `msg`, even `msg` empty; `Key` alone keeps the table's message |
| ControllerUtil.KnownKeyHasNoColon | src/utils/controller.ts:3-34 | no key of the table contains a colon |
| ControllerUtil.HandleErrorFallback | src/utils/controller.ts:43-54 | a non-`Error` or an unknown key answers the fixed 500 body |
| ControllerUtil.StatusGroups | src/utils/controller.ts:3-34 | the two not-found keys share 404, the two authentication keys 401 |
| ControllerUtil.GetUserId | src/utils/controller.ts:57-61 | returns the user id when present and not 0, otherwise throws `UserNotFound` |
| ControllerUtil.MissingUserIs401 | src/utils/controller.ts:57-61 | that throw, handled, answers 401 with the table's message |
| ControllerUtil.LookupAsWritten | src/utils/controller.ts:46 | indexing the object literal finds an own entry iff the key is in the table |
| ControllerUtil.InheritedIsNotOwn | src/utils/controller.ts:3-34 | no inherited member name is a key of the table |
| ControllerUtil.HandleErrorAsWritten | src/utils/controller.ts:42-55 | as written, `handleError` throws iff the key is an inherited member name, and otherwise answers as `HandleError` |
| ControllerUtil.InheritedKeyThrows | src/utils/controller.ts:46-51 | an error `constructor:x` makes the code as written throw, where the intended mapping answers 500 |
| AuthMiddleware.ParseBearer | src/middlewares/auth.ts:10-16 | a token is accepted only from a non-empty header whose first field is `Bearer`; the token is its non-empty second field |
| AuthMiddleware.Authenticate | src/middlewares/auth.ts:17-23 | a user comes only from a parsed token whose validation settled with data |
| AuthMiddleware.BearerAccepted | src/middlewares/auth.ts:13-16 | `Bearer <token>` yields the token, whatever follows after a further space |
| AuthMiddleware.BareSchemeRejected | src/middlewares/auth.ts:13-16 | `Bearer` alone is rejected |
| AuthMiddleware.DoubleSpaceRejected | src/middlewares/auth.ts:13-16 | two spaces after the scheme are rejected |
| AuthMiddleware.AcceptedHeaderShape | src/middlewares/auth.ts:13-16 | every accepted header is `Bearer <token>`, optionally followed by a space and anything |
| AuthMiddleware.LaterFieldsIgnored | src/middlewares/auth.ts:13-20 | fields after the token never change the result |
| AuthMiddleware.AuthMe | src/middlewares/auth.ts:4-32 | on success it stores the user and calls `next()` once with no reply; otherwise it answers the fixed 401 and leaves the request as it was |
| Strings.Split | src/middlewares/auth.ts:13 | `split` yields at least one field, no field holds the separator, and one field iff the text has no separator |
| Strings.Join | src/utils/controller.ts:45 | `join` starts with the first field, followed by the separator when there is a second |
| Strings.JoinSplit | src/utils/controller.ts:44-45 | joining the fields of a split gives back the string |
| Strings.SplitAtFirst | src/utils/controller.ts:44 | splitting `a + sep + b`, with `a` free of the separator, gives `a` and then the split of `b` |
| Strings.SplitJoin | src/utils/controller.ts:45 | splitting a join of separator-free fields gives the fields back |
| RoutineController.OrDefault | src/controllers/routines.ts:13-14 | `Number(q) \|\| d` yields `d` or a non-zero query value |
| RoutineController.NormalizePage | src/controllers/routines.ts:13 | the page is the query when at least 1, page 1 otherwise |
| RoutineController.NormalizeLimit | src/controllers/routines.ts:14 | the limit is 6 when missing or 0, otherwise the query clamped to 1 to 20 |
| RoutineController.NormalizeFilter | src/controllers/routines.ts:15-16 | the filter is `completed` iff the query says so |
| RoutineController.NormalizeIdempotent | src/controllers/routines.ts:13-14 | normalising a normalised page or limit changes nothing |
| RoutineController.GetAllRoutines | src/controllers/routines.ts:8-29 | the repository is queried iff the request has a non-zero user id, and the query is that user id with the normalised page (at least 1), the normalised limit (1 to 20) and the filter read from the query |
| RoutineController.PathNumber | src/controllers/routines.ts:39 | the repository sees a number iff the path id is one |
| RoutineController.GetRoutine | src/controllers/routines.ts:31-47 | 200 with the detail iff user 1 owns the routine, a bare 404 otherwise |
| RoutineController.CreateRoutine | src/controllers/routines.ts:49-60 | no body means no reply and no change; otherwise 201, with a routine iff the body had a task list, and then the store holds that routine and its tasks appended with new ids |
| RoutineController.UpdateRoutine | src/controllers/routines.ts:62-78 | a missing id answers 400 and changes nothing; otherwise 201, empty (store unchanged) iff the id is not a number, there is no body or task list, user 1 owns no such routine, or an edit names an unknown task; else the store holds the edited routine, the reconciled tasks and the cascaded logs, and the task counter has advanced by the number of new tasks; otherwise it is unchanged, and the routine and log counters never change |
| RoutineController.DeleteRoutine | src/controllers/routines.ts:80-89 | 204 iff the routine existed for user 1, and then the routine, its tasks and their logs are gone; otherwise no reply and nothing changes; the id counters never change |

## Left out

- `findAllRoutines` (src/data/routines.ts:9-29) is not modelled. It is a plain query with no logic, and the controller calls it with arguments it does not take.
- Time zones are left out. `stripTime`, `setDate` in local time, and the `toISOString().split('T')[0]` day keys are all modelled as whole day numbers on one clock, and `now` as an instant on that clock. A routine spanning a daylight-saving change, an end date whose local midnight differs from its UTC midnight, or a log stored at a time other than midnight UTC, is outside the model.
- Floating point is left out: `Math.round(completed / total * 100)` is modelled as exact rational rounding. A ratio whose float product falls just below a `.5` case can round differently in JavaScript.
- The detail query orders each task's logs by date, newest first (src/data/routines.ts:50-52). The model keeps them in table order; `TaskViews` states which logs are present, not their order.
- Concurrency between requests is not modelled.
- Database failures are modelled only where the core depends on them:
  - the toggle's store error, including an unparsable date (`storeFails`);
  - the foreign-key failure when a log is inserted for an unknown task;
  - the failing `routine.update` and `task.update` inside the update transaction;
  - a path id that is not a number.
  A failure of `routine.create` on an unknown `user_id` is not modelled, nor is a failing query in `findRoutineById`, which the source logs and answers with `undefined` (src/data/routines.ts:97-99).
- The delete of a routine relies on the database's cascade to tasks and logs, as the comment at src/data/routines.ts:197 says. Likewise, the tasks removed by the update's `deleteMany` take their logs with them. The schema itself is not part of this model; this cascade is assumed.
- Parsing of path and query text (`Number(...)`, `NaN`) is reduced to `PathId`, `Option<int>` and `Option<string>` values.
- `durationDays` is a natural number. A negative or fractional duration is not modelled.
- A `next()` that throws inside `authMe` is not modelled.
- The controller's `res.send` of a status number is modelled as that bare status.
- The JWT check is a parameter of `AuthMe`: `validateToken` in src/utils/auth.ts is not part of this model.
- Console output is not modelled.
- Progress.Paginate requires `limit >= 1`. The source also accepts 0 and gives `NaN`/`Infinity` page counts, but the list handler only ever passes a limit from 1 to 20.
- The unused `_endDate` parameter of `calcCompletionRate` is dropped.
- Routes, the application set-up, configuration, the authentication controller and its repository are not part of this model.
- RoutineRepository.UpdateRoutine: `duration_days` in the update body is ignored, as in the source, which passes only title and description to `routine.update`.
- Progress.CalcCompletionRate: its own contract states only the sign and the zero case. The value is pinned down by `RateRoundsHalfUp` and the lemmas after it.

## Findings

| source | as written | input that shows it | evidently intended | confidence | as-written member | corrected member |
|---|---|---|---|---|---|---|
| src/utils/controller.ts:46-51 | `ERROR_MAP[errorKey]` indexes a plain object literal, so a key naming an `Object.prototype` member (`constructor`, `toString`, `__proto__`, ...) finds a truthy inherited value; its `status` is `undefined`, and `res.status(undefined)` throws instead of answering | an `Error` with message `constructor:x` | only the six keys of the table are mapped; every other key answers the fixed 500 body | medium, not executed | ControllerUtil.InheritedKeyThrows | ControllerUtil.HandleError |
