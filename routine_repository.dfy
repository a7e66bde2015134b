/**
 * The repository functions of src/data/routines.ts over the in-memory tables
 * of `Store`: the detail query with its daily grid, creation with nested
 * tasks, the transactional update that reconciles a routine's task list, and
 * the ownership-checked delete with its cascade. Every query is pinned to
 * user 1, as in the source.
 */
module RoutineRepository {
  import opened Wrappers
  import opened Store
  import Progress

  /** A task as a client sends it; `id` is present for a task that already exists. */
  datatype TaskInput = TaskInput(id: Option<int>, name: string, sortOrder: int)

  /** The body of a create request; `tasks` is `None` when the client sent no task list. */
  datatype CreateRoutineInput = CreateRoutineInput(
    title: string, description: Option<string>, startDate: int, durationDays: nat,
    userId: int, tasks: Option<seq<TaskInput>>)

  /** The body of an update request; an absent field (`None`) is left untouched. */
  datatype UpdateRoutineInput = UpdateRoutineInput(
    title: Option<string>, description: Option<string>, durationDays: Option<nat>,
    tasks: Option<seq<TaskInput>>)

  /** The update's reply, with the field name the source spells `sucess`. */
  datatype UpdateResult = UpdateResult(sucess: bool)

  datatype DeleteResult = DeleteResult(success: bool)

  // ---------------------------------------------------------------------------
  // findRoutineById
  // ---------------------------------------------------------------------------

  datatype TaskView = TaskView(id: int, name: string, sortOrder: int, logs: seq<TaskLog>)

  datatype RoutineView = RoutineView(
    id: int, title: string, durationDays: nat, description: Option<string>, startDate: int,
    tasks: seq<TaskView>, dailyStatus: seq<Progress.DayStatus>)

  function LogDates(rows: seq<TaskLog>): (dates: seq<int>)
    ensures |dates| == |rows|
    ensures forall i :: 0 <= i < |rows| ==> dates[i] == rows[i].completedDate
  {
    seq(|rows|, i requires 0 <= i < |rows| => rows[i].completedDate)
  }

  /** The progress engine's view of a routine's tasks: each task id with the days it was logged. */
  function Snapshot(tasks: seq<Task>, logs: seq<TaskLog>): (snap: seq<Progress.TaskSnapshot>)
    ensures |snap| == |tasks|
    ensures forall j :: 0 <= j < |tasks| ==> snap[j].id == tasks[j].id
  {
    seq(|tasks|, j requires 0 <= j < |tasks| =>
      Progress.TaskSnapshot(tasks[j].id, LogDates(LogsOf(logs, tasks[j].id))))
  }

  /** A day is in a task's snapshot iff the log table has a row for that task on that day. */
  lemma SnapshotHasDay(tasks: seq<Task>, logs: seq<TaskLog>, j: nat, x: int)
    requires j < |tasks|
    ensures x in Snapshot(tasks, logs)[j].logs <==> Logged(logs, tasks[j].id, x)
  {
    var own := LogsOf(logs, tasks[j].id);
    var dates := Snapshot(tasks, logs)[j].logs;
    assert dates == LogDates(own);
    if x in dates {
      var m :| 0 <= m < |dates| && dates[m] == x;
      assert own[m] in own;
    }
    if exists l :: l in logs && l.taskId == tasks[j].id && l.completedDate == x {
      var l :| l in logs && l.taskId == tasks[j].id && l.completedDate == x;
      assert l in own;
      var m :| 0 <= m < |own| && own[m] == l;
      assert dates[m] == x;
    }
  }

  function TaskViews(tasks: seq<Task>, logs: seq<TaskLog>): (views: seq<TaskView>)
    ensures |views| == |tasks|
    ensures forall j :: 0 <= j < |tasks| ==>
              views[j].id == tasks[j].id && views[j].name == tasks[j].name &&
              views[j].sortOrder == tasks[j].sortOrder &&
              (forall l :: l in views[j].logs <==> l in logs && l.taskId == tasks[j].id)
  {
    seq(|tasks|, j requires 0 <= j < |tasks| =>
      TaskView(tasks[j].id, tasks[j].name, tasks[j].sortOrder, LogsOf(logs, tasks[j].id)))
  }

  /**
   * The routine `routineId` of user 1 with its tasks, their logs and the
   * daily grid; `None` (the source's `null`) when user 1 has no such routine.
   */
  function FindRoutineById(routines: seq<Routine>, tasks: seq<Task>, logs: seq<TaskLog>, routineId: int)
    : (r: Option<RoutineView>)
    ensures r.None? <==>
              forall i :: 0 <= i < |routines| ==> !(routines[i].id == routineId && routines[i].userId == RepositoryUserId)
    ensures r.Some? ==>
              exists i :: 0 <= i < |routines| && routines[i].id == routineId && routines[i].userId == RepositoryUserId &&
                r.value.title == routines[i].title && r.value.description == routines[i].description &&
                r.value.startDate == routines[i].startDate && r.value.durationDays == routines[i].durationDays
    ensures r.Some? ==> r.value.id == routineId && r.value.tasks == TaskViews(TasksOf(tasks, routineId), logs)
    ensures r.Some? ==>
              r.value.dailyStatus ==
              Progress.BuildDailyStatus(Snapshot(TasksOf(tasks, routineId), logs), r.value.startDate, r.value.durationDays)
  {
    match FirstRoutine(routines, routineId, RepositoryUserId)
    case None => None
    case Some(k) =>
      var row := routines[k];
      var own := TasksOf(tasks, row.id);
      Some(RoutineView(row.id, row.title, row.durationDays, row.description, row.startDate,
        TaskViews(own, logs), Progress.BuildDailyStatus(Snapshot(own, logs), row.startDate, row.durationDays)))
  }

  /** The completion flag the detail's grid shows for task `j` of `own` on day `i`. */
  function GridFlag(own: seq<Task>, logs: seq<TaskLog>, startDate: int, durationDays: nat, i: nat, j: nat): bool
    requires i < durationDays && j < |own|
  {
    Progress.BuildDailyStatus(Snapshot(own, logs), startDate, durationDays)[i].status[j].isCompleted
  }

  /** The grid over a task list flags task `j` on day `i` iff the log table has that row. */
  lemma GridFlagIsLogRow(own: seq<Task>, logs: seq<TaskLog>, startDate: int, durationDays: nat, i: nat, j: nat)
    requires i < durationDays && j < |own|
    ensures var grid := Progress.BuildDailyStatus(Snapshot(own, logs), startDate, durationDays);
            grid[i].status[j].taskId == own[j].id &&
            (grid[i].status[j].isCompleted <==> Logged(logs, own[j].id, startDate + i))
    ensures GridFlag(own, logs, startDate, durationDays, i, j) <==> Logged(logs, own[j].id, startDate + i)
  {
    SnapshotHasDay(own, logs, j, startDate + i);
  }

  /**
   * The detail's grid has `durationDays` rows, row `i` is day `i + 1` on
   * `startDate + i`, and it holds one flag per task of the routine, in table
   * order, set iff the log table has a row for that task on that date.
   */
  lemma FindRoutineByIdGrid(routines: seq<Routine>, tasks: seq<Task>, logs: seq<TaskLog>, routineId: int, i: nat, j: nat)
    requires FindRoutineById(routines, tasks, logs, routineId).Some?
    ensures var v := FindRoutineById(routines, tasks, logs, routineId).value;
            |v.dailyStatus| == v.durationDays &&
            (i < v.durationDays ==>
               v.dailyStatus[i].day == i + 1 && v.dailyStatus[i].date == v.startDate + i &&
               |v.dailyStatus[i].status| == |TasksOf(tasks, routineId)|)
    ensures var v := FindRoutineById(routines, tasks, logs, routineId).value;
            var own := TasksOf(tasks, routineId);
            i < v.durationDays && j < |own| ==>
              v.dailyStatus[i].status[j].taskId == own[j].id &&
              (v.dailyStatus[i].status[j].isCompleted <==> Logged(logs, own[j].id, v.startDate + i))
  {
    var v := FindRoutineById(routines, tasks, logs, routineId).value;
    var own := TasksOf(tasks, routineId);
    if i < v.durationDays && j < |own| {
      GridFlagIsLogRow(own, logs, v.startDate, v.durationDays, i, j);
    }
  }

  // ---------------------------------------------------------------------------
  // Row helpers shared by create, update and delete
  // ---------------------------------------------------------------------------

  /** The rows `createMany` / nested `create` insert: ids from `firstId` on, only name and order copied. */
  function NewTasks(inputs: seq<TaskInput>, routineId: int, firstId: int): (rows: seq<Task>)
    ensures |rows| == |inputs|
    ensures forall t :: t in rows ==> t.routineId == routineId && firstId <= t.id < firstId + |inputs|
    ensures forall i :: 0 <= i < |inputs| ==> rows[i].name == inputs[i].name && rows[i].sortOrder == inputs[i].sortOrder
  {
    seq(|inputs|, i requires 0 <= i < |inputs| => Task(firstId + i, routineId, inputs[i].name, inputs[i].sortOrder))
  }

  /** `deleteMany` on tasks: drop the tasks of `routineId` whose id is not in `keep`. */
  function DeleteMissing(tasks: seq<Task>, routineId: int, keep: set<int>): (rows: seq<Task>)
    ensures forall t :: t in rows <==> t in tasks && (t.routineId != routineId || t.id in keep)
  {
    if tasks == [] then []
    else
      (if tasks[0].routineId != routineId || tasks[0].id in keep then [tasks[0]] else [])
      + DeleteMissing(tasks[1..], routineId, keep)
  }

  /** The log cascade: keep exactly the logs whose task is still in `tasks`. */
  function KeepLogsOfTasks(logs: seq<TaskLog>, tasks: seq<Task>): (rows: seq<TaskLog>)
    ensures forall l :: l in rows <==> l in logs && l.taskId in TaskIds(tasks)
  {
    if logs == [] then []
    else
      (if logs[0].taskId in TaskIds(tasks) then [logs[0]] else [])
      + KeepLogsOfTasks(logs[1..], tasks)
  }

  function RemoveRoutine(routines: seq<Routine>, id: int): (rows: seq<Routine>)
    ensures forall r :: r in rows <==> r in routines && r.id != id
  {
    if routines == [] then []
    else (if routines[0].id != id then [routines[0]] else []) + RemoveRoutine(routines[1..], id)
  }

  lemma TasksOfCons(a: seq<Task>, routineId: int)
    requires a != []
    ensures TasksOf(a, routineId) == (if a[0].routineId == routineId then [a[0]] else []) + TasksOf(a[1..], routineId)
  {
  }

  lemma {:induction false} TasksOfAppend(a: seq<Task>, b: seq<Task>, routineId: int)
    ensures TasksOf(a + b, routineId) == TasksOf(a, routineId) + TasksOf(b, routineId)
  {
    if a == [] {
      assert a + b == b;
    } else {
      var head := if a[0].routineId == routineId then [a[0]] else [];
      var ab := a + b;
      assert ab[0] == a[0];
      assert ab[1..] == a[1..] + b;
      TasksOfCons(ab, routineId);
      TasksOfCons(a, routineId);
      TasksOfAppend(a[1..], b, routineId);
      assert head + (TasksOf(a[1..], routineId) + TasksOf(b, routineId))
          == (head + TasksOf(a[1..], routineId)) + TasksOf(b, routineId);
    }
  }

  lemma {:induction false} TasksOfAbsent(rows: seq<Task>, routineId: int)
    requires forall t :: t in rows ==> t.routineId != routineId
    ensures TasksOf(rows, routineId) == []
  {
    if rows != [] {
      assert rows[0] in rows;
      TasksOfAbsent(rows[1..], routineId);
    }
  }

  lemma {:induction false} TasksOfAll(rows: seq<Task>, routineId: int)
    requires forall t :: t in rows ==> t.routineId == routineId
    ensures TasksOf(rows, routineId) == rows
  {
    if rows != [] {
      assert rows[0] in rows;
      TasksOfAll(rows[1..], routineId);
      assert rows == [rows[0]] + rows[1..];
    }
  }

  /** The new rows are exactly what the routine gains: its task list is the old one followed by them. */
  lemma NewTasksJoinRoutine(tasks: seq<Task>, inputs: seq<TaskInput>, routineId: int, firstId: int)
    ensures TasksOf(tasks + NewTasks(inputs, routineId, firstId), routineId)
            == TasksOf(tasks, routineId) + NewTasks(inputs, routineId, firstId)
  {
    TasksOfAppend(tasks, NewTasks(inputs, routineId, firstId), routineId);
    TasksOfAll(NewTasks(inputs, routineId, firstId), routineId);
  }

  lemma TaskIdsOfNewTasks(inputs: seq<TaskInput>, routineId: int, firstId: int, x: int)
    ensures x in TaskIds(NewTasks(inputs, routineId, firstId)) <==> firstId <= x < firstId + |inputs|
  {
    var rows := NewTasks(inputs, routineId, firstId);
    if firstId <= x < firstId + |inputs| {
      assert rows[x - firstId] in rows;
    }
  }

  lemma AppendNewTasksAscending(tasks: seq<Task>, inputs: seq<TaskInput>, routineId: int, next: int)
    requires TaskIdsAscending(tasks, next)
    ensures TaskIdsAscending(tasks + NewTasks(inputs, routineId, next), next + |inputs|)
  {
    var added := NewTasks(inputs, routineId, next);
    var rows := tasks + added;
    assert forall i :: 0 <= i < |tasks| ==> rows[i] == tasks[i];
    assert forall i :: |tasks| <= i < |rows| ==> rows[i].id == next + i - |tasks|;
    forall i, j | 0 <= i < j < |rows| ensures rows[i].id < rows[j].id {
      if j < |tasks| {
      } else if i < |tasks| {
        assert tasks[i] in tasks;
      }
    }
  }

  lemma TaskTailAscending(tasks: seq<Task>, next: int)
    requires tasks != [] && TaskIdsAscending(tasks, next)
    ensures TaskIdsAscending(tasks[1..], next)
    ensures forall t :: t in tasks[1..] ==> tasks[0].id < t.id
  {
    var rest := tasks[1..];
    forall i, j | 0 <= i < j < |rest| ensures rest[i].id < rest[j].id {
      assert rest[i] == tasks[i + 1] && rest[j] == tasks[j + 1];
    }
    forall t | t in rest ensures tasks[0].id < t.id {
      var m :| 0 <= m < |rest| && rest[m] == t;
      assert tasks[m + 1] == t;
    }
  }

  lemma TaskPrependAscending(t: Task, rows: seq<Task>, next: int)
    requires TaskIdsAscending(rows, next) && 1 <= t.id < next
    requires forall u :: u in rows ==> t.id < u.id
    ensures TaskIdsAscending([t] + rows, next)
  {
    var all := [t] + rows;
    forall i, j | 0 <= i < j < |all| ensures all[i].id < all[j].id {
      assert all[j] == rows[j - 1] && rows[j - 1] in rows;
      if i > 0 {
        assert all[i] == rows[i - 1];
      }
    }
  }

  lemma {:induction false} DeleteMissingAscending(tasks: seq<Task>, routineId: int, keep: set<int>, next: int)
    requires TaskIdsAscending(tasks, next)
    ensures TaskIdsAscending(DeleteMissing(tasks, routineId, keep), next)
  {
    if tasks != [] {
      TaskTailAscending(tasks, next);
      DeleteMissingAscending(tasks[1..], routineId, keep, next);
      var r := DeleteMissing(tasks[1..], routineId, keep);
      if tasks[0].routineId != routineId || tasks[0].id in keep {
        assert DeleteMissing(tasks, routineId, keep) == [tasks[0]] + r;
        assert tasks[0] in tasks;
        TaskPrependAscending(tasks[0], r, next);
      } else {
        assert DeleteMissing(tasks, routineId, keep) == r;
      }
    }
  }

  lemma LogTailAscending(logs: seq<TaskLog>, next: int)
    requires logs != [] && LogIdsAscending(logs, next)
    ensures LogIdsAscending(logs[1..], next)
    ensures forall l :: l in logs[1..] ==> logs[0].id < l.id
  {
    var rest := logs[1..];
    forall i, j | 0 <= i < j < |rest| ensures rest[i].id < rest[j].id {
      assert rest[i] == logs[i + 1] && rest[j] == logs[j + 1];
    }
    forall l | l in rest ensures logs[0].id < l.id {
      var m :| 0 <= m < |rest| && rest[m] == l;
      assert logs[m + 1] == l;
    }
  }

  lemma LogPrependAscending(l: TaskLog, rows: seq<TaskLog>, next: int)
    requires LogIdsAscending(rows, next) && 1 <= l.id < next
    requires forall u :: u in rows ==> l.id < u.id
    ensures LogIdsAscending([l] + rows, next)
  {
    var all := [l] + rows;
    forall i, j | 0 <= i < j < |all| ensures all[i].id < all[j].id {
      assert all[j] == rows[j - 1] && rows[j - 1] in rows;
      if i > 0 {
        assert all[i] == rows[i - 1];
      }
    }
  }

  lemma {:induction false} KeepLogsAscending(logs: seq<TaskLog>, tasks: seq<Task>, next: int)
    requires LogIdsAscending(logs, next)
    ensures LogIdsAscending(KeepLogsOfTasks(logs, tasks), next)
  {
    if logs != [] {
      LogTailAscending(logs, next);
      KeepLogsAscending(logs[1..], tasks, next);
      var r := KeepLogsOfTasks(logs[1..], tasks);
      if logs[0].taskId in TaskIds(tasks) {
        assert KeepLogsOfTasks(logs, tasks) == [logs[0]] + r;
        assert logs[0] in logs;
        LogPrependAscending(logs[0], r, next);
      } else {
        assert KeepLogsOfTasks(logs, tasks) == r;
      }
    }
  }

  lemma RoutineTailAscending(routines: seq<Routine>, next: int)
    requires routines != [] && RoutineIdsAscending(routines, next)
    ensures RoutineIdsAscending(routines[1..], next)
    ensures forall r :: r in routines[1..] ==> routines[0].id < r.id
  {
    var rest := routines[1..];
    forall i, j | 0 <= i < j < |rest| ensures rest[i].id < rest[j].id {
      assert rest[i] == routines[i + 1] && rest[j] == routines[j + 1];
    }
    forall r | r in rest ensures routines[0].id < r.id {
      var m :| 0 <= m < |rest| && rest[m] == r;
      assert routines[m + 1] == r;
    }
  }

  lemma RoutinePrependAscending(r: Routine, rows: seq<Routine>, next: int)
    requires RoutineIdsAscending(rows, next) && 1 <= r.id < next
    requires forall u :: u in rows ==> r.id < u.id
    ensures RoutineIdsAscending([r] + rows, next)
  {
    var all := [r] + rows;
    forall i, j | 0 <= i < j < |all| ensures all[i].id < all[j].id {
      assert all[j] == rows[j - 1] && rows[j - 1] in rows;
      if i > 0 {
        assert all[i] == rows[i - 1];
      }
    }
  }

  lemma {:induction false} RemoveRoutineAscending(routines: seq<Routine>, id: int, next: int)
    requires RoutineIdsAscending(routines, next)
    ensures RoutineIdsAscending(RemoveRoutine(routines, id), next)
  {
    if routines != [] {
      RoutineTailAscending(routines, next);
      RemoveRoutineAscending(routines[1..], id, next);
      var r := RemoveRoutine(routines[1..], id);
      if routines[0].id != id {
        assert RemoveRoutine(routines, id) == [routines[0]] + r;
        assert routines[0] in routines;
        RoutinePrependAscending(routines[0], r, next);
      } else {
        assert RemoveRoutine(routines, id) == r;
      }
    }
  }

  // ---------------------------------------------------------------------------
  // createRoutine
  // ---------------------------------------------------------------------------

  /**
   * Insert a routine with its nested tasks. A body without a task list
   * makes the source's `tasks.map` throw; the error is swallowed and there
   * is no result.
   */
  method CreateRoutine(db: Db, input: CreateRoutineInput) returns (created: Option<Routine>)
    requires db.Valid()
    modifies db
    ensures db.Valid()
    ensures created.None? <==> input.tasks.None?
    ensures created.None? ==>
              db.routines == old(db.routines) && db.tasks == old(db.tasks) && db.logs == old(db.logs) &&
              db.nextRoutineId == old(db.nextRoutineId) && db.nextTaskId == old(db.nextTaskId)
    ensures created.Some? ==>
              created.value == Routine(old(db.nextRoutineId), input.userId, input.title, input.description,
                                       input.startDate, input.durationDays) &&
              db.routines == old(db.routines) + [created.value] &&
              db.tasks == old(db.tasks) + NewTasks(input.tasks.value, created.value.id, old(db.nextTaskId)) &&
              db.nextRoutineId == old(db.nextRoutineId) + 1 &&
              db.nextTaskId == old(db.nextTaskId) + |input.tasks.value|
    ensures created.Some? ==> TasksOf(db.tasks, created.value.id) == NewTasks(input.tasks.value, created.value.id, old(db.nextTaskId))
    ensures db.logs == old(db.logs) && db.nextLogId == old(db.nextLogId)
  {
    if input.tasks.None? {
      return None;
    }
    var inputs := input.tasks.value;
    var row := Routine(db.nextRoutineId, input.userId, input.title, input.description, input.startDate, input.durationDays);
    CreatedRoutineOwnsItsTasks(db.routines, db.tasks, db.nextRoutineId, db.nextTaskId, inputs);
    CreateKeepsValid(db.routines, db.tasks, db.logs, row, inputs, db.nextRoutineId, db.nextTaskId);
    db.Commit(db.routines + [row], db.tasks + NewTasks(inputs, row.id, db.nextTaskId), db.logs,
              db.nextRoutineId + 1, db.nextTaskId + |inputs|);
    created := Some(row);
  }

  lemma RoutineAppendAscending(routines: seq<Routine>, row: Routine, next: int)
    requires RoutineIdsAscending(routines, next) && row.id == next
    ensures RoutineIdsAscending(routines + [row], next + 1)
    ensures RoutineIds(routines + [row]) == RoutineIds(routines) + {row.id}
  {
    var rows := routines + [row];
    assert forall i :: 0 <= i < |routines| ==> rows[i] == routines[i];
    forall i, j | 0 <= i < j < |rows| ensures rows[i].id < rows[j].id {
      assert rows[i] in routines;
    }
  }

  /** Creation keeps the store's invariant. */
  lemma CreateKeepsValid(routines: seq<Routine>, tasks: seq<Task>, logs: seq<TaskLog>, row: Routine,
                         inputs: seq<TaskInput>, nextRoutineId: int, nextTaskId: int)
    requires RoutineIdsAscending(routines, nextRoutineId) && TaskIdsAscending(tasks, nextTaskId)
    requires TasksReferenceRoutines(tasks, routines) && LogsReferenceTasks(logs, tasks)
    requires row.id == nextRoutineId
    ensures var tasks' := tasks + NewTasks(inputs, row.id, nextTaskId);
            RoutineIdsAscending(routines + [row], nextRoutineId + 1) &&
            TaskIdsAscending(tasks', nextTaskId + |inputs|) &&
            TasksReferenceRoutines(tasks', routines + [row]) && LogsReferenceTasks(logs, tasks')
  {
    RoutineAppendAscending(routines, row, nextRoutineId);
    AppendNewTasksAscending(tasks, inputs, row.id, nextTaskId);
    var tasks' := tasks + NewTasks(inputs, row.id, nextTaskId);
    forall t | t in tasks' ensures t.routineId in RoutineIds(routines + [row]) {
      if t !in tasks {
        assert t in NewTasks(inputs, row.id, nextTaskId);
      }
    }
    assert TaskIds(tasks') >= TaskIds(tasks);
  }

  /**
   * In a well-formed store, the tasks of a freshly created routine are
   * exactly its nested inputs, in order, each with its own name and order
   * and a fresh id; every other routine keeps its task list.
   */
  lemma CreatedRoutineOwnsItsTasks(routines: seq<Routine>, tasks: seq<Task>, nextRoutineId: int, nextTaskId: int,
                                   inputs: seq<TaskInput>)
    requires RoutineIdsAscending(routines, nextRoutineId) && TasksReferenceRoutines(tasks, routines)
    ensures var rows := tasks + NewTasks(inputs, nextRoutineId, nextTaskId);
            TasksOf(rows, nextRoutineId) == NewTasks(inputs, nextRoutineId, nextTaskId) &&
            (forall other :: other != nextRoutineId ==> TasksOf(rows, other) == TasksOf(tasks, other))
  {
    forall t | t in tasks ensures t.routineId != nextRoutineId {
      assert t.routineId in RoutineIds(routines);
    }
    TasksOfAbsent(tasks, nextRoutineId);
    NewTasksJoinRoutine(tasks, inputs, nextRoutineId, nextTaskId);
    forall other | other != nextRoutineId
      ensures TasksOf(tasks + NewTasks(inputs, nextRoutineId, nextTaskId), other) == TasksOf(tasks, other)
    {
      TasksOfAppend(tasks, NewTasks(inputs, nextRoutineId, nextTaskId), other);
      TasksOfAbsent(NewTasks(inputs, nextRoutineId, nextTaskId), other);
    }
  }

  // ---------------------------------------------------------------------------
  // updateRoutine
  // ---------------------------------------------------------------------------

  /** `t.id` is truthy: present and not 0. */
  predicate HasId(t: TaskInput)
  {
    t.id.Some? && t.id.value != 0
  }

  function WithIds(inputs: seq<TaskInput>): (rows: seq<TaskInput>)
    ensures forall t :: t in rows <==> t in inputs && HasId(t)
  {
    if inputs == [] then []
    else (if HasId(inputs[0]) then [inputs[0]] else []) + WithIds(inputs[1..])
  }

  function WithoutIds(inputs: seq<TaskInput>): (rows: seq<TaskInput>)
    ensures forall t :: t in rows <==> t in inputs && !HasId(t)
  {
    if inputs == [] then []
    else (if HasId(inputs[0]) then [] else [inputs[0]]) + WithoutIds(inputs[1..])
  }

  /** The ids the client kept (`activeTaskIds`). */
  function ActiveIds(inputs: seq<TaskInput>): set<int>
  {
    set t | t in inputs && HasId(t) :: t.id.value
  }

  /** The routine row after `routine.update`: only title and description, and only the given ones. */
  function UpdateRoutineRow(row: Routine, input: UpdateRoutineInput): (updated: Routine)
    ensures updated.id == row.id && updated.userId == row.userId
    ensures updated.startDate == row.startDate && updated.durationDays == row.durationDays
    ensures updated.title == (if input.title.Some? then input.title.value else row.title)
    ensures updated.description == (if input.description.Some? then input.description else row.description)
  {
    row.(title := input.title.GetOr(row.title),
         description := if input.description.Some? then input.description else row.description)
  }

  /** A row after an edit: name and order overwritten, id and routine kept. */
  function Edited(t: Task, edit: Option<TaskInput>): Task
  {
    match edit
    case None => t
    case Some(e) => t.(name := e.name, sortOrder := e.sortOrder)
  }

  /** `task.update where { id }`: edit every row with that id; no such row is an error. */
  function UpdateById(rows: seq<Task>, edit: TaskInput): (r: Option<seq<Task>>)
    ensures r.None? <==> edit.id.GetOr(0) !in TaskIds(rows)
    ensures r.Some? ==> |r.value| == |rows|
    ensures r.Some? ==>
              forall i :: 0 <= i < |rows| ==>
                r.value[i] == (if rows[i].id == edit.id.GetOr(0) then Edited(rows[i], Some(edit)) else rows[i])
  {
    var id := edit.id.GetOr(0);
    if id !in TaskIds(rows) then None
    else Some(seq(|rows|, i requires 0 <= i < |rows| =>
      if rows[i].id == id then Edited(rows[i], Some(edit)) else rows[i]))
  }

  /** The updates of the loop, in order; the first failing one aborts the whole sequence. */
  function ApplyEdits(rows: seq<Task>, edits: seq<TaskInput>): (r: Option<seq<Task>>)
    ensures r.Some? ==> |r.value| == |rows|
    ensures r.Some? ==>
              forall i :: 0 <= i < |rows| ==> r.value[i].id == rows[i].id && r.value[i].routineId == rows[i].routineId
  {
    if edits == [] then Some(rows)
    else
      match ApplyEdits(rows, edits[..|edits| - 1])
      case None => None
      case Some(ts) => UpdateById(ts, edits[|edits| - 1])
  }

  /** The last edit naming `id`, the one whose values survive. */
  function LastEdit(edits: seq<TaskInput>, id: int): (e: Option<TaskInput>)
    ensures e.Some? ==> e.value in edits && e.value.id.GetOr(0) == id
    ensures e.None? <==> forall k :: 0 <= k < |edits| ==> edits[k].id.GetOr(0) != id
  {
    if edits == [] then None
    else if edits[|edits| - 1].id.GetOr(0) == id then Some(edits[|edits| - 1])
    else LastEdit(edits[..|edits| - 1], id)
  }

  lemma SameIdsSameTaskIds(a: seq<Task>, b: seq<Task>)
    requires |a| == |b| && forall i :: 0 <= i < |a| ==> a[i].id == b[i].id
    ensures TaskIds(a) == TaskIds(b)
  {
    forall x | x in TaskIds(a) ensures x in TaskIds(b) {
      var t :| t in a && t.id == x;
      var m :| 0 <= m < |a| && a[m] == t;
      assert b[m] in b;
    }
    forall x | x in TaskIds(b) ensures x in TaskIds(a) {
      var t :| t in b && t.id == x;
      var m :| 0 <= m < |b| && b[m] == t;
      assert a[m] in a;
    }
  }

  /**
   * The update loop fails iff some edit names an id that is not in the
   * table; otherwise every row keeps its id and routine, and a row named by
   * some edit carries the name and order of the last such edit. The update
   * is keyed by id alone: a row of another routine is overwritten too.
   */
  lemma {:induction false} ApplyEditsEffect(rows: seq<Task>, edits: seq<TaskInput>)
    ensures ApplyEdits(rows, edits).None? <==> exists e :: e in edits && e.id.GetOr(0) !in TaskIds(rows)
    ensures ApplyEdits(rows, edits).Some? ==>
              var ts := ApplyEdits(rows, edits).value;
              |ts| == |rows| &&
              forall i :: 0 <= i < |rows| ==> ts[i] == Edited(rows[i], LastEdit(edits, rows[i].id))
  {
    if edits != [] {
      var prefix := edits[..|edits| - 1];
      var last := edits[|edits| - 1];
      assert edits == prefix + [last];
      ApplyEditsEffect(rows, prefix);
      match ApplyEdits(rows, prefix)
      case None =>
        var e :| e in prefix && e.id.GetOr(0) !in TaskIds(rows);
        assert e in edits;
      case Some(ts) =>
        SameIdsSameTaskIds(ts, rows);
        if last.id.GetOr(0) in TaskIds(rows) {
          forall e | e in edits ensures e.id.GetOr(0) in TaskIds(rows) {
            if e != last {
              assert e in prefix;
            }
          }
        }
    }
  }

  lemma {:induction false} ApplyEditsPrefixFails(rows: seq<Task>, edits: seq<TaskInput>, i: nat)
    requires i <= |edits| && ApplyEdits(rows, edits[..i]).None?
    ensures ApplyEdits(rows, edits).None?
    decreases |edits| - i
  {
    if i < |edits| {
      assert edits[..i + 1][..i] == edits[..i];
      ApplyEditsPrefixFails(rows, edits, i + 1);
    } else {
      assert edits[..i] == edits;
    }
  }

  /**
   * The task table after the reconciliation of routine `routineId`:
   * the tasks missing from the input deleted, the ones with ids edited,
   * the ones without ids appended; `None` when an edit names an unknown id.
   */
  function ReconciledTasks(tasks: seq<Task>, routineId: int, inputs: seq<TaskInput>, nextTaskId: int)
    : (r: Option<seq<Task>>)
    ensures r.Some? ==>
              var kept := DeleteMissing(tasks, routineId, ActiveIds(WithIds(inputs)));
              |r.value| == |kept| + |WithoutIds(inputs)| &&
              (forall i :: 0 <= i < |kept| ==> r.value[i].id == kept[i].id && r.value[i].routineId == kept[i].routineId) &&
              (forall i :: |kept| <= i < |r.value| ==> r.value[i].routineId == routineId)
  {
    var kept := DeleteMissing(tasks, routineId, ActiveIds(WithIds(inputs)));
    match ApplyEdits(kept, WithIds(inputs))
    case None => None
    case Some(ts) => Some(ts + NewTasks(WithoutIds(inputs), routineId, nextTaskId))
  }

  /** Reconciliation fails exactly when an input id names no task that survived the delete step. */
  lemma ReconcileFailsOnUnknownId(tasks: seq<Task>, routineId: int, inputs: seq<TaskInput>, nextTaskId: int)
    ensures var kept := DeleteMissing(tasks, routineId, ActiveIds(WithIds(inputs)));
            ReconciledTasks(tasks, routineId, inputs, nextTaskId).None? <==>
              exists e :: e in inputs && HasId(e) && e.id.value !in TaskIds(kept)
  {
    var kept := DeleteMissing(tasks, routineId, ActiveIds(WithIds(inputs)));
    ApplyEditsEffect(kept, WithIds(inputs));
    if exists e :: e in WithIds(inputs) && e.id.GetOr(0) !in TaskIds(kept) {
      var e :| e in WithIds(inputs) && e.id.GetOr(0) !in TaskIds(kept);
      assert e in inputs && HasId(e);
    }
    if exists e :: e in inputs && HasId(e) && e.id.value !in TaskIds(kept) {
      var e :| e in inputs && HasId(e) && e.id.value !in TaskIds(kept);
      assert e in WithIds(inputs);
    }
  }

  /**
   * Reconciliation deletes exactly the tasks of this routine whose id the
   * client dropped and keeps every task of another routine.
   */
  lemma ReconcileDeletesMissing(tasks: seq<Task>, routineId: int, inputs: seq<TaskInput>, nextTaskId: int)
    requires TaskIdsAscending(tasks, nextTaskId)
    ensures var r := ReconciledTasks(tasks, routineId, inputs, nextTaskId);
            r.Some? ==>
              (forall t :: t in tasks && t.routineId == routineId ==>
                 (t.id in TaskIds(r.value) <==> t.id in ActiveIds(inputs))) &&
              (forall t :: t in tasks && t.routineId != routineId ==> t.id in TaskIds(r.value))
  {
    var active := ActiveIds(WithIds(inputs));
    assert active == ActiveIds(inputs);
    var kept := DeleteMissing(tasks, routineId, active);
    var r := ReconciledTasks(tasks, routineId, inputs, nextTaskId);
    if r.Some? {
      ApplyEditsEffect(kept, WithIds(inputs));
      var ts := ApplyEdits(kept, WithIds(inputs)).value;
      var added := NewTasks(WithoutIds(inputs), routineId, nextTaskId);
      assert r.value == ts + added;
      SameIdsSameTaskIds(ts, kept);
      assert TaskIds(ts + added) == TaskIds(ts) + TaskIds(added);
      forall t | t in tasks && t.routineId == routineId
        ensures t.id in TaskIds(r.value) <==> t.id in active
      {
        TaskIdsOfNewTasks(WithoutIds(inputs), routineId, nextTaskId, t.id);
        if t.id in TaskIds(kept) {
          var u :| u in kept && u.id == t.id;
          TaskIdDeterminesRow(tasks, nextTaskId, u, t);
        }
      }
      forall t | t in tasks && t.routineId != routineId ensures t.id in TaskIds(r.value) {
        assert t in kept;
      }
    }
  }

  lemma TaskIdDeterminesRow(tasks: seq<Task>, next: int, u: Task, t: Task)
    requires TaskIdsAscending(tasks, next) && u in tasks && t in tasks && u.id == t.id
    ensures u == t
  {
    var a :| 0 <= a < |tasks| && tasks[a] == t;
    var b :| 0 <= b < |tasks| && tasks[b] == u;
    assert a == b;
  }

  /**
   * On success the surviving tasks come first, each edited by the last
   * input naming it, followed by one new task of this routine per input
   * without id; with no such input nothing is created.
   */
  lemma ReconcileEditsAndAppends(tasks: seq<Task>, routineId: int, inputs: seq<TaskInput>, nextTaskId: int)
    requires ReconciledTasks(tasks, routineId, inputs, nextTaskId).Some?
    ensures var kept := DeleteMissing(tasks, routineId, ActiveIds(WithIds(inputs)));
            var r := ReconciledTasks(tasks, routineId, inputs, nextTaskId).value;
            |r| == |kept| + |WithoutIds(inputs)| &&
            (forall i :: 0 <= i < |kept| ==> r[i] == Edited(kept[i], LastEdit(WithIds(inputs), kept[i].id))) &&
            r[|kept|..] == NewTasks(WithoutIds(inputs), routineId, nextTaskId) &&
            TasksOf(r[|kept|..], routineId) == r[|kept|..]
    ensures (forall t :: t in inputs ==> HasId(t)) ==>
              |ReconciledTasks(tasks, routineId, inputs, nextTaskId).value|
              == |DeleteMissing(tasks, routineId, ActiveIds(WithIds(inputs)))|
  {
    var kept := DeleteMissing(tasks, routineId, ActiveIds(WithIds(inputs)));
    ApplyEditsEffect(kept, WithIds(inputs));
    var ts := ApplyEdits(kept, WithIds(inputs)).value;
    var added := NewTasks(WithoutIds(inputs), routineId, nextTaskId);
    assert (ts + added)[|kept|..] == added;
    TasksOfAll(added, routineId);
    if forall t :: t in inputs ==> HasId(t) {
      if |WithoutIds(inputs)| > 0 {
        assert WithoutIds(inputs)[0] in WithoutIds(inputs);
      }
    }
  }

  lemma ApplyEditsAscending(rows: seq<Task>, edits: seq<TaskInput>, next: int)
    requires TaskIdsAscending(rows, next) && ApplyEdits(rows, edits).Some?
    ensures var ts := ApplyEdits(rows, edits).value;
            TaskIdsAscending(ts, next) && TaskIds(ts) == TaskIds(rows) &&
            forall t :: t in ts ==> exists u :: u in rows && u.routineId == t.routineId
  {
    ApplyEditsEffect(rows, edits);
    var ts := ApplyEdits(rows, edits).value;
    SameIdsSameTaskIds(ts, rows);
    forall t | t in ts ensures 1 <= t.id < next && exists u :: u in rows && u.routineId == t.routineId {
      var m :| 0 <= m < |ts| && ts[m] == t;
      assert rows[m] in rows;
    }
  }

  lemma RoutineUpdateKeepsIds(routines: seq<Routine>, k: nat, row: Routine, next: int)
    requires k < |routines| && row.id == routines[k].id && RoutineIdsAscending(routines, next)
    ensures RoutineIdsAscending(routines[k := row], next)
    ensures RoutineIds(routines[k := row]) == RoutineIds(routines)
  {
    var rows := routines[k := row];
    assert forall i :: 0 <= i < |routines| ==> rows[i].id == routines[i].id;
    forall x | x in RoutineIds(routines) ensures x in RoutineIds(rows) {
      var r :| r in routines && r.id == x;
      var m :| 0 <= m < |routines| && routines[m] == r;
      assert rows[m] in rows;
    }
    forall r | r in rows ensures 1 <= r.id < next {
      var m :| 0 <= m < |rows| && rows[m] == r;
      assert routines[m] in routines;
    }
  }

  /** The reconciled task and log tables still satisfy the store's invariant. */
  lemma ReconcileKeepsValid(routines: seq<Routine>, routineId: int, tasks: seq<Task>, logs: seq<TaskLog>,
                            inputs: seq<TaskInput>, nextTaskId: int, nextLogId: int)
    requires routineId in RoutineIds(routines)
    requires TaskIdsAscending(tasks, nextTaskId) && LogIdsAscending(logs, nextLogId)
    requires TasksReferenceRoutines(tasks, routines)
    requires ReconciledTasks(tasks, routineId, inputs, nextTaskId).Some?
    ensures var kept := DeleteMissing(tasks, routineId, ActiveIds(WithIds(inputs)));
            var tasks' := ReconciledTasks(tasks, routineId, inputs, nextTaskId).value;
            var logs' := KeepLogsOfTasks(logs, kept);
            TaskIdsAscending(tasks', nextTaskId + |WithoutIds(inputs)|) &&
            LogIdsAscending(logs', nextLogId) &&
            TasksReferenceRoutines(tasks', routines) && LogsReferenceTasks(logs', tasks')
  {
    var kept := DeleteMissing(tasks, routineId, ActiveIds(WithIds(inputs)));
    DeleteMissingAscending(tasks, routineId, ActiveIds(WithIds(inputs)), nextTaskId);
    ApplyEditsAscending(kept, WithIds(inputs), nextTaskId);
    var ts := ApplyEdits(kept, WithIds(inputs)).value;
    var added := NewTasks(WithoutIds(inputs), routineId, nextTaskId);
    AppendNewTasksAscending(ts, WithoutIds(inputs), routineId, nextTaskId);
    var tasks': seq<Task> := ts + added;
    forall t: Task | t in tasks' ensures t.routineId in RoutineIds(routines) {
      if t in ts {
        var u :| u in kept && u.routineId == t.routineId;
      } else {
        assert t in added;
      }
    }
    KeepLogsAscending(logs, kept, nextLogId);
    assert TaskIds(tasks') >= TaskIds(ts);
  }

  /**
   * The `for` loop of updates: one `task.update` per input with an id, in
   * input order; the first update naming a missing id throws and ends the loop.
   */
  method UpdateEach(rows: seq<Task>, edits: seq<TaskInput>) returns (result: Option<seq<Task>>)
    ensures result == ApplyEdits(rows, edits)
  {
    var current := rows;
    var i := 0;
    while i < |edits|
      invariant 0 <= i <= |edits|
      invariant ApplyEdits(rows, edits[..i]) == Some(current)
    {
      assert edits[..i + 1][..i] == edits[..i];
      var updated := UpdateById(current, edits[i]);
      if updated.None? {
        ApplyEditsPrefixFails(rows, edits, i + 1);
        return None;
      }
      current := updated.value;
      i := i + 1;
    }
    assert edits[..i] == edits;
    return Some(current);
  }

  /**
   * The transactional update of routine `id` (the source's `Number(id)`;
   * `None` when it is not a number). Everything happens on a working copy
   * that is committed only at the end: a missing routine of user 1, a body
   * without a task list, or an edit naming an unknown task aborts the
   * transaction and leaves the store as it was.
   */
  method UpdateRoutine(db: Db, id: Option<int>, input: UpdateRoutineInput) returns (result: Option<UpdateResult>)
    requires db.Valid()
    modifies db
    ensures db.Valid()
    ensures result.Some? ==> result.value.sucess
    ensures result.None? <==>
              id.None? || FirstRoutine(old(db.routines), id.value, RepositoryUserId).None? ||
              input.tasks.None? || ReconciledTasks(old(db.tasks), id.value, input.tasks.value, old(db.nextTaskId)).None?
    ensures result.None? ==>
              db.routines == old(db.routines) && db.tasks == old(db.tasks) && db.logs == old(db.logs) &&
              db.nextTaskId == old(db.nextTaskId)
    ensures result.Some? ==>
              var k := FirstRoutine(old(db.routines), id.value, RepositoryUserId).value;
              var inputs := input.tasks.value;
              db.routines == old(db.routines)[k := UpdateRoutineRow(old(db.routines)[k], input)] &&
              db.tasks == ReconciledTasks(old(db.tasks), id.value, inputs, old(db.nextTaskId)).value &&
              db.logs == KeepLogsOfTasks(old(db.logs), DeleteMissing(old(db.tasks), id.value, ActiveIds(inputs))) &&
              db.nextTaskId == old(db.nextTaskId) + |WithoutIds(inputs)|
    ensures db.nextRoutineId == old(db.nextRoutineId) && db.nextLogId == old(db.nextLogId)
  {
    if id.None? {
      return None;
    }
    var rid := id.value;
    var found := FirstRoutine(db.routines, rid, RepositoryUserId);
    if found.None? {
      return None;
    }
    if input.tasks.None? {
      return None;
    }
    var k := found.value;
    var inputs := input.tasks.value;
    var withIds := WithIds(inputs);
    var withoutIds := WithoutIds(inputs);
    assert ActiveIds(withIds) == ActiveIds(inputs);
    var routines := db.routines[k := UpdateRoutineRow(db.routines[k], input)];
    var kept := DeleteMissing(db.tasks, rid, ActiveIds(withIds));
    var logs := KeepLogsOfTasks(db.logs, kept);
    var edited := UpdateEach(kept, withIds);
    if edited.None? {
      return None;
    }
    var rows := edited.value;
    var tasks := rows + NewTasks(withoutIds, rid, db.nextTaskId);
    assert ReconciledTasks(db.tasks, rid, inputs, db.nextTaskId) == Some(tasks);
    assert db.routines[k] in db.routines;
    RoutineUpdateKeepsIds(db.routines, k, UpdateRoutineRow(db.routines[k], input), db.nextRoutineId);
    assert TasksReferenceRoutines(db.tasks, routines);
    ReconcileKeepsValid(routines, rid, db.tasks, db.logs, inputs, db.nextTaskId, db.nextLogId);
    // the conjuncts of Valid() for the tables about to be committed
    assert RoutineIdsAscending(routines, db.nextRoutineId);
    assert TaskIdsAscending(tasks, db.nextTaskId + |withoutIds|);
    assert LogIdsAscending(logs, db.nextLogId);
    assert TasksReferenceRoutines(tasks, routines);
    assert LogsReferenceTasks(logs, tasks);
    db.Commit(routines, tasks, logs, db.nextRoutineId, db.nextTaskId + |withoutIds|);
    result := Some(UpdateResult(true));
  }

  // ---------------------------------------------------------------------------
  // deleteRoutine
  // ---------------------------------------------------------------------------

  lemma {:induction false} DeleteMissingOtherRoutine(tasks: seq<Task>, routineId: int, keep: set<int>, other: int)
    requires other != routineId
    ensures TasksOf(DeleteMissing(tasks, routineId, keep), other) == TasksOf(tasks, other)
  {
    if tasks != [] {
      DeleteMissingOtherRoutine(tasks[1..], routineId, keep, other);
      var head := if tasks[0].routineId != routineId || tasks[0].id in keep then [tasks[0]] else [];
      TasksOfAppend(head, DeleteMissing(tasks[1..], routineId, keep), other);
      if head == [] {
        assert TasksOf(head, other) == [];
      } else {
        assert TasksOf(head, other) == TasksOf([tasks[0]], other);
        assert [tasks[0]][1..] == [];
      }
    }
  }

  lemma {:induction false} KeepLogsOfSurvivor(logs: seq<TaskLog>, tasks: seq<Task>, taskId: int)
    requires taskId in TaskIds(tasks)
    ensures LogsOf(KeepLogsOfTasks(logs, tasks), taskId) == LogsOf(logs, taskId)
  {
    if logs != [] {
      KeepLogsOfSurvivor(logs[1..], tasks, taskId);
      var head := if logs[0].taskId in TaskIds(tasks) then [logs[0]] else [];
      LogsOfAppend(head, KeepLogsOfTasks(logs[1..], tasks), taskId);
      assert [logs[0]][1..] == [];
    }
  }

  lemma {:induction false} LogsOfAppend(a: seq<TaskLog>, b: seq<TaskLog>, taskId: int)
    ensures LogsOf(a + b, taskId) == LogsOf(a, taskId) + LogsOf(b, taskId)
  {
    if a == [] {
      assert a + b == b;
    } else {
      var head := if a[0].taskId == taskId then [a[0]] else [];
      assert (a + b)[0] == a[0];
      assert (a + b)[1..] == a[1..] + b;
      assert LogsOf(a + b, taskId) == head + LogsOf(a[1..] + b, taskId);
      LogsOfAppend(a[1..], b, taskId);
      assert LogsOf(a, taskId) == head + LogsOf(a[1..], taskId);
      assert head + (LogsOf(a[1..], taskId) + LogsOf(b, taskId))
          == (head + LogsOf(a[1..], taskId)) + LogsOf(b, taskId);
    }
  }

  /**
   * The cascade of a routine delete: no task of the routine survives, no
   * log points at a removed task, every other routine keeps its task list
   * and every surviving task keeps its logs.
   */
  lemma DeleteCascade(tasks: seq<Task>, logs: seq<TaskLog>, routineId: int)
    ensures var tasks' := DeleteMissing(tasks, routineId, {});
            var logs' := KeepLogsOfTasks(logs, tasks');
            TasksOf(tasks', routineId) == [] &&
            (forall l :: l in logs' ==> l.taskId in TaskIds(tasks')) &&
            (forall other :: other != routineId ==> TasksOf(tasks', other) == TasksOf(tasks, other)) &&
            (forall taskId :: taskId in TaskIds(tasks') ==> LogsOf(logs', taskId) == LogsOf(logs, taskId))
  {
    var tasks' := DeleteMissing(tasks, routineId, {});
    TasksOfAbsent(tasks', routineId);
    forall other | other != routineId ensures TasksOf(tasks', other) == TasksOf(tasks, other) {
      DeleteMissingOtherRoutine(tasks, routineId, {}, other);
    }
    forall taskId | taskId in TaskIds(tasks')
      ensures LogsOf(KeepLogsOfTasks(logs, tasks'), taskId) == LogsOf(logs, taskId)
    {
      KeepLogsOfSurvivor(logs, tasks', taskId);
    }
  }

  /** Removing a routine, its tasks and their logs keeps the tables' invariants. */
  lemma DeleteKeepsValid(routines: seq<Routine>, tasks: seq<Task>, logs: seq<TaskLog>, rid: int,
                         nextRoutineId: int, nextTaskId: int, nextLogId: int)
    requires RoutineIdsAscending(routines, nextRoutineId) && TaskIdsAscending(tasks, nextTaskId)
    requires LogIdsAscending(logs, nextLogId) && TasksReferenceRoutines(tasks, routines)
    ensures var tasks' := DeleteMissing(tasks, rid, {});
            ValidTables(RemoveRoutine(routines, rid), tasks', KeepLogsOfTasks(logs, tasks'),
                        nextRoutineId, nextTaskId, nextLogId)
  {
    var routines' := RemoveRoutine(routines, rid);
    var tasks' := DeleteMissing(tasks, rid, {});
    RemoveRoutineAscending(routines, rid, nextRoutineId);
    DeleteMissingAscending(tasks, rid, {}, nextTaskId);
    KeepLogsAscending(logs, tasks', nextLogId);
    forall t | t in tasks' ensures t.routineId in RoutineIds(routines') {
      var r :| r in routines && r.id == t.routineId;
      assert r in routines';
    }
  }

  /**
   * Delete routine `routineId` (`None` when the path id is not a number)
   * after checking that user 1 owns it; the routine's tasks and their logs
   * go with it. A failed check reports `success: false` and changes nothing.
   */
  method DeleteRoutine(db: Db, routineId: Option<int>) returns (result: DeleteResult)
    requires db.Valid()
    modifies db
    ensures db.Valid()
    ensures result.success <==>
              routineId.Some? && FirstRoutine(old(db.routines), routineId.value, RepositoryUserId).Some?
    ensures !result.success ==>
              db.routines == old(db.routines) && db.tasks == old(db.tasks) && db.logs == old(db.logs)
    ensures result.success ==>
              db.routines == RemoveRoutine(old(db.routines), routineId.value) &&
              db.tasks == DeleteMissing(old(db.tasks), routineId.value, {}) &&
              db.logs == KeepLogsOfTasks(old(db.logs), db.tasks)
    ensures db.nextRoutineId == old(db.nextRoutineId) && db.nextTaskId == old(db.nextTaskId)
    ensures db.nextLogId == old(db.nextLogId)
  {
    if routineId.None? {
      return DeleteResult(false);
    }
    var rid := routineId.value;
    if FirstRoutine(db.routines, rid, RepositoryUserId).None? {
      return DeleteResult(false);
    }
    var routines := RemoveRoutine(db.routines, rid);
    var tasks := DeleteMissing(db.tasks, rid, {});
    var logs := KeepLogsOfTasks(db.logs, tasks);
    DeleteKeepsValid(db.routines, db.tasks, db.logs, rid, db.nextRoutineId, db.nextTaskId, db.nextLogId);
    db.Commit(routines, tasks, logs, db.nextRoutineId, db.nextTaskId);
    result := DeleteResult(true);
  }
}
