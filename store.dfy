/**
 * The routine, task and task-log tables the repository functions of
 * src/data/routines.ts and src/data/tasks.ts work on, held in memory.
 *
 * Each table is a sequence of rows in ascending id order (ids are handed out
 * by an autoincrement counter starting at 1), so "the first matching row" of
 * a query is the first one in the sequence. Tasks reference routines and logs
 * reference tasks; deleting a parent row deletes its children (the cascade the
 * repository relies on).
 */
module Store {
  import opened Wrappers

  /** The single user the repository's queries are pinned to (`user_id: 1`). */
  const RepositoryUserId := 1

  datatype Routine = Routine(
    id: int, userId: int, title: string, description: Option<string>,
    startDate: int, durationDays: nat)

  datatype Task = Task(id: int, routineId: int, name: string, sortOrder: int)

  datatype TaskLog = TaskLog(id: int, taskId: int, completedDate: int)

  function RoutineIds(rows: seq<Routine>): set<int>
  {
    set r | r in rows :: r.id
  }

  function TaskIds(rows: seq<Task>): set<int>
  {
    set t | t in rows :: t.id
  }

  predicate RoutineIdsAscending(rows: seq<Routine>, next: int)
  {
    (forall i, j :: 0 <= i < j < |rows| ==> rows[i].id < rows[j].id) &&
    (forall r :: r in rows ==> 1 <= r.id < next) && 1 <= next
  }

  predicate TaskIdsAscending(rows: seq<Task>, next: int)
  {
    (forall i, j :: 0 <= i < j < |rows| ==> rows[i].id < rows[j].id) &&
    (forall r :: r in rows ==> 1 <= r.id < next) && 1 <= next
  }

  predicate LogIdsAscending(rows: seq<TaskLog>, next: int)
  {
    (forall i, j :: 0 <= i < j < |rows| ==> rows[i].id < rows[j].id) &&
    (forall r :: r in rows ==> 1 <= r.id < next) && 1 <= next
  }

  /** Every task belongs to an existing routine. */
  predicate TasksReferenceRoutines(tasks: seq<Task>, routines: seq<Routine>)
  {
    forall t :: t in tasks ==> t.routineId in RoutineIds(routines)
  }

  /** Every log belongs to an existing task. */
  predicate LogsReferenceTasks(logs: seq<TaskLog>, tasks: seq<Task>)
  {
    forall l :: l in logs ==> l.taskId in TaskIds(tasks)
  }

  /** The log table has a row for `taskId` on `date`. */
  predicate Logged(logs: seq<TaskLog>, taskId: int, date: int)
  {
    exists l :: l in logs && l.taskId == taskId && l.completedDate == date
  }

  /** Index of the first routine with this id owned by `userId` (a `findFirst` on both columns). */
  function FirstRoutine(rows: seq<Routine>, id: int, userId: int): (k: Option<nat>)
    ensures k.Some? ==> k.value < |rows| && rows[k.value].id == id && rows[k.value].userId == userId
    ensures k.Some? ==> forall i :: 0 <= i < k.value ==> !(rows[i].id == id && rows[i].userId == userId)
    ensures k.None? <==> forall i :: 0 <= i < |rows| ==> !(rows[i].id == id && rows[i].userId == userId)
  {
    if rows == [] then None
    else if rows[0].id == id && rows[0].userId == userId then Some(0)
    else
      match FirstRoutine(rows[1..], id, userId)
      case None => None
      case Some(k) => Some(k + 1)
  }

  /** The tasks of one routine, in table order. */
  function TasksOf(tasks: seq<Task>, routineId: int): (rows: seq<Task>)
    ensures forall t :: t in rows <==> t in tasks && t.routineId == routineId
    ensures |rows| <= |tasks|
  {
    if tasks == [] then []
    else (if tasks[0].routineId == routineId then [tasks[0]] else []) + TasksOf(tasks[1..], routineId)
  }

  /** The logs of one task, in table order. */
  function LogsOf(logs: seq<TaskLog>, taskId: int): (rows: seq<TaskLog>)
    ensures forall l :: l in rows <==> l in logs && l.taskId == taskId
  {
    if logs == [] then []
    else (if logs[0].taskId == taskId then [logs[0]] else []) + LogsOf(logs[1..], taskId)
  }

  /** Ids are unique, ascending and below their counters; children reference existing parents. */
  predicate ValidTables(routines: seq<Routine>, tasks: seq<Task>, logs: seq<TaskLog>,
                        nextRoutineId: int, nextTaskId: int, nextLogId: int)
  {
    RoutineIdsAscending(routines, nextRoutineId) &&
    TaskIdsAscending(tasks, nextTaskId) &&
    LogIdsAscending(logs, nextLogId) &&
    TasksReferenceRoutines(tasks, routines) &&
    LogsReferenceTasks(logs, tasks)
  }

  class Db {
    var routines: seq<Routine>
    var tasks: seq<Task>
    var logs: seq<TaskLog>
    var nextRoutineId: int
    var nextTaskId: int
    var nextLogId: int

    /** The table invariant holds of the current tables and counters. */
    ghost predicate Valid()
      reads this
    {
      ValidTables(routines, tasks, logs, nextRoutineId, nextTaskId, nextLogId)
    }

    /** Replace the tables and the routine and task counters at once (a committed transaction). */
    method Commit(routines': seq<Routine>, tasks': seq<Task>, logs': seq<TaskLog>,
                  nextRoutineId': int, nextTaskId': int)
      requires ValidTables(routines', tasks', logs', nextRoutineId', nextTaskId', nextLogId)
      modifies this
      ensures Valid()
      ensures routines == routines' && tasks == tasks' && logs == logs'
      ensures nextRoutineId == nextRoutineId' && nextTaskId == nextTaskId' && nextLogId == old(nextLogId)
    {
      routines, tasks, logs := routines', tasks', logs';
      nextRoutineId, nextTaskId := nextRoutineId', nextTaskId';
    }

    /** An empty database. */
    constructor ()
      ensures Valid()
      ensures routines == [] && tasks == [] && logs == []
    {
      routines, tasks, logs := [], [], [];
      nextRoutineId, nextTaskId, nextLogId := 1, 1, 1;
    }
  }
}
