/**
 * `toggleTaskLog` of src/data/tasks.ts: look up the log of a task on a day;
 * delete that row if there is one, otherwise insert one. Each
 * (task, day) pair is a two-state switch.
 */
module TaskRepository {
  import opened Wrappers
  import opened Store
  import RoutineRepository
  import Progress

  const CheckedMessage := "체크 완료되었습니다."
  const UncheckedMessage := "체크 해제되었습니다."

  datatype ToggleResult = ToggleResult(isCompleted: bool, message: string)

  predicate IsLogOf(l: TaskLog, taskId: int, date: int)
  {
    l.taskId == taskId && l.completedDate == date
  }

  /** Number of log rows for the pair (task, day). */
  function PairCount(logs: seq<TaskLog>, taskId: int, date: int): nat
  {
    if logs == [] then 0
    else (if IsLogOf(logs[0], taskId, date) then 1 else 0) + PairCount(logs[1..], taskId, date)
  }

  /** The task is marked done on that day. */
  predicate HasLog(logs: seq<TaskLog>, taskId: int, date: int)
  {
    PairCount(logs, taskId, date) > 0
  }

  /** Counting the pair's rows agrees with looking for one: the view the daily grid uses. */
  lemma {:induction false} HasLogIsLogged(logs: seq<TaskLog>, taskId: int, date: int)
    ensures HasLog(logs, taskId, date) <==> Logged(logs, taskId, date)
  {
    if logs != [] {
      HasLogIsLogged(logs[1..], taskId, date);
      if Logged(logs, taskId, date) && !IsLogOf(logs[0], taskId, date) {
        var l :| l in logs && l.taskId == taskId && l.completedDate == date;
        assert l in logs[1..];
      }
      if Logged(logs[1..], taskId, date) {
        var l :| l in logs[1..] && l.taskId == taskId && l.completedDate == date;
        assert l in logs;
      }
    }
  }

  /** At most one log per (task, day): the table invariant toggling is meant to keep. */
  ghost predicate UniquePairs(logs: seq<TaskLog>)
  {
    forall taskId, date :: PairCount(logs, taskId, date) <= 1
  }

  /** `findFirst` on (task, day): index of the first matching row. */
  function FindLog(logs: seq<TaskLog>, taskId: int, date: int): (k: Option<nat>)
    ensures k.Some? ==> k.value < |logs| && IsLogOf(logs[k.value], taskId, date)
    ensures k.Some? ==> forall i :: 0 <= i < k.value ==> !IsLogOf(logs[i], taskId, date)
    ensures k.None? <==> !HasLog(logs, taskId, date)
  {
    if logs == [] then None
    else if IsLogOf(logs[0], taskId, date) then Some(0)
    else
      match FindLog(logs[1..], taskId, date)
      case None => None
      case Some(k) => Some(k + 1)
  }

  /** `delete where id`: every row but the one with that id. */
  function DeleteLogById(logs: seq<TaskLog>, id: int): (rows: seq<TaskLog>)
    ensures forall l :: l in rows <==> l in logs && l.id != id
  {
    if logs == [] then []
    else (if logs[0].id == id then [] else [logs[0]]) + DeleteLogById(logs[1..], id)
  }

  /** The log table after a successful toggle of (task, day); `newId` is the id an insert gets. */
  function ToggleRows(logs: seq<TaskLog>, taskId: int, date: int, newId: int): (rows: seq<TaskLog>)
    ensures forall l :: l in rows ==> l in logs || l == TaskLog(newId, taskId, date)
    ensures HasLog(logs, taskId, date) ==> forall l :: l in rows ==> l in logs
    ensures !HasLog(logs, taskId, date) ==>
              TaskLog(newId, taskId, date) in rows && forall l :: l in logs ==> l in rows
  {
    match FindLog(logs, taskId, date)
    case Some(k) => DeleteLogById(logs, logs[k].id)
    case None => logs + [TaskLog(newId, taskId, date)]
  }

  // ---------------------------------------------------------------------------
  // Lemmas about the log table
  // ---------------------------------------------------------------------------

  lemma {:induction false} PairCountAppend(a: seq<TaskLog>, b: seq<TaskLog>, taskId: int, date: int)
    ensures PairCount(a + b, taskId, date) == PairCount(a, taskId, date) + PairCount(b, taskId, date)
  {
    if a == [] {
      assert a + b == b;
    } else {
      PairCountAppend(a[1..], b, taskId, date);
      assert (a + b)[1..] == a[1..] + b;
    }
  }

  lemma {:induction false} PairCountRemoveAt(logs: seq<TaskLog>, k: nat, taskId: int, date: int)
    requires k < |logs|
    ensures PairCount(logs[..k] + logs[k + 1..], taskId, date)
            == PairCount(logs, taskId, date) - (if IsLogOf(logs[k], taskId, date) then 1 else 0)
  {
    PairCountAppend(logs[..k], logs[k + 1..], taskId, date);
    PairCountAppend(logs[..k], logs[k..], taskId, date);
    assert logs[..k] + logs[k..] == logs;
    assert logs[k..] == [logs[k]] + logs[k + 1..];
    PairCountAppend([logs[k]], logs[k + 1..], taskId, date);
  }

  predicate Ascending(logs: seq<TaskLog>)
  {
    forall i, j :: 0 <= i < j < |logs| ==> logs[i].id < logs[j].id
  }

  lemma {:induction false} DeleteAbsentId(logs: seq<TaskLog>, id: int)
    requires forall l :: l in logs ==> l.id != id
    ensures DeleteLogById(logs, id) == logs
  {
    if logs != [] {
      assert logs[0] in logs;
      DeleteAbsentId(logs[1..], id);
      assert DeleteLogById(logs, id) == [logs[0]] + DeleteLogById(logs[1..], id);
      assert logs == [logs[0]] + logs[1..];
    }
  }

  lemma AscendingTail(logs: seq<TaskLog>)
    requires logs != [] && Ascending(logs)
    ensures Ascending(logs[1..])
    ensures forall l :: l in logs[1..] ==> logs[0].id < l.id
  {
    var rest := logs[1..];
    forall i, j | 0 <= i < j < |rest| ensures rest[i].id < rest[j].id {
      assert rest[i] == logs[i + 1] && rest[j] == logs[j + 1];
    }
    forall l | l in rest ensures logs[0].id < l.id {
      var m :| 0 <= m < |rest| && rest[m] == l;
      assert logs[m + 1] == l;
    }
  }

  lemma DeleteKeepsHead(logs: seq<TaskLog>, id: int)
    requires logs != [] && logs[0].id != id
    ensures DeleteLogById(logs, id) == [logs[0]] + DeleteLogById(logs[1..], id)
  {
  }

  /** Removing row `k > 0` is keeping the head and removing row `k - 1` of the tail. */
  lemma RemoveAtShift(logs: seq<TaskLog>, k: nat)
    requires 0 < k < |logs|
    ensures logs[..k] + logs[k + 1..] == [logs[0]] + (logs[1..][..k - 1] + logs[1..][k..])
  {
    assert logs[..k] == [logs[0]] + logs[1..][..k - 1];
    assert logs[k + 1..] == logs[1..][k..];
  }

  /** With unique ascending ids, deleting by the id of row `k` removes exactly row `k`. */
  lemma {:induction false} DeleteLogByIdRemovesRow(logs: seq<TaskLog>, k: nat)
    requires k < |logs| && Ascending(logs)
    ensures DeleteLogById(logs, logs[k].id) == logs[..k] + logs[k + 1..]
  {
    var id := logs[k].id;
    var rest := logs[1..];
    AscendingTail(logs);
    if k == 0 {
      DeleteAbsentId(rest, id);
      assert logs[..0] + logs[1..] == rest;
    } else {
      assert rest[k - 1] == logs[k];
      DeleteLogByIdRemovesRow(rest, k - 1);
      assert logs[k] in rest;
      DeleteKeepsHead(logs, id);
      RemoveAtShift(logs, k);
    }
  }

  lemma RemoveAtKeepsAscending(logs: seq<TaskLog>, k: nat, next: int)
    requires k < |logs| && LogIdsAscending(logs, next)
    ensures LogIdsAscending(logs[..k] + logs[k + 1..], next)
  {
    var r := logs[..k] + logs[k + 1..];
    assert forall i :: 0 <= i < |r| ==> r[i] == if i < k then logs[i] else logs[i + 1];
  }

  /** A toggle of a present pair deletes its first log row and nothing else. */
  lemma ToggleRowsDeletesFirstMatch(logs: seq<TaskLog>, taskId: int, date: int, newId: int)
    requires Ascending(logs) && HasLog(logs, taskId, date)
    ensures var k := FindLog(logs, taskId, date).value;
            ToggleRows(logs, taskId, date, newId) == logs[..k] + logs[k + 1..]
  {
    DeleteLogByIdRemovesRow(logs, FindLog(logs, taskId, date).value);
  }

  /**
   * A toggle changes the number of rows of its own pair by one (down when
   * present, up when absent) and leaves every other pair's rows alone.
   */
  lemma ToggleRowsPairCounts(logs: seq<TaskLog>, taskId: int, date: int, newId: int, t: int, d: int)
    requires Ascending(logs)
    ensures var after := PairCount(ToggleRows(logs, taskId, date, newId), t, d);
            var before := PairCount(logs, t, d);
            if t == taskId && d == date then
              (if HasLog(logs, taskId, date) then after == before - 1 else after == 1)
            else after == before
  {
    match FindLog(logs, taskId, date)
    case Some(k) =>
      ToggleRowsDeletesFirstMatch(logs, taskId, date, newId);
      PairCountRemoveAt(logs, k, t, d);
    case None =>
      PairCountAppend(logs, [TaskLog(newId, taskId, date)], t, d);
      assert [TaskLog(newId, taskId, date)][1..] == [];
  }

  /** Toggling keeps "at most one log per pair", and afterwards the pair is logged iff it was not before. */
  lemma ToggleRowsFlips(logs: seq<TaskLog>, taskId: int, date: int, newId: int)
    requires Ascending(logs)
    ensures UniquePairs(logs) ==> UniquePairs(ToggleRows(logs, taskId, date, newId))
    ensures UniquePairs(logs) ==>
              (HasLog(ToggleRows(logs, taskId, date, newId), taskId, date) <==> !HasLog(logs, taskId, date))
  {
    if UniquePairs(logs) {
      var after := ToggleRows(logs, taskId, date, newId);
      forall t, d ensures PairCount(after, t, d) <= 1 {
        ToggleRowsPairCounts(logs, taskId, date, newId, t, d);
      }
      ToggleRowsPairCounts(logs, taskId, date, newId, taskId, date);
      assert PairCount(logs, taskId, date) <= 1;
    }
  }

  lemma AppendKeepsAscending(logs: seq<TaskLog>, next: int, row: TaskLog)
    requires LogIdsAscending(logs, next) && row.id == next
    ensures LogIdsAscending(logs + [row], next + 1)
  {
    var r := logs + [row];
    assert forall i :: 0 <= i < |logs| ==> r[i] == logs[i];
  }

  lemma RaiseCounter(logs: seq<TaskLog>, next: int)
    requires LogIdsAscending(logs, next)
    ensures LogIdsAscending(logs, next + 1)
  {
  }

  lemma ToggleRowsAscending(logs: seq<TaskLog>, taskId: int, date: int, next: int)
    requires LogIdsAscending(logs, next)
    ensures LogIdsAscending(ToggleRows(logs, taskId, date, next), next + 1)
    ensures HasLog(logs, taskId, date) ==> LogIdsAscending(ToggleRows(logs, taskId, date, next), next)
  {
    match FindLog(logs, taskId, date)
    case Some(k) =>
      ToggleRowsDeletesFirstMatch(logs, taskId, date, next);
      RemoveAtKeepsAscending(logs, k, next);
      RaiseCounter(ToggleRows(logs, taskId, date, next), next);
    case None =>
      AppendKeepsAscending(logs, next, TaskLog(next, taskId, date));
  }

  /**
   * Toggling the same pair twice in a row: an absent pair comes back to
   * exactly the original table; a present pair comes back with the same
   * number of rows for every (task, day) (its row re-inserted under a new id).
   */
  lemma ToggleRowsTwice(logs: seq<TaskLog>, taskId: int, date: int, next: int, next2: int)
    requires LogIdsAscending(logs, next) && UniquePairs(logs)
    ensures var once := ToggleRows(logs, taskId, date, next);
            var twice := ToggleRows(once, taskId, date, next2);
            (!HasLog(logs, taskId, date) ==> twice == logs) &&
            (forall t, d :: PairCount(twice, t, d) == PairCount(logs, t, d))
  {
    if !HasLog(logs, taskId, date) {
      ToggleRowsTwiceAbsent(logs, taskId, date, next, next2);
    }
    ToggleRowsTwiceCounts(logs, taskId, date, next, next2);
  }

  lemma ToggleRowsTwiceAbsent(logs: seq<TaskLog>, taskId: int, date: int, next: int, next2: int)
    requires LogIdsAscending(logs, next) && !HasLog(logs, taskId, date)
    ensures ToggleRows(ToggleRows(logs, taskId, date, next), taskId, date, next2) == logs
  {
    var once := ToggleRows(logs, taskId, date, next);
    ToggleRowsAscending(logs, taskId, date, next);
    // the only row of the pair is the one just appended
    assert once == logs + [TaskLog(next, taskId, date)];
    PairCountAppend(logs, [TaskLog(next, taskId, date)], taskId, date);
    var k := FindLog(once, taskId, date).value;
    if k < |logs| {
      assert once[k] == logs[k];
      PairCountRemoveAt(logs, k, taskId, date);
    }
    assert k == |logs|;
    ToggleRowsDeletesFirstMatch(once, taskId, date, next2);
    assert once[..k] == logs;
  }

  lemma ToggleRowsTwiceCounts(logs: seq<TaskLog>, taskId: int, date: int, next: int, next2: int)
    requires LogIdsAscending(logs, next) && UniquePairs(logs)
    ensures var twice := ToggleRows(ToggleRows(logs, taskId, date, next), taskId, date, next2);
            forall t, d :: PairCount(twice, t, d) == PairCount(logs, t, d)
  {
    var once := ToggleRows(logs, taskId, date, next);
    var twice := ToggleRows(once, taskId, date, next2);
    ToggleRowsAscending(logs, taskId, date, next);
    ToggleRowsFlips(logs, taskId, date, next);
    forall t, d ensures PairCount(twice, t, d) == PairCount(logs, t, d) {
      ToggleRowsPairCounts(logs, taskId, date, next, t, d);
      ToggleRowsPairCounts(once, taskId, date, next2, t, d);
      assert PairCount(logs, taskId, date) <= 1;
    }
  }

  /** Under unique pairs, the pair has a log row after a toggle iff it had none before. */
  lemma ToggleFlipsLogged(logs: seq<TaskLog>, taskId: int, date: int, next: int)
    requires LogIdsAscending(logs, next) && UniquePairs(logs)
    ensures Logged(ToggleRows(logs, taskId, date, next), taskId, date) <==> !HasLog(logs, taskId, date)
  {
    ToggleRowsFlips(logs, taskId, date, next);
    HasLogIsLogged(ToggleRows(logs, taskId, date, next), taskId, date);
  }

  /**
   * A toggle shows in the routine detail's daily grid (the grid
   * `findRoutineById` returns is this one, over the routine's tasks): after
   * toggling task `j` on the grid's day `i`, that cell reads "completed"
   * exactly when the pair had no log before.
   */
  lemma ToggleShowsInDailyGrid(own: seq<Task>, logs: seq<TaskLog>, next: int,
                               startDate: int, durationDays: nat, i: nat, j: nat)
    requires LogIdsAscending(logs, next) && UniquePairs(logs)
    requires i < durationDays && j < |own|
    ensures RoutineRepository.GridFlag(own, ToggleRows(logs, own[j].id, startDate + i, next), startDate, durationDays, i, j)
            <==> !HasLog(logs, own[j].id, startDate + i)
  {
    ToggleFlipsLogged(logs, own[j].id, startDate + i, next);
    GridShowsFlip(own, logs, ToggleRows(logs, own[j].id, startDate + i, next), startDate, durationDays, i, j);
  }

  /** If the pair is logged after exactly when it was not before, the grid cell shows the flip. */
  lemma GridShowsFlip(own: seq<Task>, before: seq<TaskLog>, after: seq<TaskLog>,
                      startDate: int, durationDays: nat, i: nat, j: nat)
    requires i < durationDays && j < |own|
    requires Logged(after, own[j].id, startDate + i) <==> !HasLog(before, own[j].id, startDate + i)
    ensures RoutineRepository.GridFlag(own, after, startDate, durationDays, i, j)
            <==> !HasLog(before, own[j].id, startDate + i)
  {
    RoutineRepository.GridFlagIsLogRow(own, after, startDate, durationDays, i, j);
  }

  // ---------------------------------------------------------------------------
  // From the table invariant to the progress engine's precondition
  // ---------------------------------------------------------------------------

  lemma {:induction false} PairCountAtIndex(logs: seq<TaskLog>, i: nat, taskId: int, date: int)
    requires i < |logs| && IsLogOf(logs[i], taskId, date)
    ensures PairCount(logs, taskId, date) >= 1
  {
    if i > 0 {
      PairCountAtIndex(logs[1..], i - 1, taskId, date);
    }
  }

  lemma {:induction false} PairCountTwoIndices(logs: seq<TaskLog>, m: nat, n: nat, taskId: int, date: int)
    requires m < n < |logs| && IsLogOf(logs[m], taskId, date) && IsLogOf(logs[n], taskId, date)
    ensures PairCount(logs, taskId, date) >= 2
  {
    if m == 0 {
      PairCountAtIndex(logs[1..], n - 1, taskId, date);
    } else {
      PairCountTwoIndices(logs[1..], m - 1, n - 1, taskId, date);
    }
  }

  /** Selecting one task's logs keeps every row of that task's pairs. */
  lemma {:induction false} PairCountLogsOf(logs: seq<TaskLog>, taskId: int, date: int)
    ensures PairCount(LogsOf(logs, taskId), taskId, date) == PairCount(logs, taskId, date)
  {
    if logs != [] {
      PairCountLogsOf(logs[1..], taskId, date);
      var head := if logs[0].taskId == taskId then [logs[0]] else [];
      assert LogsOf(logs, taskId) == head + LogsOf(logs[1..], taskId);
      PairCountAppend(head, LogsOf(logs[1..], taskId), taskId, date);
    }
  }

  /**
   * With at most one log row per (task, day), every task of a snapshot has
   * no day twice: the condition under which the rate is a percentage.
   */
  lemma SnapshotWellFormed(tasks: seq<Task>, logs: seq<TaskLog>)
    requires UniquePairs(logs)
    ensures Progress.WellFormed(RoutineRepository.Snapshot(tasks, logs))
  {
    var snap := RoutineRepository.Snapshot(tasks, logs);
    forall j | 0 <= j < |snap| ensures Progress.NoDuplicateDays(snap[j].logs) {
      var id := tasks[j].id;
      var own := LogsOf(logs, id);
      var dates := snap[j].logs;
      assert dates == RoutineRepository.LogDates(own);
      forall m, n | 0 <= m < n < |dates| ensures dates[m] != dates[n] {
        if dates[m] == dates[n] {
          assert own[m] in own && own[n] in own;
          PairCountTwoIndices(own, m, n, id, dates[m]);
          PairCountLogsOf(logs, id, dates[m]);
          assert false;
        }
      }
    }
  }

  /**
   * The routine a detail query returns, over a log table with at most one
   * row per (task, day), has a completion rate between 0 and 100.
   */
  lemma DetailRateIsPercentage(routines: seq<Routine>, tasks: seq<Task>, logs: seq<TaskLog>, routineId: int)
    requires UniquePairs(logs)
    requires RoutineRepository.FindRoutineById(routines, tasks, logs, routineId).Some?
    ensures var v := RoutineRepository.FindRoutineById(routines, tasks, logs, routineId).value;
            var snap := RoutineRepository.Snapshot(TasksOf(tasks, routineId), logs);
            0 <= Progress.Rate(Progress.RoutineSnapshot(v.startDate, v.durationDays, snap)) <= 100
  {
    var v := RoutineRepository.FindRoutineById(routines, tasks, logs, routineId).value;
    var snap := RoutineRepository.Snapshot(TasksOf(tasks, routineId), logs);
    SnapshotWellFormed(TasksOf(tasks, routineId), logs);
    Progress.RateIsPercentage(Progress.RoutineSnapshot(v.startDate, v.durationDays, snap));
  }

  // ---------------------------------------------------------------------------
  // The repository operation
  // ---------------------------------------------------------------------------

  /**
   * Toggle the log of `taskId` on `date`. `storeFails` stands for any store
   * error (including an unparsable date): it is swallowed and the call
   * yields no result. Inserting a log for a task that does not exist
   * violates the task foreign key and fails the same way.
   */
  method ToggleTaskLog(db: Db, taskId: int, date: int, storeFails: bool) returns (result: Option<ToggleResult>)
    requires db.Valid()
    modifies db
    ensures db.Valid()
    ensures db.routines == old(db.routines) && db.tasks == old(db.tasks)
    ensures db.nextRoutineId == old(db.nextRoutineId) && db.nextTaskId == old(db.nextTaskId)
    ensures result.None? <==>
              storeFails || (!HasLog(old(db.logs), taskId, date) && taskId !in TaskIds(db.tasks))
    ensures result.None? ==> db.logs == old(db.logs)
    ensures db.nextLogId == old(db.nextLogId) + (if result.Some? && result.value.isCompleted then 1 else 0)
    ensures result.Some? ==> db.logs == ToggleRows(old(db.logs), taskId, date, old(db.nextLogId))
    ensures result.Some? ==>
              result.value.isCompleted == !HasLog(old(db.logs), taskId, date) &&
              result.value.message == (if result.value.isCompleted then CheckedMessage else UncheckedMessage)
    ensures old(UniquePairs(db.logs)) ==> UniquePairs(db.logs)
    ensures old(UniquePairs(db.logs)) && result.Some? ==>
              (HasLog(db.logs, taskId, date) <==> result.value.isCompleted)
  {
    if storeFails {
      return None;
    }
    ToggleRowsAscending(db.logs, taskId, date, db.nextLogId);
    ToggleRowsFlips(db.logs, taskId, date, db.nextLogId);
    var found := FindLog(db.logs, taskId, date);
    if found.Some? {
      ToggleRowsDeletesFirstMatch(db.logs, taskId, date, db.nextLogId);
      db.logs := DeleteLogById(db.logs, db.logs[found.value].id);
      result := Some(ToggleResult(false, UncheckedMessage));
    } else if taskId !in TaskIds(db.tasks) {
      result := None;
    } else {
      db.logs := db.logs + [TaskLog(db.nextLogId, taskId, date)];
      db.nextLogId := db.nextLogId + 1;
      result := Some(ToggleResult(true, CheckedMessage));
    }
  }

  /** Two toggles of one pair report opposite states and restore every pair's row count. */
  method ToggleTwice(db: Db, taskId: int, date: int) returns (first: Option<ToggleResult>, second: Option<ToggleResult>)
    requires db.Valid() && UniquePairs(db.logs) && taskId in TaskIds(db.tasks)
    modifies db
    ensures db.Valid()
    ensures first.Some? && second.Some? && first.value.isCompleted != second.value.isCompleted
    ensures forall t, d :: PairCount(db.logs, t, d) == PairCount(old(db.logs), t, d)
    ensures !HasLog(old(db.logs), taskId, date) ==> db.logs == old(db.logs)
  {
    ghost var logs0 := db.logs;
    ghost var next0 := db.nextLogId;
    first := ToggleTaskLog(db, taskId, date, false);
    ghost var next1 := db.nextLogId;
    second := ToggleTaskLog(db, taskId, date, false);
    ToggleRowsTwice(logs0, taskId, date, next0, next1);
  }
}
