/**
 * The routine progress engine of src/utils/routines.ts: end date, completion
 * rate, active/completed classification, the per-day per-task grid, today's
 * counts, the overall summary and pagination, as pure functions over a
 * routine snapshot.
 *
 * Calendar days are day numbers (`Day`), so "the day after `d`" is `d + 1`.
 * The current instant ("now", in milliseconds on the same clock, so day `d`
 * begins at `DayStart(d)`) and the current day ("today") are parameters.
 */
module Progress {

  /** A calendar day as a day number. */
  type Day = int

  /** A point in time in milliseconds; midnight at the start of day `d` is `DayStart(d)`. */
  type Instant = int

  const MsPerDay: int := 86400000

  function DayStart(d: Day): Instant
  {
    d * MsPerDay
  }

  /** A task together with the days of its logs. */
  datatype TaskSnapshot = TaskSnapshot(id: int, logs: seq<Day>)

  /** The shape every calculator function consumes: start day, duration and tasks with their logs. */
  datatype RoutineSnapshot = RoutineSnapshot(startDate: Day, durationDays: nat, tasks: seq<TaskSnapshot>)

  /** At most one log per day: the table's (task, day) invariant, seen from one task. */
  predicate NoDuplicateDays(logs: seq<Day>)
  {
    forall i, j :: 0 <= i < j < |logs| ==> logs[i] != logs[j]
  }

  /** Every task of the snapshot has at most one log per day. */
  predicate WellFormed(tasks: seq<TaskSnapshot>)
  {
    forall j :: 0 <= j < |tasks| ==> NoDuplicateDays(tasks[j].logs)
  }

  // ---------------------------------------------------------------------------
  // End date and completion rate
  // ---------------------------------------------------------------------------

  /** The exclusive end of the routine's window `[startDate, end)`. */
  function CalcEndDate(startDate: Day, durationDays: nat): (end: Day)
    ensures startDate <= end
  {
    startDate + durationDays
  }

  /** Number of logs whose day lies in the half-open window `[lo, hi)`. */
  function CountInWindow(logs: seq<Day>, lo: Day, hi: Day): (n: nat)
    ensures n <= |logs|
    ensures hi <= lo ==> n == 0
  {
    if logs == [] then 0
    else (if lo <= logs[0] < hi then 1 else 0) + CountInWindow(logs[1..], lo, hi)
  }

  /** Logs of all tasks whose day lies in `[lo, hi)` (the `reduce` over tasks). */
  function CompletedSlots(tasks: seq<TaskSnapshot>, lo: Day, hi: Day): (n: nat)
    ensures hi <= lo ==> n == 0
    ensures tasks == [] ==> n == 0
  {
    if tasks == [] then 0
    else CountInWindow(tasks[0].logs, lo, hi) + CompletedSlots(tasks[1..], lo, hi)
  }

  /** `Math.round(n / d)` for `d > 0`, exactly: `floor(n / d + 1/2)`. */
  function RoundHalfUp(n: int, d: int): (q: int)
    requires d > 0
    ensures n >= 0 ==> q >= 0
  {
    (2 * n + d) / (2 * d)
  }

  /** The rounding is within half a unit of `n / d`, ties going up. */
  lemma RoundHalfUpBounds(n: int, d: int)
    requires d > 0
    ensures 2 * d * RoundHalfUp(n, d) <= 2 * n + d < 2 * d * (RoundHalfUp(n, d) + 1)
  {
    var q := RoundHalfUp(n, d);
    assert 2 * n + d == 2 * d * q + (2 * n + d) % (2 * d);
  }

  lemma MulStrictMonotone(a: int, x: int, y: int)
    requires a > 0 && a * x < a * y
    ensures x < y
  {
  }

  /** It is the only integer with that property. */
  lemma RoundHalfUpUnique(n: int, d: int, q: int)
    requires d > 0
    requires 2 * d * q <= 2 * n + d < 2 * d * (q + 1)
    ensures RoundHalfUp(n, d) == q
  {
    var r := RoundHalfUp(n, d);
    RoundHalfUpBounds(n, d);
    MulStrictMonotone(2 * d, r, q + 1);
    MulStrictMonotone(2 * d, q, r + 1);
  }

  /** Rounding `n / d` for `n <= m * d` gives at most `m`. */
  lemma RoundHalfUpAtMost(n: int, d: int, m: int)
    requires d > 0 && n <= m * d
    ensures RoundHalfUp(n, d) <= m
  {
    var q := RoundHalfUp(n, d);
    RoundHalfUpBounds(n, d);
    assert 2 * d * q < 2 * d * (m + 1);
    MulStrictMonotone(2 * d, q, m + 1);
  }

  /** Completion rate in percent: window-clipped completed slots over `durationDays * |tasks|`. */
  function CalcCompletionRate(tasks: seq<TaskSnapshot>, startDate: Day, durationDays: nat): (rate: int)
    ensures rate >= 0
    ensures durationDays == 0 || |tasks| == 0 ==> rate == 0
  {
    var totalSlots := durationDays * |tasks|;
    if totalSlots == 0 then 0
    else RoundHalfUp(100 * CompletedSlots(tasks, startDate, CalcEndDate(startDate, durationDays)), totalSlots)
  }

  /**
   * A routine counts as completed once its rate is 100 or "now" is past the
   * instant its end date denotes: midnight at the start of day `endDate`.
   * Below 100 it is active up to and including that instant, so through the
   * whole of its last day `endDate - 1`.
   */
  function CheckIsCompleted(completionRate: int, endDate: Day, now: Instant): (completed: bool)
    ensures completionRate == 100 ==> completed
    ensures now > DayStart(endDate) ==> completed
    ensures completionRate != 100 && now <= DayStart(endDate) ==> !completed
  {
    completionRate == 100 || now > DayStart(endDate)
  }

  function Rate(r: RoutineSnapshot): int
  {
    CalcCompletionRate(r.tasks, r.startDate, r.durationDays)
  }

  /**
   * The rate is `round(100 * completed / total)`, halves rounded up: within
   * half a percent of the exact ratio.
   */
  lemma RateRoundsHalfUp(r: RoutineSnapshot)
    requires r.durationDays * |r.tasks| > 0
    ensures var total := r.durationDays * |r.tasks|;
            var done := CompletedSlots(r.tasks, r.startDate, CalcEndDate(r.startDate, r.durationDays));
            2 * total * Rate(r) <= 200 * done + total < 2 * total * (Rate(r) + 1)
  {
    var total := r.durationDays * |r.tasks|;
    var done := CompletedSlots(r.tasks, r.startDate, CalcEndDate(r.startDate, r.durationDays));
    RoundHalfUpBounds(100 * done, total);
  }

  function IsCompleted(r: RoutineSnapshot, now: Instant): bool
  {
    CheckIsCompleted(Rate(r), CalcEndDate(r.startDate, r.durationDays), now)
  }

  /**
   * Read by the day "now" falls on: below 100 a routine is completed exactly
   * from the first instant after midnight of its end date on, so it is still
   * active during its whole last day and at that midnight itself.
   */
  lemma CompletedByDayOfNow(r: RoutineSnapshot, now: Instant)
    requires Rate(r) != 100
    ensures var end := CalcEndDate(r.startDate, r.durationDays);
            IsCompleted(r, now) <==> now / MsPerDay > end || (now / MsPerDay == end && now % MsPerDay > 0)
  {
    var end := CalcEndDate(r.startDate, r.durationDays);
    var day := now / MsPerDay;
    assert now == day * MsPerDay + now % MsPerDay;
    if day > end {
      assert day * MsPerDay >= (end + 1) * MsPerDay;
    } else if day < end {
      assert day * MsPerDay <= (end - 1) * MsPerDay;
    }
  }

  /** A 10-day routine from day 0 at 50%: active at 10:00 on day 9, completed at 10:00 on day 10. */
  lemma EndDayExample()
    ensures !CheckIsCompleted(50, CalcEndDate(0, 10), DayStart(9) + 10 * 3600000)
    ensures CheckIsCompleted(50, CalcEndDate(0, 10), DayStart(10) + 10 * 3600000)
    ensures !CheckIsCompleted(50, CalcEndDate(0, 10), DayStart(10))
  {
  }

  // ---------------------------------------------------------------------------
  // Counting lemmas
  // ---------------------------------------------------------------------------

  lemma {:induction false} CountInWindowAppend(a: seq<Day>, b: seq<Day>, lo: Day, hi: Day)
    ensures CountInWindow(a + b, lo, hi) == CountInWindow(a, lo, hi) + CountInWindow(b, lo, hi)
  {
    if a == [] {
      assert a + b == b;
    } else {
      CountInWindowAppend(a[1..], b, lo, hi);
      assert (a + b)[1..] == a[1..] + b;
    }
  }

  /** A log outside the window does not change the window count. */
  lemma CountInWindowIgnoresOutside(logs: seq<Day>, k: nat, x: Day, lo: Day, hi: Day)
    requires k <= |logs|
    requires !(lo <= x < hi)
    ensures CountInWindow(logs[..k] + [x] + logs[k..], lo, hi) == CountInWindow(logs, lo, hi)
  {
    CountInWindowAppend(logs[..k] + [x], logs[k..], lo, hi);
    CountInWindowAppend(logs[..k], [x], lo, hi);
    CountInWindowAppend(logs[..k], logs[k..], lo, hi);
    assert logs[..k] + logs[k..] == logs;
  }

  /** Shrinking the window by its last day removes exactly the logs of that day. */
  lemma {:induction false} CountInWindowShrink(logs: seq<Day>, lo: Day, hi: Day)
    requires lo < hi
    ensures CountInWindow(logs, lo, hi) == CountInWindow(logs, lo, hi - 1) + CountInWindow(logs, hi - 1, hi)
  {
    if logs != [] {
      CountInWindowShrink(logs[1..], lo, hi);
    }
  }

  /** Without duplicate days, a one-day window holds one log iff the day is logged. */
  lemma {:induction false} CountSingleDay(logs: seq<Day>, x: Day)
    requires NoDuplicateDays(logs)
    ensures CountInWindow(logs, x, x + 1) == if x in logs then 1 else 0
  {
    if logs != [] {
      assert NoDuplicateDays(logs[1..]) by {
        forall i, j | 0 <= i < j < |logs[1..]| ensures logs[1..][i] != logs[1..][j] {
          assert logs[1..][i] == logs[i + 1] && logs[1..][j] == logs[j + 1];
        }
      }
      CountSingleDay(logs[1..], x);
      if logs[0] == x {
        assert x !in logs[1..] by {
          forall k | 0 <= k < |logs[1..]| ensures logs[1..][k] != x {
            assert logs[1..][k] == logs[k + 1];
          }
        }
      }
      assert logs == [logs[0]] + logs[1..];
    }
  }

  /** Number of the `n` days from `lo` on which the task has a log: one column of the grid. */
  function DaysLogged(logs: seq<Day>, lo: Day, n: nat): (k: nat)
    ensures k <= n
    ensures k == n <==> forall x :: lo <= x < lo + n ==> x in logs
    ensures k == 0 <==> forall x :: lo <= x < lo + n ==> x !in logs
  {
    if n == 0 then 0
    else DaysLogged(logs, lo, n - 1) + (if lo + (n - 1) in logs then 1 else 0)
  }

  /** Without duplicate days, the window count is the number of logged days. */
  lemma {:induction false} CountInWindowIsDaysLogged(logs: seq<Day>, lo: Day, n: nat)
    requires NoDuplicateDays(logs)
    ensures CountInWindow(logs, lo, lo + n) == DaysLogged(logs, lo, n)
  {
    if n > 0 {
      CountInWindowIsDaysLogged(logs, lo, n - 1);
      CountInWindowShrink(logs, lo, lo + n);
      CountSingleDay(logs, lo + n - 1);
    }
  }

  /** Logged days summed over tasks. */
  function SlotsLogged(tasks: seq<TaskSnapshot>, lo: Day, n: nat): (k: nat)
    ensures n == 0 ==> k == 0
  {
    if tasks == [] then 0
    else DaysLogged(tasks[0].logs, lo, n) + SlotsLogged(tasks[1..], lo, n)
  }

  /** Each task has at most `n` logged days among `n`. */
  lemma {:induction false} SlotsLoggedAtMost(tasks: seq<TaskSnapshot>, lo: Day, n: nat)
    ensures SlotsLogged(tasks, lo, n) <= n * |tasks|
  {
    if tasks != [] {
      SlotsLoggedAtMost(tasks[1..], lo, n);
      assert n * |tasks| == n + n * |tasks[1..]|;
    }
  }

  lemma {:induction false} CompletedSlotsIsSlotsLogged(tasks: seq<TaskSnapshot>, lo: Day, n: nat)
    requires WellFormed(tasks)
    ensures CompletedSlots(tasks, lo, lo + n) == SlotsLogged(tasks, lo, n)
  {
    if tasks != [] {
      assert WellFormed(tasks[1..]) by {
        forall j | 0 <= j < |tasks[1..]| ensures NoDuplicateDays(tasks[1..][j].logs) {
          assert tasks[1..][j] == tasks[j + 1];
        }
      }
      CompletedSlotsIsSlotsLogged(tasks[1..], lo, n);
      CountInWindowIsDaysLogged(tasks[0].logs, lo, n);
    }
  }

  /** Every slot of the window is logged. */
  predicate AllSlotsLogged(r: RoutineSnapshot)
  {
    forall j, x :: 0 <= j < |r.tasks| && r.startDate <= x < r.startDate + r.durationDays ==> x in r.tasks[j].logs
  }

  /** No log of any task falls in the window. */
  predicate NoLogInWindow(r: RoutineSnapshot)
  {
    forall j, k :: 0 <= j < |r.tasks| && 0 <= k < |r.tasks[j].logs| ==>
      !(r.startDate <= r.tasks[j].logs[k] < CalcEndDate(r.startDate, r.durationDays))
  }

  lemma {:induction false} SlotsLoggedFull(tasks: seq<TaskSnapshot>, lo: Day, n: nat)
    requires forall j, x :: 0 <= j < |tasks| && lo <= x < lo + n ==> x in tasks[j].logs
    ensures SlotsLogged(tasks, lo, n) == n * |tasks|
  {
    if tasks != [] {
      assert forall j, x :: 0 <= j < |tasks[1..]| && lo <= x < lo + n ==> x in tasks[1..][j].logs by {
        forall j, x | 0 <= j < |tasks[1..]| && lo <= x < lo + n ensures x in tasks[1..][j].logs {
          assert tasks[1..][j] == tasks[j + 1];
        }
      }
      SlotsLoggedFull(tasks[1..], lo, n);
      assert DaysLogged(tasks[0].logs, lo, n) == n by {
        forall x | lo <= x < lo + n ensures x in tasks[0].logs {
          assert 0 <= 0 < |tasks|;
        }
      }
      assert n * |tasks| == n + n * |tasks[1..]|;
    }
  }

  lemma {:induction false} CompletedSlotsZero(tasks: seq<TaskSnapshot>, lo: Day, hi: Day)
    requires forall j, k :: 0 <= j < |tasks| && 0 <= k < |tasks[j].logs| ==> !(lo <= tasks[j].logs[k] < hi)
    ensures CompletedSlots(tasks, lo, hi) == 0
  {
    if tasks != [] {
      assert forall j, k :: 0 <= j < |tasks[1..]| && 0 <= k < |tasks[1..][j].logs| ==> !(lo <= tasks[1..][j].logs[k] < hi) by {
        forall j, k | 0 <= j < |tasks[1..]| && 0 <= k < |tasks[1..][j].logs| ensures !(lo <= tasks[1..][j].logs[k] < hi) {
          assert tasks[1..][j] == tasks[j + 1];
        }
      }
      CompletedSlotsZero(tasks[1..], lo, hi);
      CountInWindowZero(tasks[0].logs, lo, hi);
    }
  }

  lemma {:induction false} CountInWindowZero(logs: seq<Day>, lo: Day, hi: Day)
    requires forall k :: 0 <= k < |logs| ==> !(lo <= logs[k] < hi)
    ensures CountInWindow(logs, lo, hi) == 0
  {
    if logs != [] {
      assert forall k :: 0 <= k < |logs[1..]| ==> !(lo <= logs[1..][k] < hi) by {
        forall k | 0 <= k < |logs[1..]| ensures !(lo <= logs[1..][k] < hi) {
          assert logs[1..][k] == logs[k + 1];
        }
      }
      CountInWindowZero(logs[1..], lo, hi);
    }
  }

  // ---------------------------------------------------------------------------
  // Completion rate properties
  // ---------------------------------------------------------------------------

  /** With at most one log per task and day, the rate is a percentage. */
  lemma RateIsPercentage(r: RoutineSnapshot)
    requires WellFormed(r.tasks)
    ensures 0 <= Rate(r) <= 100
  {
    var total := r.durationDays * |r.tasks|;
    if total > 0 {
      CompletedSlotsIsSlotsLogged(r.tasks, r.startDate, r.durationDays);
      SlotsLoggedAtMost(r.tasks, r.startDate, r.durationDays);
      var done := CompletedSlots(r.tasks, r.startDate, CalcEndDate(r.startDate, r.durationDays));
      RoundHalfUpAtMost(100 * done, total, 100);
    }
  }

  /** A routine whose every slot is logged (once) has rate 100. */
  lemma RateFullWhenAllSlotsLogged(r: RoutineSnapshot)
    requires WellFormed(r.tasks) && AllSlotsLogged(r)
    requires r.durationDays > 0 && |r.tasks| > 0
    ensures Rate(r) == 100
  {
    var total := r.durationDays * |r.tasks|;
    CompletedSlotsIsSlotsLogged(r.tasks, r.startDate, r.durationDays);
    SlotsLoggedFull(r.tasks, r.startDate, r.durationDays);
    assert CompletedSlots(r.tasks, r.startDate, CalcEndDate(r.startDate, r.durationDays)) == total;
    assert 2 * total * 100 <= 2 * (100 * total) + total < 2 * total * 101;
    RoundHalfUpUnique(100 * total, total, 100);
  }

  /** A routine with no log inside its window has rate 0. */
  lemma RateZeroWhenNoLogInWindow(r: RoutineSnapshot)
    requires NoLogInWindow(r)
    ensures Rate(r) == 0
  {
    CompletedSlotsZero(r.tasks, r.startDate, CalcEndDate(r.startDate, r.durationDays));
    var total := r.durationDays * |r.tasks|;
    if total > 0 {
      RoundHalfUpUnique(0, total, 0);
    }
  }

  lemma {:induction false} CompletedSlotsReplace(tasks: seq<TaskSnapshot>, j: nat, t: TaskSnapshot, lo: Day, hi: Day)
    requires j < |tasks|
    requires CountInWindow(t.logs, lo, hi) == CountInWindow(tasks[j].logs, lo, hi)
    ensures CompletedSlots(tasks[j := t], lo, hi) == CompletedSlots(tasks, lo, hi)
  {
    if j > 0 {
      CompletedSlotsReplace(tasks[1..], j - 1, t, lo, hi);
      assert tasks[j := t][1..] == tasks[1..][j - 1 := t];
    }
  }

  /**
   * Inserting a log whose day lies outside the window, anywhere in any task's
   * logs, leaves the rate unchanged (read backwards: so does removing one).
   */
  lemma RateIgnoresLogOutsideWindow(r: RoutineSnapshot, j: nat, k: nat, x: Day)
    requires j < |r.tasks| && k <= |r.tasks[j].logs|
    requires !(r.startDate <= x < CalcEndDate(r.startDate, r.durationDays))
    ensures var logs := r.tasks[j].logs;
            Rate(r.(tasks := r.tasks[j := r.tasks[j].(logs := logs[..k] + [x] + logs[k..])])) == Rate(r)
  {
    var logs := r.tasks[j].logs;
    var hi := CalcEndDate(r.startDate, r.durationDays);
    CountInWindowIgnoresOutside(logs, k, x, r.startDate, hi);
    CompletedSlotsReplace(r.tasks, j, r.tasks[j].(logs := logs[..k] + [x] + logs[k..]), r.startDate, hi);
  }

  /** The worked example: 10 days, 2 tasks, 5 + 3 logged days give 40%. */
  lemma RateExample(start: Day)
    ensures var a := TaskSnapshot(1, [start, start + 1, start + 2, start + 3, start + 4]);
            var b := TaskSnapshot(2, [start, start + 1, start + 2]);
            CalcCompletionRate([a, b], start, 10) == 40
  {
    var a := TaskSnapshot(1, [start, start + 1, start + 2, start + 3, start + 4]);
    var b := TaskSnapshot(2, [start, start + 1, start + 2]);
    CountInWindowAllInside(a.logs, start, start + 10);
    CountInWindowAllInside(b.logs, start, start + 10);
    assert [a, b][1..] == [b];
    assert [b][1..] == [];
    assert CompletedSlots([b], start, start + 10) == 3;
    assert CompletedSlots([a, b], start, start + 10) == 8;
    RoundHalfUpUnique(800, 20, 40);
  }

  lemma {:induction false} CountInWindowAllInside(logs: seq<Day>, lo: Day, hi: Day)
    requires forall k :: 0 <= k < |logs| ==> lo <= logs[k] < hi
    ensures CountInWindow(logs, lo, hi) == |logs|
  {
    if logs != [] {
      assert forall k :: 0 <= k < |logs[1..]| ==> lo <= logs[1..][k] < hi by {
        forall k | 0 <= k < |logs[1..]| ensures lo <= logs[1..][k] < hi {
          assert logs[1..][k] == logs[k + 1];
        }
      }
      CountInWindowAllInside(logs[1..], lo, hi);
    }
  }

  // ---------------------------------------------------------------------------
  // Completed classification
  // ---------------------------------------------------------------------------

  /** Every slot logged means completed, whatever "now" is. */
  lemma CompletedWhenAllSlotsLogged(r: RoutineSnapshot, now: Instant)
    requires WellFormed(r.tasks) && AllSlotsLogged(r)
    requires r.durationDays > 0 && |r.tasks| > 0
    ensures IsCompleted(r, now)
  {
    RateFullWhenAllSlotsLogged(r);
  }

  /** Once completed, a routine stays completed as time goes on. */
  lemma CompletedIsStable(r: RoutineSnapshot, now: Instant, later: Instant)
    requires IsCompleted(r, now) && now <= later
    ensures IsCompleted(r, later)
  {
  }

  // ---------------------------------------------------------------------------
  // Daily status grid
  // ---------------------------------------------------------------------------

  datatype TaskStatus = TaskStatus(taskId: int, isCompleted: bool)
  datatype DayStatus = DayStatus(day: int, date: Day, status: seq<TaskStatus>)

  /**
   * One entry per day of the window; entry `i` is day `i + 1`, dated
   * `startDate + i`, with one flag per task, in task order, probing the set of
   * that task's log days.
   */
  function BuildDailyStatus(tasks: seq<TaskSnapshot>, startDate: Day, durationDays: nat): (grid: seq<DayStatus>)
    ensures |grid| == durationDays
    ensures forall i :: 0 <= i < durationDays ==>
              grid[i].day == i + 1 && grid[i].date == startDate + i && |grid[i].status| == |tasks|
    ensures forall i, j :: 0 <= i < durationDays && 0 <= j < |tasks| ==>
              grid[i].status[j].taskId == tasks[j].id &&
              (grid[i].status[j].isCompleted <==> startDate + i in tasks[j].logs)
  {
    var completedSets := seq(|tasks|, j requires 0 <= j < |tasks| => set x | x in tasks[j].logs);
    seq(durationDays, i requires 0 <= i < durationDays =>
      DayStatus(i + 1, startDate + i,
        seq(|tasks|, j requires 0 <= j < |tasks| => TaskStatus(tasks[j].id, startDate + i in completedSets[j]))))
  }

  /** The grid's dates are exactly the days of the window `[startDate, end date)`. */
  lemma DailyStatusCoversWindow(tasks: seq<TaskSnapshot>, startDate: Day, durationDays: nat, x: Day)
    ensures var grid := BuildDailyStatus(tasks, startDate, durationDays);
            (exists i :: 0 <= i < |grid| && grid[i].date == x) <==> startDate <= x < CalcEndDate(startDate, durationDays)
  {
    var grid := BuildDailyStatus(tasks, startDate, durationDays);
    if startDate <= x < CalcEndDate(startDate, durationDays) {
      assert grid[x - startDate].date == x;
    }
  }

  /** Number of completed flags in one row. */
  function CheckedInRow(status: seq<TaskStatus>): (k: nat)
    ensures k <= |status|
  {
    if status == [] then 0
    else (if status[0].isCompleted then 1 else 0) + CheckedInRow(status[1..])
  }

  /** Number of completed flags in the whole grid, row by row. */
  function CheckedCells(grid: seq<DayStatus>): nat
  {
    if grid == [] then 0
    else CheckedCells(grid[..|grid| - 1]) + CheckedInRow(grid[|grid| - 1].status)
  }

  /** Number of tasks with at least one log on day `x` (however many). */
  function TasksDoneOn(tasks: seq<TaskSnapshot>, x: Day): (k: nat)
    ensures k <= |tasks|
    ensures k == |tasks| <==> forall j :: 0 <= j < |tasks| ==> x in tasks[j].logs
    ensures k == 0 <==> forall j :: 0 <= j < |tasks| ==> x !in tasks[j].logs
  {
    if tasks == [] then 0
    else
      var rest := TasksDoneOn(tasks[1..], x);
      assert forall j :: 1 <= j < |tasks| ==> tasks[j] == tasks[1..][j - 1];
      (if x in tasks[0].logs then 1 else 0) + rest
  }

  /** A row whose flags follow the tasks' logs on day `x` counts the tasks done that day. */
  lemma {:induction false} CheckedInRowIsTasksDoneOn(status: seq<TaskStatus>, tasks: seq<TaskSnapshot>, x: Day)
    requires |status| == |tasks|
    requires forall j :: 0 <= j < |tasks| ==> (status[j].isCompleted <==> x in tasks[j].logs)
    ensures CheckedInRow(status) == TasksDoneOn(tasks, x)
  {
    if tasks != [] {
      assert forall j :: 0 <= j < |tasks[1..]| ==> (status[1..][j].isCompleted <==> x in tasks[1..][j].logs) by {
        forall j | 0 <= j < |tasks[1..]| ensures status[1..][j].isCompleted <==> x in tasks[1..][j].logs {
          assert status[1..][j] == status[j + 1] && tasks[1..][j] == tasks[j + 1];
        }
      }
      CheckedInRowIsTasksDoneOn(status[1..], tasks[1..], x);
    }
  }

  lemma {:induction false} SlotsLoggedLastDay(tasks: seq<TaskSnapshot>, lo: Day, n: nat)
    requires n > 0
    ensures SlotsLogged(tasks, lo, n) == SlotsLogged(tasks, lo, n - 1) + TasksDoneOn(tasks, lo + (n - 1))
  {
    if tasks != [] {
      SlotsLoggedLastDay(tasks[1..], lo, n);
    }
  }

  /** Any grid whose cells follow the logs has as many checked cells as logged slots. */
  lemma {:induction false} CheckedCellsIsSlotsLogged(grid: seq<DayStatus>, tasks: seq<TaskSnapshot>, lo: Day)
    requires forall i :: 0 <= i < |grid| ==> |grid[i].status| == |tasks|
    requires forall i, j :: 0 <= i < |grid| && 0 <= j < |tasks| ==>
               (grid[i].status[j].isCompleted <==> lo + i in tasks[j].logs)
    ensures CheckedCells(grid) == SlotsLogged(tasks, lo, |grid|)
  {
    if grid != [] {
      var n := |grid|;
      var prefix := grid[..n - 1];
      assert forall i :: 0 <= i < |prefix| ==> prefix[i] == grid[i];
      CheckedCellsIsSlotsLogged(prefix, tasks, lo);
      CheckedInRowIsTasksDoneOn(grid[n - 1].status, tasks, lo + (n - 1));
      SlotsLoggedLastDay(tasks, lo, n);
    }
  }

  /**
   * The grid and the rate agree: the number of checked cells of the daily
   * status equals the completed slots the rate is computed from.
   */
  lemma DailyStatusCountsCompletedSlots(tasks: seq<TaskSnapshot>, startDate: Day, durationDays: nat)
    requires WellFormed(tasks)
    ensures CheckedCells(BuildDailyStatus(tasks, startDate, durationDays))
            == CompletedSlots(tasks, startDate, CalcEndDate(startDate, durationDays))
  {
    var grid := BuildDailyStatus(tasks, startDate, durationDays);
    CheckedCellsIsSlotsLogged(grid, tasks, startDate);
    CompletedSlotsIsSlotsLogged(tasks, startDate, durationDays);
  }

  // ---------------------------------------------------------------------------
  // Today's progress
  // ---------------------------------------------------------------------------

  datatype TodayProgress = TodayProgress(todayTotal: nat, todayCompleted: nat)

  /** Tasks in total, and tasks with at least one log dated `today`. */
  function CalcTodayProgress(tasks: seq<TaskSnapshot>, today: Day): (p: TodayProgress)
    ensures p.todayTotal == |tasks|
    ensures p.todayCompleted <= p.todayTotal
    ensures p.todayCompleted == p.todayTotal <==> forall j :: 0 <= j < |tasks| ==> today in tasks[j].logs
  {
    TodayProgress(|tasks|, TasksDoneOn(tasks, today))
  }

  /** Today's completed count depends only on which tasks have some log today. */
  lemma {:induction false} TasksDoneOnDependsOnMembership(tasks: seq<TaskSnapshot>, other: seq<TaskSnapshot>, x: Day)
    requires |tasks| == |other|
    requires forall j :: 0 <= j < |tasks| ==> (x in tasks[j].logs <==> x in other[j].logs)
    ensures TasksDoneOn(tasks, x) == TasksDoneOn(other, x)
  {
    if tasks != [] {
      assert forall j :: 0 <= j < |tasks[1..]| ==> (x in tasks[1..][j].logs <==> x in other[1..][j].logs) by {
        forall j | 0 <= j < |tasks[1..]| ensures x in tasks[1..][j].logs <==> x in other[1..][j].logs {
          assert tasks[1..][j] == tasks[j + 1] && other[1..][j] == other[j + 1];
        }
      }
      TasksDoneOnDependsOnMembership(tasks[1..], other[1..], x);
    }
  }

  /** A second log for today on a task already done today does not count again. */
  lemma TodayCountsTaskOnce(tasks: seq<TaskSnapshot>, j: nat, today: Day)
    requires j < |tasks| && today in tasks[j].logs
    ensures CalcTodayProgress(tasks[j := tasks[j].(logs := tasks[j].logs + [today])], today)
            == CalcTodayProgress(tasks, today)
  {
    var other := tasks[j := tasks[j].(logs := tasks[j].logs + [today])];
    TasksDoneOnDependsOnMembership(other, tasks, today);
  }

  /** On a day inside the window, today's count is the number of checked cells in that day's row. */
  lemma TodayProgressMatchesGrid(tasks: seq<TaskSnapshot>, startDate: Day, durationDays: nat, today: Day)
    requires startDate <= today < CalcEndDate(startDate, durationDays)
    ensures CalcTodayProgress(tasks, today).todayCompleted
            == CheckedInRow(BuildDailyStatus(tasks, startDate, durationDays)[today - startDate].status)
  {
    var row := BuildDailyStatus(tasks, startDate, durationDays)[today - startDate];
    CheckedInRowIsTasksDoneOn(row.status, tasks, today);
  }

  // ---------------------------------------------------------------------------
  // Enrichment
  // ---------------------------------------------------------------------------

  /** A listing entry; `rest` is the routine's other fields (`...rest`), passed through unchanged. */
  datatype RoutineSummary<T> = RoutineSummary(
    rest: T, startDate: Day, durationDays: nat, endDate: Day,
    completionRate: int, isCompleted: bool, todayTotal: nat, todayCompleted: nat)

  /**
   * A listing entry: the routine's fields without its tasks, plus the derived
   * fields. `rest` stands for the fields the calculation does not read.
   */
  function EnrichRoutineSummary<T>(rest: T, r: RoutineSnapshot, now: Instant, today: Day): (s: RoutineSummary<T>)
    ensures s.rest == rest && s.startDate == r.startDate && s.durationDays == r.durationDays
    ensures s.endDate == CalcEndDate(r.startDate, r.durationDays)
    ensures s.completionRate == Rate(r) && s.isCompleted == IsCompleted(r, now)
    ensures s.completionRate == 100 ==> s.isCompleted
    ensures now > DayStart(s.endDate) ==> s.isCompleted
    ensures s.todayTotal == |r.tasks| && s.todayCompleted <= s.todayTotal
    ensures s.todayCompleted == CalcTodayProgress(r.tasks, today).todayCompleted
    ensures WellFormed(r.tasks) ==> 0 <= s.completionRate <= 100
  {
    var endDate := CalcEndDate(r.startDate, r.durationDays);
    var rate := CalcCompletionRate(r.tasks, r.startDate, r.durationDays);
    var completed := CheckIsCompleted(rate, endDate, now);
    var progress := CalcTodayProgress(r.tasks, today);
    assert WellFormed(r.tasks) ==> 0 <= rate <= 100 by {
      if WellFormed(r.tasks) { RateIsPercentage(r); }
    }
    RoutineSummary(rest, r.startDate, r.durationDays, endDate, rate, completed, progress.todayTotal, progress.todayCompleted)
  }

  /** A detail view; `rest` is the routine's fields the calculation does not read (`...routine`). */
  datatype RoutineDetail<T> = RoutineDetail(
    rest: T, startDate: Day, durationDays: nat, tasks: seq<TaskSnapshot>,
    dailyStatus: seq<DayStatus>, endDate: Day, completionRate: int, isCompleted: bool)

  /**
   * A detail view: the whole routine, its daily grid and the derived fields.
   * Its rate is the rounded percentage of checked grid cells.
   */
  function EnrichRoutineDetail<T>(rest: T, r: RoutineSnapshot, now: Instant): (d: RoutineDetail<T>)
    ensures d.rest == rest && d.tasks == r.tasks && d.startDate == r.startDate && d.durationDays == r.durationDays
    ensures d.dailyStatus == BuildDailyStatus(r.tasks, r.startDate, r.durationDays)
    ensures d.endDate == CalcEndDate(r.startDate, r.durationDays) && d.endDate >= d.startDate
    ensures d.completionRate == Rate(r) && d.isCompleted == IsCompleted(r, now)
    ensures |d.dailyStatus| == r.durationDays
    ensures WellFormed(r.tasks) && r.durationDays * |r.tasks| > 0 ==>
              d.completionRate == RoundHalfUp(100 * CheckedCells(d.dailyStatus), r.durationDays * |r.tasks|)
  {
    var endDate := CalcEndDate(r.startDate, r.durationDays);
    var rate := CalcCompletionRate(r.tasks, r.startDate, r.durationDays);
    var completed := CheckIsCompleted(rate, endDate, now);
    var grid := BuildDailyStatus(r.tasks, r.startDate, r.durationDays);
    assert WellFormed(r.tasks) ==> CheckedCells(grid) == CompletedSlots(r.tasks, r.startDate, endDate) by {
      if WellFormed(r.tasks) { DailyStatusCountsCompletedSlots(r.tasks, r.startDate, r.durationDays); }
    }
    RoutineDetail(rest, r.startDate, r.durationDays, r.tasks, grid, endDate, rate, completed)
  }

  // ---------------------------------------------------------------------------
  // Overall summary
  // ---------------------------------------------------------------------------

  /** Rates of the routines that are not completed at `now`, in order. */
  function ActiveRates(routines: seq<RoutineSnapshot>, now: Instant): (rates: seq<int>)
    ensures |rates| <= |routines|
    ensures forall k :: 0 <= k < |rates| ==> rates[k] >= 0
  {
    if routines == [] then []
    else ActiveRate(routines[0], now) + ActiveRates(routines[1..], now)
  }

  /** The rate of one routine if it is still active, nothing otherwise. */
  function ActiveRate(r: RoutineSnapshot, now: Instant): (rates: seq<int>)
    ensures |rates| <= 1
    ensures forall k :: 0 <= k < |rates| ==> rates[k] >= 0
  {
    if IsCompleted(r, now) then [] else [Rate(r)]
  }

  function Sum(xs: seq<int>): int
  {
    if xs == [] then 0 else xs[0] + Sum(xs[1..])
  }

  lemma {:induction false} SumBounds(xs: seq<int>)
    requires forall k :: 0 <= k < |xs| ==> 0 <= xs[k] <= 100
    ensures 0 <= Sum(xs) <= 100 * |xs|
  {
    if xs != [] {
      SumBounds(xs[1..]);
    }
  }

  datatype OverallSummary = OverallSummary(totalRoutines: nat, averageRate: int)

  /** Count and rounded mean rate of the routines still active at `now`; `{0, 0}` when none are. */
  function CalcOverallSummary(routines: seq<RoutineSnapshot>, now: Instant): (s: OverallSummary)
    ensures s.totalRoutines <= |routines|
    ensures s.totalRoutines == 0 ==> s.averageRate == 0
    ensures s.averageRate >= 0
  {
    var rates := ActiveRates(routines, now);
    SumBounds0(rates);
    if |rates| == 0 then OverallSummary(0, 0)
    else OverallSummary(|rates|, RoundHalfUp(Sum(rates), |rates|))
  }

  lemma {:induction false} SumBounds0(xs: seq<int>)
    requires forall k :: 0 <= k < |xs| ==> 0 <= xs[k]
    ensures 0 <= Sum(xs)
  {
    if xs != [] {
      SumBounds0(xs[1..]);
    }
  }

  lemma {:induction false} ActiveRatesAppend(routines: seq<RoutineSnapshot>, r: RoutineSnapshot, now: Instant)
    ensures ActiveRates(routines + [r], now) == ActiveRates(routines, now) + ActiveRate(r, now)
  {
    if routines == [] {
      assert routines + [r] == [r];
      assert [r][1..] == [];
      assert ActiveRates([r], now) == ActiveRate(r, now) + ActiveRates([], now);
    } else {
      var all := routines + [r];
      assert all[0] == routines[0];
      assert all[1..] == routines[1..] + [r];
      var head := ActiveRate(routines[0], now);
      var tail := ActiveRates(routines[1..], now);
      ActiveRatesAppend(routines[1..], r, now);
      assert ActiveRates(all, now) == head + (tail + ActiveRate(r, now));
      assert ActiveRates(routines, now) == head + tail;
      assert head + (tail + ActiveRate(r, now)) == (head + tail) + ActiveRate(r, now);
    }
  }

  lemma {:induction false} SumAppend(xs: seq<int>, x: int)
    ensures Sum(xs + [x]) == Sum(xs) + x
  {
    if xs == [] {
      assert [] + [x] == [x];
    } else {
      SumAppend(xs[1..], x);
      assert (xs + [x])[1..] == xs[1..] + [x];
    }
  }

  /** A completed routine does not take part in the overall summary. */
  lemma OverallSummaryIgnoresCompleted(routines: seq<RoutineSnapshot>, r: RoutineSnapshot, now: Instant)
    requires IsCompleted(r, now)
    ensures CalcOverallSummary(routines + [r], now) == CalcOverallSummary(routines, now)
  {
    ActiveRatesAppend(routines, r, now);
    assert ActiveRates(routines, now) + [] == ActiveRates(routines, now);
  }

  /** An active routine is counted, and its rate enters the mean. */
  lemma OverallSummaryCountsActive(routines: seq<RoutineSnapshot>, r: RoutineSnapshot, now: Instant)
    requires !IsCompleted(r, now)
    ensures CalcOverallSummary(routines + [r], now).totalRoutines == CalcOverallSummary(routines, now).totalRoutines + 1
    ensures Sum(ActiveRates(routines + [r], now)) == Sum(ActiveRates(routines, now)) + Rate(r)
  {
    ActiveRatesAppend(routines, r, now);
    SumAppend(ActiveRates(routines, now), Rate(r));
  }

  lemma {:induction false} ActiveRatesArePercentages(routines: seq<RoutineSnapshot>, now: Instant)
    requires forall k :: 0 <= k < |routines| ==> WellFormed(routines[k].tasks)
    ensures forall k :: 0 <= k < |ActiveRates(routines, now)| ==> 0 <= ActiveRates(routines, now)[k] <= 100
  {
    if routines != [] {
      assert forall k :: 0 <= k < |routines[1..]| ==> WellFormed(routines[1..][k].tasks) by {
        forall k | 0 <= k < |routines[1..]| ensures WellFormed(routines[1..][k].tasks) {
          assert routines[1..][k] == routines[k + 1];
        }
      }
      ActiveRatesArePercentages(routines[1..], now);
      RateIsPercentage(routines[0]);
    }
  }

  /** With at most one log per task and day everywhere, the average rate is a percentage. */
  lemma AverageRateIsPercentage(routines: seq<RoutineSnapshot>, now: Instant)
    requires forall k :: 0 <= k < |routines| ==> WellFormed(routines[k].tasks)
    ensures 0 <= CalcOverallSummary(routines, now).averageRate <= 100
  {
    var rates := ActiveRates(routines, now);
    ActiveRatesArePercentages(routines, now);
    SumBounds(rates);
    if |rates| > 0 {
      RoundHalfUpAtMost(Sum(rates), |rates|, 100);
    }
  }

  /** The average is the mean of the active rates, rounded half up. */
  lemma AverageRateRoundsMean(routines: seq<RoutineSnapshot>, now: Instant)
    requires CalcOverallSummary(routines, now).totalRoutines > 0
    ensures var s := CalcOverallSummary(routines, now);
            var sum := Sum(ActiveRates(routines, now));
            s.totalRoutines == |ActiveRates(routines, now)| &&
            2 * s.totalRoutines * s.averageRate <= 2 * sum + s.totalRoutines < 2 * s.totalRoutines * (s.averageRate + 1)
  {
    var rates := ActiveRates(routines, now);
    RoundHalfUpBounds(Sum(rates), |rates|);
  }

  // ---------------------------------------------------------------------------
  // Pagination
  // ---------------------------------------------------------------------------

  /** JavaScript's resolution of a relative `slice` index against a length. */
  function SliceIndex(rel: int, len: nat): (k: nat)
    ensures k <= len
    ensures 0 <= rel <= len ==> k == rel
  {
    if rel < 0 then (if len + rel < 0 then 0 else len + rel)
    else if rel > len then len
    else rel
  }

  /** `items.slice(start, end)`. */
  function Slice<T>(items: seq<T>, start: int, end: int): (r: seq<T>)
    ensures |r| <= |items|
    ensures 0 <= start <= end <= |items| ==> r == items[start..end]
    ensures 0 <= end <= start ==> r == []
  {
    var a := SliceIndex(start, |items|);
    var b := SliceIndex(end, |items|);
    if a < b then items[a..b] else []
  }

  /** `Math.ceil(n / d)` for `d > 0`. */
  function CeilDiv(n: nat, d: int): (q: nat)
    requires d > 0
    ensures d * (q - 1) < n <= d * q
  {
    (n + d - 1) / d
  }

  function Min(a: int, b: int): int { if a <= b then a else b }

  datatype Pagination = Pagination(total: nat, page: int, limit: int, totalPages: nat)
  datatype Page<T> = Page(data: seq<T>, pagination: Pagination)

  /** The `page`-th run of `limit` items, and the pagination header. */
  function Paginate<T>(items: seq<T>, page: int, limit: int): (p: Page<T>)
    requires limit >= 1
    ensures |p.data| <= limit
    ensures p.pagination.total == |items| && p.pagination.page == page && p.pagination.limit == limit
    ensures limit * (p.pagination.totalPages - 1) < |items| <= limit * p.pagination.totalPages
  {
    var skip := (page - 1) * limit;
    var paginated := Slice(items, skip, skip + limit);
    Page(paginated, Pagination(|items|, page, limit, CeilDiv(|items|, limit)))
  }

  /** Page `page >= 1` holds the items from `(page - 1) * limit` on, at most `limit` of them. */
  lemma PaginateWindow<T>(items: seq<T>, page: int, limit: int)
    requires limit >= 1 && page >= 1
    ensures var skip := (page - 1) * limit;
            skip >= 0 &&
            Paginate(items, page, limit).data == items[Min(skip, |items|)..Min(skip + limit, |items|)]
  {
    var skip := (page - 1) * limit;
    MulNonNegative(page - 1, limit);
  }

  lemma MulNonNegative(a: int, b: int)
    requires a >= 0 && b >= 0
    ensures a * b >= 0
  {
  }

  /** Page `page >= 1` is empty exactly when it lies past the last page. */
  lemma PaginateEmptyPastLastPage<T>(items: seq<T>, page: int, limit: int)
    requires limit >= 1 && page >= 1
    ensures var p := Paginate(items, page, limit);
            p.data == [] <==> page > p.pagination.totalPages
  {
    var p := Paginate(items, page, limit);
    var totalPages := p.pagination.totalPages;
    var skip := (page - 1) * limit;
    PaginateWindow(items, page, limit);
    if page > totalPages {
      MulMonotone(totalPages, page - 1, limit);
    } else {
      MulMonotone(page - 1, totalPages - 1, limit);
    }
  }

  lemma MulMonotone(a: int, b: int, c: int)
    requires a <= b && c >= 0
    ensures a * c <= b * c
  {
    assert b * c - a * c == (b - a) * c;
    MulNonNegative(b - a, c);
  }

  /** The first `k` pages, concatenated. */
  function Pages<T>(items: seq<T>, limit: int, k: nat): seq<T>
    requires limit >= 1
  {
    if k == 0 then [] else Pages(items, limit, k - 1) + Paginate(items, k, limit).data
  }

  /** The prefix up to `m` followed by the window `[m, m + limit)` is the prefix up to `m + limit`. */
  lemma PrefixThenWindow<T>(items: seq<T>, m: int, limit: int)
    requires m >= 0 && limit >= 1
    ensures items[..Min(m, |items|)] + items[Min(m, |items|)..Min(m + limit, |items|)]
            == items[..Min(m + limit, |items|)]
  {
  }

  lemma {:induction false} PagesArePrefix<T>(items: seq<T>, limit: int, k: nat)
    requires limit >= 1
    ensures k * limit >= 0
    ensures Pages(items, limit, k) == items[..Min(k * limit, |items|)]
  {
    MulNonNegative(k, limit);
    if k > 0 {
      var m := (k - 1) * limit;
      PagesArePrefix(items, limit, k - 1);
      PaginateWindow(items, k, limit);
      MulStep(k, limit);
      PrefixThenWindow(items, m, limit);
    }
  }

  lemma MulStep(k: int, limit: int)
    ensures (k - 1) * limit + limit == k * limit
  {
  }

  /** Read page by page, the listing shows every item exactly once, in order. */
  lemma PagesCoverItems<T>(items: seq<T>, limit: int)
    requires limit >= 1
    ensures Pages(items, limit, Paginate(items, 1, limit).pagination.totalPages) == items
  {
    var totalPages := Paginate(items, 1, limit).pagination.totalPages;
    PagesArePrefix(items, limit, totalPages);
    assert limit * totalPages == totalPages * limit;
  }

  /** The worked example: 10 items, page 2 of 6 gives items 7 to 10 and 2 pages. */
  lemma PaginateExample<T>(items: seq<T>)
    requires |items| == 10
    ensures Paginate(items, 2, 6).data == items[6..]
    ensures Paginate(items, 2, 6).pagination.totalPages == 2
  {
    PaginateWindow(items, 2, 6);
  }
}
