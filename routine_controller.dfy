/**
 * The routine handlers of src/controllers/routines.ts: the listing query's
 * normalisation and the status each handler answers with, given what the
 * repository returns. Path parameters and query values arrive already read
 * as numbers (`Number(...)`); reading the text itself is not modelled.
 */
module RoutineController {
  import opened Wrappers
  import opened Store
  import opened ControllerUtil
  import RoutineRepository

  /** What a handler sends: nothing, a bare status (`res.send(code)`), or a status with a JSON body. */
  datatype Reply<T> = NoReply | Status(code: int) | Json(code: int, body: T)

  /** `req.params.id`: absent or empty (falsy), not a number (`NaN`), or a number. */
  datatype PathId = Missing | NotNumber | Id(n: int)

  datatype Filter = Active | Completed

  /** What `getAllRoutines` passes to the repository. */
  datatype ListQuery = ListQuery(userId: int, page: int, limit: int, filter: Filter)

  /** `Number(q) || fallback`: a missing or non-numeric query (`NaN`) and 0 take the fallback. */
  function OrDefault(q: Option<int>, fallback: int): (v: int)
    ensures v == fallback || (q.Some? && v == q.value && v != 0)
  {
    if q.None? || q.value == 0 then fallback else q.value
  }

  /** The page number: the query's when it is at least 1, page 1 otherwise. */
  function NormalizePage(q: Option<int>): (page: int)
    ensures page >= 1
    ensures q.Some? && q.value >= 1 ==> page == q.value
    ensures q.None? || q.value < 1 ==> page == 1
  {
    var v := OrDefault(q, 1);
    if v < 1 then 1 else v
  }

  /** The page size: 6 when missing or 0, otherwise the query clamped to `[1, 20]`. */
  function NormalizeLimit(q: Option<int>): (limit: int)
    ensures 1 <= limit <= 20
    ensures q.None? || q.value == 0 ==> limit == 6
    ensures q.Some? && 1 <= q.value <= 20 ==> limit == q.value
    ensures q.Some? && q.value > 20 ==> limit == 20
    ensures q.Some? && q.value < 0 ==> limit == 1
  {
    var v := OrDefault(q, 6);
    var atLeastOne := if v < 1 then 1 else v;
    if atLeastOne > 20 then 20 else atLeastOne
  }

  /** `completed` exactly when the query says so; anything else lists active routines. */
  function NormalizeFilter(q: Option<string>): (filter: Filter)
    ensures filter == Completed <==> q == Some("completed")
  {
    if q == Some("completed") then Completed else Active
  }

  /** A normalised value normalises to itself. */
  lemma NormalizeIdempotent(page: Option<int>, limit: Option<int>)
    ensures NormalizePage(Some(NormalizePage(page))) == NormalizePage(page)
    ensures NormalizeLimit(Some(NormalizeLimit(limit))) == NormalizeLimit(limit)
  {
  }

  /**
   * `getAllRoutines`: the query reaches the repository only when the
   * request carries a user id; otherwise the handler throws and answers nothing.
   */
  function GetAllRoutines(user: Option<UserData>, page: Option<int>, limit: Option<int>, filter: Option<string>)
    : (query: Option<ListQuery>)
    ensures query.Some? <==> user.Some? && user.value.userId != 0
    ensures query.Some? ==>
              query.value.userId == user.value.userId &&
              query.value.page >= 1 && 1 <= query.value.limit <= 20
    ensures query.Some? ==>
              query.value == ListQuery(user.value.userId, NormalizePage(page), NormalizeLimit(limit), NormalizeFilter(filter))
  {
    match GetUserId(user)
    case Failure(_) => None
    case Success(id) => Some(ListQuery(id, NormalizePage(page), NormalizeLimit(limit), NormalizeFilter(filter)))
  }

  /** The repository's view of a path id: a number, or `None` when there is none. */
  function PathNumber(id: PathId): (n: Option<int>)
    ensures n.Some? <==> id.Id?
    ensures n.Some? ==> n.value == id.n
  {
    match id
    case Id(n) => Some(n)
    case _ => None
  }

  /** `getRoutine`: 200 with the detail when the repository finds it, a bare 404 otherwise. */
  function GetRoutine(db: Db, id: PathId): (reply: Reply<RoutineRepository.RoutineView>)
    reads db
    ensures reply.Status? || reply.Json?
    ensures reply.Status? <==>
              id.Id? ==> FirstRoutine(db.routines, id.n, RepositoryUserId).None?
    ensures reply.Status? ==> reply.code == 404
    ensures reply.Json? ==>
              id.Id? && reply.code == 200 &&
              Some(reply.body) == RoutineRepository.FindRoutineById(db.routines, db.tasks, db.logs, id.n)
  {
    match PathNumber(id)
    case None => Status(404)
    case Some(n) =>
      match RoutineRepository.FindRoutineById(db.routines, db.tasks, db.logs, n)
      case None => Status(404)
      case Some(view) => Json(200, view)
  }

  /**
   * `createRoutine`: a request without a routine body throws and answers
   * nothing; otherwise 201 with whatever the repository returned (an empty
   * routine object, `None`, when it failed).
   */
  method CreateRoutine(db: Db, body: Option<RoutineRepository.CreateRoutineInput>) returns (reply: Reply<Option<Routine>>)
    requires db.Valid()
    modifies db
    ensures db.Valid()
    ensures body.None? <==> reply.NoReply?
    ensures reply.Json? ==> reply.code == 201 && (reply.body.Some? <==> body.value.tasks.Some?)
    ensures db.logs == old(db.logs) && db.nextLogId == old(db.nextLogId)
    ensures !(reply.Json? && reply.body.Some?) ==>
              db.routines == old(db.routines) && db.tasks == old(db.tasks) &&
              db.nextRoutineId == old(db.nextRoutineId) && db.nextTaskId == old(db.nextTaskId)
    ensures reply.Json? && reply.body.Some? ==>
              var input := body.value;
              reply.body.value == Routine(old(db.nextRoutineId), input.userId, input.title, input.description,
                                          input.startDate, input.durationDays) &&
              db.routines == old(db.routines) + [reply.body.value] &&
              db.tasks == old(db.tasks) + RoutineRepository.NewTasks(input.tasks.value, reply.body.value.id, old(db.nextTaskId)) &&
              db.nextRoutineId == old(db.nextRoutineId) + 1 &&
              db.nextTaskId == old(db.nextTaskId) + |input.tasks.value|
  {
    if body.None? {
      return NoReply;
    }
    var created := RoutineRepository.CreateRoutine(db, body.value);
    reply := Json(201, created);
  }

  /**
   * `updateRoutine`: a missing id answers a bare 400 without touching the
   * store; otherwise 201, with the repository's result, whether or not the
   * update went through.
   */
  method UpdateRoutine(db: Db, id: PathId, body: Option<RoutineRepository.UpdateRoutineInput>)
    returns (reply: Reply<Option<RoutineRepository.UpdateResult>>)
    requires db.Valid()
    modifies db
    ensures db.Valid()
    ensures id.Missing? <==> reply == Status(400)
    ensures id.Missing? ==> db.routines == old(db.routines) && db.tasks == old(db.tasks) && db.logs == old(db.logs)
    ensures !id.Missing? ==> reply.Json? && reply.code == 201
    ensures reply.Json? && reply.body.None? ==>
              db.routines == old(db.routines) && db.tasks == old(db.tasks) && db.logs == old(db.logs)
    ensures reply.Json? ==>
              (reply.body.None? <==>
                 id.NotNumber? || body.None? || FirstRoutine(old(db.routines), id.n, RepositoryUserId).None? ||
                 body.value.tasks.None? ||
                 RoutineRepository.ReconciledTasks(old(db.tasks), id.n, body.value.tasks.value, old(db.nextTaskId)).None?)
    ensures reply.Json? && reply.body.Some? ==>
              reply.body.value.sucess && id.Id? && body.Some? &&
              var k := FirstRoutine(old(db.routines), id.n, RepositoryUserId).value;
              var inputs := body.value.tasks.value;
              db.routines == old(db.routines)[k := RoutineRepository.UpdateRoutineRow(old(db.routines)[k], body.value)] &&
              db.tasks == RoutineRepository.ReconciledTasks(old(db.tasks), id.n, inputs, old(db.nextTaskId)).value &&
              db.logs == RoutineRepository.KeepLogsOfTasks(
                           old(db.logs), RoutineRepository.DeleteMissing(old(db.tasks), id.n, RoutineRepository.ActiveIds(inputs))) &&
              db.nextTaskId == old(db.nextTaskId) + |RoutineRepository.WithoutIds(inputs)|
    ensures !(reply.Json? && reply.body.Some?) ==> db.nextTaskId == old(db.nextTaskId)
    ensures db.nextRoutineId == old(db.nextRoutineId) && db.nextLogId == old(db.nextLogId)
  {
    if id.Missing? {
      return Status(400);
    }
    if body.None? {
      return Json(201, None);
    }
    var updated := RoutineRepository.UpdateRoutine(db, PathNumber(id), body.value);
    reply := Json(201, updated);
  }

  /** `deleteRoutine`: a bare 204 when the repository reports success, no reply otherwise. */
  method DeleteRoutine(db: Db, id: PathId) returns (reply: Reply<()>)
    requires db.Valid()
    modifies db
    ensures db.Valid()
    ensures reply == Status(204) <==> id.Id? && FirstRoutine(old(db.routines), id.n, RepositoryUserId).Some?
    ensures reply != Status(204) ==>
              reply.NoReply? &&
              db.routines == old(db.routines) && db.tasks == old(db.tasks) && db.logs == old(db.logs)
    ensures reply == Status(204) ==>
              db.routines == RoutineRepository.RemoveRoutine(old(db.routines), id.n) &&
              db.tasks == RoutineRepository.DeleteMissing(old(db.tasks), id.n, {}) &&
              db.logs == RoutineRepository.KeepLogsOfTasks(old(db.logs), db.tasks)
    ensures db.nextRoutineId == old(db.nextRoutineId) && db.nextTaskId == old(db.nextTaskId) &&
            db.nextLogId == old(db.nextLogId)
  {
    var result := RoutineRepository.DeleteRoutine(db, PathNumber(id));
    reply := if result.success then Status(204) else NoReply;
  }
}
