/**
 * The error-to-response mapping and the user-id accessor of
 * src/utils/controller.ts. An error message has the shape
 * `Key` or `Key:custom message`; the key selects an entry of a fixed table,
 * and anything else becomes one fixed 500 body.
 */
module ControllerUtil {
  import opened Wrappers
  import opened Strings

  /** A JSON error body: `{ status, error, message }`. */
  datatype ErrorInfo = ErrorInfo(status: int, error: string, message: string)

  /** What `res.status(code).json(body)` sends. */
  datatype Response = Response(statusCode: int, body: ErrorInfo)

  /** A thrown value: an `Error` with its message, or anything else. */
  datatype Thrown = ErrorValue(message: string) | OtherValue

  /** The decoded token payload a request carries as `req.user`. */
  datatype UserData = UserData(userId: int, email: string)

  /** The keys of `ERROR_MAP`, in declaration order. */
  const ErrorKeys: seq<string> :=
    ["BadRequest", "UserNotFound", "InvalidCredentials", "AlreadyExistsEmail", "RoutineNotFound", "TaskNotFound"]

  /** `ERROR_MAP` restricted to its own keys. */
  function ErrorMap(key: string): (entry: Option<ErrorInfo>)
    ensures entry.Some? <==> key in ErrorKeys
    ensures entry.Some? ==> entry.value.status in {400, 401, 404, 409}
  {
    if key == "BadRequest" then
      Some(ErrorInfo(400, "Bad Request", "필수 항목이 누락되었습니다."))
    else if key == "UserNotFound" then
      Some(ErrorInfo(401, "Unauthorized", "인증 정보를 찾을 수 없습니다. 다시 로그인해주세요."))
    else if key == "InvalidCredentials" then
      Some(ErrorInfo(401, "Unauthorized", "이메일 또는 비밀번호가 올바르지 않습니다."))
    else if key == "AlreadyExistsEmail" then
      Some(ErrorInfo(409, "Conflict", "이미 사용 중인 이메일입니다."))
    else if key == "RoutineNotFound" then
      Some(ErrorInfo(404, "Not Found", "루틴을 찾을 수 없거나 권한이 없습니다."))
    else if key == "TaskNotFound" then
      Some(ErrorInfo(404, "Not Found", "태스크를 찾을 수 없거나 권한이 없습니다."))
    else None
  }

  const InternalError := ErrorInfo(500, "Internal Server Error", "현재 서비스 처리가 원활하지 않습니다. 잠시 후 다시 시도해주세요.")

  /** The text `handleError` parses: the message of an `Error`, `UnknownError` for anything else. */
  function RawMessage(err: Thrown): (raw: string)
    ensures err.OtherValue? ==> ':' !in raw && raw !in ErrorKeys
  {
    match err
    case ErrorValue(m) => m
    case OtherValue => "UnknownError"
  }

  /** The text before the first `:` (all of it when there is none). */
  function ErrorKey(raw: string): (key: string)
    ensures ':' !in key
    ensures |key| <= |raw| && raw[..|key|] == key
    ensures ':' !in raw ==> key == raw
    ensures ':' in raw ==> |key| < |raw| && raw[|key|] == ':'
  {
    JoinSplit(raw, ':');
    Split(raw, ':')[0]
  }

  /** Everything after the first `:`, re-joined with `:`; `None` when there is no `:`. */
  function CustomMessage(raw: string): (custom: Option<string>)
    ensures custom.Some? <==> ':' in raw
    ensures custom.Some? ==> raw == ErrorKey(raw) + ":" + custom.value
  {
    var parts := Split(raw, ':');
    JoinSplit(raw, ':');
    if |parts| > 1 then
      assert Join(parts, ':') == parts[0] + [':'] + Join(parts[1..], ':');
      Some(Join(parts[1..], ':'))
    else None
  }

  /**
   * `handleError`, returning the status and body it sends. A known key
   * keeps its table entry with the message replaced by the custom one when
   * there is one; every other case is the fixed 500 body.
   */
  function HandleError(err: Thrown): (response: Response)
    ensures response.statusCode == response.body.status
    ensures response.statusCode == 500 <==> ErrorMap(ErrorKey(RawMessage(err))).None?
    ensures response.statusCode == 500 ==> response.body == InternalError
    ensures response.statusCode != 500 ==>
              var entry := ErrorMap(ErrorKey(RawMessage(err))).value;
              response.body.status == entry.status && response.body.error == entry.error
  {
    var raw := RawMessage(err);
    match ErrorMap(ErrorKey(raw))
    case None => Response(500, InternalError)
    case Some(entry) => Response(entry.status, entry.(message := CustomMessage(raw).GetOr(entry.message)))
  }

  /** The key is the text before the first colon; the custom message is all the rest, colons included. */
  lemma KeyAndCustomMessage(key: string, message: string)
    requires ':' !in key
    ensures ErrorKey(key + ":" + message) == key
    ensures CustomMessage(key + ":" + message) == Some(message)
  {
    assert key + ":" + message == key + [':'] + message;
    SplitAtFirst(key, message, ':');
    JoinSplit(message, ':');
  }

  /** Without a colon the whole text is the key and there is no custom message. */
  lemma KeyWithoutColon(raw: string)
    requires ':' !in raw
    ensures ErrorKey(raw) == raw && CustomMessage(raw) == None
  {
    JoinSplit(raw, ':');
  }

  /**
   * A known key answers with its own status and error; the message is
   * the custom one whenever a colon is present, even when it is empty, and
   * the table's message otherwise.
   */
  lemma HandleErrorKnownKey(key: string, message: string)
    requires ErrorMap(key).Some?
    ensures var entry := ErrorMap(key).value;
            HandleError(ErrorValue(key + ":" + message)) == Response(entry.status, entry.(message := message)) &&
            HandleError(ErrorValue(key)) == Response(entry.status, entry)
  {
    KnownKeyHasNoColon(key);
    KeyAndCustomMessage(key, message);
    KeyWithoutColon(key);
  }

  /** No key of the table contains a colon, so a key is always read back whole. */
  lemma KnownKeyHasNoColon(key: string)
    requires ErrorMap(key).Some?
    ensures ':' !in key
  {
    if key == "BadRequest" {
    } else if key == "UserNotFound" {
    } else if key == "InvalidCredentials" {
    } else if key == "AlreadyExistsEmail" {
    } else if key == "RoutineNotFound" {
    } else {
      assert key == "TaskNotFound";
    }
  }

  /**
   * An unknown key, or a thrown value that is not an `Error`, answers 500
   * with the fixed body, so no part of the raw text reaches the client.
   */
  lemma HandleErrorFallback(err: Thrown)
    requires err.OtherValue? || ErrorMap(ErrorKey(RawMessage(err))).None?
    ensures HandleError(err) == Response(500, InternalError)
  {
    if err.OtherValue? {
      KeyWithoutColon("UnknownError");
    }
  }

  /** The two not-found keys share 404, the two authentication keys share 401. */
  lemma StatusGroups(key: string)
    ensures key in {"RoutineNotFound", "TaskNotFound"} <==> ErrorMap(key).Some? && ErrorMap(key).value.status == 404
    ensures key in {"UserNotFound", "InvalidCredentials"} <==> ErrorMap(key).Some? && ErrorMap(key).value.status == 401
  {
  }

  /** `getUserId`: the numeric user id when it is present and not 0, otherwise a thrown `UserNotFound`. */
  function GetUserId(user: Option<UserData>): (r: Result<int, Thrown>)
    ensures r.Success? <==> user.Some? && user.value.userId != 0
    ensures r.Success? ==> r.value == user.value.userId && r.value != 0
    ensures r.Failure? ==> r.error == ErrorValue("UserNotFound")
  {
    if user.None? || user.value.userId == 0 then Failure(ErrorValue("UserNotFound"))
    else Success(user.value.userId)
  }

  /** A missing user, handed to `handleError`, becomes a 401 with the table's message. */
  lemma MissingUserIs401(user: Option<UserData>)
    requires GetUserId(user).Failure?
    ensures HandleError(GetUserId(user).error) == Response(401, ErrorMap("UserNotFound").value)
  {
    HandleErrorKnownKey("UserNotFound", "");
  }

  // ---------------------------------------------------------------------------
  // The lookup as written: `ERROR_MAP[errorKey]` on an object literal
  // ---------------------------------------------------------------------------

  /** The properties every object literal inherits from `Object.prototype`. */
  const InheritedMembers: seq<string> :=
    ["constructor", "hasOwnProperty", "isPrototypeOf", "propertyIsEnumerable", "toLocaleString",
     "toString", "valueOf", "__proto__", "__defineGetter__", "__defineSetter__",
     "__lookupGetter__", "__lookupSetter__"]

  /** What indexing the object literal yields: an own entry, an inherited (truthy) member, or `undefined`. */
  datatype Lookup = OwnEntry(info: ErrorInfo) | InheritedMember | NoEntry

  function LookupAsWritten(key: string): (found: Lookup)
    ensures found.OwnEntry? <==> ErrorMap(key).Some?
  {
    match ErrorMap(key)
    case Some(info) => OwnEntry(info)
    case None => if key in InheritedMembers then InheritedMember else NoEntry
  }

  /** No inherited member name is a key of the table (their lengths already differ). */
  lemma InheritedIsNotOwn(key: string)
    ensures key in InheritedMembers ==> ErrorMap(key).None?
  {
    if key in InheritedMembers {
      assert |key| in {7, 8, 9, 11, 13, 14, 16, 20};
    }
  }

  /** The outcome of `handleError` as written: a response, or a throw from `res.status(undefined)`. */
  datatype Outcome = Responds(response: Response) | ThrowsInvalidStatus

  /**
   * `handleError` exactly as written: an inherited member is truthy, so it
   * passes the `if (mapped)` test, and its `status` is `undefined`, which
   * `res.status(...).json(...)` rejects by throwing.
   */
  function HandleErrorAsWritten(err: Thrown): (outcome: Outcome)
    ensures outcome.ThrowsInvalidStatus? <==> ErrorKey(RawMessage(err)) in InheritedMembers
    ensures outcome.Responds? ==> outcome.response == HandleError(err)
  {
    var raw := RawMessage(err);
    InheritedIsNotOwn(ErrorKey(raw));
    match LookupAsWritten(ErrorKey(raw))
    case OwnEntry(entry) => Responds(Response(entry.status, entry.(message := CustomMessage(raw).GetOr(entry.message))))
    case InheritedMember => ThrowsInvalidStatus
    case NoEntry => Responds(Response(500, InternalError))
  }

  /**
   * An error whose key is an inherited member name (`constructor:x`,
   * `toString`, ...) makes the code as written throw instead of answering,
   * while the intended mapping answers with the fixed 500 body.
   */
  lemma InheritedKeyThrows(member: string, message: string)
    requires member in InheritedMembers
    ensures HandleErrorAsWritten(ErrorValue(member + ":" + message)) == ThrowsInvalidStatus
    ensures HandleError(ErrorValue(member + ":" + message)) == Response(500, InternalError)
  {
    assert ':' !in member;
    KeyAndCustomMessage(member, message);
  }
}
