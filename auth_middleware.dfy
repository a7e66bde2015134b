/**
 * `authMe` of src/middlewares/auth.ts: read the Authorization header, accept
 * only `Bearer <token>` (split on single spaces), hand the token to the
 * token validator, and on success store the decoded user on the request and
 * pass control on. Every failure answers the same 401 body.
 *
 * The validator (JWT verification) is a parameter: a total function from
 * the token text to what its promise settles to.
 */
module AuthMiddleware {
  import opened Wrappers
  import opened Strings
  import opened ControllerUtil

  /** `validateToken(token)`: it throws, or settles to a result whose `data` may be missing. */
  datatype Validation = Threw | Settled(data: Option<UserData>)

  const UnauthorizedBody := ErrorInfo(401, "Unauthorized", "인증이 필요하거나 토큰이 유효하지 않습니다.")

  const Scheme := "Bearer"

  /**
   * The token of a well-formed header: the header is present and not
   * empty, its first space-separated field is exactly `Bearer` and its
   * second field is not empty. Later fields are ignored.
   */
  function ParseBearer(header: Option<string>): (token: Option<string>)
    ensures token.Some? ==> header.Some? && |token.value| > 0 && ' ' !in token.value
    ensures token.Some? ==>
              |Split(header.value, ' ')| >= 2 &&
              Split(header.value, ' ')[0] == Scheme && Split(header.value, ' ')[1] == token.value
  {
    if header.None? || header.value == "" then None
    else
      var fields := Split(header.value, ' ');
      if fields[0] != Scheme || |fields| < 2 || fields[1] == "" then None
      else Some(fields[1])
  }

  /** The user a header authenticates, if any. */
  function Authenticate(header: Option<string>, validate: string -> Validation): (user: Option<UserData>)
    ensures user.Some? ==> ParseBearer(header).Some? && validate(ParseBearer(header).value) == Settled(user)
  {
    match ParseBearer(header)
    case None => None
    case Some(token) =>
      match validate(token)
      case Threw => None
      case Settled(data) => data
  }

  lemma SplitNoSpace(s: string)
    requires ' ' !in s
    ensures Split(s, ' ') == [s]
  {
    JoinSplit(s, ' ');
  }

  /** `Bearer <token>` with a non-empty, space-free token yields that token, whatever follows after a further space. */
  lemma BearerAccepted(token: string, rest: string)
    requires |token| > 0 && ' ' !in token
    ensures ParseBearer(Some("Bearer " + token)) == Some(token)
    ensures ParseBearer(Some("Bearer " + token + " " + rest)) == Some(token)
  {
    assert "Bearer " + token == Scheme + [' '] + token;
    SplitAtFirst(Scheme, token, ' ');
    SplitNoSpace(token);
    assert "Bearer " + token + " " + rest == Scheme + [' '] + (token + [' '] + rest);
    SplitAtFirst(Scheme, token + [' '] + rest, ' ');
    SplitAtFirst(token, rest, ' ');
  }

  /** The scheme alone is rejected: there is no second field. */
  lemma BareSchemeRejected()
    ensures ParseBearer(Some("Bearer")) == None
  {
    SplitNoSpace(Scheme);
  }

  /** Two spaces after the scheme are rejected: the second field is empty. */
  lemma DoubleSpaceRejected(token: string)
    ensures ParseBearer(Some("Bearer  " + token)) == None
  {
    assert "Bearer  " + token == Scheme + [' '] + ([' '] + token);
    SplitAtFirst(Scheme, [' '] + token, ' ');
    assert ([' '] + token)[1..] == token;
  }

  /**
   * Conversely, an accepted header is `Bearer <token>`, optionally
   * followed by a space and anything at all.
   */
  lemma AcceptedHeaderShape(header: string)
    requires ParseBearer(Some(header)).Some?
    ensures var token := ParseBearer(Some(header)).value;
            header == "Bearer " + token ||
            exists rest :: header == "Bearer " + token + " " + rest
  {
    var fields := Split(header, ' ');
    var token := fields[1];
    JoinSplit(header, ' ');
    assert Join(fields, ' ') == fields[0] + [' '] + Join(fields[1..], ' ');
    if |fields| == 2 {
      assert Join(fields[1..], ' ') == token;
      assert header == "Bearer " + token;
    } else {
      var rest := Join(fields[2..], ' ');
      assert fields[1..][1..] == fields[2..];
      assert Join(fields[1..], ' ') == token + [' '] + rest;
      assert header == "Bearer " + token + " " + rest;
    }
  }

  /** Only the second field reaches the validator: a trailing field never changes the outcome. */
  lemma LaterFieldsIgnored(token: string, rest: string, validate: string -> Validation)
    requires |token| > 0 && ' ' !in token
    ensures Authenticate(Some("Bearer " + token + " " + rest), validate) == Authenticate(Some("Bearer " + token), validate)
    ensures Authenticate(Some("Bearer " + token), validate) == (if validate(token).Settled? then validate(token).data else None)
  {
    BearerAccepted(token, rest);
  }

  /** An incoming request; `authorization` is the header, `nextCalls` counts calls of `next()`. */
  class Request {
    const authorization: Option<string>
    var user: Option<UserData>
    var nextCalls: nat

    constructor (authorization: Option<string>)
      ensures this.authorization == authorization && user == None && nextCalls == 0
    {
      this.authorization := authorization;
      user := None;
      nextCalls := 0;
    }
  }

  /**
   * The middleware: on success `req.user` is set to the decoded user and
   * `next()` is called once, with no reply; on any failure the reply is the
   * fixed 401 and the request is left as it was.
   */
  method AuthMe(req: Request, validate: string -> Validation) returns (reply: Option<Response>)
    modifies req
    ensures reply.None? <==> Authenticate(req.authorization, validate).Some?
    ensures reply.None? ==> req.user == Authenticate(req.authorization, validate) && req.nextCalls == old(req.nextCalls) + 1
    ensures reply.Some? ==>
              reply.value == Response(401, UnauthorizedBody) &&
              req.user == old(req.user) && req.nextCalls == old(req.nextCalls)
  {
    var token := ParseBearer(req.authorization);
    if token.None? {
      return Some(Response(401, UnauthorizedBody));
    }
    var result := validate(token.value);
    if result.Threw? || result.data.None? {
      return Some(Response(401, UnauthorizedBody));
    }
    req.user := result.data;
    req.nextCalls := req.nextCalls + 1;
    reply := None;
  }
}
