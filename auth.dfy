/**
 * The Express middleware `authenticateToken`: it reads the `Authorization`
 * header, checks the `Bearer <token>` format, asks the token verifier about
 * the token and either answers the request with a status and a message or
 * attaches the decoded claims as `req.user` and passes the request on.
 *
 * The verifier (`jwt.verify` with the server's secret) is a parameter: a
 * function from the token to what its callback receives.
 */
module AuthMiddleware {
  import opened Wrappers
  import Text

  /** The decoded token payload, claim name to value. */
  type Claims = map<string, string>

  /** An incoming request: its headers (names lower-cased, as Node delivers them) and `req.user`. */
  datatype Request = Request(headers: map<string, string>, user: Option<Claims>)

  /** What the verifier reports about one token. */
  datatype VerifyResult =
    | Decoded(claims: Claims)    // the callback receives no error and the decoded payload
    | VerifyError(name: string)  // the callback receives an error with this `name`
    | Thrown                     // an exception escapes into the middleware's `try` block

  /** A JSON reply `{ message }` sent with an HTTP status. */
  datatype Reply = Reply(status: nat, message: string)

  /** Exactly one of: a reply is sent, or `next()` is called once with the updated request. */
  datatype Outcome = Respond(reply: Reply) | Next(request: Request)

  const MissingHeader := Reply(401, "Authorization header missing")
  const BadFormat := Reply(401, "Invalid token format")
  const Expired := Reply(401, "Token expired. Please log in again.")
  const InvalidToken := Reply(403, "Invalid token")
  const VerificationFailed := Reply(403, "Token verification failed")
  const InternalError := Reply(500, "Internal server error")

  /**
   * `req.headers['authorization']` (backend/middleware/auth.js:5). An absent
   * header reads as "", since both fail the `!authHeader` test of line 8 alike.
   */
  function AuthHeader(req: Request): (h: string)
    ensures h == "" <==> "authorization" !in req.headers || req.headers["authorization"] == ""
    ensures h != "" ==> h == req.headers["authorization"]
  {
    if "authorization" in req.headers then req.headers["authorization"] else ""
  }

  /** Reference definition of an acceptable header: `Bearer`, one space, then a token without spaces. */
  predicate IsBearerForm(header: string) {
    |header| >= 7 && header[..7] == "Bearer " && ' ' !in header[7..]
  }

  /** Splitting on ' ' gives exactly `["Bearer", t]` precisely for the headers of bearer form. */
  lemma BearerSplit(header: string)
    ensures (|Text.Split(header, ' ')| == 2 && Text.Split(header, ' ')[0] == "Bearer")
            <==> IsBearerForm(header)
    ensures IsBearerForm(header) ==> Text.Split(header, ' ') == ["Bearer", header[7..]]
  {
    var parts := Text.Split(header, ' ');
    if |parts| == 2 && parts[0] == "Bearer" {
      Text.JoinSplit(header, ' ');
      Text.SplitPiecesFree(header, ' ');
      assert Text.Join(parts[1..], ' ') == parts[1];
      assert header == "Bearer" + [' '] + parts[1];
      assert header[7..] == parts[1];
    }
    if IsBearerForm(header) {
      var token := header[7..];
      assert ' ' !in "Bearer";
      Text.SplitJoin(["Bearer", token], ' ');
      assert Text.Join(["Bearer", token][1..], ' ') == token;
      assert Text.Join(["Bearer", token], ' ') == header;
    }
  }

  /**
   * backend/middleware/auth.js:13-18: the header is split on single spaces;
   * the token is the second part of a two-part split whose first part is
   * exactly `Bearer`, and there is no token otherwise.
   */
  function ExtractToken(header: string): (r: Option<string>)
    ensures r.Some? <==> IsBearerForm(header)
    ensures r.Some? ==> r.value == header[7..]
  {
    var parts := Text.Split(header, ' ');
    BearerSplit(header);
    if |parts| != 2 || parts[0] != "Bearer" then None else Some(parts[1])
  }

  /**
   * backend/middleware/auth.js:26-32: the reply to a verifier error, chosen by
   * the error's `name` alone: an expired token, a malformed or badly signed
   * one, and every other failure.
   */
  function ErrorReply(name: string): (r: Reply)
    ensures r.status == 401 <==> name == "TokenExpiredError"
    ensures r == InvalidToken <==> name == "JsonWebTokenError"
    ensures r in {Expired, InvalidToken, VerificationFailed}
  {
    if name == "TokenExpiredError" then Expired
    else if name == "JsonWebTokenError" then InvalidToken
    else VerificationFailed
  }

  /**
   * backend/middleware/auth.js:21-43: the verifier's callback sends the error
   * reply or attaches the claims and calls `next()`; an exception reaching the
   * `catch` is answered with 500.
   */
  function AfterVerify(req: Request, result: VerifyResult): (out: Outcome)
    ensures out.Next? <==> result.Decoded?
    ensures out.Next? ==> out.request.headers == req.headers && out.request.user == Some(result.claims)
    ensures out == Respond(InternalError) <==> result.Thrown?
    ensures result.VerifyError? ==> out == Respond(ErrorReply(result.name))
    ensures result.VerifyError? ==> out.Respond? && out.reply in {Expired, InvalidToken, VerificationFailed}
  {
    match result
    case Decoded(claims) => Next(req.(user := Some(claims)))
    case VerifyError(name) => Respond(ErrorReply(name))
    case Thrown => Respond(InternalError)
  }

  /**
   * `authenticateToken(req, res, next)`, backend/middleware/auth.js:3-44: a
   * missing header, a header not of bearer form, and then the verifier's
   * answer, in that order, decide the outcome.
   */
  function Authenticate(req: Request, verify: string -> VerifyResult): (out: Outcome)
    ensures out == Respond(MissingHeader) <==> AuthHeader(req) == ""
    ensures out == Respond(BadFormat) <==> AuthHeader(req) != "" && !IsBearerForm(AuthHeader(req))
    ensures IsBearerForm(AuthHeader(req)) ==> out == AfterVerify(req, verify(AuthHeader(req)[7..]))
    ensures out.Next? <==> IsBearerForm(AuthHeader(req)) && verify(AuthHeader(req)[7..]).Decoded?
    ensures out.Respond? ==> out.reply.status in {401, 403, 500}
  {
    var header := AuthHeader(req);
    if header == "" then Respond(MissingHeader)
    else match ExtractToken(header)
      case None => Respond(BadFormat)
      case Some(token) => AfterVerify(req, verify(token))
  }

  /** A lower-case scheme, a second space-separated word and a doubled space all fail the format check. */
  lemma MalformedHeadersRejected(req: Request, verify: string -> VerifyResult)
    requires AuthHeader(req) in {"bearer x", "Bearer a b", "Bearer  x"}
    ensures Authenticate(req, verify) == Respond(BadFormat)
  {
    var h := AuthHeader(req);
    if h == "bearer x" {
      assert h[0] != "Bearer "[0];
    } else {
      assert h[7..][1] == ' ' || h[7..][0] == ' ';
    }
  }

  /** `Bearer ` with nothing after it passes the format check and the empty token goes to the verifier. */
  lemma EmptyTokenReachesVerifier(req: Request, verify: string -> VerifyResult)
    requires AuthHeader(req) == "Bearer "
    ensures Authenticate(req, verify) == AfterVerify(req, verify(""))
  {
    assert AuthHeader(req)[7..] == "";
  }

  /** For a token without spaces, `Bearer <token>` yields exactly that token. */
  lemma BearerRoundTrip(token: string)
    requires ' ' !in token
    ensures ExtractToken("Bearer " + token) == Some(token)
  {
    assert ("Bearer " + token)[..7] == "Bearer ";
    assert ("Bearer " + token)[7..] == token;
  }
}
