/**
 * The client of frontend/src/utils/axios.js and the middleware of
 * backend/middleware/auth.js together, with the header's way between them:
 * the browser's `setRequestHeader` trims HTTP whitespace from the value's
 * ends and refuses NUL, CR, LF and characters beyond U+00FF, and Node's HTTP
 * parser answers 400 to the other characters below U+0020 but tab, and to
 * DEL. The header the client builds from a stored token is then the header
 * the middleware sees, and the middleware's 401 replies are what makes the
 * client drop its session.
 */
module Session {
  import opened Wrappers
  import opened Text
  import AuthMiddleware
  import HttpClient

  /**
   * A character the browser refuses in a header value even after trimming:
   * NUL, CR, LF, or anything beyond U+00FF, since header values are byte
   * strings. `setRequestHeader` then throws and no request leaves.
   */
  predicate Unsendable(c: char) {
    c == '\0' || c == '\r' || c == '\n' || c > '\U{FF}'
  }

  /** A character below U+0020 other than tab, or DEL: Node's HTTP parser answers 400 to a header value holding one. */
  predicate Unparsable(c: char) {
    (c < ' ' && c != '\t') || c == '\U{7F}'
  }

  /** Some character of `v` cannot be sent. */
  predicate AnyUnsendable(v: string) {
    exists j :: 0 <= j < |v| && Unsendable(v[j])
  }

  /** Some character of `v` is refused by the server's parser. */
  predicate AnyUnparsable(v: string) {
    exists j :: 0 <= j < |v| && Unparsable(v[j])
  }

  /** What happens to the client's headers on the way to the middleware. */
  datatype Delivery = NotSent | BadRequest | Delivered(request: AuthMiddleware.Request)

  /** The request the middleware gets for a delivered `Authorization` value. */
  function ServerRequest(value: string): AuthMiddleware.Request {
    AuthMiddleware.Request(map["authorization" := value], None)
  }

  /**
   * Carrying the client's `Authorization` header to the server. The browser
   * strips HTTP whitespace from both ends of the value and refuses an
   * unsendable value; the server's parser refuses one with another control
   * character, and delivers the rest as the lower-cased `authorization`
   * header of a request without a user.
   */
  function Transmit(headers: map<string, string>): (d: Delivery)
    ensures "Authorization" !in headers ==> d == Delivered(AuthMiddleware.Request(map[], None))
    ensures "Authorization" in headers ==>
      var v := Trim(headers["Authorization"]);
      && (d.NotSent? <==> AnyUnsendable(v))
      && (d.BadRequest? <==> !AnyUnsendable(v) && AnyUnparsable(v))
      && (d.Delivered? ==> d.request == ServerRequest(v))
  {
    if "Authorization" !in headers then Delivered(AuthMiddleware.Request(map[], None))
    else
      var v := Trim(headers["Authorization"]);
      if AnyUnsendable(v) then NotSent
      else if AnyUnparsable(v) then BadRequest
      else Delivered(ServerRequest(v))
  }

  /** The reply the client's response interceptor sees for a middleware reply. */
  function AsSettled(reply: AuthMiddleware.Reply): HttpClient.Settled {
    HttpClient.Rejected(HttpClient.HttpError(Some(HttpClient.HttpResponse(reply.status, reply.message))))
  }

  /**
   * A character from `!` to U+00FF other than DEL: never trimmed, sent by the
   * browser and accepted by Node's parser (U+0080 to U+00FF as obs-text).
   */
  predicate IsVisible(c: char) {
    '!' <= c <= '\U{FF}' && c != '\U{7F}'
  }

  /** A visible character or a space. */
  predicate IsPrintable(c: char) {
    c == ' ' || IsVisible(c)
  }

  /** A header value that trims to printable characters is delivered as trimmed. */
  lemma PrintableDelivered(headers: map<string, string>, v: string)
    requires "Authorization" in headers && Trim(headers["Authorization"]) == v
    requires forall j :: 0 <= j < |v| ==> IsPrintable(v[j])
    ensures Transmit(headers) == Delivered(ServerRequest(v))
  {
    forall j | 0 <= j < |v| ensures !Unsendable(v[j]) && !Unparsable(v[j]) {
      assert IsPrintable(v[j]);
    }
    assert !AnyUnsendable(v) && !AnyUnparsable(v);
  }

  /** `Bearer ` followed by printable characters is printable. */
  lemma BearerPrintable(t: string)
    requires forall j :: 0 <= j < |t| ==> IsPrintable(t[j])
    ensures forall j :: 0 <= j < |"Bearer " + t| ==> IsPrintable(("Bearer " + t)[j])
  {
    var h := "Bearer " + t;
    forall j | 0 <= j < |h| ensures IsPrintable(h[j]) {
      if j >= 7 {
        assert h[j] == t[j - 7];
      }
    }
  }

  /**
   * When the client's bearer header trims to `Bearer ` and printable
   * characters `t`, the middleware gets exactly that value.
   */
  lemma ClientHeaderDelivered(headers: map<string, string>, items: map<string, string>, t: string)
    requires HttpClient.StoredToken(items).Some?
    requires Trim(HttpClient.BearerHeader(HttpClient.StoredToken(items).value)) == "Bearer " + t
    requires forall j :: 0 <= j < |t| ==> IsPrintable(t[j])
    ensures Transmit(HttpClient.WithAuthorization(headers, items)) == Delivered(ServerRequest("Bearer " + t))
  {
    var out := HttpClient.WithAuthorization(headers, items);
    assert out["Authorization"] == HttpClient.BearerHeader(HttpClient.StoredToken(items).value);
    BearerPrintable(t);
    PrintableDelivered(out, "Bearer " + t);
  }

  /** A header that is `Bearer ` and non-empty visible text has no whitespace to trim. */
  lemma VisibleBearerUntrimmed(t: string)
    requires t != [] && forall j :: 0 <= j < |t| ==> IsVisible(t[j])
    ensures Trim(HttpClient.BearerHeader(t)) == HttpClient.BearerHeader(t)
  {
    var h := HttpClient.BearerHeader(t);
    assert h[0] == 'B';
    assert h[|h| - 1] == t[|t| - 1];
    assert IsVisible(t[|t| - 1]);
    assert !IsHttpWhitespace(h[|h| - 1]);
  }

  /**
   * The middleware's decision on a delivered bearer header with a token of
   * visible characters (so without spaces) is the verifier's.
   */
  lemma VisibleTokenAccepted(token: string, verify: string -> AuthMiddleware.VerifyResult)
    requires forall j :: 0 <= j < |token| ==> IsVisible(token[j])
    ensures var req := ServerRequest(HttpClient.BearerHeader(token));
      && AuthMiddleware.ExtractToken(AuthMiddleware.AuthHeader(req)) == Some(token)
      && AuthMiddleware.Authenticate(req, verify) == AuthMiddleware.AfterVerify(req, verify(token))
  {
    assert ' ' !in token by {
      forall j | 0 <= j < |token| ensures token[j] != ' ' {
        assert IsVisible(token[j]);
      }
    }
    AuthMiddleware.BearerRoundTrip(token);
  }

  /**
   * A stored token of visible characters is delivered unchanged, the
   * middleware extracts that same token, and its decision is the verifier's
   * answer for it.
   */
  lemma StoredTokenReachesVerifier(
    headers: map<string, string>, items: map<string, string>, verify: string -> AuthMiddleware.VerifyResult)
    requires HttpClient.StoredToken(items).Some?
    requires forall j :: 0 <= j < |HttpClient.StoredToken(items).value| ==> IsVisible(HttpClient.StoredToken(items).value[j])
    ensures var token := HttpClient.StoredToken(items).value;
      var req := ServerRequest(HttpClient.BearerHeader(token));
      && Transmit(HttpClient.WithAuthorization(headers, items)) == Delivered(req)
      && AuthMiddleware.ExtractToken(AuthMiddleware.AuthHeader(req)) == Some(token)
      && AuthMiddleware.Authenticate(req, verify) == AuthMiddleware.AfterVerify(req, verify(token))
  {
    var token := HttpClient.StoredToken(items).value;
    VisibleBearerUntrimmed(token);
    ClientHeaderDelivered(headers, items, token);
    VisibleTokenAccepted(token, verify);
  }

  /** Whitespace after a non-whitespace character is all that `TrimEnd` removes. */
  lemma TrimEndDropsTail(p: string, tail: string)
    requires p != [] && !IsHttpWhitespace(p[|p| - 1])
    requires forall j :: 0 <= j < |tail| ==> IsHttpWhitespace(tail[j])
    ensures TrimEnd(p + tail) == p
  {
    assert TrimEnd(tail) == [];
    TrimEndAppend(p, tail);
  }

  /**
   * Whitespace at the end of a stored token never reaches the server: the
   * browser trims it, and the verifier is given the token without it.
   */
  lemma TrailingWhitespaceTrimmed(
    headers: map<string, string>, items: map<string, string>, core: string, tail: string,
    verify: string -> AuthMiddleware.VerifyResult)
    requires HttpClient.StoredToken(items) == Some(core + tail)
    requires core != [] && forall j :: 0 <= j < |core| ==> IsVisible(core[j])
    requires forall j :: 0 <= j < |tail| ==> IsHttpWhitespace(tail[j])
    ensures var req := ServerRequest(HttpClient.BearerHeader(core));
      && Transmit(HttpClient.WithAuthorization(headers, items)) == Delivered(req)
      && AuthMiddleware.ExtractToken(AuthMiddleware.AuthHeader(req)) == Some(core)
      && AuthMiddleware.Authenticate(req, verify) == AuthMiddleware.AfterVerify(req, verify(core))
  {
    var p := HttpClient.BearerHeader(core);
    assert HttpClient.BearerHeader(core + tail) == p + tail;
    assert p[|p| - 1] == core[|core| - 1];
    TrimEndDropsTail(p, tail);
    VisibleBearerUntrimmed(core);
    assert Trim(p + tail) == p;
    ClientHeaderDelivered(headers, items, core);
    VisibleTokenAccepted(core, verify);
  }

  /** A bearer header whose token part holds a space is refused as badly formatted. */
  lemma SpacedBearerRefused(t: string, verify: string -> AuthMiddleware.VerifyResult)
    requires ' ' in t
    ensures AuthMiddleware.Authenticate(ServerRequest("Bearer " + t), verify)
            == AuthMiddleware.Respond(AuthMiddleware.BadFormat)
  {
    var v := "Bearer " + t;
    assert v[7..] == t;
  }

  /** A token with something other than whitespace in it keeps all but its trailing whitespace. */
  lemma BearerTrimsTokenEnd(token: string)
    requires TrimEnd(token) != []
    ensures Trim(HttpClient.BearerHeader(token)) == "Bearer " + TrimEnd(token)
  {
    var t := TrimEnd(token);
    TrimEndAppend("Bearer ", token);
    var v := "Bearer " + t;
    assert TrimEnd(HttpClient.BearerHeader(token)) == v;
    assert v[0] == 'B';
    assert TrimStart(v) == v;
  }

  /**
   * A stored token of printable characters with a space before its end is
   * delivered and refused as badly formatted, whatever the verifier says.
   */
  lemma SpacedTokenRejected(
    headers: map<string, string>, items: map<string, string>, verify: string -> AuthMiddleware.VerifyResult)
    requires HttpClient.StoredToken(items).Some?
    requires forall j :: 0 <= j < |HttpClient.StoredToken(items).value| ==> IsPrintable(HttpClient.StoredToken(items).value[j])
    requires ' ' in TrimEnd(HttpClient.StoredToken(items).value)
    ensures var d := Transmit(HttpClient.WithAuthorization(headers, items));
      && d.Delivered?
      && AuthMiddleware.Authenticate(d.request, verify) == AuthMiddleware.Respond(AuthMiddleware.BadFormat)
  {
    var token := HttpClient.StoredToken(items).value;
    var t := TrimEnd(token);
    BearerTrimsTokenEnd(token);
    assert forall j :: 0 <= j < |t| ==> IsPrintable(t[j]) by {
      assert forall j :: 0 <= j < |t| ==> t[j] == token[j];
    }
    ClientHeaderDelivered(headers, items, t);
    SpacedBearerRefused(t, verify);
  }

  /**
   * A stored token holding a character the browser cannot send (at `j`)
   * with something other than whitespace at or after it (at `m`) is never
   * sent: only whitespace at the ends is trimmed, so that character stays in
   * the value. The request fails without a response, so the stored session
   * is kept.
   */
  lemma UnsendableTokenNotSent(headers: map<string, string>, items: map<string, string>, j: nat, m: nat)
    requires HttpClient.StoredToken(items).Some?
    requires j <= m < |HttpClient.StoredToken(items).value|
    requires Unsendable(HttpClient.StoredToken(items).value[j])
    requires !IsHttpWhitespace(HttpClient.StoredToken(items).value[m])
    ensures Transmit(HttpClient.WithAuthorization(headers, items)) == NotSent
    ensures HttpClient.AfterResponse(items, HttpClient.Rejected(HttpClient.HttpError(None))) == items
  {
    var token := HttpClient.StoredToken(items).value;
    var h := HttpClient.BearerHeader(token);
    var i := TrimIsInfix(h);
    assert h[0] == 'B';
    assert i == 0;
    assert h[7 + m] == token[m];
    assert 7 + m < i + |Trim(h)|;
    assert Trim(h)[7 + j] == token[j];
    assert AnyUnsendable(Trim(h));
  }

  /**
   * A stored token of sendable characters holding a control character the
   * server's parser refuses gets 400 before the middleware runs.
   */
  lemma ControlCharacterRefused(headers: map<string, string>, items: map<string, string>, j: nat)
    requires HttpClient.StoredToken(items).Some?
    requires forall i :: 0 <= i < |HttpClient.StoredToken(items).value| ==> !Unsendable(HttpClient.StoredToken(items).value[i])
    requires j < |HttpClient.StoredToken(items).value|
    requires Unparsable(HttpClient.StoredToken(items).value[j])
    ensures Transmit(HttpClient.WithAuthorization(headers, items)) == BadRequest
  {
    var token := HttpClient.StoredToken(items).value;
    var h := HttpClient.BearerHeader(token);
    assert h[7 + j] == token[j];
    assert forall i :: 0 <= i < |h| ==> !Unsendable(h[i]) by {
      assert forall i :: 7 <= i < |h| ==> h[i] == token[i - 7];
    }
    TrimKeepsCharacters(h);
    var v := Trim(h);
    forall i | 0 <= i < |v| ensures !Unsendable(v[i]) {
      var m :| 0 <= m < |h| && h[m] == v[i];
    }
    var k :| 0 <= k < |v| && v[k] == token[j];
    assert !AnyUnsendable(v) && AnyUnparsable(v);
  }

  /**
   * A 401 from the middleware logs the client out: the stored token and user
   * go, and the next request without an `Authorization` header of its own is
   * answered "Authorization header missing".
   */
  lemma UnauthorizedEndsSession(
    reply: AuthMiddleware.Reply, headers: map<string, string>, items: map<string, string>,
    verify: string -> AuthMiddleware.VerifyResult)
    requires reply.status == 401
    requires "Authorization" !in headers
    ensures var after := HttpClient.AfterResponse(items, AsSettled(reply));
      && "token" !in after && "user" !in after
      && Transmit(HttpClient.WithAuthorization(headers, after)) == Delivered(AuthMiddleware.Request(map[], None))
      && AuthMiddleware.Authenticate(AuthMiddleware.Request(map[], None), verify)
         == AuthMiddleware.Respond(AuthMiddleware.MissingHeader)
  {
  }

  /**
   * A 403 from the middleware (a token the verifier refuses as invalid) keeps
   * the session: the same token is stored and sent again.
   */
  lemma ForbiddenKeepsSession(reply: AuthMiddleware.Reply, headers: map<string, string>, items: map<string, string>)
    requires reply.status == 403
    ensures HttpClient.AfterResponse(items, AsSettled(reply)) == items
    ensures HttpClient.WithAuthorization(headers, HttpClient.AfterResponse(items, AsSettled(reply)))
            == HttpClient.WithAuthorization(headers, items)
  {
  }
}
