/**
 * The browser's HTTP client instance of frontend/src/utils/axios.js and its
 * two interceptors: before each request the stored token is attached as a
 * bearer `Authorization` header; when a response fails with status 401 the
 * stored session (`token` and `user`) is removed. Every response, failed or
 * not, reaches the caller as it came.
 */
module HttpClient {
  import opened Wrappers

  /** `window.localStorage`: string keys to string values. */
  class Storage {
    var items: map<string, string>

    constructor (items: map<string, string>)
      ensures this.items == items
    {
      this.items := items;
    }

    /** `getItem(key)`, with `null` as None. */
    method GetItem(key: string) returns (v: Option<string>)
      ensures v.Some? <==> key in items
      ensures v.Some? ==> v.value == items[key]
    {
      v := if key in items then Some(items[key]) else None;
    }

    /** `removeItem(key)`: that key goes, nothing else changes. */
    method RemoveItem(key: string)
      modifies this
      ensures items == old(items) - {key}
    {
      items := items - {key};
    }
  }

  /** The token the request interceptor attaches: the stored `token`, when it is truthy (present and not ""). */
  function StoredToken(items: map<string, string>): (t: Option<string>)
    ensures t.Some? <==> "token" in items && items["token"] != ""
    ensures t.Some? ==> t.value == items["token"] && t.value != ""
  {
    if "token" in items && items["token"] != "" then Some(items["token"]) else None
  }

  /** The header value `Bearer ${token}` (axios.js:14). */
  function BearerHeader(token: string): (h: string)
    ensures |h| == |token| + 7 && h[..7] == "Bearer " && h[7..] == token
  {
    "Bearer " + token
  }

  /**
   * The request headers after the request interceptor (axios.js:12-16): a
   * truthy stored token sets `Authorization`, and nothing else changes.
   */
  function WithAuthorization(headers: map<string, string>, items: map<string, string>): (r: map<string, string>)
    ensures StoredToken(items).None? ==> r == headers
    ensures StoredToken(items).Some? ==>
      r.Keys == headers.Keys + {"Authorization"} && r["Authorization"] == BearerHeader(StoredToken(items).value)
    ensures forall k :: k in headers && k != "Authorization" ==> k in r && r[k] == headers[k]
  {
    match StoredToken(items)
    case None => headers
    case Some(token) => headers["Authorization" := BearerHeader(token)]
  }

  /** The parts of an outgoing request configuration that this model distinguishes. */
  class RequestConfig {
    var url: string
    var verb: string
    var headers: map<string, string>

    constructor (url: string, verb: string, headers: map<string, string>)
      ensures this.url == url && this.verb == verb && this.headers == headers
    {
      this.url, this.verb, this.headers := url, verb, headers;
    }
  }

  /** The request interceptor (axios.js:11-17): the same config object comes back, only its headers changed. */
  method OnRequest(config: RequestConfig, storage: Storage) returns (r: RequestConfig)
    modifies config`headers
    ensures r == config
    ensures config.headers == WithAuthorization(old(config.headers), storage.items)
  {
    var token := storage.GetItem("token");
    if token.Some? && token.value != "" {
      config.headers := config.headers["Authorization" := "Bearer " + token.value];
    }
    r := config;
  }

  /** A response from the server. */
  datatype HttpResponse = HttpResponse(status: int, body: string)

  /** A failed request; `response` is None when no response arrived (a network error or a timeout). */
  datatype HttpError = HttpError(response: Option<HttpResponse>)

  /** How a request settled: the promise the caller awaits is fulfilled or rejected. */
  datatype Settled = Fulfilled(response: HttpResponse) | Rejected(error: HttpError)

  /**
   * The test of axios.js:27, `error.response?.status === 401`: an error
   * without a response never ends the session, and one with a response does
   * exactly when its status is 401.
   */
  predicate IsUnauthorized(e: HttpError): (r: bool)
    ensures e.response.None? ==> !r
    ensures e.response.Some? ==> (r <==> e.response.value.status == 401)
  {
    e.response.Some? && e.response.value.status == 401
  }

  /**
   * The stored items after the response interceptor (axios.js:24-34): a
   * rejection with status 401 removes `token` and `user`.
   */
  function AfterResponse(items: map<string, string>, result: Settled): (r: map<string, string>)
    ensures result.Rejected? && IsUnauthorized(result.error) ==>
      r.Keys == items.Keys - {"token", "user"} && StoredToken(r).None?
    ensures !(result.Rejected? && IsUnauthorized(result.error)) ==> r == items
    ensures forall k :: k in items && k != "token" && k != "user" ==> k in r && r[k] == items[k]
  {
    if result.Rejected? && IsUnauthorized(result.error) then items - {"token", "user"} else items
  }

  /** The response interceptor (axios.js:24-35): storage updated, and the result passed on as it came. */
  method OnResponse(result: Settled, storage: Storage) returns (r: Settled)
    modifies storage
    ensures r == result
    ensures storage.items == AfterResponse(old(storage.items), result)
  {
    if result.Rejected? && IsUnauthorized(result.error) {
      storage.RemoveItem("token");
      storage.RemoveItem("user");
    }
    r := result;
  }

  /** After a 401 the next request carries no `Authorization` header of the interceptor's making. */
  lemma NoHeaderAfterUnauthorized(headers: map<string, string>, items: map<string, string>, e: HttpError)
    requires IsUnauthorized(e)
    ensures WithAuthorization(headers, AfterResponse(items, Rejected(e))) == headers
  {
  }
}
