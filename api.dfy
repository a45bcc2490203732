/**
 * The API gateway of `lib/api.ts`: each call reads the `id_token` cookie, fails locally
 * when it is missing or empty, otherwise sends one request carrying it as a bearer
 * credential (section 2.1 of RFC 6750) and fails on a status outside 200-299.
 * The response is an input: it is what the server answers if a request is sent.
 */
module Api {
  import opened Wrappers
  import opened Strings
  import opened Json
  import opened AuthServer

  datatype HttpMethod = GET | POST

  /** A `fetch` call; `body` is the value whose `JSON.stringify` is sent. */
  datatype Request = Request(verb: HttpMethod, url: string, headers: seq<(string, string)>,
                             body: Option<Json>, noStore: bool)

  /** The server's answer: status code and parsed JSON body. */
  datatype Response = Response(status: int, body: Json)

  datatype ApiError = NotAuthenticated(message: string) | RequestFailed(message: string)

  /** What a gateway call did: the request it sent, if any, and how it ended. */
  datatype Call = Call(sent: Option<Request>, outcome: Result<Json, ApiError>)

  const NotAuthenticatedMessage := "Not authenticated (no access_token cookie)"

  /** `cookieStore.get("id_token")?.value`, where an empty value counts as missing. */
  function BearerToken(cookies: RequestCookies): (token: Option<string>)
    ensures token.Some? <==> IdTokenCookie in cookies && cookies[IdTokenCookie] != ""
    ensures token.Some? ==> token.value == cookies[IdTokenCookie]
  {
    if IdTokenCookie in cookies && cookies[IdTokenCookie] != "" then Some(cookies[IdTokenCookie]) else None
  }

  /** `Response.ok`. */
  predicate IsOk(status: int)
  {
    200 <= status <= 299
  }

  function AuthorizationHeader(token: string): (string, string)
  {
    ("Authorization", "Bearer " + token)
  }

  /** `API GET /path failed: 404`: names the method, the path and the status. */
  function FailureMessage(verb: string, path: string, status: int): (m: string)
    ensures |m| == |verb| + |path| + |IntToString(status)| + 14
    ensures m[..4] == "API " && m[4..4 + |verb|] == verb
    ensures m[4 + |verb| + 1..4 + |verb| + 1 + |path|] == path
    ensures m[|m| - |IntToString(status)|..] == IntToString(status)
  {
    "API " + verb + " " + path + " failed: " + IntToString(status)
  }

  /** The outcome once a request was sent. */
  function Classify(verb: string, path: string, response: Response): (r: Result<Json, ApiError>)
    ensures r.Success? <==> IsOk(response.status)
    ensures r.Success? ==> r.value == response.body
    ensures r.Failure? ==> r.error == RequestFailed(FailureMessage(verb, path, response.status))
  {
    if IsOk(response.status) then Success(response.body)
    else Failure(RequestFailed(FailureMessage(verb, path, response.status)))
  }

  /** `apiGet(path)`. */
  function ApiGet(cookies: RequestCookies, apiBase: string, path: string, response: Response): (c: Call)
    ensures c.sent.None? <==> BearerToken(cookies).None?
    ensures c.sent.None? ==> c.outcome == Failure(NotAuthenticated(NotAuthenticatedMessage))
    ensures c.sent.Some? ==>
      && c.sent.value == Request(GET, apiBase + path, [AuthorizationHeader(cookies[IdTokenCookie])], None, true)
      && c.outcome == Classify("GET", path, response)
  {
    match BearerToken(cookies)
    case None => Call(None, Failure(NotAuthenticated(NotAuthenticatedMessage)))
    case Some(token) =>
      Call(Some(Request(GET, apiBase + path, [AuthorizationHeader(token)], None, true)),
           Classify("GET", path, response))
  }

  /** `apiPost(path, body)`: the same local check, then a JSON POST. */
  function ApiPost(cookies: RequestCookies, apiBase: string, path: string, body: Json, response: Response): (c: Call)
    ensures c.sent.None? <==> BearerToken(cookies).None?
    ensures c.sent.None? ==> c.outcome == Failure(NotAuthenticated(NotAuthenticatedMessage))
    ensures c.sent.Some? ==>
      && c.sent.value == Request(POST, apiBase + path,
                                 [AuthorizationHeader(cookies[IdTokenCookie]), ("Content-Type", "application/json")],
                                 Some(body), false)
      && c.outcome == Classify("POST", path, response)
  {
    match BearerToken(cookies)
    case None => Call(None, Failure(NotAuthenticated(NotAuthenticatedMessage)))
    case Some(token) =>
      Call(Some(Request(POST, apiBase + path, [AuthorizationHeader(token), ("Content-Type", "application/json")],
                        Some(body), false)),
           Classify("POST", path, response))
  }

  /**
   * The credential is the `id_token` cookie: changing any other cookie, `access_token`
   * included, changes neither call.
   */
  lemma OnlyIdTokenMatters(cookies: RequestCookies, name: string, value: string,
                           apiBase: string, path: string, body: Json, response: Response)
    requires name != IdTokenCookie
    ensures ApiGet(cookies[name := value], apiBase, path, response) == ApiGet(cookies, apiBase, path, response)
    ensures ApiPost(cookies[name := value], apiBase, path, body, response)
         == ApiPost(cookies, apiBase, path, body, response)
  {
    assert BearerToken(cookies[name := value]) == BearerToken(cookies);
  }

  /** Without a token no request is sent, whatever the server would have answered. */
  lemma NoTokenNoRequest(cookies: RequestCookies, apiBase: string, path: string, body: Json,
                         response: Response, response': Response)
    requires BearerToken(cookies).None?
    ensures ApiGet(cookies, apiBase, path, response) == ApiGet(cookies, apiBase, path, response')
    ensures ApiPost(cookies, apiBase, path, body, response) == ApiPost(cookies, apiBase, path, body, response')
  {
  }
}
