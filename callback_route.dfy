/**
 * `GET /auth/callback` (`app/auth/callback/route.ts`): the redirect target of the
 * hosted login. It rejects a provider error or a missing code, otherwise makes the
 * authorization-code token request of section 4.1.3 of RFC 6749 and stores the tokens
 * it gets back as cookies. The fetch response is an input; the request the route would
 * send is an output.
 */
module CallbackRoute {
  import opened Wrappers
  import opened Strings
  import opened Encoding
  import opened Api
  import opened HostedAuth
  import opened Cookies

  /** The `code` and `error` search parameters; `None` when absent. */
  datatype Query = Query(code: Option<string>, error: Option<string>)

  const LoginFailed := "login_failed"
  const ErrorPrefix := "/?error="
  const TokenExchangeFailed := "/?error=token_exchange_failed"
  const Dashboard := "/dashboard"
  const DefaultMaxAge := 3600
  /** 30 days, in seconds. */
  const RefreshMaxAge := 30 * 24 * 60 * 60

  /** A string is truthy when it is present and not empty. */
  predicate Truthy(s: Option<string>)
  {
    s.Some? && s.value != ""
  }

  /** `error || !code`: the route gives up before any token request. */
  predicate Rejected(q: Query)
  {
    Truthy(q.error) || !Truthy(q.code)
  }

  /** `error || "login_failed"`. */
  function Reason(q: Query): (r: string)
    ensures Truthy(q.error) ==> r == q.error.value
    ensures !Truthy(q.error) ==> r == LoginFailed
  {
    if Truthy(q.error) then q.error.value else LoginFailed
  }

  /**
   * The error redirect: the reason travels percent-encoded after `/?error=`, and a
   * decoder reads back exactly the reason.
   */
  function ErrorLocation(q: Query): (loc: string)
    ensures |loc| >= |ErrorPrefix| && loc[..|ErrorPrefix|] == ErrorPrefix
    ensures Decode(UriComponent, loc[|ErrorPrefix|..]) == Some(Reason(q))
    ensures '&' !in loc[|ErrorPrefix|..]
  {
    var enc := Encode(UriComponent, Reason(q));
    EncodeRoundTrip(UriComponent, UriComponent, Reason(q));
    EncodeChars(UriComponent, Reason(q));
    var loc := ErrorPrefix + enc;
    assert loc[|ErrorPrefix|..] == enc;
    loc
  }

  /**
   * `CLIENT_SECRET` in a template literal: the string itself, or `"undefined"` when the
   * variable is not set.
   */
  function SecretText(secret: Option<string>): string
  {
    if secret.Some? then secret.value else "undefined"
  }

  /**
   * The token request this route builds itself: the form content type, a Basic header
   * that is always present, and a `URLSearchParams` body that a form parser reads back
   * as the four authorization-code parameters.
   */
  function CallbackRequest(cfg: Config, code: string): (r: TokenRequest)
    ensures r.url == cfg.domain + "/oauth2/token"
    ensures r.headers.Keys <= {"Content-Type", "Authorization"}
    ensures "Content-Type" in r.headers && r.headers["Content-Type"] == FormContentType
    ensures "Authorization" in r.headers && r.headers["Authorization"] == "Basic " + BasicCredential(cfg.clientId, SecretText(cfg.clientSecret))
    ensures ParseQuery(FormUrlencoded, r.body) == Some(TokenParams(cfg, code))
  {
    var body := Serialize(FormUrlencoded, TokenParams(cfg, code));
    SerializeRoundTrip(FormUrlencoded, FormUrlencoded, TokenParams(cfg, code));
    var headers := map["Content-Type" := FormContentType];
    var headers := headers["Authorization" := "Basic " + BasicCredential(cfg.clientId, SecretText(cfg.clientSecret))];
    TokenRequest(cfg.domain + "/oauth2/token", headers, body)
  }

  /**
   * With a client secret set, the route's request and the one `exchangeCodeForTokens`
   * builds agree: same endpoint, same headers, and bodies that parse to the same
   * parameters (they differ only in how a space is escaped).
   */
  lemma CallbackMatchesExchange(cfg: Config, code: string)
    requires HasSecret(cfg)
    ensures CallbackRequest(cfg, code).url == ExchangeRequest(cfg, code).url
    ensures CallbackRequest(cfg, code).headers == ExchangeRequest(cfg, code).headers
    ensures ParseQuery(FormUrlencoded, CallbackRequest(cfg, code).body)
         == ParseQuery(FormUrlencoded, ExchangeRequest(cfg, code).body)
  {
    var r := CallbackRequest(cfg, code);
    var e := ExchangeRequest(cfg, code);
    assert r.headers.Keys == e.headers.Keys;
  }

  /**
   * Without a client secret the route still sends a Basic header, whose credential
   * decodes to `clientId:undefined`; `exchangeCodeForTokens` sends none.
   */
  lemma UnsetSecretStillSendsBasic(cfg: Config, code: string)
    requires cfg.clientSecret.None?
    requires ':' !in cfg.clientId
    ensures "Authorization" !in ExchangeRequest(cfg, code).headers
    ensures CallbackRequest(cfg, code).headers["Authorization"]
         == "Basic " + BasicCredential(cfg.clientId, "undefined")
    ensures Base64Decode(BasicCredential(cfg.clientId, "undefined")).Some?
    ensures Utf8Decode(Base64Decode(BasicCredential(cfg.clientId, "undefined")).value)
         == Some(cfg.clientId + ":" + "undefined")
  {
    BasicCredentialRecoverable(cfg.clientId, "undefined");
  }

  /** `Number(expires_in || 3600)`: an absent or zero lifetime falls back to an hour. */
  function MaxAge(expiresIn: Option<int>): (age: int)
    ensures expiresIn.None? ==> age == DefaultMaxAge
    ensures expiresIn.Some? ==> age == (if expiresIn.value == 0 then DefaultMaxAge else expiresIn.value)
  {
    if expiresIn.None? || expiresIn.value == 0 then DefaultMaxAge else expiresIn.value
  }

  /** The attributes every cookie of the route gets. */
  function SessionCookie(value: string, production: bool, maxAge: int): Cookie
  {
    Cookie(value, true, production, "/", maxAge)
  }

  /** The cookies a successful exchange writes, by name. */
  function Written(tokens: TokenSet, production: bool): map<string, Cookie>
  {
    var age := MaxAge(tokens.expiresIn);
    var session := map["id_token" := SessionCookie(tokens.idToken, production, age),
                       "access_token" := SessionCookie(tokens.accessToken, production, age)];
    if Truthy(tokens.refreshToken)
    then session["refresh_token" := SessionCookie(tokens.refreshToken.value, production, RefreshMaxAge)]
    else session
  }

  /**
   * What a successful exchange writes: both session tokens with the provider's
   * lifetime, the refresh token exactly when the provider returned a non-empty one and
   * then for 30 days, nothing else; every cookie `httpOnly`, on path `/`, and `secure`
   * exactly in production.
   */
  lemma WrittenCookies(tokens: TokenSet, production: bool)
    ensures var w := Written(tokens, production);
      && w.Keys <= {"id_token", "access_token", "refresh_token"}
      && "id_token" in w && w["id_token"].value == tokens.idToken
      && w["id_token"].maxAge == MaxAge(tokens.expiresIn)
      && "access_token" in w && w["access_token"].value == tokens.accessToken
      && w["access_token"].maxAge == MaxAge(tokens.expiresIn)
      && ("refresh_token" in w <==> Truthy(tokens.refreshToken))
      && ("refresh_token" in w ==> w["refresh_token"].value == tokens.refreshToken.value
                                    && w["refresh_token"].maxAge == 2592000)
      && (forall name :: name in w ==>
            w[name].httpOnly && w[name].path == "/" && w[name].secure == production)
  {
    var w := Written(tokens, production);
    assert "id_token"[0] != "access_token"[0] && "id_token"[0] != "refresh_token"[0];
    assert "access_token"[0] != "refresh_token"[0];
  }

  /**
   * The route. Rejected queries and failed exchanges redirect with an error and leave
   * the store as it was; a successful exchange adds `Written(...)` to the store,
   * replacing cookies of the same name, and redirects to the dashboard.
   */
  method Get(store: CookieJar, cfg: Config, production: bool, query: Query, response: TokenResponse)
    returns (sent: Option<TokenRequest>, location: string)
    modifies store
    ensures Rejected(query) ==> sent == None && location == ErrorLocation(query)
    ensures !Rejected(query) ==> sent == Some(CallbackRequest(cfg, query.code.value))
    ensures (Rejected(query) || !IsOk(response.status)) ==> store.entries == old(store.entries)
    ensures !Rejected(query) && !IsOk(response.status) ==> location == TokenExchangeFailed
    ensures !Rejected(query) && IsOk(response.status) ==>
      location == Dashboard && store.entries == old(store.entries) + Written(response.tokens, production)
  {
    if Rejected(query) {
      return None, ErrorLocation(query);
    }
    sent := Some(CallbackRequest(cfg, query.code.value));
    if !IsOk(response.status) {
      return sent, TokenExchangeFailed;
    }
    StoreTokens(store, response.tokens, production);
    location := Dashboard;
  }

  /** The cookie writes of a successful exchange, in the order the route makes them. */
  method StoreTokens(store: CookieJar, tokens: TokenSet, production: bool)
    modifies store
    ensures store.entries == old(store.entries) + Written(tokens, production)
  {
    var maxAge := MaxAge(tokens.expiresIn);
    store.Set("id_token", SessionCookie(tokens.idToken, production, maxAge));
    store.Set("access_token", SessionCookie(tokens.accessToken, production, maxAge));
    if Truthy(tokens.refreshToken) {
      store.Set("refresh_token", SessionCookie(tokens.refreshToken.value, production, RefreshMaxAge));
    }
  }
}
