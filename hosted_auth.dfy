/**
 * The hosted-login helpers of `lib/auth.ts`: the login and logout URLs of the identity
 * provider, and the authorization-code token request (section 4.1.3 of RFC 6749),
 * which carries HTTP Basic client credentials (section 2 of RFC 7617) when a client
 * secret is configured. The environment variables are a `Config` value.
 */
module HostedAuth {
  import opened Wrappers
  import opened Strings
  import opened Encoding
  import opened Api

  datatype Config = Config(domain: string, clientId: string, redirectUri: string,
                           logoutRedirectUri: string, clientSecret: Option<string>)

  /** The token set the provider returns; `expiresIn` is `None` when the field is absent. */
  datatype TokenSet = TokenSet(idToken: string, accessToken: string, refreshToken: Option<string>,
                               expiresIn: Option<int>, tokenType: string)

  /** The provider's answer to a token request. */
  datatype TokenResponse = TokenResponse(status: int, tokens: TokenSet)

  /** A POST to the token endpoint: URL, header map and form body. */
  datatype TokenRequest = TokenRequest(url: string, headers: map<string, string>, body: string)

  const LoginScope := "email openid phone"
  const FormContentType := "application/x-www-form-urlencoded"
  const ExchangeFailedMessage := "Failed to exchange code for tokens"

  function LoginParams(cfg: Config): seq<(string, string)>
  {
    [("client_id", cfg.clientId), ("response_type", "code"), ("scope", LoginScope),
     ("redirect_uri", cfg.redirectUri)]
  }

  function LogoutParams(cfg: Config): seq<(string, string)>
  {
    [("client_id", cfg.clientId), ("logout_uri", cfg.logoutRedirectUri)]
  }

  /**
   * `getHostedLoginUrl()`: the `/login` page of the provider's domain, whose query a
   * form parser reads back as exactly `client_id`, `response_type=code`, the scope and
   * `redirect_uri`, in that order.
   */
  function HostedLoginUrl(cfg: Config): (url: string)
    ensures |url| >= |cfg.domain| + 7 && url[..|cfg.domain| + 7] == cfg.domain + "/login?"
    ensures ParseQuery(FormUrlencoded, url[|cfg.domain| + 7..]) == Some(LoginParams(cfg))
  {
    var query := Serialize(FormUrlencoded, LoginParams(cfg));
    SerializeRoundTrip(FormUrlencoded, FormUrlencoded, LoginParams(cfg));
    var url := cfg.domain + "/login?" + query;
    assert url[|cfg.domain| + 7..] == query;
    url
  }

  /** `getHostedLogoutUrl()`: the `/logout` page with `client_id` and `logout_uri`, in that order. */
  function HostedLogoutUrl(cfg: Config): (url: string)
    ensures |url| >= |cfg.domain| + 8 && url[..|cfg.domain| + 8] == cfg.domain + "/logout?"
    ensures ParseQuery(FormUrlencoded, url[|cfg.domain| + 8..]) == Some(LogoutParams(cfg))
  {
    var query := Serialize(FormUrlencoded, LogoutParams(cfg));
    SerializeRoundTrip(FormUrlencoded, FormUrlencoded, LogoutParams(cfg));
    var url := cfg.domain + "/logout?" + query;
    assert url[|cfg.domain| + 8..] == query;
    url
  }

  /** A client secret is used when it is set and not empty (`if (clientSecret)`). */
  predicate HasSecret(cfg: Config)
  {
    cfg.clientSecret.Some? && cfg.clientSecret.value != ""
  }

  /** The Basic credential: base64 of the UTF-8 bytes of `user:password`. */
  function BasicCredential(user: string, password: string): string
  {
    Base64(Utf8(user + ":" + password))
  }

  function TokenParams(cfg: Config, code: string): seq<(string, string)>
  {
    [("grant_type", "authorization_code"), ("client_id", cfg.clientId), ("code", code),
     ("redirect_uri", cfg.redirectUri)]
  }

  /** The header map of `exchangeCodeForTokens`: `Authorization` is inserted only with a secret. */
  function ExchangeHeaders(cfg: Config): (h: map<string, string>)
    ensures "Content-Type" in h && h["Content-Type"] == FormContentType
    ensures "Authorization" in h <==> HasSecret(cfg)
    ensures "Authorization" in h ==>
      h["Authorization"] == "Basic " + BasicCredential(cfg.clientId, cfg.clientSecret.value)
    ensures h.Keys <= {"Content-Type", "Authorization"}
  {
    var headers := map["Content-Type" := FormContentType];
    if HasSecret(cfg)
    then headers["Authorization" := "Basic " + BasicCredential(cfg.clientId, cfg.clientSecret.value)]
    else headers
  }

  /**
   * The request `exchangeCodeForTokens(code)` sends: always the form content type,
   * `Authorization: Basic ...` exactly when a secret is set, and a `querystring.stringify`
   * body that a form parser reads back as the four authorization-code parameters.
   */
  function ExchangeRequest(cfg: Config, code: string): (r: TokenRequest)
    ensures r.url == cfg.domain + "/oauth2/token"
    ensures "Content-Type" in r.headers && r.headers["Content-Type"] == FormContentType
    ensures "Authorization" in r.headers <==> HasSecret(cfg)
    ensures "Authorization" in r.headers ==>
      r.headers["Authorization"] == "Basic " + BasicCredential(cfg.clientId, cfg.clientSecret.value)
    ensures r.headers.Keys <= {"Content-Type", "Authorization"}
    ensures ParseQuery(FormUrlencoded, r.body) == Some(TokenParams(cfg, code))
  {
    var body := Serialize(UriComponent, TokenParams(cfg, code));
    SerializeRoundTrip(UriComponent, FormUrlencoded, TokenParams(cfg, code));
    TokenRequest(cfg.domain + "/oauth2/token", ExchangeHeaders(cfg), body)
  }

  /** `exchangeCodeForTokens(code)`: the request sent, and the token set or the thrown error. */
  function ExchangeCodeForTokens(cfg: Config, code: string, response: TokenResponse)
    : (r: (TokenRequest, Result<TokenSet, string>))
    ensures r.0 == ExchangeRequest(cfg, code)
    ensures r.1.Success? <==> IsOk(response.status)
    ensures r.1.Success? ==> r.1.value == response.tokens
    ensures r.1.Failure? ==> r.1.error == ExchangeFailedMessage
  {
    (ExchangeRequest(cfg, code),
     if IsOk(response.status) then Success(response.tokens) else Failure(ExchangeFailedMessage))
  }

  /**
   * A receiver recovers both halves of the Basic credential when the user part has no
   * colon, as section 2 of RFC 7617 requires of a user-id.
   */
  lemma BasicCredentialRecoverable(user: string, password: string)
    requires ':' !in user
    ensures Base64Decode(BasicCredential(user, password)).Some?
    ensures var text := Utf8Decode(Base64Decode(BasicCredential(user, password)).value);
            && text == Some(user + ":" + password)
            && Split(text.value, ':')[0] == user
            && Join(Split(text.value, ':')[1..], ':') == password
  {
    var text := user + ":" + password;
    Base64RoundTrip(Utf8(text));
    Utf8RoundTrip(text);
    SplitPrefix(user, ':', password);
    JoinSplit(password, ':');
    assert text == user + [':'] + password;
  }

  /**
   * Section 2.3.1 of RFC 6749 form-encodes the client id and secret before building
   * the Basic credential; `lib/auth.ts` does not, which agrees whenever both consist
   * of unreserved characters.
   */
  lemma BasicMatchesFormEncodedCredential(user: string, password: string)
    requires forall i :: 0 <= i < |user| ==> Unreserved(FormUrlencoded, user[i])
    requires forall i :: 0 <= i < |password| ==> Unreserved(FormUrlencoded, password[i])
    ensures BasicCredential(user, password)
         == BasicCredential(Encode(FormUrlencoded, user), Encode(FormUrlencoded, password))
  {
    EncodeUnreserved(FormUrlencoded, user);
    EncodeUnreserved(FormUrlencoded, password);
  }
}
