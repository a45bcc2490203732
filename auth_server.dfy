/**
 * Session resolution of `lib/authServer.ts`: the request's `id_token` cookie is turned
 * into an optional user without contacting the identity provider, and `requireAdmin`
 * gates on the `admin` group.
 */
module AuthServer {
  import opened Wrappers
  import opened Json
  import opened Jwt

  /** Request cookies as the server sees them: name to value. */
  type RequestCookies = map<string, string>

  /**
   * `CurrentUser`. The claims are copied without type checks, so `sub` and `email`
   * are whatever the payload holds (`None` when absent) and `groups` may hold
   * non-string values.
   */
  datatype User = User(sub: Option<Json>, email: Option<Json>, groups: seq<Json>)

  const IdTokenCookie := "id_token"
  const GroupsClaim := "cognito:groups"
  const AdminGroup := "admin"

  /** The `cognito:groups` claim normalised: an array as it is, a string as a one-element list, otherwise empty. */
  function NormalizeGroups(raw: Option<Json>): (groups: seq<Json>)
    ensures (raw.Some? && raw.value.JArray?) ==> groups == raw.value.items
    ensures (raw.Some? && raw.value.JString?) ==> groups == [raw.value]
    ensures !(raw.Some? && (raw.value.JArray? || raw.value.JString?)) ==> groups == []
  {
    match raw
    case Some(JArray(items)) => items
    case Some(JString(s)) => [JString(s)]
    case _ => []
  }

  /** The user the decoded claims describe; `None` where the source's property access throws. */
  function UserFromClaims(claims: Json): (u: Option<User>)
    ensures u.None? <==> claims.JNull?
    ensures u.Some? ==> u.value.sub == AsOption(Get(claims, "sub"))
    ensures u.Some? ==> u.value.email == AsOption(Get(claims, "email"))
    ensures u.Some? ==> u.value.groups == NormalizeGroups(AsOption(Get(claims, GroupsClaim)))
  {
    var raw := Get(claims, GroupsClaim);
    if raw.Throws? then None
    else Some(User(AsOption(Get(claims, "sub")), AsOption(Get(claims, "email")),
                   NormalizeGroups(AsOption(raw))))
  }

  /**
   * `getCurrentUser()`: no cookie gives no user without any decoding; a token that
   * fails to parse also gives no user, because the error is caught.
   */
  function GetCurrentUser(cookies: RequestCookies, decodePayload: string -> Option<Json>): (u: Option<User>)
    ensures IdTokenCookie !in cookies ==> u.None?
    ensures u.Some? <==>
      && IdTokenCookie in cookies
      && ParseJwt(cookies[IdTokenCookie], decodePayload).Success?
      && !ParseJwt(cookies[IdTokenCookie], decodePayload).value.JNull?
    ensures u.Some? ==> u == UserFromClaims(ParseJwt(cookies[IdTokenCookie], decodePayload).value)
  {
    if IdTokenCookie !in cookies then None
    else
      match ParseJwt(cookies[IdTokenCookie], decodePayload)
      case Failure(_) => None
      case Success(claims) => UserFromClaims(claims)
  }

  /** `user.groups.includes("admin")`. */
  predicate IsAdmin(user: User)
  {
    JString(AdminGroup) in user.groups
  }

  /** `requireAdmin()`: the current user if it is an admin, else the `NOT_ADMIN` error. */
  function RequireAdmin(cookies: RequestCookies, decodePayload: string -> Option<Json>): (r: Result<User, string>)
    ensures r.Failure? <==> GetCurrentUser(cookies, decodePayload).None?
                            || !IsAdmin(GetCurrentUser(cookies, decodePayload).value)
    ensures r.Failure? ==> r.error == "NOT_ADMIN"
    ensures r.Success? ==> Some(r.value) == GetCurrentUser(cookies, decodePayload)
  {
    var user := GetCurrentUser(cookies, decodePayload);
    if user.None? || !IsAdmin(user.value) then Failure("NOT_ADMIN") else Success(user.value)
  }

  /** `user.email ?? user.sub`: the e-mail claim unless it is absent or `null`. */
  function DisplayName(user: User): (name: Option<Json>)
    ensures user.email.Some? && !user.email.value.JNull? ==> name == user.email
    ensures user.email.None? || user.email.value.JNull? ==> name == user.sub
  {
    if user.email.Some? && !user.email.value.JNull? then user.email else user.sub
  }

  /** Which groups claims make a user an admin: a list holding "admin", or the string "admin" itself. */
  lemma AdminGroups(claims: Json)
    requires UserFromClaims(claims).Some?
    ensures IsAdmin(UserFromClaims(claims).value) <==>
      match Get(claims, GroupsClaim)
      case Value(JArray(items)) => JString(AdminGroup) in items
      case Value(JString(s)) => s == AdminGroup
      case _ => false
  {
  }

  /** With no `id_token` cookie, `requireAdmin` refuses whatever the decoder would do. */
  lemma NoTokenNotAdmin(cookies: RequestCookies, decodePayload: string -> Option<Json>)
    requires IdTokenCookie !in cookies
    ensures RequireAdmin(cookies, decodePayload) == Failure("NOT_ADMIN")
  {
  }
}
