/**
 * `GET /auth/logout` (`app/auth/logout/route.ts`): a redirect to the hosted logout page
 * whose response expires the two session cookies the API relies on.
 */
module LogoutRoute {
  import opened HostedAuth
  import opened Cookies

  /** A redirect response with the cookies it sets. */
  class RedirectResponse {
    const location: string
    const cookies: CookieJar

    constructor (location: string)
      ensures this.location == location
      ensures fresh(cookies) && cookies.entries == map[]
    {
      this.location := location;
      cookies := new CookieJar(map[]);
    }
  }

  /** `{ maxAge: 0, path: "/" }` with an empty value: the browser drops the cookie. */
  const Cleared := Cookie("", false, false, "/", 0)

  /**
   * The route: the response redirects to the hosted logout URL and sets exactly
   * `id_token` and `access_token` to the cleared cookie; `refresh_token` is not touched.
   */
  method Get(cfg: Config) returns (res: RedirectResponse)
    ensures fresh(res) && fresh(res.cookies)
    ensures res.location == HostedLogoutUrl(cfg)
    ensures res.cookies.entries == map["id_token" := Cleared, "access_token" := Cleared]
    ensures "refresh_token" !in res.cookies.entries
  {
    res := new RedirectResponse(HostedLogoutUrl(cfg));
    res.cookies.Set("id_token", Cleared);
    res.cookies.Set("access_token", Cleared);
  }
}
