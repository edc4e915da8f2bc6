/** The edge redirect rule of src/middleware.ts. The request is reduced to
    its path and the `isAuthenticated` cookie, which is absent (None) or
    present with some value that the rule never reads. */
module Middleware {
  import opened JsValues

  datatype EdgeResponse = Next | Redirect(location: string)

  const LoginPath := "/login"
  const DashboardPath := "/dashboard"

  /** `config.matcher`: the paths the rule is run on. */
  const Matcher: set<string> := {LoginPath, DashboardPath}

  /** `middleware(request)`: no cookie on the dashboard goes to the login
      page, a cookie on the login page goes to the dashboard, everything
      else passes. Paths are compared exactly. */
  function Decide(pathname: string, cookie: Option<string>): EdgeResponse
  {
    var isAuthenticated := cookie.Some?;
    if !isAuthenticated && pathname == DashboardPath then Redirect(LoginPath)
    else if isAuthenticated && pathname == LoginPath then Redirect(DashboardPath)
    else Next
  }

  /** The rule as deployed: requests outside the matcher never reach it. */
  function Edge(pathname: string, cookie: Option<string>): (r: EdgeResponse)
  {
    if pathname in Matcher then Decide(pathname, cookie) else Next
  }

  /** The two redirects and nothing else: the dashboard without a cookie and
      the login page with one. */
  lemma DecideCases(pathname: string, cookie: Option<string>)
    ensures Decide(pathname, cookie) == Redirect(LoginPath) <==> cookie.None? && pathname == DashboardPath
    ensures Decide(pathname, cookie) == Redirect(DashboardPath) <==> cookie.Some? && pathname == LoginPath
    ensures Decide(pathname, cookie).Next? <==> !(cookie.None? && pathname == DashboardPath) && !(cookie.Some? && pathname == LoginPath)
  {
  }

  /** Only the cookie's presence matters: any two values, "false" and ""
      included, give the same response. */
  lemma CookieValueIgnored(pathname: string, v1: string, v2: string)
    ensures Decide(pathname, Some(v1)) == Decide(pathname, Some(v2))
  {
  }

  /** A redirect never points back at the requested path, and following it
      with the same cookie passes: the edge cannot loop. */
  lemma NoRedirectLoop(pathname: string, cookie: Option<string>)
    requires Decide(pathname, cookie).Redirect?
    ensures Decide(pathname, cookie).location != pathname
    ensures Decide(Decide(pathname, cookie).location, cookie) == Next
  {
  }

  /** The matcher lists exactly the paths the rule can redirect, so
      restricting the rule to it changes no response. */
  lemma MatcherIsExact(pathname: string, cookie: Option<string>)
    ensures Edge(pathname, cookie) == Decide(pathname, cookie)
    ensures pathname in Matcher <==> exists c :: Decide(pathname, c).Redirect?
  {
    if pathname == LoginPath {
      assert Decide(pathname, Some("")).Redirect?;
    } else if pathname == DashboardPath {
      assert Decide(pathname, None).Redirect?;
    }
  }
}
