/** How the pieces fit together across one tab: what the dashboard guard sees
    after the login handler has run, where the edge rule and the page guard
    disagree, and end-to-end scenarios. */
module Session {
  import opened JsValues
  import opened Base64
  import Utf8
  import opened Auth
  import opened Browser
  import Login
  import Dashboard
  import Middleware

  /** After the login handler has run on any token, the claims every reader
      of storage sees are exactly the claims the handler accepted: the
      decoded token when it decodes, and no session at all when it does not,
      even though the flag and the token stay written. */
  lemma ClaimsAfterLogin(storage: Storage, token: string, parse: Parse, stringify: Login.Stringify)
    ensures StoredClaims(ApplyAll(storage, Login.Effect(Login.Fulfilled(token), parse, stringify).writes), parse)
            == Login.AcceptedClaims(parse, token)
  {
    var after := ApplyAll(storage, Login.Effect(Login.Fulfilled(token), parse, stringify).writes);
    if Login.AcceptedClaims(parse, token).Some? {
      Login.DecodableTokenStored(storage, token, parse, stringify, Login.AcceptedClaims(parse, token).value);
      assert after[TokenKey] == token;
    } else {
      Login.UndecodableTokenStaysStored(storage, token, parse, stringify);
      assert after[TokenKey] == token;
    }
  }

  /** A login with a token that decodes but has already expired is stored
      and redirected like any other, and the dashboard guard then sends the
      user to the login page. */
  lemma ExpiredLoginBouncesAtGuard(storage: Storage, token: string, nowMs: int, parse: Parse, stringify: Login.Stringify, fields: map<string, Json>, exp: int)
    requires DecodeToken(parse, token) == Some(JObject(fields))
    requires "exp" in fields && fields["exp"] == JNumber(exp as real)
    requires exp * 1000 <= nowMs
    ensures Login.Effect(Login.Fulfilled(token), parse, stringify).navigation.Some?
    ensures var after := ApplyAll(storage, Login.Effect(Login.Fulfilled(token), parse, stringify).writes);
      Dashboard.Guard(after, nowMs, parse) == Some(Middleware.LoginPath)
  {
    ClaimsAfterLogin(storage, token, parse, stringify);
  }

  /** The edge rule only sees the cookie: with the cookie present it lets a
      request for the dashboard through whatever the stored session is, and
      only the page guard, after mounting, catches a missing, undecodable or
      expired token. */
  lemma EdgeAndGuardDisagree(storage: Storage, nowMs: int, parse: Parse, cookieValue: string)
    requires !IsAuthenticated(storage, nowMs, parse)
    ensures Middleware.Edge(Middleware.DashboardPath, Some(cookieValue)) == Middleware.Next
    ensures Dashboard.Guard(storage, nowMs, parse) == Some(Middleware.LoginPath)
  {
  }

  /** No token stored: no session, and the edge sends a cookieless request
      for the dashboard to the login page. */
  lemma NoTokenScenario(nowMs: int, parse: Parse)
    ensures !IsAuthenticated(map[], nowMs, parse)
    ensures Middleware.Edge(Middleware.DashboardPath, None) == Middleware.Redirect(Middleware.LoginPath)
  {
  }

  /** A valid recruiter on the dashboard is pushed to "/dashboard", the route
      this page is served on, not to the recruiter landing page the login
      handler uses. */
  lemma RecruiterOnDashboard(storage: Storage, nowMs: int, parse: Parse)
    requires IsAuthenticated(storage, nowMs, parse)
    requires GetUserRole(storage, parse) == Defined(JString("recruiter"))
    ensures Dashboard.Guard(storage, nowMs, parse) == Some(Middleware.DashboardPath)
    ensures Dashboard.Guard(storage, nowMs, parse) != Some(Login.RecruiterLanding)
  {
  }

  /** The token "a.b" does not decode, because its second segment is a
      single character and so is not base64; it carries no role. */
  lemma TwoSegmentTokenRejected(parse: Parse)
    ensures DecodeToken(parse, "a.b").None?
    ensures GetUserRole(map[TokenKey := "a.b"], parse) == Defined(JNull)
  {
    SecondSegmentOf("a", "b", "");
    assert "a" + "." + "b" + "" == "a.b";
    assert ToStandardAlphabet("b") == "b";
    assert RemoveWhitespace("b") == "b";
    assert ForgivingDecode("b").None?;
    assert PayloadText("a.b").None?;
  }

  /** Two segments are nevertheless enough: a header and a well-formed
      payload with no signature decode. */
  lemma TwoSegmentTokens(parse: Parse, header: string, text: string)
    requires '.' !in header
    ensures DecodeToken(parse, header + "." + Encode(Utf8.Encode(text), true)) == parse(text)
  {
    DecodeTokenRoundTrip(parse, header, text, "");
    assert header + "." + Encode(Utf8.Encode(text), true) + "" == header + "." + Encode(Utf8.Encode(text), true);
  }
}
