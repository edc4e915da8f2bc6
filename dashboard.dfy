/** The session parts of the dashboard page (src/app/dashboard/page.tsx): the
    guard its mount effect runs, and the logout handler. */
module Dashboard {
  import opened JsValues
  import opened Auth
  import opened Browser
  import Login
  import Middleware

  const RequiredRole := "job_seeker"

  /** The mount effect: where it sends the user, or None when it lets the
      page stay. It reads storage and the clock and writes nothing. */
  function Guard(storage: Storage, nowMs: int, parse: Parse): Option<string>
  {
    if !IsAuthenticated(storage, nowMs, parse) then Some(Middleware.LoginPath)
    else if !IsString(GetUserRole(storage, parse), RequiredRole) then Some(Middleware.DashboardPath)
    else None
  }

  /** What the guard decides, in terms of the stored token's claims: it
      sends an invalid or expired session to the login page whatever its
      role; a valid session whose role is not exactly "job_seeker" (a
      missing role included) goes to "/dashboard", the route of this very
      page; only a valid job seeker stays. */
  lemma GuardDecision(storage: Storage, nowMs: int, parse: Parse)
    ensures Guard(storage, nowMs, parse) == Some(Middleware.LoginPath) <==> !IsAuthenticated(storage, nowMs, parse)
    ensures Guard(storage, nowMs, parse) == Some(Middleware.DashboardPath) <==>
      IsAuthenticated(storage, nowMs, parse) && Property(StoredClaims(storage, parse).value, "role") != Defined(JString(RequiredRole))
    ensures Guard(storage, nowMs, parse).None? <==>
      IsAuthenticated(storage, nowMs, parse) && Property(StoredClaims(storage, parse).value, "role") == Defined(JString(RequiredRole))
  {
  }

  /** The page stays exactly when a non-empty token is stored whose claims
      are an object with role "job_seeker" and a numeric expiry still in the
      future. */
  lemma GuardAdmits(storage: Storage, nowMs: int, parse: Parse)
    ensures Guard(storage, nowMs, parse).None? <==>
      exists fields: map<string, Json> ::
        && StoredClaims(storage, parse) == Some(JObject(fields))
        && "role" in fields && fields["role"] == JString(RequiredRole)
        && "exp" in fields && ToNumber(Defined(fields["exp"])).Some?
        && ToNumber(Defined(fields["exp"])).value * 1000.0 > nowMs as real
  {
    if Guard(storage, nowMs, parse).None? {
      var claims := StoredClaims(storage, parse).value;
      assert claims.JObject?;
      var fields := claims.fields;
      assert StoredClaims(storage, parse) == Some(JObject(fields));
    }
  }

  /** The three keys logout removes, in the order it removes them. */
  const LogoutWrites: seq<StorageWrite> :=
    [RemoveItem(Login.FlagKey), RemoveItem(Login.UserKey), RemoveItem(TokenKey)]

  /** `handleLogout`: remove the three session keys, then go to the login
      page. */
  method HandleLogout(tab: Tab)
    requires tab.Valid()
    modifies tab
    ensures tab.Valid() && tab.initial == old(tab.initial)
    ensures tab.writes == old(tab.writes) + LogoutWrites
    ensures tab.storage == ApplyAll(old(tab.storage), LogoutWrites)
    ensures tab.navigations == old(tab.navigations) + [Middleware.LoginPath]
  {
    ghost var before := tab.storage;
    tab.RemoveItem(Login.FlagKey);
    tab.RemoveItem(Login.UserKey);
    tab.RemoveItem(TokenKey);
    ApplyShort(before, LogoutWrites[0], LogoutWrites[1], LogoutWrites[2]);
    tab.Push(Middleware.LoginPath);
  }

  /** Logout removes exactly the three session keys and keeps every other
      key with its value. */
  lemma LogoutClears(storage: Storage)
    ensures ApplyAll(storage, LogoutWrites) == storage - {Login.FlagKey, Login.UserKey, TokenKey}
  {
    ApplyShort(storage, LogoutWrites[0], LogoutWrites[1], LogoutWrites[2]);
  }

  /** Logging out twice leaves the same storage as logging out once. */
  lemma LogoutIdempotent(storage: Storage)
    ensures ApplyAll(ApplyAll(storage, LogoutWrites), LogoutWrites) == ApplyAll(storage, LogoutWrites)
  {
    LogoutClears(storage);
    LogoutClears(ApplyAll(storage, LogoutWrites));
  }

  /** After logout there is no session and no role, at any time, and the
      guard sends the user to the login page. */
  lemma LoggedOut(storage: Storage, nowMs: int, parse: Parse)
    ensures !IsAuthenticated(ApplyAll(storage, LogoutWrites), nowMs, parse)
    ensures GetUserRole(ApplyAll(storage, LogoutWrites), parse) == Defined(JNull)
    ensures Guard(ApplyAll(storage, LogoutWrites), nowMs, parse) == Some(Middleware.LoginPath)
  {
    LogoutClears(storage);
  }
}
