/** The submit handler of the login page (src/app/login/page.tsx,
    `onSubmit`). The login request is reduced to its settled result; toasts
    are not modelled. `Effect` says, as data, what the handler does for a
    given response; `OnSubmit` does it step by step on a tab and is proved
    to match. */
module Login {
  import opened JsValues
  import opened Auth
  import opened Browser

  /** How `login(data).unwrap()` settles: it throws (bad credentials, network
      failure) or yields the response's token. */
  datatype LoginResponse = Rejected | Fulfilled(token: string)

  /** JSON.stringify of a parsed value. */
  type Stringify = Json -> string

  const FlagKey := "isAuthenticated"
  const UserKey := "user"
  const ErrorText := "Invalid email or password"
  const RecruiterLanding := "/recruiter-dashboard"
  const DefaultLanding := "/"

  /** What the handler does: the storage writes in order, the page it
      navigates to, and the text it puts in the error state. */
  datatype Outcome = Outcome(writes: seq<StorageWrite>, navigation: Option<string>, error: Option<string>)

  /** Where a successful login goes: the recruiter dashboard exactly when the
      role is the string "recruiter". */
  function Landing(role: Js): string
  {
    if IsString(role, "recruiter") then RecruiterLanding else DefaultLanding
  }

  /** The claims that pass `if (!decodedToken) throw ...`. */
  function AcceptedClaims(parse: Parse, token: string): Option<Json>
  {
    match DecodeToken(parse, token)
    case None => None
    case Some(claims) => if Truthy(claims) then Some(claims) else None
  }

  function Effect(response: LoginResponse, parse: Parse, stringify: Stringify): Outcome
  {
    match response
    case Rejected => Outcome([], None, Some(ErrorText))
    case Fulfilled(token) =>
      var stored := [SetItem(FlagKey, "true"), SetItem(TokenKey, token)];
      match AcceptedClaims(parse, token)
      case None => Outcome(stored, None, Some(ErrorText))
      case Some(claims) =>
        Outcome(stored + [SetItem(UserKey, stringify(claims))], Some(Landing(Property(claims, "role"))), None)
  }

  /** `onSubmit`, after the request has settled. Returns the text passed to
      `setError`, or None when it is not called. */
  method OnSubmit(tab: Tab, response: LoginResponse, parse: Parse, stringify: Stringify) returns (error: Option<string>)
    requires tab.Valid()
    modifies tab
    ensures tab.Valid() && tab.initial == old(tab.initial)
    ensures tab.writes == old(tab.writes) + Effect(response, parse, stringify).writes
    ensures tab.storage == ApplyAll(old(tab.storage), Effect(response, parse, stringify).writes)
    ensures var nav := Effect(response, parse, stringify).navigation;
      tab.navigations == old(tab.navigations) + (if nav.Some? then [nav.value] else [])
    ensures error == Effect(response, parse, stringify).error
  {
    match response {
      case Rejected =>
        error := Some(ErrorText);
      case Fulfilled(token) =>
        ghost var before, log := tab.storage, tab.writes;
        ghost var flag, stored := SetItem(FlagKey, "true"), SetItem(TokenKey, token);
        tab.SetItem(FlagKey, "true");
        tab.SetItem(TokenKey, token);
        assert tab.writes == log + [flag, stored] by {
          assert (log + [flag]) + [stored] == log + [flag, stored];
        }
        // a token that is not truthy once decoded goes to the error branch
        var accepted := AcceptedClaims(parse, token);
        if accepted.None? {
          // the throw is caught after the two writes above
          ApplyShort(before, flag, stored, stored);
          error := Some(ErrorText);
          return;
        }
        var claims := accepted.value;
        ghost var user := SetItem(UserKey, stringify(claims));
        tab.SetItem(UserKey, stringify(claims));
        assert [flag, stored] + [user] == [flag, stored, user];
        assert tab.writes == log + [flag, stored, user] by {
          assert (log + [flag, stored]) + [user] == log + [flag, stored, user];
        }
        ApplyShort(before, flag, stored, user);
        if IsString(Property(claims, "role"), "recruiter") {
          tab.Push(RecruiterLanding);
        } else {
          tab.Push(DefaultLanding);
        }
        error := None;
    }
  }

  /** A failed request writes nothing, goes nowhere and shows the error. */
  lemma RejectedChangesNothing(parse: Parse, stringify: Stringify)
    ensures Effect(Rejected, parse, stringify) == Outcome([], None, Some(ErrorText))
  {
  }

  /** On any response the flag and then the token are written first, before
      the token is decoded; only the three session keys are ever written. */
  lemma FlagAndTokenWrittenFirst(token: string, parse: Parse, stringify: Stringify)
    ensures var ws := Effect(Fulfilled(token), parse, stringify).writes;
      |ws| >= 2 && ws[0] == SetItem(FlagKey, "true") && ws[1] == SetItem(TokenKey, token)
    ensures Touched(Effect(Fulfilled(token), parse, stringify).writes) <= {FlagKey, TokenKey, UserKey}
  {
    var a, b := SetItem(FlagKey, "true"), SetItem(TokenKey, token);
    match AcceptedClaims(parse, token)
    case None =>
      ApplyShort(map[], a, b, b);
    case Some(claims) =>
      var c := SetItem(UserKey, stringify(claims));
      assert [a, b] + [c] == [a, b, c];
      ApplyShort(map[], a, b, c);
  }

  /** A token that does not decode (or decodes to a falsy value) is still
      stored with the flag: the partial session is not rolled back, `user`
      keeps whatever it held, nothing is navigated to and the error shows. */
  lemma UndecodableTokenStaysStored(storage: Storage, token: string, parse: Parse, stringify: Stringify)
    requires DecodeToken(parse, token).None? || !Truthy(DecodeToken(parse, token).value)
    ensures var e := Effect(Fulfilled(token), parse, stringify);
      && ApplyAll(storage, e.writes) == storage[FlagKey := "true"][TokenKey := token]
      && e.navigation.None? && e.error == Some(ErrorText)
  {
    ApplyShort(storage, SetItem(FlagKey, "true"), SetItem(TokenKey, token), SetItem(TokenKey, token));
  }

  /** A token that decodes stores all three keys, `user` holding the
      serialised claims, and navigates by role, whether or not the token has
      already expired: the clock is not consulted. */
  lemma DecodableTokenStored(storage: Storage, token: string, parse: Parse, stringify: Stringify, claims: Json)
    requires DecodeToken(parse, token) == Some(claims) && Truthy(claims)
    ensures var e := Effect(Fulfilled(token), parse, stringify);
      && ApplyAll(storage, e.writes) == storage[FlagKey := "true"][TokenKey := token][UserKey := stringify(claims)]
      && e.navigation == Some(if Property(claims, "role") == Defined(JString("recruiter")) then RecruiterLanding else DefaultLanding)
      && e.error.None?
  {
    var a, b, c := SetItem(FlagKey, "true"), SetItem(TokenKey, token), SetItem(UserKey, stringify(claims));
    assert [a, b] + [c] == [a, b, c];
    ApplyShort(storage, a, b, c);
  }

  /** `user` is written exactly when the handler navigates, and exactly when
      it sets no error. */
  lemma UserWrittenIffSuccess(response: LoginResponse, parse: Parse, stringify: Stringify)
    ensures var e := Effect(response, parse, stringify);
      (UserKey in Touched(e.writes) <==> e.navigation.Some?) && (e.navigation.Some? <==> e.error.None?)
  {
    if response.Fulfilled? {
      var token := response.token;
      var a, b := SetItem(FlagKey, "true"), SetItem(TokenKey, token);
      match AcceptedClaims(parse, token)
      case None =>
        ApplyShort(map[], a, b, b);
      case Some(claims) =>
        var c := SetItem(UserKey, stringify(claims));
        assert [a, b] + [c] == [a, b, c];
        ApplyShort(map[], a, b, c);
    }
  }
}
