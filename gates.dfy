/**
 * The access gates that wrap a route handler. Each looks only at the
 * `user_id` cookie (absent, or the string the client sent) and, for the
 * admin gate, at the `is_admin_user` lookup, which is the oracle parameter
 * `isAdmin`. The result is whether the wrapped handler runs.
 */
module Gates {
  import opened Wrappers
  import PyInt

  const SignInPath := "/signin"
  const HomePath := "/"

  /** What a gated route does with a request. */
  datatype Outcome =
    | RunHandler                // the wrapped handler runs and its response is returned
    | Redirect(path: string)    // a redirect response to `path`; the handler does not run
    | RaisesValueError          // `int()` of the cookie raised `ValueError`; the handler does not run

  /** `should_be_signed_in`: only a request that carries the cookie reaches the handler. */
  function ShouldBeSignedIn(cookie: Option<string>): (o: Outcome)
    ensures o == RunHandler <==> cookie.Some?
    ensures o != RunHandler ==> o == Redirect(SignInPath)
  {
    if cookie.None? then Redirect(SignInPath) else RunHandler
  }

  /**
   * `should_be_signed_in_as_admin`: no cookie redirects to sign-in; a cookie
   * that `int()` rejects raises; a user who is not an admin goes home.
   */
  function ShouldBeSignedInAsAdmin(cookie: Option<string>, isAdmin: int -> bool): (o: Outcome)
    ensures cookie.None? ==> o == Redirect(SignInPath)
    ensures cookie.Some? && PyInt.ParseInt(cookie.value).None? ==> o == RaisesValueError
    ensures o == RunHandler
        <==> cookie.Some? && PyInt.ParseInt(cookie.value).Some? && isAdmin(PyInt.ParseInt(cookie.value).value)
    ensures o == Redirect(HomePath)
        <==> cookie.Some? && PyInt.ParseInt(cookie.value).Some? && !isAdmin(PyInt.ParseInt(cookie.value).value)
  {
    if cookie.None? then Redirect(SignInPath)
    else
      match PyInt.ParseInt(cookie.value)
      case None => RaisesValueError
      case Some(userId) => if !isAdmin(userId) then Redirect(HomePath) else RunHandler
  }

  /** `should_be_signed_out`: a request that carries the cookie is sent home. */
  function ShouldBeSignedOut(cookie: Option<string>): (o: Outcome)
    ensures o == RunHandler <==> cookie.None?
    ensures o != RunHandler ==> o == Redirect(HomePath)
  {
    if cookie.Some? then Redirect(HomePath) else RunHandler
  }

  /** Every request reaches exactly one of a signed-in route and a signed-out route. */
  lemma SignedInAndSignedOutComplementary(cookie: Option<string>)
    ensures (ShouldBeSignedIn(cookie) == RunHandler) != (ShouldBeSignedOut(cookie) == RunHandler)
  {
  }

  /** A request the admin gate lets through is also let through by the signed-in gate. */
  lemma AdminGateStricterThanSignedIn(cookie: Option<string>, isAdmin: int -> bool)
    ensures ShouldBeSignedInAsAdmin(cookie, isAdmin) == RunHandler ==> ShouldBeSignedIn(cookie) == RunHandler
    ensures ShouldBeSignedInAsAdmin(cookie, isAdmin) == RunHandler ==> ShouldBeSignedOut(cookie) != RunHandler
  {
  }

  /**
   * The cookie that signing in sets, `str(user_id)`, brings the admin gate to
   * look up that very user: it runs the handler exactly for an admin and
   * never raises.
   */
  lemma AdminGateOnIssuedCookie(userId: int, isAdmin: int -> bool)
    ensures ShouldBeSignedInAsAdmin(Some(PyInt.Show(userId)), isAdmin)
         == if isAdmin(userId) then RunHandler else Redirect(HomePath)
  {
    PyInt.ParseIntOfShow(userId);
  }

  /** Any cookie, even an empty one, counts as signed in; the admin gate then raises on it. */
  lemma EmptyCookieSignedIn(isAdmin: int -> bool)
    ensures ShouldBeSignedIn(Some("")) == RunHandler
    ensures ShouldBeSignedOut(Some("")) == Redirect(HomePath)
    ensures ShouldBeSignedInAsAdmin(Some(""), isAdmin) == RaisesValueError
  {
  }

  /**
   * The `is_admin_user` that ships reads a placeholder user record that is
   * always an admin; with it, the admin gate runs the handler for every
   * cookie `int()` accepts.
   */
  lemma ShippedAdminLookup(cookie: string)
    ensures ShouldBeSignedInAsAdmin(Some(cookie), (id: int) => true) == RunHandler
        <==> PyInt.ParseInt(cookie).Some?
    ensures ShouldBeSignedInAsAdmin(Some(cookie), (id: int) => true) != Redirect(HomePath)
  {
  }
}
