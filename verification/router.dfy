/** The client router of frontend/src/router/index.js: the route table,
    vue-router's resolution of a typed path against it (default options:
    case-insensitive, optional trailing slash, a redirect record followed
    before the guards run), and the `beforeEach` guard. The stored token is
    the value `localStorage.getItem('token')` returns, `None` for `null`. */
module ClientRouter {
  import opened Wrappers
  import opened Text

  /** `meta`; `requiresAuth` is `None` where the record has no meta. */
  datatype Meta = Meta(requiresAuth: Option<bool>)

  datatype RouteRecord = RouteRecord(path: string, name: Option<string>, redirect: Option<string>, meta: Meta)

  const LoginPath: string := "/login"
  const RegisterPath: string := "/register"
  const DashboardPath: string := "/dashboard"

  /** The `routes` array. */
  const Routes: seq<RouteRecord> := [
    RouteRecord("/", None, Some(LoginPath), Meta(None)),
    RouteRecord(RegisterPath, Some("Register"), None, Meta(Some(false))),
    RouteRecord(LoginPath, Some("Login"), None, Meta(Some(false))),
    RouteRecord(DashboardPath, Some("StudentDashboard"), None, Meta(Some(true)))
  ]

  /** vue-router's default matching of a record path: ASCII case is
      ignored and one trailing slash is allowed. */
  predicate PathMatches(recordPath: string, typed: string) {
    ToLower(typed) == ToLower(recordPath) || ToLower(typed) == ToLower(recordPath) + "/"
  }

  /** The first record of `records` whose path matches. */
  function MatchIn(records: seq<RouteRecord>, typed: string): (r: Option<RouteRecord>)
    ensures r.Some? ==> r.value in records && PathMatches(r.value.path, typed)
    ensures r.None? <==> forall x :: x in records ==> !PathMatches(x.path, typed)
  {
    if records == [] then None
    else if PathMatches(records[0].path, typed) then Some(records[0])
    else MatchIn(records[1..], typed)
  }

  /** The target of a navigation: its `path` as typed (or the redirect's
      target) and the matched record's `meta`; an unmatched path has an
      empty `meta`. */
  datatype Location = Location(path: string, meta: Meta)

  /** `router.resolve`, following one redirect record. */
  function Resolve(typed: string): (to: Location)
    ensures MatchIn(Routes, typed).None? ==> to == Location(typed, Meta(None))
    ensures MatchIn(Routes, typed).Some? && MatchIn(Routes, typed).value.redirect.None? ==>
      to == Location(typed, MatchIn(Routes, typed).value.meta)
    ensures MatchIn(Routes, typed).Some? && MatchIn(Routes, typed).value.redirect.Some? ==>
      to.path == MatchIn(Routes, typed).value.redirect.value
  {
    match MatchIn(Routes, typed)
    case None => Location(typed, Meta(None))
    case Some(record) =>
      match record.redirect
      case None => Location(typed, record.meta)
      case Some(target) =>
        var meta := match MatchIn(Routes, target) case Some(t) => t.meta case None => Meta(None);
        Location(target, meta)
  }

  /** What the guard calls `next` with. */
  datatype Decision = Allow | Redirect(target: string)

  /** The `beforeEach` guard. */
  function Guard(to: Location, token: Option<string>): (d: Decision)
    ensures to.meta.requiresAuth == Some(true) && !Truthy(token) ==> d == Redirect(LoginPath)
    ensures !(to.meta.requiresAuth == Some(true) && !Truthy(token))
            && (to.path == LoginPath || to.path == RegisterPath) && Truthy(token) ==>
      d == Redirect(DashboardPath)
    ensures d == Allow <==>
      !(to.meta.requiresAuth == Some(true) && !Truthy(token))
      && !((to.path == LoginPath || to.path == RegisterPath) && Truthy(token))
  {
    var requiresAuth := to.meta.requiresAuth == Some(true);
    if requiresAuth && !Truthy(token) then Redirect(LoginPath)
    else if (to.path == LoginPath || to.path == RegisterPath) && Truthy(token) then Redirect(DashboardPath)
    else Allow
  }

  /** A navigation to a typed path: resolve, then guard. */
  function Navigate(typed: string, token: Option<string>): Decision {
    Guard(Resolve(typed), token)
  }

  /** The table's paths are lower case already. */
  lemma TablePathsLower()
    ensures ToLower("/") == "/" && ToLower(RegisterPath) == RegisterPath
    ensures ToLower(LoginPath) == LoginPath && ToLower(DashboardPath) == DashboardPath
  {
  }

  /** Matching against the table tries its four records in order. */
  lemma MatchInRoutes(typed: string)
    ensures MatchIn(Routes, typed) ==
      if PathMatches("/", typed) then Some(Routes[0])
      else if PathMatches(RegisterPath, typed) then Some(Routes[1])
      else if PathMatches(LoginPath, typed) then Some(Routes[2])
      else if PathMatches(DashboardPath, typed) then Some(Routes[3])
      else None
  {
    assert MatchIn(Routes[4..], typed) == None;
    assert MatchIn(Routes[3..], typed) == if PathMatches(DashboardPath, typed) then Some(Routes[3]) else None by {
      assert Routes[3..][1..] == Routes[4..];
    }
    assert Routes[2..][1..] == Routes[3..];
    assert Routes[1..][1..] == Routes[2..];
  }

  /** `/LOGIN` lower-cases to the login path. */
  lemma UpperLoginLowered()
    ensures ToLower("/LOGIN") == LoginPath
  {
    var r := ToLower("/LOGIN");
    assert r[0] == LowerChar('/') == '/';
    assert r[1] == LowerChar('L') == 'l';
    assert r[2] == LowerChar('O') == 'o';
    assert r[3] == LowerChar('G') == 'g';
    assert r[4] == LowerChar('I') == 'i';
    assert r[5] == LowerChar('N') == 'n';
  }

  lemma ResolveLogin()
    ensures Resolve(LoginPath) == Location(LoginPath, Meta(Some(false)))
  {
    TablePathsLower();
    assert !PathMatches("/", LoginPath);
    assert !PathMatches(RegisterPath, LoginPath);
    assert PathMatches(LoginPath, LoginPath);
    MatchInRoutes(LoginPath);
  }

  lemma ResolveDashboard()
    ensures Resolve(DashboardPath) == Location(DashboardPath, Meta(Some(true)))
  {
    TablePathsLower();
    assert !PathMatches("/", DashboardPath);
    assert DashboardPath[1] != RegisterPath[1];
    assert !PathMatches(RegisterPath, DashboardPath);
    assert !PathMatches(LoginPath, DashboardPath);
    assert PathMatches(DashboardPath, DashboardPath);
    MatchInRoutes(DashboardPath);
  }

  /** Only the dashboard is protected: a typed path resolves to a target
      that requires a login exactly when it matches the dashboard record,
      including `/`, which resolves through its redirect to the public
      login page. */
  lemma OnlyDashboardProtected(typed: string)
    ensures Resolve(typed).meta.requiresAuth == Some(true) <==> MatchIn(Routes, typed) == Some(Routes[3])
  {
    ResolveLogin();
    MatchInRoutes(typed);
  }

  /** Without a token the guard never sends anyone to the dashboard. */
  lemma NoTokenNeverDashboard(to: Location, token: Option<string>)
    requires !Truthy(token)
    ensures Guard(to, token) != Redirect(DashboardPath)
  {
  }

  /** No redirect loop: navigating to where the guard redirects, with the
      same token, is allowed. */
  lemma NoRedirectLoop(typed: string, token: Option<string>)
    requires Navigate(typed, token).Redirect?
    ensures Navigate(Navigate(typed, token).target, token) == Allow
  {
    ResolveLogin();
    ResolveDashboard();
  }

  /** The dashboard is shown only with a token, however its path is
      spelled. */
  lemma DashboardNeedsToken(typed: string, token: Option<string>)
    requires MatchIn(Routes, typed) == Some(Routes[3])
    requires Navigate(typed, token) == Allow
    ensures Truthy(token)
  {
  }

  /** `/` lands on the login page, or on the dashboard for a holder of a
      token. */
  lemma RootGoesToLogin(token: Option<string>)
    ensures Resolve("/") == Location(LoginPath, Meta(Some(false)))
    ensures Navigate("/", token) == if Truthy(token) then Redirect(DashboardPath) else Allow
  {
    assert PathMatches("/", "/");
    ResolveLogin();
  }

  /** The logged-in redirect compares `to.path` as typed, while matching
      ignores case: `/LOGIN` shows the login page to a holder of a token. */
  lemma SpellingSkipsLoggedInRedirect(token: Option<string>)
    requires Truthy(token)
    ensures Navigate(LoginPath, token) == Redirect(DashboardPath)
    ensures Navigate("/LOGIN", token) == Allow
    ensures Resolve("/LOGIN").meta == Resolve(LoginPath).meta
  {
    ResolveLogin();
    ResolveUpperLogin();
  }

  /** `/LOGIN` matches the login record and keeps its spelling. */
  lemma ResolveUpperLogin()
    ensures Resolve("/LOGIN") == Location("/LOGIN", Meta(Some(false)))
  {
    TablePathsLower();
    UpperLoginLowered();
    assert !PathMatches("/", "/LOGIN");
    assert !PathMatches(RegisterPath, "/LOGIN");
    assert PathMatches(LoginPath, "/LOGIN");
    MatchInRoutes("/LOGIN");
  }
}
