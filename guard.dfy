/** The route guard (src/app/middleware.ts): requests for dashboard paths need
    a session cookie naming a valid session; everything else passes. */
module Guard {
  import opened Types
  import opened Store
  import opened Http
  import Auth
  import MeRoute

  const DashboardPrefix: string := "/dashboard"
  const LoginPath: string := "/login"

  /** What the guard tells the framework: serve the request, or redirect
      (to the same origin's path `location`), possibly setting a cookie. */
  datatype GuardResult = Next | Redirect(location: string, cookie: CookieEffect)

  /** The cookie the guard sets on an invalid session: empty, expiring at once. */
  const ClearedSessionCookie: CookieEffect :=
    SetCookie(SessionCookie, "", CookieOptions(false, false, None, 0))

  predicate StartsWith(s: string, prefix: string) {
    |prefix| <= |s| && s[..|prefix|] == prefix
  }

  /** The guard itself. `fault` stands for a failure of the store during
      validation. The store is only read, and only when the cookie is there. */
  function Middleware(db: Database, now: Timestamp, path: string, cookie: Option<string>, fault: Fault)
    : (r: GuardResult)
    reads db
    ensures !StartsWith(path, DashboardPrefix) ==> r == Next
    ensures StartsWith(path, DashboardPrefix) && !Truthy(cookie) ==> r == Redirect(LoginPath, KeepCookies)
    ensures StartsWith(path, DashboardPrefix) && Truthy(cookie) ==>
      r == if Auth.ValidateSession(db, cookie.value, now, fault).valid then Next
           else Redirect(LoginPath, ClearedSessionCookie)
  {
    if StartsWith(path, DashboardPrefix) then
      if !Truthy(cookie) then Redirect(LoginPath, KeepCookies)
      else if !Auth.ValidateSession(db, cookie.value, now, fault).valid then
        Redirect(LoginPath, ClearedSessionCookie)
      else Next
    else Next
  }

  /** The prefix test also guards paths that merely begin with the prefix,
      such as "/dashboardX": without a cookie they are sent to the login page. */
  lemma PrefixGuardsLookalikes(db: Database, now: Timestamp, suffix: string, fault: Fault)
    ensures Middleware(db, now, DashboardPrefix + suffix, None, fault) == Redirect(LoginPath, KeepCookies)
  {
  }

  /** `config.matcher` `/dashboard/:path*`: the framework runs the guard on
      "/dashboard" and on paths below it, and on no other path. */
  predicate Matched(path: string) {
    path == DashboardPrefix || StartsWith(path, DashboardPrefix + "/")
  }

  /** The guard as the framework applies it: a request is served exactly when
      it is outside the matched paths or carries a valid session. */
  function Route(db: Database, now: Timestamp, path: string, cookie: Option<string>, fault: Fault)
    : (r: GuardResult)
    reads db
    ensures r == Next <==>
      !Matched(path) || (Truthy(cookie) && Auth.ValidateSession(db, cookie.value, now, fault).valid)
  {
    if Matched(path) then
      MatchedIsGuarded(path);
      Middleware(db, now, path, cookie, fault)
    else Next
  }

  lemma MatchedIsGuarded(path: string)
    requires Matched(path)
    ensures StartsWith(path, DashboardPrefix)
  {
  }

  /** Because the matcher and the prefix test disagree, a lookalike path such
      as "/dashboardX" is not guarded when the framework runs this middleware
      with its `config.matcher`: it is served whatever the cookie, although
      the guard alone would redirect it. */
  lemma LookalikesServedUnguarded(db: Database, now: Timestamp, suffix: string,
                                  cookie: Option<string>, fault: Fault)
    requires suffix != [] && suffix[0] != '/'
    ensures Route(db, now, DashboardPrefix + suffix, cookie, fault) == Next
    ensures Middleware(db, now, DashboardPrefix + suffix, None, fault) != Next
  {
  }

  /** A session that exists, has not expired and has an owner admits its
      cookie to every path, dashboard or not. */
  lemma LiveSessionAdmitted(db: Database, now: Timestamp, path: string, sessionId: string)
    requires sessionId != "" && sessionId in db.sessions
    requires db.sessions[sessionId].expires_at > now && db.sessions[sessionId].user_id in db.adminUsers
    ensures Route(db, now, path, Some(sessionId), NoFault) == Next
  {
  }

  /** On a dashboard path, the guard lets the request through exactly when
      `GET /api/auth/me` with the same cookie reports it authenticated. */
  lemma GuardAgreesWithMe(db: Database, now: Timestamp, path: string, cookie: Option<string>, fault: Fault)
    requires StartsWith(path, DashboardPrefix)
    ensures (Middleware(db, now, path, cookie, fault) == Next) <==> (MeRoute.Get(db, now, cookie, fault).status == 200)
  {
  }
}
