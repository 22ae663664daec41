/** `POST /api/login` and `DELETE /api/login` (src/app/api/login/route.ts):
    log in by email and password, answering with the public part of the user
    and a session cookie; log out by the cookie. */
module LoginRoute {
  import opened Types
  import opened Store
  import opened Http
  import Auth
  import MeRoute
  import Guard

  const CredentialsRequired: string := "password is required"
  const InvalidCredentials: string := "Invalid credentials"
  const InternalError: string := "Internal server error"
  const LoginSucceeded: string := "Login successful"
  const LogoutSucceeded: string := "Logout successful"

  /** `maxAge` of the session cookie, in seconds. */
  const SessionCookieAge: int := 60 * 60 * 24 * 7

  /** The parsed JSON body: `{ email?, password? }`. */
  datatype LoginRequest = LoginRequest(email: Option<string>, password: Option<string>)

  function Public(u: AdminUser): PublicUser {
    PublicUser(u.id, u.email, u.name, u.avatar_url)
  }

  /** httpOnly, secure in production only, sameSite lax, with the given age. */
  function SessionCookieOptions(production: bool, maxAge: int): CookieOptions {
    CookieOptions(true, production, Some(Lax), maxAge)
  }

  /** The answer to a login attempt that reached the service. */
  function LoginReply(result: Auth.LoginResult, production: bool): (r: Response)
    ensures r.status == 200 || r.status == 401
    ensures r.status == 200 <==> !Truthy(result.error) && result.user.Some? && result.session.Some?
    ensures r.status == 200 ==>
      && r.body == LoginBody(LoginSucceeded, Public(result.user.value), result.session.value.id)
      && r.cookie == SetCookie(SessionCookie, result.session.value.id, SessionCookieOptions(production, Auth.SessionLifetime))
    ensures r.status == 401 ==>
      && r.body == ErrorBody(if Truthy(result.error) then result.error.value else InvalidCredentials)
      && r.cookie == KeepCookies
  {
    if Truthy(result.error) || result.user.None? || result.session.None? then
      Response(401, ErrorBody(if Truthy(result.error) then result.error.value else InvalidCredentials), KeepCookies)
    else
      var session := result.session.value;
      Response(200, LoginBody(LoginSucceeded, Public(result.user.value), session.id),
               SetCookie(SessionCookie, session.id, SessionCookieOptions(production, SessionCookieAge)))
  }

  /** `POST /api/login`. `body` is None when the request body is not JSON
      (`request.json()` throws and the handler answers 500). A missing or
      empty email or password is refused before the service is called. */
  method Post(db: Database, body: Option<LoginRequest>, now: Timestamp, newId: string,
              lookup: Fault, insert: Fault, production: bool) returns (r: Response)
    requires db.Valid()
    requires newId != ""
    modifies db
    ensures db.Valid()
    ensures db.adminUsers == old(db.adminUsers) && db.sections == old(db.sections)
    ensures db.nextSectionId == old(db.nextSectionId)
    ensures body.None? ==> r == Response(500, ErrorBody(InternalError), KeepCookies) && db.sessions == old(db.sessions)
    ensures body.Some? && !(Truthy(body.value.email) && Truthy(body.value.password)) ==>
      r == Response(400, ErrorBody(CredentialsRequired), KeepCookies) && db.sessions == old(db.sessions)
    ensures r.status == 200 <==>
      && body.Some? && Truthy(body.value.email) && Truthy(body.value.password)
      && lookup.NoFault? && |old(Auth.CredentialMatches(db, body.value.email.value, body.value.password.value))| == 1
      && insert.NoFault? && newId !in old(db.sessions)
    ensures r.status == 200 ==>
      && r.body.LoginBody? && r.body.sessionId == newId
      && r.body.account.id in old(db.adminUsers)
      && r.body.account == Public(old(db.adminUsers)[r.body.account.id])
      && old(Auth.CredentialMatches(db, body.value.email.value, body.value.password.value)) == {r.body.account.id}
      && r.cookie == SetCookie(SessionCookie, newId, SessionCookieOptions(production, Auth.SessionLifetime))
      && db.sessions == old(db.sessions)[newId := Session(newId, r.body.account.id, now + Auth.SessionLifetime, now)]
      && Auth.ValidateSession(db, newId, now, NoFault).valid
      && MeRoute.Get(db, now, Some(r.cookie.value), NoFault).status == 200
      && Guard.Route(db, now, Guard.DashboardPrefix, Some(r.cookie.value), NoFault) == Guard.Next
    ensures body.Some? && Truthy(body.value.email) && Truthy(body.value.password) ==>
      r.status == 200 || r.status == 401
    ensures r.status == 401 ==>
      r.body in {ErrorBody(Auth.IncorrectCredentials), ErrorBody(Auth.SessionCreationFailed), ErrorBody(Auth.UnexpectedError)}
    ensures r.status != 200 ==> db.sessions == old(db.sessions) && r.cookie == KeepCookies
  {
    if body.None? {
      return Response(500, ErrorBody(InternalError), KeepCookies);
    }
    var request := body.value;
    if !Truthy(request.email) || !Truthy(request.password) {
      return Response(400, ErrorBody(CredentialsRequired), KeepCookies);
    }
    var result := Auth.Login(db, request.email.value, request.password.value, now, newId, lookup, insert);
    r := LoginReply(result, production);
  }

  /** `DELETE /api/login`: deletes the cookie's session when there is a
      cookie, and answers the same whatever the deletion reports. */
  method Delete(db: Database, cookie: Option<string>, fault: Fault, production: bool) returns (r: Response)
    requires db.Valid()
    modifies db
    ensures db.Valid()
    ensures r == Response(200, MessageBody(LogoutSucceeded), SetCookie(SessionCookie, "", SessionCookieOptions(production, 0)))
    ensures db.adminUsers == old(db.adminUsers) && db.sections == old(db.sections)
    ensures db.nextSectionId == old(db.nextSectionId)
    ensures db.sessions ==
      if Truthy(cookie) && fault.NoFault? then old(db.sessions) - {cookie.value} else old(db.sessions)
    ensures Truthy(cookie) && fault.NoFault? ==>
      forall now, f :: !Auth.ValidateSession(db, cookie.value, now, f).valid
  {
    if Truthy(cookie) {
      var _ := Auth.Logout(db, cookie.value, fault);
    }
    r := Response(200, MessageBody(LogoutSucceeded), SetCookie(SessionCookie, "", SessionCookieOptions(production, 0)));
  }
}
