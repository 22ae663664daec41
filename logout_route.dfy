/** The legacy `POST /api/logout` (src/app/api/logout/route.ts): takes the
    session id from the JSON body and only checks that it is there. It takes
    no store: the session it names is left as it was. */
module LogoutRoute {
  import opened Types
  import opened Http

  const SessionIdMissing: string := "SessionId missing"
  const LoggedOut: string := "Logged out successfully"

  /** The parsed JSON body: `{ sessionId? }`. */
  datatype LogoutRequest = LogoutRequest(sessionId: Option<string>)

  /** `body` is None when the request body is not a JSON object; the handler
      does not catch that, so the framework answers 500. */
  function Post(body: Option<LogoutRequest>): (r: Response)
    ensures r.cookie == KeepCookies
    ensures body.None? ==> r.status == 500 && r.body == FrameworkError
    ensures body.Some? ==> (r.status == 400 <==> !Truthy(body.value.sessionId))
    ensures body.Some? && !Truthy(body.value.sessionId) ==> r.body == ErrorBody(SessionIdMissing)
    ensures body.Some? && Truthy(body.value.sessionId) ==> r.status == 200 && r.body == MessageBody(LoggedOut)
  {
    match body
    case None => Response(500, FrameworkError, KeepCookies)
    case Some(request) =>
      if !Truthy(request.sessionId) then Response(400, ErrorBody(SessionIdMissing), KeepCookies)
      else Response(200, MessageBody(LoggedOut), KeepCookies)
  }

  /** The answer depends on whether a session id is given, not on which. */
  lemma OnlyPresenceMatters(a: Option<string>, b: Option<string>)
    requires Truthy(a) == Truthy(b)
    ensures Post(Some(LogoutRequest(a))) == Post(Some(LogoutRequest(b)))
  {
  }
}
