/** `GET /api/auth/me` (src/app/api/auth/me/route.ts): reports whether the
    session cookie names a valid session. */
module MeRoute {
  import opened Types
  import opened Store
  import opened Http
  import Auth

  function Get(db: Database, now: Timestamp, cookie: Option<string>, fault: Fault): (r: Response)
    reads db
    ensures r.status == 200 <==> Truthy(cookie) && Auth.ValidateSession(db, cookie.value, now, fault).valid
    ensures r.status != 200 ==> r.status == 401 && r.body == AuthBody(false, None)
    ensures r.status == 200 ==>
      r.body == AuthBody(true, Some(db.adminUsers[db.sessions[cookie.value].user_id]))
    ensures r.cookie == KeepCookies
  {
    if !Truthy(cookie) then Response(401, AuthBody(false, None), KeepCookies)
    else
      var v := Auth.ValidateSession(db, cookie.value, now, fault);
      if !v.valid then Response(401, AuthBody(false, None), KeepCookies)
      else Response(200, AuthBody(true, v.user), KeepCookies)
  }
}
