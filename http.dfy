/** What the route handlers and the route guard hand back to the web
    framework: a status, a JSON body and at most one `Set-Cookie`. */
module Http {
  import opened Types

  /** The cookie that carries the session id. */
  const SessionCookie: string := "sessionId"

  datatype SameSite = Lax | Strict

  /** The options of `response.cookies.set`; an option the handler does not
      pass has the framework default (not httpOnly, not secure, no sameSite). */
  datatype CookieOptions = CookieOptions(httpOnly: bool, secure: bool, sameSite: Option<SameSite>, maxAge: int)

  datatype CookieEffect =
    | KeepCookies
    | SetCookie(name: string, value: string, options: CookieOptions)

  /** The user as the login handler exposes it: no password, no creation time. */
  datatype PublicUser = PublicUser(id: string, email: string, name: Option<string>, avatar_url: Option<string>)

  datatype Body =
    | ErrorBody(error: string)                                        // { error }
    | MessageBody(message: string)                                    // { message }
    | LoginBody(message: string, account: PublicUser, sessionId: string) // { message, user, sessionId }
    | AuthBody(authenticated: bool, owner: Option<AdminUser>)          // { authenticated[, user] }
    | FrameworkError                                                  // an exception no handler caught

  datatype Response = Response(status: int, body: Body, cookie: CookieEffect)

  /** JavaScript truthiness of a string that may be missing: present and not empty. */
  predicate Truthy(v: Option<string>) {
    v.Some? && v.value != ""
  }
}
