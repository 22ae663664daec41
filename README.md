# Admin sessions and content store of the Vision site, in Dafny

This project models the server side of a small marketing site with an
admin-only dashboard. Admin users log in with email and password; a login
creates a session row whose id is the bearer token kept in the `sessionId`
cookie; a route guard admits `/dashboard` requests only with a valid session;
the dashboard edits `sections` (title, description, image) and the admin's
own profile and password. Every service call is a query against a hosted
database. Here the database is a class `Store.Database` holding the three
tables as maps keyed by primary key, plus the sequence that numbers sections.

Modules, one per source file:

- `Types` (`src/app/types/index.ts`): the rows `AdminUser`, `Session` and
  `Section`, and the `{ data, error }` / `{ success, error }` result shapes.
- `Store`: the database class and `Fault`, which says how one round trip
  ends. A round trip can succeed, return an error object with a message, or
  throw. Every operation takes one `Fault` per round trip it makes, so every
  error branch and every `catch` block of the source can be reached.
- `Auth` (`src/app/lib/auth.ts`): `Login`, `ValidateSession`, `Logout`,
  `ChangePassword`.
- `Content` (`src/app/lib/contentService.ts`): `GetAllSections`,
  `GetSectionById`, `CreateSection`, `UpdateSection`, `DeleteSection`.
- `Profile` (`src/app/lib/profileService.ts`): `UpdateProfile`,
  `UpdatePassword`, `GetProfile`.
- `Http`: responses (status, body, cookie effect) as the handlers build them.
- `Guard` (`src/app/middleware.ts`), `LoginRoute`
  (`src/app/api/login/route.ts`), `MeRoute` (`src/app/api/auth/me/route.ts`),
  `LogoutRoute` (`src/app/api/logout/route.ts`).
- `Scenario`: a client method that chains a failed login, a login, a status
  query and a logout; its assertions about each answer follow from the
  contracts alone.

Operations that change tables are methods with `modifies db`. Each one states
the whole new state of every table. Read-only queries and the response
mappings are functions. Time is an integer number of seconds, passed in as
`now`. The session lifetime is the constant `Auth.SessionLifetime` (604800
seconds, 7 days). The store picks the id of a new session (`newId`, never empty, as it
stands for a generated UUID); an id that is already taken makes the insert
fail, as the primary key would.
Section ids come from `nextSectionId`.

`.single()` means "exactly one matching row, otherwise the store error
`NoSingleRow`". `Store.Database.Valid` keeps every row under its own primary
key and the admin emails unique, as the `admin_users.email` column is; no
modelled operation changes an email, so every method keeps that invariant,
and a login or password change with an admin's own email and password finds
exactly that admin. JavaScript truthiness of an optional
string (`!email`, `!sessionId`) is `Http.Truthy`: the string is present and
not empty.

The model keeps these details of the code as written:

- `updateProfile` on an unknown user id reports success and changes nothing.
  It does not use `.single()`.
- `POST /api/login` answers `password is required` when either field is
  missing, the email included.
- The legacy `POST /api/logout` never deletes the session.
- The guard tests `startsWith('/dashboard')`, so a path like `/dashboardX`
  is guarded when the guard runs. When the framework runs this middleware
  with its `config.matcher` (`/dashboard/:path*`), it runs it only on
  `/dashboard` and paths below it.
  `Guard.Middleware` models the function. `Guard.Route` models the function
  together with the matcher.

## Model

| member | source | states |
|---|---|---|
| Auth.Login | src/app/lib/auth.ts:5-39 | Succeeds exactly when the lookup answers, exactly one admin row has that email and password, the insert answers, and the new id is free. On success it returns that row and a session `(newId, user id, now + 7 days, now)`, the sessions table gains exactly that row, and the session validates at `now`. Each failure gives its own message (`Email or password is incorrect`, `Error creating session`, `Unexpected error occurred`) and inserts nothing. The result always has either user and session and no error, or neither and an error. No other table changes. |
| Auth.ValidateSession | src/app/lib/auth.ts:41-69 | Valid exactly when the store answers, a session with that id exists, it expires strictly after `now`, and its `user_id` names an existing admin. The user returned is then exactly that admin row; otherwise the user is null. It is a function of the tables, so it changes nothing, and expired rows stay. |
| Auth.SessionLifetimeBound | src/app/lib/auth.ts:18-52 | A session created at `t0` with the login lifetime and an existing owner is valid at `t` exactly when `t < t0 + 7 days`. Validation never extends it. |
| Auth.Logout | src/app/lib/auth.ts:71-83 | Returns true exactly when the store reports no error, also for an unknown id. On true it removes that session id and no other row; on false nothing changes. After true, the id fails validation at every time and under every fault. |
| Auth.ChangePassword | src/app/lib/auth.ts:85-116 | Succeeds exactly when the lookup answers, exactly one admin row matches email and old password, and the update answers. Then only that user's password becomes `newPassword`, and the new password matches exactly the rows the old one did, so a later login with it finds that user. Otherwise nothing changes and the error is `Old password is incorrect`, `Error updating password` or `Unexpected error occurred` according to the failing step. |
| Auth.OwnCredentialsMatch | src/app/lib/auth.ts:7-12 | In a valid store an admin's own email and password match that admin and nobody else, so the `.single()` lookup of login and password change finds exactly that row. |
| Content.Apply | src/app/lib/contentService.ts:61-66 | A partial section update: each field given in the patch replaces that column, and every field not given keeps its value. |
| Content.SortedRows | src/app/lib/contentService.ts:7-11 | Lists the table. The list has as many entries as the table has rows, holds every row, holds nothing else, and `created_at` never increases along it. |
| Content.SortedRowsDistinct | src/app/lib/contentService.ts:7-11 | When every row sits under its own id, the listing names no id twice, so each row appears exactly once. |
| Content.GetAllSections | src/app/lib/contentService.ts:5-21 | With no store failure, the data is such a listing of the sections table, newest first, and in a valid store no id is listed twice. A store error returns its message, a thrown error returns the fixed catch message. Data and error never come together. |
| Content.GetSectionById | src/app/lib/contentService.ts:23-40 | Returns data exactly when the store answers and a section with that id exists, and the data is that row. A missing id gives the not-exactly-one-row error. Store errors and thrown errors give their messages, with data null. |
| Content.CreateSection | src/app/lib/contentService.ts:42-59 | On success it adds exactly one row: title, description and image URL from the input, `id` from the sequence (not in use before), and `created_at = now`. Existing rows are unchanged, the sequence advances, and looking the new id up returns that same row. On any error the table is unchanged. A sequence value that collides with an existing row is used up, as `nextval` is, so the next attempt gets a fresh id; a store error or exception leaves the sequence as it was. |
| Content.UpdateSection | src/app/lib/contentService.ts:61-79 | On success the row with that id becomes `Apply(old row, patch)`, every other row is unchanged, and looking the row up under its (possibly new) id returns it. A missing id, or a new id taken by another row, gives an error and changes nothing. |
| Content.DeleteSection | src/app/lib/contentService.ts:81-97 | `success` holds exactly when the store reports no error. Then the row with that id is removed and no other row; afterwards looking it up reports the not-found error. On error nothing changes and the message is returned. |
| Profile.ApplyProfile | src/app/lib/profileService.ts:5-13 | A profile update changes only `name` and `avatar_url`, and only those given. `id`, `email`, `password` and `created_at` stay. |
| Profile.UpdateProfile | src/app/lib/profileService.ts:5-24 | Succeeds exactly when the store reports no error. Then only the row with `userId` (if there is one) receives the update, and every other row and table is untouched. On error nothing changes and the store's message, or `Error updating profile`, is returned. |
| Profile.UpdatePassword | src/app/lib/profileService.ts:26-60 | Succeeds exactly when both round trips answer and the stored password equals `currentPassword`. Then only that user's password becomes `newPassword`, whatever its content. The new password then passes the same check, so a following call with it as current password succeeds. An unknown user gives `User not found`, a mismatch `Current password is incorrect`, and in every failure nothing changes. |
| Profile.GetProfile | src/app/lib/profileService.ts:62-79 | Returns the full row of `userId`, password included, exactly when the store answers and the row exists. Otherwise data is null and there is an error. It is a function of the tables and changes nothing. |
| Guard.Middleware | src/app/middleware.ts:5-23 | A path not starting with `/dashboard` passes, whatever the cookie. A `/dashboard` path without a cookie is redirected to `/login` and the result does not depend on the store. With a cookie, the request passes exactly when the session validates. Otherwise it is redirected to `/login` and the `sessionId` cookie is cleared (`''`, maxAge 0). The store is only read. |
| Guard.PrefixGuardsLookalikes | src/app/middleware.ts:8-11 | The guard alone redirects every path that begins with `/dashboard`, such as `/dashboardX`, to `/login` when there is no cookie. |
| Guard.LookalikesServedUnguarded | src/app/middleware.ts:8-27 | A path `/dashboard` followed by anything not starting with `/` (such as `/dashboardX`) is served whatever the cookie once the matcher applies, although the guard alone would redirect it without a cookie. |
| Guard.LiveSessionAdmitted | src/app/middleware.ts:8-22 | A cookie naming a session that exists, has not expired and has an owner is admitted on every path. |
| Guard.MatchedIsGuarded | src/app/middleware.ts:25-27 | Every path the matcher selects starts with `/dashboard`, so the guard's checks apply to all of them. |
| Guard.Route | src/app/middleware.ts:8-27 | With the matcher, a request is served exactly when its path is not matched, or it carries a cookie whose session validates. |
| Guard.GuardAgreesWithMe | src/app/middleware.ts:8-19 | On a dashboard path, the guard lets a request through exactly when `GET /api/auth/me` with the same cookie answers 200. |
| MeRoute.Get | src/app/api/auth/me/route.ts:10-18 | Status 200 exactly when the cookie is present and its session validates. The body is then `{authenticated: true, user}` with the session owner's full row. Otherwise the answer is 401 `{authenticated: false}`. It sets no cookie and changes nothing. |
| LoginRoute.LoginReply | src/app/api/login/route.ts:27-54 | 200 exactly when the service result has no truthy error and has both a user and a session. The body then has the user without password and `sessionId = session.id`, and the cookie `sessionId = session.id` is set httpOnly, sameSite lax, with maxAge equal to the session lifetime. Otherwise the answer is 401 with the service's error, or `Invalid credentials`, and no cookie. |
| LoginRoute.Post | src/app/api/login/route.ts:16-62 | A body that is not JSON gives 500 `Internal server error`. A missing or empty email or password gives 400 `password is required` without touching the store. Otherwise the answer is 200 or 401. It is 200 exactly when the login succeeds. Then the body's user is, without password, the one admin row matching the submitted email and password; the new session belongs to it, is stored, validates, and is named in body and cookie; and with that cookie `GET /api/auth/me` answers 200 and the guard serves `/dashboard`. A 401 carries one of the service's three messages. Only the sessions table can change, and only on 200. |
| LoginRoute.Delete | src/app/api/login/route.ts:64-88 | Always 200 `Logout successful`, and the cookie is cleared (`''`, maxAge 0), whatever logout reported. The session is deleted only when a cookie is present and the store answers; without a cookie the store is untouched. A deleted session never validates again. |
| LogoutRoute.Post | src/app/api/logout/route.ts:3-13 | A missing or empty `sessionId` gives 400 `SessionId missing`. Otherwise the answer is 200 `Logged out successfully`. It takes no store, so no session changes. A body that is not JSON is not caught and the framework answers 500. |
| LogoutRoute.OnlyPresenceMatters | src/app/api/logout/route.ts:6-12 | The answer depends only on whether a session id is given, not on which one. |

## Left out

- The React pages, components, local-storage token checks, the client-side
  "new password equals confirmation" check, and the realtime refetch of the
  home page: they are presentation and event handling, not service
  behaviour.
- `src/app/api/sections/route.ts`: it is entirely commented out.
- The hosted-database client and the network. A store call is one atomic
  step whose outcome is a `Fault` argument. Nothing is asynchronous, nothing
  interleaves, and nothing is retried (the source has no retries).
- Calendar time: `setDate(getDate() + 7)` in local time (which can differ
  from 604800 seconds across a daylight-saving change), ISO-string
  timestamps, and date formatting. Time is integer seconds.
- The exact wording of the store's error messages: `NoSingleRow` and
  `DuplicateKey` stand for them.
- The sequence behind `sections.id`: in the model it advances on a
  successful insert and on a primary-key collision. It stays where it was
  when the store answers with an error or the client throws, although
  Postgres may still have used up a value then.
- Auth.ValidateSession: one `fault` argument stands for a failure of either
  of its two lookups, because every failure gives the same answer
  (`valid: false`).
- The ordering of sections with equal `created_at`: the store leaves it
  open, and the model breaks ties by larger id first.
- `secure: process.env.NODE_ENV === 'production'`: this is the `production`
  argument.
- The redirect target `new URL('/login', request.url)`: it is modelled as
  the path `/login` on the same origin.
- LoginRoute.Delete: the handler's 500 branch (`catch`) is not modelled,
  because no modelled step of that handler can throw (`logout` catches
  everything itself).
- LoginRoute.Post: of the steps that could throw, only `request.json()` is
  modelled, by a body that is not JSON. JSON values that are not strings
  (numbers, booleans) are left out, as in the other handlers.
- `console.log` and `console.error` output.
- The `AuthState` type: no core operation uses it.
