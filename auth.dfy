/** The session and authentication service (src/app/lib/auth.ts): login by
    plaintext credential match, bearer-token sessions with a fixed lifetime,
    read-only validation, logout by deletion, and password change. */
module Auth {
  import opened Types
  import opened Store

  /** Seven days, in seconds: the lifetime of a new session. */
  const SessionLifetime: int := 7 * 24 * 60 * 60

  const IncorrectCredentials: string := "Email or password is incorrect"
  const SessionCreationFailed: string := "Error creating session"
  const UnexpectedError: string := "Unexpected error occurred"
  const OldPasswordIncorrect: string := "Old password is incorrect"
  const PasswordUpdateFailed: string := "Error updating password"

  /** `{ user, session, error }` as `login` returns it. */
  datatype LoginResult = LoginResult(user: Option<AdminUser>, session: Option<Session>, error: Option<string>)
  {
    /** Either a user and a session and no error, or neither and an error. */
    predicate WellFormed() {
      || (user.Some? && session.Some? && error.None?)
      || (user.None? && session.None? && error.Some?)
    }
  }

  function LoginFailure(message: string): LoginResult {
    LoginResult(None, None, Some(message))
  }

  /** `{ user, valid }` as `validateSession` returns it. */
  datatype Validation = Validation(user: Option<AdminUser>, valid: bool)

  /** The ids of the admin users whose email and password are exactly the given ones. */
  function CredentialMatches(db: Database, email: string, password: string): set<string>
    reads db
  {
    set id | id in db.adminUsers && db.adminUsers[id].email == email && db.adminUsers[id].password == password
  }

  /** Since emails are unique, an admin's own email and password match that
      admin and no one else: `.single()` then finds exactly that row. */
  lemma OwnCredentialsMatch(db: Database, id: string)
    requires db.Valid() && id in db.adminUsers
    ensures CredentialMatches(db, db.adminUsers[id].email, db.adminUsers[id].password) == {id}
  {
  }

  lemma SingletonOf<T>(s: set<T>, x: T)
    requires |s| == 1 && x in s
    ensures s == {x}
  {
    assert |s - {x}| == 0;
  }

  /** Looks the credentials up with `.single()`; on exactly one match, inserts a
      session for that user expiring SessionLifetime after `now`. The store
      chooses the new session's id (`newId`); an id already in use makes the
      insert fail. The id stands for a generated UUID, so it is never empty. */
  method Login(db: Database, email: string, password: string, now: Timestamp,
               newId: string, lookup: Fault, insert: Fault) returns (r: LoginResult)
    requires db.Valid()
    requires newId != ""
    modifies db
    ensures db.Valid() && r.WellFormed()
    ensures db.adminUsers == old(db.adminUsers) && db.sections == old(db.sections)
    ensures db.nextSectionId == old(db.nextSectionId)
    ensures r.error.None? <==>
      lookup.NoFault? && |old(CredentialMatches(db, email, password))| == 1
      && insert.NoFault? && newId !in old(db.sessions)
    ensures r.error.None? ==>
      && old(CredentialMatches(db, email, password)) == {r.user.value.id}
      && r.user.value == old(db.adminUsers)[r.user.value.id]
      && r.session == Some(Session(newId, r.user.value.id, now + SessionLifetime, now))
      && db.sessions == old(db.sessions)[newId := r.session.value]
      && ValidateSession(db, newId, now, NoFault) == Validation(r.user, true)
    ensures r.error.Some? ==> db.sessions == old(db.sessions)
    ensures lookup.Exception? ==> r == LoginFailure(UnexpectedError)
    ensures lookup.ErrorReply? || (lookup.NoFault? && |old(CredentialMatches(db, email, password))| != 1) ==>
      r == LoginFailure(IncorrectCredentials)
    ensures lookup.NoFault? && |old(CredentialMatches(db, email, password))| == 1 ==>
      && (insert.Exception? ==> r == LoginFailure(UnexpectedError))
      && (insert.ErrorReply? || (insert.NoFault? && newId in old(db.sessions)) ==>
            r == LoginFailure(SessionCreationFailed))
  {
    if lookup.Exception? {
      return LoginFailure(UnexpectedError);
    }
    var matches := CredentialMatches(db, email, password);
    if lookup.ErrorReply? || |matches| != 1 {
      return LoginFailure(IncorrectCredentials);
    }
    var uid :| uid in matches;
    SingletonOf(matches, uid);
    var user := db.adminUsers[uid];
    if insert.Exception? {
      return LoginFailure(UnexpectedError);
    }
    if insert.ErrorReply? || newId in db.sessions {
      return LoginFailure(SessionCreationFailed);
    }
    var session := Session(newId, user.id, now + SessionLifetime, now);
    db.sessions := db.sessions[newId := session];
    r := LoginResult(Some(user), Some(session), None);
  }

  /** Looks up the session by id among those expiring after `now`, then its
      owner by id. `fault` stands for any of the two lookups failing. Reads
      the store and changes nothing: an expired session is neither removed
      nor extended. */
  function ValidateSession(db: Database, sessionId: string, now: Timestamp, fault: Fault): (r: Validation)
    reads db
    ensures r.valid <==>
      && fault.NoFault?
      && sessionId in db.sessions
      && db.sessions[sessionId].expires_at > now
      && db.sessions[sessionId].user_id in db.adminUsers
    ensures r.valid ==> r.user == Some(db.adminUsers[db.sessions[sessionId].user_id])
    ensures !r.valid ==> r.user == None
  {
    if !fault.NoFault? || sessionId !in db.sessions || db.sessions[sessionId].expires_at <= now then
      Validation(None, false)
    else
      var session := db.sessions[sessionId];
      if session.user_id !in db.adminUsers then Validation(None, false)
      else Validation(Some(db.adminUsers[session.user_id]), true)
  }

  /** A session created at `created` with the login lifetime, whose owner
      exists, is valid exactly before `created + SessionLifetime`: validation
      never extends it, and once expired it stays invalid. */
  lemma SessionLifetimeBound(db: Database, sessionId: string, created: Timestamp, t: Timestamp)
    requires sessionId in db.sessions && db.sessions[sessionId].user_id in db.adminUsers
    requires db.sessions[sessionId].expires_at == created + SessionLifetime
    ensures ValidateSession(db, sessionId, t, NoFault).valid <==> t < created + SessionLifetime
  {
  }

  /** Deletes the session row with that id. Reports true whenever the store
      reports no error, also when no such row existed. */
  method Logout(db: Database, sessionId: string, fault: Fault) returns (ok: bool)
    requires db.Valid()
    modifies db
    ensures db.Valid()
    ensures ok <==> fault.NoFault?
    ensures db.sessions == if ok then old(db.sessions) - {sessionId} else old(db.sessions)
    ensures db.adminUsers == old(db.adminUsers) && db.sections == old(db.sections)
    ensures db.nextSectionId == old(db.nextSectionId)
    ensures ok ==> forall now, f :: !ValidateSession(db, sessionId, now, f).valid
  {
    if !fault.NoFault? {
      return false;
    }
    db.sessions := db.sessions - {sessionId};
    ok := true;
  }

  /** Re-authenticates by email and old password with `.single()`, then sets
      that user's password to `newPassword`, stored as given. */
  method ChangePassword(db: Database, email: string, oldPassword: string, newPassword: string,
                        lookup: Fault, update: Fault) returns (r: Outcome)
    requires db.Valid()
    modifies db
    ensures db.Valid() && r.WellFormed()
    ensures db.sessions == old(db.sessions) && db.sections == old(db.sections)
    ensures db.nextSectionId == old(db.nextSectionId)
    ensures r.success <==>
      lookup.NoFault? && |old(CredentialMatches(db, email, oldPassword))| == 1 && update.NoFault?
    ensures r.success ==> forall id :: id in old(CredentialMatches(db, email, oldPassword)) ==>
      db.adminUsers == old(db.adminUsers)[id := old(db.adminUsers)[id].(password := newPassword)]
    ensures r.success ==> CredentialMatches(db, email, newPassword) == old(CredentialMatches(db, email, oldPassword))
    ensures !r.success ==> db.adminUsers == old(db.adminUsers)
    ensures lookup.Exception? ==> r == Refused(UnexpectedError)
    ensures lookup.ErrorReply? || (lookup.NoFault? && |old(CredentialMatches(db, email, oldPassword))| != 1) ==>
      r == Refused(OldPasswordIncorrect)
    ensures lookup.NoFault? && |old(CredentialMatches(db, email, oldPassword))| == 1 ==>
      && (update.ErrorReply? ==> r == Refused(PasswordUpdateFailed))
      && (update.Exception? ==> r == Refused(UnexpectedError))
  {
    if lookup.Exception? {
      return Refused(UnexpectedError);
    }
    var matches := CredentialMatches(db, email, oldPassword);
    if lookup.ErrorReply? || |matches| != 1 {
      return Refused(OldPasswordIncorrect);
    }
    var uid :| uid in matches;
    SingletonOf(matches, uid);
    if update.ErrorReply? {
      return Refused(PasswordUpdateFailed);
    }
    if update.Exception? {
      return Refused(UnexpectedError);
    }
    db.adminUsers := db.adminUsers[uid := db.adminUsers[uid].(password := newPassword)];
    r := Succeeded;
  }
}
