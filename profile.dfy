/** The profile service (src/app/lib/profileService.ts): partial update of an
    admin user's display fields, password change guarded by the current
    password, and lookup. */
module Profile {
  import opened Types
  import opened Store

  const ProfileUpdateFailed: string := "Error updating profile"
  const UserNotFound: string := "User not found"
  const CurrentPasswordIncorrect: string := "Current password is incorrect"
  const PasswordUpdateFailed: string := "Error updating password"
  const ProfileFetchFailed: string := "Error fetching profile data"

  /** `{ name?, avatar_url? }`: each present field replaces that column. */
  datatype ProfileUpdate = ProfileUpdate(name: Option<string>, avatar_url: Option<string>)

  /** The row after a profile update: only `name` and `avatar_url` can change. */
  function ApplyProfile(u: AdminUser, p: ProfileUpdate): (r: AdminUser)
    ensures r.id == u.id && r.email == u.email && r.password == u.password && r.created_at == u.created_at
    ensures r.name == (if p.name.Some? then p.name else u.name)
    ensures r.avatar_url == (if p.avatar_url.Some? then p.avatar_url else u.avatar_url)
  {
    var name := if p.name.Some? then Some(p.name.value) else u.name;
    var avatar := if p.avatar_url.Some? then Some(p.avatar_url.value) else u.avatar_url;
    u.(name := name, avatar_url := avatar)
  }

  /** The stored password of `userId` is exactly `password`. */
  predicate PasswordIs(db: Database, userId: string, password: string)
    reads db
  {
    userId in db.adminUsers && db.adminUsers[userId].password == password
  }

  /** `update(updates) where id = userId`. Without `.single()`, an unknown id
      updates no row and still succeeds. */
  method UpdateProfile(db: Database, userId: string, updates: ProfileUpdate, fault: Fault)
    returns (r: Outcome)
    requires db.Valid()
    modifies db
    ensures db.Valid() && r.WellFormed()
    ensures db.sessions == old(db.sessions) && db.sections == old(db.sections)
    ensures db.nextSectionId == old(db.nextSectionId)
    ensures r.success <==> fault.NoFault?
    ensures db.adminUsers ==
      if r.success && userId in old(db.adminUsers)
      then old(db.adminUsers)[userId := ApplyProfile(old(db.adminUsers)[userId], updates)]
      else old(db.adminUsers)
    ensures fault.ErrorReply? ==> r.error == Some(fault.message)
    ensures fault.Exception? ==> r.error == Some(ProfileUpdateFailed)
  {
    match fault {
      case ErrorReply(message) => return Refused(message);
      case Exception => return Refused(ProfileUpdateFailed);
      case NoFault =>
    }
    if userId in db.adminUsers {
      db.adminUsers := db.adminUsers[userId := ApplyProfile(db.adminUsers[userId], updates)];
    }
    r := Succeeded;
  }

  /** Reads the stored password with `.single()`, compares it with
      `currentPassword`, then stores `newPassword` as given (no length or
      content check at this layer). */
  method UpdatePassword(db: Database, userId: string, currentPassword: string, newPassword: string,
                        fetch: Fault, update: Fault) returns (r: Outcome)
    requires db.Valid()
    modifies db
    ensures db.Valid() && r.WellFormed()
    ensures db.sessions == old(db.sessions) && db.sections == old(db.sections)
    ensures db.nextSectionId == old(db.nextSectionId)
    ensures r.success <==> fetch.NoFault? && old(PasswordIs(db, userId, currentPassword)) && update.NoFault?
    ensures r.success ==>
      && db.adminUsers == old(db.adminUsers)[userId := old(db.adminUsers)[userId].(password := newPassword)]
      && PasswordIs(db, userId, newPassword)
    ensures !r.success ==> db.adminUsers == old(db.adminUsers)
    ensures fetch.Exception? ==> r.error == Some(PasswordUpdateFailed)
    ensures fetch.ErrorReply? || (fetch.NoFault? && userId !in old(db.adminUsers)) ==> r.error == Some(UserNotFound)
    ensures fetch.NoFault? && userId in old(db.adminUsers) && !old(PasswordIs(db, userId, currentPassword)) ==>
      r.error == Some(CurrentPasswordIncorrect)
    ensures fetch.NoFault? && old(PasswordIs(db, userId, currentPassword)) ==>
      && (update.ErrorReply? ==> r.error == Some(update.message))
      && (update.Exception? ==> r.error == Some(PasswordUpdateFailed))
  {
    if fetch.Exception? {
      return Refused(PasswordUpdateFailed);
    }
    if fetch.ErrorReply? || userId !in db.adminUsers {
      return Refused(UserNotFound);
    }
    if db.adminUsers[userId].password != currentPassword {
      return Refused(CurrentPasswordIncorrect);
    }
    match update {
      case ErrorReply(message) => return Refused(message);
      case Exception => return Refused(PasswordUpdateFailed);
      case NoFault =>
    }
    db.adminUsers := db.adminUsers[userId := db.adminUsers[userId].(password := newPassword)];
    r := Succeeded;
  }

  /** `select * where id = userId`, `.single()`: the whole row, password included. */
  function GetProfile(db: Database, userId: string, fault: Fault): (r: DataResult<AdminUser>)
    reads db
    ensures r.WellFormed()
    ensures r.data.Some? <==> fault.NoFault? && userId in db.adminUsers
    ensures r.data.Some? ==> r.data.value == db.adminUsers[userId]
    ensures fault.NoFault? && userId !in db.adminUsers ==> r.error == Some(NoSingleRow)
    ensures fault.ErrorReply? ==> r.error == Some(fault.message)
    ensures fault.Exception? ==> r.error == Some(ProfileFetchFailed)
  {
    match fault
    case NoFault => if userId in db.adminUsers then Found(db.adminUsers[userId]) else Failed(NoSingleRow)
    case ErrorReply(message) => Failed(message)
    case Exception => Failed(ProfileFetchFailed)
  }
}
