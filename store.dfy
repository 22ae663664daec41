/** The hosted database, as the services see it: three tables keyed by their
    primary keys, and the sequence that numbers new sections. Each call the
    services make can be answered normally, answered with an error object, or
    throw; which one happens is the environment's choice, given as a Fault. */
module Store {
  import opened Types

  /** How one round trip to the store ends. */
  datatype Fault =
    | NoFault                       // the query ran; its result is read from the tables
    | ErrorReply(message: string)   // the client returned `{ error }` with this message
    | Exception                     // the client threw; the service's catch block runs

  /** The error message of `.single()` when the filter matches no row or
      several rows. The exact wording of the store is not part of the model. */
  const NoSingleRow: string := "exactly one row expected"

  /** The message of the store when an insert or update would give two rows
      the same primary key. */
  const DuplicateKey: string := "duplicate key value violates unique constraint"

  /** No two admin rows have the same email. */
  predicate UniqueEmails(users: map<string, AdminUser>) {
    forall a, b :: a in users && b in users && users[a].email == users[b].email ==> a == b
  }

  class Database {
    var adminUsers: map<string, AdminUser>
    var sessions: map<string, Session>
    var sections: map<int, Section>
    /** The next value of the sequence behind `sections.id`. */
    var nextSectionId: int

    /** Every row is stored under its own primary key, and no two admin users
        share an email (the column is unique). */
    ghost predicate Valid()
      reads this
    {
      && (forall k :: k in adminUsers ==> adminUsers[k].id == k)
      && UniqueEmails(adminUsers)
      && (forall k :: k in sessions ==> sessions[k].id == k)
      && (forall k :: k in sections ==> sections[k].id == k)
    }

    /** A store seeded with the given admin users (there is no registration
        flow), no sessions and no sections. */
    constructor (users: map<string, AdminUser>)
      requires forall k :: k in users ==> users[k].id == k
      requires UniqueEmails(users)
      ensures Valid()
      ensures adminUsers == users && sessions == map[] && sections == map[]
      ensures nextSectionId == 1
    {
      adminUsers := users;
      sessions := map[];
      sections := map[];
      nextSectionId := 1;
    }
  }
}
