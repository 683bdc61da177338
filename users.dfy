/** The `/users` routes: create a user with a hashed password, and list every user. Unlike
    registration, creation checks no e-mail itself: a duplicate is refused by the database's
    unique constraint, and the stored row, hash included, is sent back. */
module Users {
  import opened Base
  import opened Tables
  import opened Database
  import opened Auth

  /** POST /users. A failure of the hash or of the insert answers 400 with the error's own
      message. */
  method CreateUser(
    db: Store, name: string, email: string, password: string, now: Instant,
    crypto: Crypto, fault: Option<string>)
    returns (r: Response<User>)
    requires db.Valid()
    modifies db`users, db`nextId
    ensures db.Valid()
    ensures fault.Some? ==> r == Error(400, FromStorage(Unavailable(fault.value)))
    ensures fault.None? && (exists u :: u in old(db.users) && u.email == email) ==>
      r == Error(400, FromStorage(UniqueViolation("email")))
    ensures r.Ok? <==> fault.None? && forall u :: u in old(db.users) ==> u.email != email
    ensures r.Error? ==> db.users == old(db.users) && db.nextId == old(db.nextId)
    ensures r.Ok? ==> r.body == User(old(db.nextId), name, email, crypto.hash(password), now)
    ensures r.Ok? ==> db.users == old(db.users) + [r.body] && db.nextId == old(db.nextId) + 1
  {
    if fault.Some? {
      return Error(400, FromStorage(Unavailable(fault.value)));
    }
    KeyLookup(db.users, Email, email);
    var clash := FindFirst(db.users, HasKey(Email, email));
    if clash.Some? {
      return Error(400, FromStorage(UniqueViolation("email")));
    }
    var user := User(db.nextId, name, email, crypto.hash(password), now);
    PrimaryKeyInsert(db.users, user, UserId, db.nextId);
    DistinctAppend(db.users, user, Email);
    db.users := db.users + [user];
    db.nextId := db.nextId + 1;
    ValidAfter(db);
    r := Ok(user);
  }

  /** GET /users: every user, hashes included. */
  function ListUsers(users: seq<User>): (r: seq<User>)
    ensures multiset(r) == multiset(users)
  {
    users
  }
}
