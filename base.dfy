/** Values shared by every route: identifiers, instants, the caller's identity,
    the records of the five tables and the shape of an HTTP response. */
module Base {

  /** Row identifiers. The database generates them; the model draws them from a counter. */
  type Id = nat

  /** A point in time in milliseconds since the epoch (server-local time). */
  type Instant = int

  datatype Option<T> = None | Some(value: T) {
    function GetOr(default: T): T {
      match this
      case Some(v) => v
      case None => default
    }
  }

  /** What the authentication middleware attaches to the request: `req.user.id`
      and `req.user.userId`, either of which may be absent. */
  datatype Identity = Identity(id: Option<Id>, userId: Option<Id>)

  datatype User = User(id: Id, name: string, email: string, passwordHash: string, createdAt: Instant)

  datatype Client = Client(
    id: Id, name: string, phone: string, email: string,
    birthday: Option<Instant>, notes: string, createdAt: Instant, userId: Id)

  datatype Note = Note(id: Id, clientId: Id, content: string, createdAt: Instant, userId: Id)

  datatype Reminder = Reminder(
    id: Id, kind: string, date: Instant, done: bool, clientId: Option<Id>, userId: Id)

  /** `value` is a decimal amount in the database; here it is an integer number of cents. */
  datatype Sale = Sale(id: Id, clientId: Id, userId: Id, description: string, value: int, date: Instant)

  /** Why a storage call threw. */
  datatype StorageError =
    | RecordNotFound                 // `update`/`delete` by id found no row
    | UniqueViolation(field: string) // an insert broke a unique constraint
    | MissingField(field: string)    // a required column was `undefined`
    | Unavailable(message: string)   // any other failure of the storage engine

  /** The text of an `{ error }` body: a fixed message, or the storage error's own message. */
  datatype Message = Text(text: string) | FromStorage(cause: StorageError)

  /** `res.json(body)` (status 200) or `res.status(status).json({ error })`. */
  datatype Response<T> = Ok(body: T) | Error(status: nat, error: Message)

  /** Prisma ignores a `where` field whose value is `undefined`: an absent owner filters nothing. */
  predicate OwnerMatches(owner: Option<Id>, rowOwner: Id) {
    owner.None? || owner.value == rowOwner
  }

  /** `req.user.id || req.user.userId`, as notes.js and dashboard.js resolve the caller. */
  function ActingUser(who: Identity): (r: Option<Id>)
    ensures who.id.Some? ==> r == who.id
    ensures who.id.None? ==> r == who.userId
    ensures r.None? <==> who.id.None? && who.userId.None?
  {
    if who.id.Some? then who.id else who.userId
  }
}
