/** The `/auth` routes: log in with e-mail and password, and register a new user. Password
    hashing, hash comparison and token signing are foreign code; they are the fields of a
    `Crypto` value, and the only law assumed of them is `Sound`. */
module Auth {
  import opened Base
  import opened Tables
  import opened Database

  const UnknownUser: Message := Text("Usuário não encontrado")
  const WrongPassword: Message := Text("Senha incorreta")
  const EmailTaken: Message := Text("E-mail já cadastrado")

  /** The token's lifetime, `expiresIn: '8h'`, in seconds. */
  const TokenLifetime: int := 8 * 60 * 60

  /** The token payload. It carries `userId`, not `id`. */
  datatype Claims = Claims(userId: Id, name: string, email: string)

  /** `hash` stands for `bcrypt.hashSync`, `compare` for `bcrypt.compare`, and `sign` for
      `jwt.sign` with the server's secret and the given lifetime. */
  datatype Crypto = Crypto(
    hash: string -> string,
    compare: (string, string) -> bool,
    sign: (Claims, int) -> string)

  /** A password matches its own hash. */
  ghost predicate Sound(crypto: Crypto) {
    forall p :: crypto.compare(p, crypto.hash(p))
  }

  /** The user as the login response shows it: no password hash. */
  datatype UserView = UserView(id: Id, name: string, email: string)

  datatype Session = Session(token: string, user: UserView)

  /** The user as the register response shows it: no password hash. */
  datatype PublicUser = PublicUser(id: Id, name: string, email: string, createdAt: Instant)

  /** The login response for `u`: a token whose payload is `{ userId, name, email }`, and
      the user without the hash. */
  function SessionFor(u: User, crypto: Crypto): (s: Session)
    ensures s.token == crypto.sign(Claims(u.id, u.name, u.email), 8 * 3600)
    ensures s.user.id == u.id && s.user.name == u.name && s.user.email == u.email
  {
    Session(crypto.sign(Claims(u.id, u.name, u.email), TokenLifetime), UserView(u.id, u.name, u.email))
  }

  /** POST /auth/login: `findUnique` on the e-mail, then the password check, then a token
      for the user. Nothing is written. */
  function Login(users: seq<User>, email: string, password: string, crypto: Crypto): (r: Response<Session>)
    ensures r == Error(400, UnknownUser) <==> forall u :: u in users ==> u.email != email
    ensures r == Error(400, WrongPassword) ==>
      exists u :: u in users && u.email == email && !crypto.compare(password, u.passwordHash)
    ensures r.Error? ==> r == Error(400, UnknownUser) || r == Error(400, WrongPassword)
    ensures r.Ok? ==> exists u :: u in users && u.email == email && crypto.compare(password, u.passwordHash) && r.body == SessionFor(u, crypto)
  {
    KeyLookup(users, Email, email);
    match FindFirst(users, HasKey(Email, email))
    case None => Error(400, UnknownUser)
    case Some(i) =>
      var u := users[i];
      if !crypto.compare(password, u.passwordHash) then Error(400, WrongPassword)
      else Ok(SessionFor(u, crypto))
  }

  /** With unique e-mails, the password is checked against the hash of the one user with
      that e-mail: login succeeds exactly when it matches. */
  lemma LoginChecksTheUser(users: seq<User>, u: User, password: string, crypto: Crypto)
    requires UniqueEmails(users) && u in users
    ensures Login(users, u.email, password, crypto).Ok? <==> crypto.compare(password, u.passwordHash)
    ensures Login(users, u.email, password, crypto).Error? ==> Login(users, u.email, password, crypto) == Error(400, WrongPassword)
  {
    FindByKey(users, Email, u);
  }

  /** A user stored with the hash of a password, under an e-mail nobody else has, logs in
      with that password, and the token names that user. */
  lemma RegisteredCanLogIn(users: seq<User>, u: User, password: string, crypto: Crypto)
    requires Sound(crypto)
    requires forall v :: v in users ==> v.email != u.email
    requires u.passwordHash == crypto.hash(password)
    ensures Login(users + [u], u.email, password, crypto) == Ok(SessionFor(u, crypto))
  {
    KeyLookup(users, Email, u.email);
    KeyLookup([u], Email, u.email);
    FindAppended(users, u, HasKey(Email, u.email));
    assert (users + [u])[|users|] == u;
  }

  /** POST /auth/register. An e-mail already in use answers 400 and writes nothing;
      otherwise the user is stored with the hash of the password, never the password, and
      answered without the hash. */
  method Register(db: Store, name: string, email: string, password: string, now: Instant, crypto: Crypto)
    returns (r: Response<PublicUser>)
    requires db.Valid()
    modifies db`users, db`nextId
    ensures db.Valid()
    ensures r.Error? <==> exists u :: u in old(db.users) && u.email == email
    ensures r.Error? ==> r == Error(400, EmailTaken) && db.users == old(db.users) && db.nextId == old(db.nextId)
    ensures r.Ok? ==> db.users == old(db.users) + [User(old(db.nextId), name, email, crypto.hash(password), now)]
    ensures r.Ok? ==> db.nextId == old(db.nextId) + 1
    ensures r.Ok? ==> r.body == PublicUser(old(db.nextId), name, email, now)
  {
    KeyLookup(db.users, Email, email);
    var existing := FindFirst(db.users, HasKey(Email, email));
    if existing.Some? {
      return Error(400, EmailTaken);
    }
    var user := User(db.nextId, name, email, crypto.hash(password), now);
    PrimaryKeyInsert(db.users, user, UserId, db.nextId);
    DistinctAppend(db.users, user, Email);
    db.users := db.users + [user];
    db.nextId := db.nextId + 1;
    ValidAfter(db);
    r := Ok(PublicUser(user.id, user.name, user.email, user.createdAt));
  }

  /** Registering and then logging in with the same credentials succeeds, for the user just
      registered. */
  method RegisterThenLogin(db: Store, name: string, email: string, password: string, now: Instant, crypto: Crypto)
    returns (registered: Response<PublicUser>, session: Response<Session>)
    requires db.Valid() && Sound(crypto)
    modifies db`users, db`nextId
    ensures registered.Ok? ==> session.Ok? && session.body.user == UserView(registered.body.id, name, email)
    ensures registered.Error? ==> registered == Error(400, EmailTaken)
  {
    ghost var before := db.users;
    registered := Register(db, name, email, password, now, crypto);
    if registered.Ok? {
      RegisteredCanLogIn(before, User(registered.body.id, name, email, crypto.hash(password), now), password, crypto);
    }
    session := Login(db.users, email, password, crypto);
  }
}
