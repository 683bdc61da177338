/** The `/clients` routes. The router sits behind the token check, so every request has a
    caller (`who`), but no handler reads it: rows are selected by id alone and a new
    client's owner comes from the request body. */
module Clients {
  import opened Base
  import opened Tables
  import opened Database

  const NotFound: Message := Text("Cliente não encontrado")
  const UpdateFailed: Message := Text("Erro ao atualizar cliente")
  const DeleteFailed: Message := Text("Erro ao deletar cliente")
  const Deleted: string := "Cliente deletado com sucesso"

  /** GET /clients: every client of every user, in storage order. */
  function ListClients(clients: seq<Client>, who: Identity): (r: seq<Client>)
    ensures multiset(r) == multiset(clients)
  {
    clients
  }

  /** Whoever asks, the listing holds every user's clients. */
  lemma ListingIgnoresCaller(clients: seq<Client>, who: Identity, other: Identity, x: Client)
    requires x in clients
    ensures x in ListClients(clients, who)
    ensures ListClients(clients, who) == ListClients(clients, other)
  {
    assert x in multiset(ListClients(clients, who));
  }

  /** GET /clients/:id: `findUnique` on the primary key. */
  function GetClient(clients: seq<Client>, who: Identity, id: Id): (r: Response<Client>)
    ensures r.Ok? ==> r.body in clients && r.body.id == id
    ensures r.Error? <==> forall x :: x in clients ==> x.id != id
    ensures r.Error? ==> r == Error(404, NotFound)
  {
    KeyLookup(clients, ClientId, id);
    match FindFirst(clients, HasKey(ClientId, id))
    case None => Error(404, NotFound)
    case Some(i) => Ok(clients[i])
  }

  /** Any caller reads any user's client by its id. */
  lemma AnyCallerReadsAnyClient(clients: seq<Client>, who: Identity, x: Client)
    requires Distinct(clients, ClientId) && x in clients
    ensures GetClient(clients, who, x.id) == Ok(x)
  {
    FindByKey(clients, ClientId, x);
  }

  /** POST /clients. `birthday` is the parsed date when the body has a truthy one and
      `None` (null) otherwise; `userId` is taken from the body, not from the caller. */
  method CreateClient(
    db: Store, who: Identity, name: string, phone: string, email: string,
    birthday: Option<Instant>, notes: string, userId: Option<Id>, now: Instant, fault: Option<string>)
    returns (r: Response<Client>)
    requires db.Valid()
    modifies db`clients, db`nextId
    ensures db.Valid()
    ensures userId.None? ==> r == Error(400, FromStorage(MissingField("userId")))
    ensures userId.Some? && fault.Some? ==> r == Error(400, FromStorage(Unavailable(fault.value)))
    ensures r.Ok? <==> userId.Some? && fault.None?
    ensures r.Ok? ==> r.body == Client(old(db.nextId), name, phone, email, birthday, notes, now, userId.value)
    ensures r.Ok? ==> db.clients == old(db.clients) + [r.body] && db.nextId == old(db.nextId) + 1
    ensures r.Error? ==> db.clients == old(db.clients) && db.nextId == old(db.nextId)
  {
    if userId.None? {
      return Error(400, FromStorage(MissingField("userId")));
    }
    if fault.Some? {
      return Error(400, FromStorage(Unavailable(fault.value)));
    }
    var client := Client(db.nextId, name, phone, email, birthday, notes, now, userId.value);
    PrimaryKeyInsert(db.clients, client, ClientId, db.nextId);
    db.clients := db.clients + [client];
    db.nextId := db.nextId + 1;
    ValidAfter(db);
    r := Ok(client);
  }

  /** The `data` of PUT: `name`, `phone`, `email` and `notes` are left alone when the body
      has none; `birthday` is always written, so a body without one clears it. */
  function Edit(name: Option<string>, phone: Option<string>, email: Option<string>,
                birthday: Option<Instant>, notes: Option<string>): Client -> Client {
    (c: Client) => c.(
      name := name.GetOr(c.name), phone := phone.GetOr(c.phone), email := email.GetOr(c.email),
      birthday := birthday, notes := notes.GetOr(c.notes))
  }

  /** What PUT writes into a client, and that its id, owner and creation time survive. */
  lemma EditWrites(name: Option<string>, phone: Option<string>, email: Option<string>,
                   birthday: Option<Instant>, notes: Option<string>, c: Client)
    ensures var e := Edit(name, phone, email, birthday, notes)(c);
      e.id == c.id && e.userId == c.userId && e.createdAt == c.createdAt
    ensures var e := Edit(name, phone, email, birthday, notes)(c);
      e.name == name.GetOr(c.name) && e.phone == phone.GetOr(c.phone) &&
      e.email == email.GetOr(c.email) && e.notes == notes.GetOr(c.notes)
    ensures Edit(name, phone, email, birthday, notes)(c).birthday == birthday
  { }

  /** PUT /clients/:id: `update` by primary key, answering the updated row. An unknown id
      or any storage failure answers 400 with a fixed message. */
  method UpdateClient(
    db: Store, who: Identity, id: Id, name: Option<string>, phone: Option<string>,
    email: Option<string>, birthday: Option<Instant>, notes: Option<string>, fault: Option<string>)
    returns (r: Response<Client>)
    requires db.Valid()
    modifies db`clients
    ensures db.Valid()
    ensures r.Ok? <==> fault.None? && exists x :: x in old(db.clients) && x.id == id
    ensures r.Error? ==> r == Error(400, UpdateFailed) && db.clients == old(db.clients)
    ensures r.Ok? ==> db.clients == UpdateWhere(old(db.clients), HasKey(ClientId, id), Edit(name, phone, email, birthday, notes))
    ensures r.Ok? ==> r.body in db.clients && r.body.birthday == birthday
    ensures r.Ok? ==> exists x :: x in old(db.clients) && x.id == id && r.body == Edit(name, phone, email, birthday, notes)(x)
  {
    KeyLookup(db.clients, ClientId, id);
    var found := FindFirst(db.clients, HasKey(ClientId, id));
    if fault.Some? || found.None? {
      return Error(400, UpdateFailed);
    }
    var i := found.value;
    var edit := Edit(name, phone, email, birthday, notes);
    ghost var before := db.clients;
    PrimaryKeyUpdate(before, HasKey(ClientId, id), edit, ClientId, db.nextId);
    db.clients := UpdateWhere(db.clients, HasKey(ClientId, id), edit);
    ValidAfter(db);
    r := Ok(db.clients[i]);
  }

  /** DELETE /clients/:id: `delete` by primary key, whoever owns the row. An unknown id or
      any storage failure answers 400 with a fixed message. */
  method DeleteClient(db: Store, who: Identity, id: Id, fault: Option<string>) returns (r: Response<string>)
    requires db.Valid()
    modifies db`clients
    ensures db.Valid()
    ensures r == if fault.Some? || Count(old(db.clients), HasKey(ClientId, id)) == 0 then Error(400, DeleteFailed) else Ok(Deleted)
    ensures r.Error? ==> db.clients == old(db.clients)
    ensures r.Ok? ==> db.clients == Remove(old(db.clients), HasKey(ClientId, id)) && |db.clients| == |old(db.clients)| - 1
  {
    if fault.Some? || Count(db.clients, HasKey(ClientId, id)) == 0 {
      return Error(400, DeleteFailed);
    }
    RemoveByKey(db.clients, ClientId, id, db.nextId);
    db.clients := Remove(db.clients, HasKey(ClientId, id));
    ValidAfter(db);
    r := Ok(Deleted);
  }
}
