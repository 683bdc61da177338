/** The database the routes share: one table per entity, and the generator of fresh ids. */
module Database {
  import opened Base
  import opened Tables

  function UserId(u: User): Id { u.id }
  function ClientId(c: Client): Id { c.id }
  function NoteId(n: Note): Id { n.id }
  function ReminderId(r: Reminder): Id { r.id }
  function SaleId(s: Sale): Id { s.id }
  function Email(u: User): string { u.email }

  /** At most one user per e-mail address. The login route looks users up with
      `findUnique` on `email`, which the database only allows on a unique column. */
  predicate UniqueEmails(users: seq<User>) {
    Distinct(users, Email)
  }

  /** Handing out the next id keeps every table's keys below the new bound. */
  lemma NextIdTaken(
    users: seq<User>, clients: seq<Client>, notes: seq<Note>, reminders: seq<Reminder>,
    sales: seq<Sale>, next: nat)
    requires PrimaryKey(users, UserId, next) && PrimaryKey(clients, ClientId, next)
    requires PrimaryKey(notes, NoteId, next) && PrimaryKey(reminders, ReminderId, next)
    requires PrimaryKey(sales, SaleId, next)
    ensures PrimaryKey(users, UserId, next + 1) && PrimaryKey(clients, ClientId, next + 1)
    ensures PrimaryKey(notes, NoteId, next + 1) && PrimaryKey(reminders, ReminderId, next + 1)
    ensures PrimaryKey(sales, SaleId, next + 1)
  {
    PrimaryKeyGrow(users, UserId, next);
    PrimaryKeyGrow(clients, ClientId, next);
    PrimaryKeyGrow(notes, NoteId, next);
    PrimaryKeyGrow(reminders, ReminderId, next);
    PrimaryKeyGrow(sales, SaleId, next);
  }

  class Store {
    var users: seq<User>
    var clients: seq<Client>
    var notes: seq<Note>
    var reminders: seq<Reminder>
    var sales: seq<Sale>
    /** The next id the database hands out; every id in use is below it. */
    var nextId: nat

    /** Ids are primary keys (distinct within a table) and all below `nextId`;
        e-mail addresses are unique. Each table's part reads only that table, so
        changing one table leaves the others' part valid. */
    ghost predicate Valid()
      reads this
    {
      UsersValid() && ClientsValid() && NotesValid() && RemindersValid() && SalesValid()
    }

    ghost predicate UsersValid()
      reads this`users, this`nextId
    {
      PrimaryKey(users, UserId, nextId) && UniqueEmails(users)
    }

    ghost predicate ClientsValid()
      reads this`clients, this`nextId
    {
      PrimaryKey(clients, ClientId, nextId)
    }

    ghost predicate NotesValid()
      reads this`notes, this`nextId
    {
      PrimaryKey(notes, NoteId, nextId)
    }

    ghost predicate RemindersValid()
      reads this`reminders, this`nextId
    {
      PrimaryKey(reminders, ReminderId, nextId)
    }

    ghost predicate SalesValid()
      reads this`sales, this`nextId
    {
      PrimaryKey(sales, SaleId, nextId)
    }

    constructor ()
      ensures Valid()
      ensures users == [] && clients == [] && notes == [] && reminders == [] && sales == []
    {
      users, clients, notes, reminders, sales := [], [], [], [], [];
      nextId := 0;
    }
  }

  /** A route that hands out at most one id and leaves every table either untouched or
      valid again leaves the whole store valid. */
  twostate lemma ValidAfter(db: Store)
    requires old(db.Valid())
    requires db.nextId == old(db.nextId) || db.nextId == old(db.nextId) + 1
    requires db.users == old(db.users) || db.UsersValid()
    requires db.clients == old(db.clients) || db.ClientsValid()
    requires db.notes == old(db.notes) || db.NotesValid()
    requires db.reminders == old(db.reminders) || db.RemindersValid()
    requires db.sales == old(db.sales) || db.SalesValid()
    ensures db.Valid()
  {
    if db.nextId != old(db.nextId) {
      NextIdTaken(old(db.users), old(db.clients), old(db.notes), old(db.reminders), old(db.sales), old(db.nextId));
    }
  }
}
