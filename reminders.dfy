/** The reminders router, which the server file does not mount; routes are named relative
    to it. Every query is scoped by `req.user.id` alone; when the
    identity carries no `id`, Prisma drops that filter (see `Base.OwnerMatches`). */
module Reminders {
  import opened Base
  import opened Tables
  import opened Database

  const CreateFailed: Message := Text("Erro ao criar lembrete")
  const ListFailed: Message := Text("Erro ao buscar lembretes")
  const GetFailed: Message := Text("Erro ao buscar lembrete")
  const UpdateFailed: Message := Text("Erro ao atualizar lembrete")
  const DeleteFailed: Message := Text("Erro ao excluir lembrete")
  const NotFound: Message := Text("Lembrete não encontrado")
  const Updated: string := "Lembrete atualizado com sucesso"
  const Deleted: string := "Lembrete excluído com sucesso"

  /** The owner this file filters and stamps with: `req.user.id`, never `req.user.userId`.
      It agrees with the caller the notes router resolves when the token carries `id`;
      a token with only `userId` yields no owner, so no owner filter. */
  function Owner(who: Identity): (r: Option<Id>)
    ensures who.id.Some? ==> r == ActingUser(who)
    ensures who.id.None? ==> r.None? && forall u :: OwnerMatches(r, u)
  {
    who.id
  }

  function DateOf(r: Reminder): int { r.date }

  /** POST /. `title` and `description` are read from the body and dropped;
      a new reminder is never done. Any failure answers 500 with a fixed message. */
  method CreateReminder(
    db: Store, who: Identity, title: string, kind: string, description: string,
    date: Instant, clientId: Option<Id>, fault: Option<string>)
    returns (r: Response<Reminder>)
    requires db.Valid()
    modifies db`reminders, db`nextId
    ensures db.Valid()
    ensures r.Ok? <==> who.id.Some? && fault.None?
    ensures r.Error? ==> r == Error(500, CreateFailed)
    ensures r.Ok? ==> r.body == Reminder(old(db.nextId), kind, date, false, clientId, who.id.value)
    ensures r.Ok? ==> db.reminders == old(db.reminders) + [r.body] && db.nextId == old(db.nextId) + 1
    ensures r.Error? ==> db.reminders == old(db.reminders) && db.nextId == old(db.nextId)
  {
    if who.id.None? || fault.Some? {
      // a missing `userId` column or a storage failure: the route's catch answers 500
      return Error(500, CreateFailed);
    }
    var reminder := Reminder(db.nextId, kind, date, false, clientId, who.id.value);
    PrimaryKeyInsert(db.reminders, reminder, ReminderId, db.nextId);
    db.reminders := db.reminders + [reminder];
    db.nextId := db.nextId + 1;
    ValidAfter(db);
    r := Ok(reminder);
  }

  function OwnedBy(owner: Option<Id>): Reminder -> bool {
    (r: Reminder) => OwnerMatches(owner, r.userId)
  }

  /** GET /: the caller's reminders, earliest date first, unpaged. */
  function ListReminders(reminders: seq<Reminder>, who: Identity, fault: Option<string>): (r: Response<seq<Reminder>>)
    ensures fault.Some? ==> r == Error(500, ListFailed)
    ensures fault.None? ==> r.Ok?
    ensures r.Ok? ==> forall x :: multiset(r.body)[x] == if OwnerMatches(Owner(who), x.userId) then multiset(reminders)[x] else 0
    ensures r.Ok? ==> forall i, j :: 0 <= i < j < |r.body| ==> r.body[i].date <= r.body[j].date
  {
    if fault.Some? then Error(500, ListFailed)
    else
      var s := OrderBy(Filter(reminders, OwnedBy(Owner(who))), DateOf, Asc);
      assert SortedBy(s, DateOf, Asc);
      Ok(s)
  }

  /** The `where` of GET, PUT and DELETE by id: this id, and the caller's. */
  function Scope(id: Id, owner: Option<Id>): Reminder -> bool {
    (r: Reminder) => r.id == id && OwnerMatches(owner, r.userId)
  }

  /** GET /:id: the reminder only when both the id and the owner match;
      "not yours" and "no such id" give the same 404. */
  function GetReminder(reminders: seq<Reminder>, who: Identity, id: Id, fault: Option<string>): (r: Response<Reminder>)
    ensures fault.Some? ==> r == Error(500, GetFailed)
    ensures r.Ok? ==> r.body in reminders && r.body.id == id && OwnerMatches(Owner(who), r.body.userId)
    ensures fault.None? && r.Error? <==> fault.None? && forall x :: x in reminders ==> !Scope(id, Owner(who))(x)
    ensures fault.None? && r.Error? ==> r == Error(404, NotFound)
  {
    if fault.Some? then Error(500, GetFailed)
    else
      match FindFirst(reminders, Scope(id, Owner(who)))
      case None => Error(404, NotFound)
      case Some(i) => Ok(reminders[i])
  }

  /** Once created by a caller that has an `id`, a reminder can be read back by that caller. */
  lemma CreatedIsReadable(reminders: seq<Reminder>, x: Reminder, who: Identity)
    requires forall y :: y in reminders ==> y.id < x.id
    requires who.id == Some(x.userId)
    ensures GetReminder(reminders + [x], who, x.id, None) == Ok(x)
  {
    FindAppended(reminders, x, Scope(x.id, Owner(who)));
  }

  /** The `data` of PUT: `date` is always written; `type`, `done` and `clientId` are left
      alone when the body has none. */
  function Edit(kind: Option<string>, date: Instant, done: Option<bool>, clientId: Option<Id>): Reminder -> Reminder {
    (r: Reminder) => r.(
      kind := kind.GetOr(r.kind), date := date, done := done.GetOr(r.done),
      clientId := if clientId.Some? then clientId else r.clientId)
  }

  /** What PUT writes into a reminder, and that its id and owner survive. */
  lemma EditWrites(kind: Option<string>, date: Instant, done: Option<bool>, clientId: Option<Id>, x: Reminder)
    ensures Edit(kind, date, done, clientId)(x).id == x.id && Edit(kind, date, done, clientId)(x).userId == x.userId
    ensures Edit(kind, date, done, clientId)(x).date == date
    ensures Edit(kind, date, done, clientId)(x).kind == kind.GetOr(x.kind)
    ensures Edit(kind, date, done, clientId)(x).done == done.GetOr(x.done)
    ensures Edit(kind, date, done, clientId)(x).clientId == if clientId.Some? then clientId else x.clientId
  { }

  /** PUT /:id. Zero matching rows answers 404 and changes nothing. */
  method UpdateReminder(
    db: Store, who: Identity, id: Id, kind: Option<string>, date: Instant,
    done: Option<bool>, clientId: Option<Id>, fault: Option<string>)
    returns (r: Response<string>)
    requires db.Valid()
    modifies db`reminders
    ensures db.Valid()
    ensures fault.Some? ==> r == Error(500, UpdateFailed) && db.reminders == old(db.reminders)
    ensures fault.None? ==> db.reminders == UpdateWhere(old(db.reminders), Scope(id, Owner(who)), Edit(kind, date, done, clientId))
    ensures fault.None? ==>
      r == if Count(old(db.reminders), Scope(id, Owner(who))) == 0 then Error(404, NotFound) else Ok(Updated)
    ensures r.Error? ==> db.reminders == old(db.reminders)
    ensures forall i :: 0 <= i < |old(db.reminders)| && !OwnerMatches(Owner(who), old(db.reminders)[i].userId) ==>
      db.reminders[i] == old(db.reminders)[i]
  {
    if fault.Some? {
      return Error(500, UpdateFailed);
    }
    var scope := Scope(id, Owner(who));
    var edit := Edit(kind, date, done, clientId);
    var count := Count(db.reminders, scope);
    ghost var before := db.reminders;
    PrimaryKeyUpdate(before, scope, edit, ReminderId, db.nextId);
    forall x: Reminder | !OwnerMatches(Owner(who), x.userId) ensures !scope(x) {
    }
    db.reminders := UpdateWhere(db.reminders, scope, edit);
    ValidAfter(db);
    if count == 0 {
      UpdateNothingMatched(before, scope, edit);
      return Error(404, NotFound);
    }
    r := Ok(Updated);
  }

  /** DELETE /:id. Zero matching rows answers 404. */
  method DeleteReminder(db: Store, who: Identity, id: Id, fault: Option<string>) returns (r: Response<string>)
    requires db.Valid()
    modifies db`reminders
    ensures db.Valid()
    ensures fault.Some? ==> r == Error(500, DeleteFailed) && db.reminders == old(db.reminders)
    ensures fault.None? ==> db.reminders == Remove(old(db.reminders), Scope(id, Owner(who)))
    ensures fault.None? ==>
      r == if Count(old(db.reminders), Scope(id, Owner(who))) == 0 then Error(404, NotFound) else Ok(Deleted)
    ensures r.Error? ==> db.reminders == old(db.reminders)
    ensures forall x :: x in old(db.reminders) && !OwnerMatches(Owner(who), x.userId) ==> x in db.reminders
  {
    if fault.Some? {
      return Error(500, DeleteFailed);
    }
    var scope := Scope(id, Owner(who));
    var count := Count(db.reminders, scope);
    PrimaryKeyRemove(db.reminders, scope, ReminderId, db.nextId);
    if count == 0 {
      RemoveNothingMatched(db.reminders, scope);
    }
    forall x: Reminder | !OwnerMatches(Owner(who), x.userId) ensures !scope(x) {
    }
    db.reminders := Remove(db.reminders, scope);
    ValidAfter(db);
    r := if count == 0 then Error(404, NotFound) else Ok(Deleted);
  }

  /** After a successful delete nothing matches the same id and owner, so repeating it
      answers 404. */
  lemma DeleteIsNotRepeatable(reminders: seq<Reminder>, who: Identity, id: Id)
    ensures Count(Remove(reminders, Scope(id, Owner(who))), Scope(id, Owner(who))) == 0
    ensures GetReminder(Remove(reminders, Scope(id, Owner(who))), who, id, None) == Error(404, NotFound)
  {
  }

  /** An identity without `id` (a login token carries only `userId`) lists every user's
      reminders. */
  lemma NoIdListsEveryone(reminders: seq<Reminder>, who: Identity)
    requires who.id.None?
    ensures ListReminders(reminders, who, None).Ok?
    ensures multiset(ListReminders(reminders, who, None).body) == multiset(reminders)
  {
    var r := ListReminders(reminders, who, None);
    assert forall x :: multiset(r.body)[x] == multiset(reminders)[x];
  }

  /** An identity without `id` reads any user's reminder by id. */
  lemma NoIdReadsAnyone(reminders: seq<Reminder>, who: Identity, x: Reminder)
    requires who.id.None?
    requires x in reminders
    ensures GetReminder(reminders, who, x.id, None).Ok?
  {
    assert Scope(x.id, Owner(who))(x);
  }

  /** An identity without `id` can create no reminder at all. */
  method CreateWithoutId(db: Store, who: Identity, kind: string, date: Instant) returns (r: Response<Reminder>)
    requires db.Valid() && who.id.None?
    modifies db`reminders, db`nextId
    ensures r == Error(500, CreateFailed) && db.reminders == old(db.reminders)
  {
    r := CreateReminder(db, who, "", kind, "", date, None, None);
  }
}
