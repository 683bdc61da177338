/** The `/sales` routes. Like `/clients`, the router sits behind the token check but no
    handler reads the caller: rows are selected by id alone, the owner and the client of a
    new sale come from the request body. Reads that fail answer 500, writes that fail 400,
    both with the storage error's own message. */
module Sales {
  import opened Base
  import opened Tables
  import opened Database

  const NotFound: Message := Text("Venda não encontrada")
  const Deleted: string := "Venda deletada com sucesso"

  /** GET /sales: every sale of every user, in storage order. */
  function ListSales(sales: seq<Sale>, who: Identity, fault: Option<string>): (r: Response<seq<Sale>>)
    ensures fault.Some? ==> r == Error(500, FromStorage(Unavailable(fault.value)))
    ensures fault.None? ==> r.Ok? && multiset(r.body) == multiset(sales)
  {
    if fault.Some? then Error(500, FromStorage(Unavailable(fault.value))) else Ok(sales)
  }

  /** Whoever asks, the listing holds every user's sales. */
  lemma ListingIgnoresCaller(sales: seq<Sale>, who: Identity, other: Identity, x: Sale)
    requires x in sales
    ensures x in ListSales(sales, who, None).body
    ensures ListSales(sales, who, None) == ListSales(sales, other, None)
  {
    assert x in multiset(ListSales(sales, who, None).body);
  }

  /** GET /sales/:id: `findUnique` on the primary key. */
  function GetSale(sales: seq<Sale>, who: Identity, id: Id, fault: Option<string>): (r: Response<Sale>)
    ensures fault.Some? ==> r == Error(500, FromStorage(Unavailable(fault.value)))
    ensures r.Ok? ==> r.body in sales && r.body.id == id
    ensures fault.None? ==> (r.Error? <==> forall x :: x in sales ==> x.id != id)
    ensures fault.None? && r.Error? ==> r == Error(404, NotFound)
  {
    if fault.Some? then Error(500, FromStorage(Unavailable(fault.value)))
    else
      KeyLookup(sales, SaleId, id);
      match FindFirst(sales, HasKey(SaleId, id))
      case None => Error(404, NotFound)
      case Some(i) => Ok(sales[i])
  }

  /** Any caller reads any user's sale by its id. */
  lemma AnyCallerReadsAnySale(sales: seq<Sale>, who: Identity, x: Sale)
    requires Distinct(sales, SaleId) && x in sales
    ensures GetSale(sales, who, x.id, None) == Ok(x)
  {
    FindByKey(sales, SaleId, x);
  }

  /** POST /sales: `clientId`, `userId`, `description` and `value` as the body gives them;
      a body without `clientId` or `userId` is refused by the database. */
  method CreateSale(
    db: Store, who: Identity, clientId: Option<Id>, userId: Option<Id>, description: string,
    value: int, date: Instant, fault: Option<string>)
    returns (r: Response<Sale>)
    requires db.Valid()
    modifies db`sales, db`nextId
    ensures db.Valid()
    ensures clientId.None? ==> r == Error(400, FromStorage(MissingField("clientId")))
    ensures clientId.Some? && userId.None? ==> r == Error(400, FromStorage(MissingField("userId")))
    ensures clientId.Some? && userId.Some? && fault.Some? ==> r == Error(400, FromStorage(Unavailable(fault.value)))
    ensures r.Ok? <==> clientId.Some? && userId.Some? && fault.None?
    ensures r.Ok? ==> r.body == Sale(old(db.nextId), clientId.value, userId.value, description, value, date)
    ensures r.Ok? ==> db.sales == old(db.sales) + [r.body] && db.nextId == old(db.nextId) + 1
    ensures r.Error? ==> db.sales == old(db.sales) && db.nextId == old(db.nextId)
  {
    if clientId.None? {
      return Error(400, FromStorage(MissingField("clientId")));
    }
    if userId.None? {
      return Error(400, FromStorage(MissingField("userId")));
    }
    if fault.Some? {
      return Error(400, FromStorage(Unavailable(fault.value)));
    }
    var sale := Sale(db.nextId, clientId.value, userId.value, description, value, date);
    PrimaryKeyInsert(db.sales, sale, SaleId, db.nextId);
    db.sales := db.sales + [sale];
    db.nextId := db.nextId + 1;
    ValidAfter(db);
    r := Ok(sale);
  }

  /** The `data` of PUT: `date` is always written; `description` and `value` are left alone
      when the body has none. The client and the owner are never touched. */
  function Edit(description: Option<string>, value: Option<int>, date: Instant): Sale -> Sale {
    (s: Sale) => s.(description := description.GetOr(s.description), value := value.GetOr(s.value), date := date)
  }

  /** What PUT writes into a sale, and that its id, client and owner survive. */
  lemma EditWrites(description: Option<string>, value: Option<int>, date: Instant, s: Sale)
    ensures var e := Edit(description, value, date)(s);
      e.id == s.id && e.clientId == s.clientId && e.userId == s.userId
    ensures var e := Edit(description, value, date)(s);
      e.description == description.GetOr(s.description) && e.value == value.GetOr(s.value) && e.date == date
  { }

  /** PUT /sales/:id: `update` by primary key, answering the updated row; an unknown id is
      the database's "record not found" error. */
  method UpdateSale(
    db: Store, who: Identity, id: Id, description: Option<string>, value: Option<int>,
    date: Instant, fault: Option<string>)
    returns (r: Response<Sale>)
    requires db.Valid()
    modifies db`sales
    ensures db.Valid()
    ensures fault.Some? ==> r == Error(400, FromStorage(Unavailable(fault.value)))
    ensures fault.None? && (forall x :: x in old(db.sales) ==> x.id != id) ==> r == Error(400, FromStorage(RecordNotFound))
    ensures r.Ok? <==> fault.None? && exists x :: x in old(db.sales) && x.id == id
    ensures r.Error? ==> db.sales == old(db.sales)
    ensures r.Ok? ==> db.sales == UpdateWhere(old(db.sales), HasKey(SaleId, id), Edit(description, value, date))
    ensures r.Ok? ==> r.body in db.sales && r.body.date == date
    ensures r.Ok? ==> exists x :: x in old(db.sales) && x.id == id && r.body == Edit(description, value, date)(x) &&
                                  r.body.clientId == x.clientId && r.body.userId == x.userId
  {
    if fault.Some? {
      return Error(400, FromStorage(Unavailable(fault.value)));
    }
    KeyLookup(db.sales, SaleId, id);
    var found := FindFirst(db.sales, HasKey(SaleId, id));
    if found.None? {
      return Error(400, FromStorage(RecordNotFound));
    }
    var i := found.value;
    var edit := Edit(description, value, date);
    ghost var before := db.sales;
    PrimaryKeyUpdate(before, HasKey(SaleId, id), edit, SaleId, db.nextId);
    db.sales := UpdateWhere(db.sales, HasKey(SaleId, id), edit);
    ValidAfter(db);
    r := Ok(db.sales[i]);
  }

  /** DELETE /sales/:id: `delete` by id, which fails with "record not found" when no
      sale has the id; every failure answers 400 with the storage error. */
  method DeleteSale(db: Store, who: Identity, id: Id, fault: Option<string>) returns (r: Response<string>)
    requires db.Valid()
    modifies db`sales
    ensures db.Valid()
    ensures fault.Some? ==> r == Error(400, FromStorage(Unavailable(fault.value)))
    ensures fault.None? ==>
      r == if Count(old(db.sales), HasKey(SaleId, id)) == 0 then Error(400, FromStorage(RecordNotFound)) else Ok(Deleted)
    ensures r.Error? ==> db.sales == old(db.sales)
    ensures r.Ok? ==> db.sales == Remove(old(db.sales), HasKey(SaleId, id)) && |db.sales| == |old(db.sales)| - 1
  {
    if fault.Some? {
      return Error(400, FromStorage(Unavailable(fault.value)));
    }
    if Count(db.sales, HasKey(SaleId, id)) == 0 {
      return Error(400, FromStorage(RecordNotFound));
    }
    RemoveByKey(db.sales, SaleId, id, db.nextId);
    db.sales := Remove(db.sales, HasKey(SaleId, id));
    ValidAfter(db);
    r := Ok(Deleted);
  }
}
