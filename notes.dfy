/** The notes router: a filtered, paginated listing, a per-client listing, and create,
    update and delete scoped to the caller (`req.user.id || req.user.userId`). The server
    file does not mount this router, so routes are named relative to it. */
module Notes {
  import opened Base
  import opened Tables
  import opened Database

  const ListFailed: Message := Text("Erro ao buscar notas")
  const NotFound: Message := Text("Nota não encontrada")
  const Updated: string := "Nota atualizada com sucesso"
  const Deleted: string := "Nota deletada com sucesso"

  // ---------------------------------------------------------------------------
  // Case-insensitive search (`contains` with `mode: 'insensitive'`), on ASCII letters.

  function Lower(c: char): char {
    if 'A' <= c <= 'Z' then (c as int + 32) as char else c
  }

  function LowerAll(s: string): (r: string)
    ensures |r| == |s|
    ensures forall i :: 0 <= i < |s| ==> r[i] == Lower(s[i])
  {
    seq(|s|, i requires 0 <= i < |s| => Lower(s[i]))
  }

  /** `needle` occurs somewhere in `hay`. */
  predicate Contains(hay: string, needle: string) {
    exists i :: 0 <= i <= |hay| && needle <= hay[i..]
  }

  /** `needle` matches `hay` at `i`, letter by letter up to case. */
  predicate MatchesAt(hay: string, needle: string, i: int)
    requires 0 <= i <= |hay| - |needle|
  {
    forall k :: 0 <= k < |needle| ==> Lower(hay[i + k]) == Lower(needle[k])
  }

  predicate ContainsInsensitive(hay: string, needle: string): (b: bool)
    ensures b <==> exists i :: 0 <= i <= |hay| - |needle| && MatchesAt(hay, needle, i)
  {
    InsensitiveAt(hay, needle);
    Contains(LowerAll(hay), LowerAll(needle))
  }

  lemma InsensitiveAt(hay: string, needle: string)
    ensures Contains(LowerAll(hay), LowerAll(needle)) <==>
      exists i :: 0 <= i <= |hay| - |needle| && MatchesAt(hay, needle, i)
  {
    var h, n := LowerAll(hay), LowerAll(needle);
    if Contains(h, n) {
      var i :| 0 <= i <= |h| && n <= h[i..];
      assert MatchesAt(hay, needle, i) by {
        forall k | 0 <= k < |needle| ensures Lower(hay[i + k]) == Lower(needle[k]) {
          assert h[i..][k] == n[k];
        }
      }
    }
    if i :| 0 <= i <= |hay| - |needle| && MatchesAt(hay, needle, i) {
      assert n <= h[i..];
    }
  }

  /** A note whose content holds the search term verbatim is found. */
  lemma VerbatimIsFound(hay: string, needle: string)
    requires Contains(hay, needle)
    ensures ContainsInsensitive(hay, needle)
  {
    var i :| 0 <= i <= |hay| && needle <= hay[i..];
    assert forall k :: 0 <= k < |needle| ==> hay[i + k] == needle[k] by {
      forall k | 0 <= k < |needle| ensures hay[i + k] == needle[k] {
        assert hay[i..][k] == needle[k];
      }
    }
    var h, n := LowerAll(hay), LowerAll(needle);
    assert n <= h[i..];
  }

  /** The case of the search term does not matter. */
  lemma {:induction false} SearchCaseIrrelevant(hay: string, needle: string)
    ensures ContainsInsensitive(hay, needle) <==> ContainsInsensitive(hay, LowerAll(needle))
  {
    assert LowerAll(LowerAll(needle)) == LowerAll(needle);
  }

  /** An empty search term matches every note (the route also drops an empty `search`). */
  lemma EmptySearchMatchesAll(hay: string)
    ensures ContainsInsensitive(hay, "")
  {
    assert LowerAll("") <= LowerAll(hay)[0..];
  }

  // ---------------------------------------------------------------------------
  // GET /

  datatype NoteQuery = NoteQuery(page: Option<int>, limit: Option<int>, clientId: Option<Id>, search: Option<string>)

  datatype NotePage = NotePage(data: seq<Note>, total: nat, page: int, lastPage: Option<int>)

  function PageOf(q: NoteQuery): int { q.page.GetOr(1) }
  function LimitOf(q: NoteQuery): int { q.limit.GetOr(10) }
  function SkipOf(q: NoteQuery): int { (PageOf(q) - 1) * LimitOf(q) }

  /** The `where` clause of the listing: the caller's notes, of the given client, whose
      content contains the search term. */
  predicate Listed(n: Note, owner: Option<Id>, clientId: Option<Id>, search: Option<string>) {
    && OwnerMatches(owner, n.userId)
    && (clientId.None? || n.clientId == clientId.value)
    && (search.None? || ContainsInsensitive(n.content, search.value))
  }

  function ListedBy(owner: Option<Id>, clientId: Option<Id>, search: Option<string>): Note -> bool {
    (n: Note) => Listed(n, owner, clientId, search)
  }

  function CreatedAt(n: Note): int { n.createdAt }

  /** The notes the listing selects, newest first. */
  function NewestFirst(notes: seq<Note>, owner: Option<Id>, clientId: Option<Id>, search: Option<string>): (s: seq<Note>)
    ensures multiset(s) == multiset(Filter(notes, ListedBy(owner, clientId, search)))
    ensures forall n :: n in s ==> n in notes && Listed(n, owner, clientId, search)
    ensures forall i, j :: 0 <= i < j < |s| ==> s[i].createdAt >= s[j].createdAt
  {
    var selected := Filter(notes, ListedBy(owner, clientId, search));
    var s := OrderBy(selected, CreatedAt, Desc);
    assert SortedBy(s, CreatedAt, Desc);
    assert forall n :: n in s ==> n in multiset(selected);
    s
  }

  /** `Math.ceil(total / limit)`; JSON `null` when `limit` is 0 (the quotient is not finite). */
  function LastPage(total: nat, limit: int): (r: Option<int>)
    ensures r.None? <==> limit == 0
    ensures limit > 0 ==> r.Some? && r.value >= 0 && r.value * limit >= total && (r.value - 1) * limit < total
    ensures limit < 0 ==> r.Some? && r.value * limit <= total && (r.value - 1) * limit > total
  {
    if limit > 0 then
      CeilingUp(total, limit);
      Some((total + limit - 1) / limit)
    else if limit < 0 then
      CeilingDown(total, -limit);
      Some(-(total / -limit))
    else
      None
  }

  lemma CeilingUp(total: nat, limit: int)
    requires limit > 0
    ensures var v := (total + limit - 1) / limit;
      v >= 0 && v * limit >= total && (v - 1) * limit < total
  {
    var v := (total + limit - 1) / limit;
    assert total + limit - 1 == v * limit + (total + limit - 1) % limit;
    assert (v - 1) * limit == v * limit - limit;
  }

  lemma CeilingDown(total: nat, m: int)
    requires m > 0
    ensures var v := -(total / m);
      v * -m <= total && (v - 1) * -m > total
  {
    var q := total / m;
    assert total == q * m + total % m;
    assert (-q) * -m == q * m;
    assert (-q - 1) * -m == q * m + m;
  }

  /** The listing's selection has as many notes as `count` reports. */
  lemma NewestFirstSize(notes: seq<Note>, owner: Option<Id>, clientId: Option<Id>, search: Option<string>)
    ensures |NewestFirst(notes, owner, clientId, search)| == Count(notes, ListedBy(owner, clientId, search))
  {
    var s := NewestFirst(notes, owner, clientId, search);
    assert |multiset(s)| == |s|;
  }

  /** The page the listing answers with once `skip` is known to be non-negative. */
  function NotesPage(notes: seq<Note>, owner: Option<Id>, q: NoteQuery, skip: nat): (p: NotePage)
    ensures forall n :: n in p.data ==> n in notes && Listed(n, owner, q.clientId, q.search)
    ensures forall i, j :: 0 <= i < j < |p.data| ==> p.data[i].createdAt >= p.data[j].createdAt
    ensures p.total == Count(notes, ListedBy(owner, q.clientId, q.search))
    ensures |p.data| <= p.total
    ensures LimitOf(q) >= 0 ==> |p.data| <= LimitOf(q)
    ensures LimitOf(q) < 0 ==> |p.data| <= -LimitOf(q)
  {
    var s := NewestFirst(notes, owner, q.clientId, q.search);
    var total := Count(notes, ListedBy(owner, q.clientId, q.search));
    var data := Window(s, skip, LimitOf(q));
    NewestFirstSize(notes, owner, q.clientId, q.search);
    WindowFacts(s, skip, LimitOf(q), CreatedAt, Desc);
    assert SortedBy(data, CreatedAt, Desc) by {
      assert SortedBy(s, CreatedAt, Desc);
    }
    NotePage(data, total, PageOf(q), LastPage(total, LimitOf(q)))
  }

  /** GET /. `skip = (page - 1) * limit`; a negative skip is refused by the database. */
  function ListNotes(notes: seq<Note>, who: Identity, q: NoteQuery, fault: Option<string>): (r: Response<NotePage>)
    ensures r.Error? <==> fault.Some? || SkipOf(q) < 0
    ensures r.Error? ==> r == Error(500, ListFailed)
    ensures r.Ok? ==> forall n :: n in r.body.data ==> n in notes && Listed(n, ActingUser(who), q.clientId, q.search)
    ensures r.Ok? ==> forall i, j :: 0 <= i < j < |r.body.data| ==> r.body.data[i].createdAt >= r.body.data[j].createdAt
    ensures r.Ok? ==> r.body.total == Count(notes, ListedBy(ActingUser(who), q.clientId, q.search))
    ensures r.Ok? ==> |r.body.data| <= r.body.total
    ensures r.Ok? && LimitOf(q) >= 0 ==> |r.body.data| <= LimitOf(q)
    ensures r.Ok? && LimitOf(q) < 0 ==> |r.body.data| <= -LimitOf(q)
    ensures r.Ok? ==> r.body.data == Window(NewestFirst(notes, ActingUser(who), q.clientId, q.search), SkipOf(q), LimitOf(q))
    ensures r.Ok? ==> r.body.page == PageOf(q) && r.body.lastPage == LastPage(r.body.total, LimitOf(q))
  {
    if fault.Some? || SkipOf(q) < 0 then Error(500, ListFailed)
    else Ok(NotesPage(notes, ActingUser(who), q, SkipOf(q)))
  }

  /** With a positive limit, the `k`-th note of the selection, in this model's order (notes
      with equal `createdAt` in storage order), is item `k % limit` of page `k / limit + 1`. */
  lemma NoteOnItsPage(notes: seq<Note>, who: Identity, q: NoteQuery, k: nat)
    requires LimitOf(q) > 0 && PageOf(q) == k / LimitOf(q) + 1
    requires k < |NewestFirst(notes, ActingUser(who), q.clientId, q.search)|
    ensures ListNotes(notes, who, q, None).Ok?
    ensures var page := ListNotes(notes, who, q, None).body.data;
      k % LimitOf(q) < |page| && page[k % LimitOf(q)] == NewestFirst(notes, ActingUser(who), q.clientId, q.search)[k]
  {
    var limit := LimitOf(q);
    var s := NewestFirst(notes, ActingUser(who), q.clientId, q.search);
    assert SkipOf(q) == (k / limit) * limit;
    WindowCovers(s, limit, k);
  }

  /** With a positive limit and a page of at least 1, the page holds notes exactly when it
      is no later than `lastPage`. */
  lemma PagesUpToLastPage(notes: seq<Note>, who: Identity, q: NoteQuery)
    requires LimitOf(q) > 0 && PageOf(q) >= 1
    ensures ListNotes(notes, who, q, None).Ok?
    ensures var body := ListNotes(notes, who, q, None).body;
      |body.data| > 0 <==> body.page <= body.lastPage.value
  {
    var s := NewestFirst(notes, ActingUser(who), q.clientId, q.search);
    var limit, page := LimitOf(q), PageOf(q);
    PageInRange(s, limit, page);
    ListingShape(notes, who, q);
    var body := ListNotes(notes, who, q, None).body;
    assert body.data == Window(s, (page - 1) * limit, limit);
    assert body.lastPage.value == (|s| + limit - 1) / limit;
  }

  /** A page of `limit` rows of `s` is non-empty exactly when its number is at most
      `ceil(|s| / limit)`. */
  lemma PageInRange<R>(s: seq<R>, limit: int, page: int)
    requires limit > 0 && page >= 1
    ensures (page - 1) * limit >= 0
    ensures LastPage(|s|, limit) == Some((|s| + limit - 1) / limit)
    ensures |Window(s, (page - 1) * limit, limit)| > 0 <==> page <= (|s| + limit - 1) / limit
  {
    PageStartsBeforeEnd(|s|, limit, page);
    WindowEmpty(s, (page - 1) * limit, limit);
  }

  /** A successful listing is the window of the selection at `skip`/`limit`, with
      `total` the size of the selection. */
  lemma ListingShape(notes: seq<Note>, who: Identity, q: NoteQuery)
    requires SkipOf(q) >= 0
    ensures var s := NewestFirst(notes, ActingUser(who), q.clientId, q.search);
      var r := ListNotes(notes, who, q, None);
      && r.Ok?
      && r.body.total == |s|
      && r.body.data == Window(s, SkipOf(q), LimitOf(q))
      && r.body.lastPage == LastPage(|s|, LimitOf(q))
  {
    NewestFirstSize(notes, ActingUser(who), q.clientId, q.search);
  }

  /** Page `page` starts before row `total` exactly when it is at most `ceil(total / limit)`. */
  lemma PageStartsBeforeEnd(total: nat, limit: int, page: int)
    requires limit > 0 && page >= 1
    ensures (page - 1) * limit >= 0
    ensures (page - 1) * limit < total <==> page <= (total + limit - 1) / limit
  {
    var last := (total + limit - 1) / limit;
    CeilingUp(total, limit);
    MulMonotone(0, page - 1, limit);
    if page <= last {
      MulMonotone(page - 1, last - 1, limit);
    } else {
      MulMonotone(last, page - 1, limit);
    }
  }

  lemma MulMonotone(a: int, b: int, c: nat)
    requires a <= b
    ensures a * c <= b * c
  {
    assert b * c - a * c == (b - a) * c;
  }

  // ---------------------------------------------------------------------------
  // GET /client/:clientId

  function OfClient(owner: Option<Id>, clientId: Id): Note -> bool {
    (n: Note) => n.clientId == clientId && OwnerMatches(owner, n.userId)
  }

  /** GET /client/:clientId: the caller's notes about one client, newest first, unpaged. */
  function NotesOfClient(notes: seq<Note>, who: Identity, clientId: Id, fault: Option<string>): (r: Response<seq<Note>>)
    ensures fault.Some? ==> r == Error(500, FromStorage(Unavailable(fault.value)))
    ensures fault.None? ==> r.Ok?
    ensures r.Ok? ==> forall n :: multiset(r.body)[n] == if OfClient(ActingUser(who), clientId)(n) then multiset(notes)[n] else 0
    ensures r.Ok? ==> forall i, j :: 0 <= i < j < |r.body| ==> r.body[i].createdAt >= r.body[j].createdAt
  {
    if fault.Some? then Error(500, FromStorage(Unavailable(fault.value)))
    else
      var s := OrderBy(Filter(notes, OfClient(ActingUser(who), clientId)), CreatedAt, Desc);
      assert SortedBy(s, CreatedAt, Desc);
      Ok(s)
  }

  /** A login token carries `userId` and no `id`; the notes routes fall back to it, so such
      a caller still sees only their own notes. */
  lemma TokenOwnerScopesNotes(notes: seq<Note>, who: Identity, u: Id, clientId: Id)
    requires who.id.None? && who.userId == Some(u)
    ensures NotesOfClient(notes, who, clientId, None).Ok?
    ensures forall n :: n in NotesOfClient(notes, who, clientId, None).body ==> n.userId == u && n.clientId == clientId
  {
    var body := NotesOfClient(notes, who, clientId, None).body;
    forall n | n in body ensures n.userId == u && n.clientId == clientId {
      assert multiset(body)[n] > 0;
    }
  }

  // ---------------------------------------------------------------------------
  // POST /, PUT /:id and DELETE /:id

  /** POST /. The owner is the caller; the body cannot choose it. */
  method CreateNote(db: Store, who: Identity, clientId: Id, content: string, now: Instant, fault: Option<string>)
    returns (r: Response<Note>)
    requires db.Valid()
    modifies db`notes, db`nextId
    ensures db.Valid()
    ensures ActingUser(who).None? ==> r == Error(400, FromStorage(MissingField("userId")))
    ensures ActingUser(who).Some? && fault.Some? ==> r == Error(400, FromStorage(Unavailable(fault.value)))
    ensures r.Ok? <==> ActingUser(who).Some? && fault.None?
    ensures r.Ok? ==> r.body == Note(old(db.nextId), clientId, content, now, ActingUser(who).value)
    ensures r.Ok? ==> db.notes == old(db.notes) + [r.body] && db.nextId == old(db.nextId) + 1
    ensures r.Error? ==> db.notes == old(db.notes) && db.nextId == old(db.nextId)
  {
    var owner := ActingUser(who);
    if owner.None? {
      return Error(400, FromStorage(MissingField("userId")));
    }
    if fault.Some? {
      return Error(400, FromStorage(Unavailable(fault.value)));
    }
    var note := Note(db.nextId, clientId, content, now, owner.value);
    PrimaryKeyInsert(db.notes, note, NoteId, db.nextId);
    db.notes := db.notes + [note];
    db.nextId := db.nextId + 1;
    ValidAfter(db);
    r := Ok(note);
  }

  /** The `where` of PUT and DELETE: this id, and the caller's. */
  function Scope(id: Id, owner: Option<Id>): Note -> bool {
    (n: Note) => n.id == id && OwnerMatches(owner, n.userId)
  }

  /** The `data` of PUT: `content`, left alone when the body has none. */
  function Edit(content: Option<string>): Note -> Note {
    (n: Note) => if content.Some? then n.(content := content.value) else n
  }

  /** What PUT writes into a note, and that everything else survives. */
  lemma EditWrites(content: Option<string>, n: Note)
    ensures Edit(content)(n).content == content.GetOr(n.content)
    ensures Edit(content)(n).id == n.id && Edit(content)(n).clientId == n.clientId
    ensures Edit(content)(n).userId == n.userId && Edit(content)(n).createdAt == n.createdAt
  { }

  /** PUT /:id. Zero matching rows answers 404 and changes nothing. */
  method UpdateNote(db: Store, who: Identity, id: Id, content: Option<string>, fault: Option<string>)
    returns (r: Response<string>)
    requires db.Valid()
    modifies db`notes
    ensures db.Valid()
    ensures fault.Some? ==> r == Error(400, FromStorage(Unavailable(fault.value))) && db.notes == old(db.notes)
    ensures fault.None? ==> db.notes == UpdateWhere(old(db.notes), Scope(id, ActingUser(who)), Edit(content))
    ensures fault.None? ==>
      r == if Count(old(db.notes), Scope(id, ActingUser(who))) == 0 then Error(404, NotFound) else Ok(Updated)
    ensures r.Error? ==> db.notes == old(db.notes)
    ensures forall i :: 0 <= i < |old(db.notes)| && !OwnerMatches(ActingUser(who), old(db.notes)[i].userId) ==>
      db.notes[i] == old(db.notes)[i]
  {
    if fault.Some? {
      return Error(400, FromStorage(Unavailable(fault.value)));
    }
    var scope := Scope(id, ActingUser(who));
    var count := Count(db.notes, scope);
    ghost var before := db.notes;
    PrimaryKeyUpdate(before, scope, Edit(content), NoteId, db.nextId);
    forall n: Note | !OwnerMatches(ActingUser(who), n.userId) ensures !scope(n) {
    }
    db.notes := UpdateWhere(db.notes, scope, Edit(content));
    ValidAfter(db);
    if count == 0 {
      UpdateNothingMatched(before, scope, Edit(content));
      return Error(404, NotFound);
    }
    r := Ok(Updated);
  }

  /** DELETE /:id. Zero matching rows answers 404. */
  method DeleteNote(db: Store, who: Identity, id: Id, fault: Option<string>) returns (r: Response<string>)
    requires db.Valid()
    modifies db`notes
    ensures db.Valid()
    ensures fault.Some? ==> r == Error(400, FromStorage(Unavailable(fault.value))) && db.notes == old(db.notes)
    ensures fault.None? ==> db.notes == Remove(old(db.notes), Scope(id, ActingUser(who)))
    ensures fault.None? ==>
      r == if Count(old(db.notes), Scope(id, ActingUser(who))) == 0 then Error(404, NotFound) else Ok(Deleted)
    ensures r.Error? ==> db.notes == old(db.notes)
    ensures forall n :: n in old(db.notes) && !OwnerMatches(ActingUser(who), n.userId) ==> n in db.notes
  {
    if fault.Some? {
      return Error(400, FromStorage(Unavailable(fault.value)));
    }
    var scope := Scope(id, ActingUser(who));
    var count := Count(db.notes, scope);
    PrimaryKeyRemove(db.notes, scope, NoteId, db.nextId);
    if count == 0 {
      RemoveNothingMatched(db.notes, scope);
    }
    forall n: Note | !OwnerMatches(ActingUser(who), n.userId) ensures !scope(n) {
    }
    db.notes := Remove(db.notes, scope);
    ValidAfter(db);
    r := if count == 0 then Error(404, NotFound) else Ok(Deleted);
  }

  /** Deleting the same note twice: the second call finds nothing. */
  method DeleteTwice(db: Store, who: Identity, id: Id) returns (first: Response<string>, second: Response<string>)
    requires db.Valid()
    modifies db`notes
    ensures second == Error(404, NotFound)
    ensures first.Ok? <==> exists n :: n in old(db.notes) && n.id == id && OwnerMatches(ActingUser(who), n.userId)
  {
    first := DeleteNote(db, who, id, None);
    second := DeleteNote(db, who, id, None);
  }
}
