# CRM backend: route handlers over an in-memory store

This project models the route handlers of a small CRM REST backend and proves properties
about them. The backend is an Express server over a Prisma database. The handlers cover
notes, reminders, clients, sales, a dashboard, registration and login, and users.

Every table is a sequence of rows in storage order. The five tables are fields of one
`Database.Store` object. Its invariant `Valid()` says that ids are primary keys, below the
next id the store hands out, and that e-mail addresses are unique. The Prisma calls the
handlers make are written once in `Tables`:

- `findMany`/`count` with a `where` become `Filter`/`Count`;
- `findFirst`/`findUnique` become `FindFirst`;
- `updateMany` becomes `UpdateWhere` and `deleteMany` becomes `Remove`;
- `orderBy` becomes `OrderBy`, `skip`/`take` become `Window`, and `_sum` becomes `SumOf`.

Handlers that only read are functions over table values. Handlers that write are methods
that change the `Store`, and their contracts give the new table in terms of the old one.
The caller is an `Identity` with the two optional fields `id` and `userId`, resolved exactly
as each file resolves it. A `where` field that is `undefined` is dropped by Prisma, so an
absent owner filters nothing (`Base.OwnerMatches`).

A handler that catches errors takes a `fault: Option<string>` parameter, which stands for a
failure of the database. `Some` produces the handler's error response. Password hashing,
hash comparison and token signing are the three fields of an `Auth.Crypto` value. The one
law assumed about them, that a password matches its own hash, is the hypothesis
`Auth.Sound`. The dashboard's clock reading is passed in as a year and a month. Dates follow
JavaScript's `Date` arithmetic (`Calendar.MakeDay`, `Calendar.NewDate`).

The server file mounts the clients, sales, users and auth routers at `/clients`, `/sales`,
`/users` and `/auth`. It does not mount the notes, reminders and dashboard routers, so
their routes are named relative to the router (`GET /`, `PUT /:id`).

Facts about the code that the model keeps, some of which a reader might not expect:

- `/clients` and `/sales` are not scoped to the caller. They read, update and delete by id
  alone, and take the owner of a new row from the request body. Their listings are neither
  filtered nor paginated.
- The reminders router scopes by `req.user.id` only, not by `req.user.id || req.user.userId`.
  The login token carries only `userId`. For a caller without `id`, the listing and lookups
  therefore cover every user's reminders, and creation fails. The reminder listing is
  ordered by date ascending and is not paginated.
- The dashboard's birthday filter compares full dates against the current month of the
  current year. It does not compare month and day only. A client born in an earlier year is
  not listed.
- Login failures answer 400 with `Usuário não encontrado` or `Senha incorreta`.
- Registering a taken e-mail answers 400 `E-mail já cadastrado`.

## Model

| member | source | states |
|---|---|---|
| Base.ActingUser | src/routes/notes.js:10 | the caller is `req.user.id` when present, else `req.user.userId` (also notes.js:52,69,89,110 and dashboard.js:10); none only when the token has neither |
| Notes.ListNotes | src/routes/notes.js:9-47 | a failure or a negative skip answers 500 `Erro ao buscar notas`; otherwise every listed note is the caller's, of the requested client, containing the search term case-insensitively; the page is newest first, is the window at `(page-1)*limit` of size `limit` of the matches, has at most `limit` items; `total` counts all matches, `page` is echoed, `lastPage` is `ceil(total/limit)` |
| Notes.NewestFirst | src/routes/notes.js:26-31 | the selection is exactly the matching notes (as a multiset) ordered by `created_at` descending |
| Notes.NewestFirstSize | src/routes/notes.js:26-35 | the paged selection has as many notes as `count` reports |
| Notes.LastPage | src/routes/notes.js:41 | `Math.ceil(total / limit)`: the least page count covering `total` for a positive limit; `null` for limit 0 |
| Notes.NoteOnItsPage | src/routes/notes.js:11-31 | with a positive limit the k-th match in the model's order (newest first, equal `created_at` in storage order) is item `k % limit` of page `k / limit + 1` |
| Notes.PagesUpToLastPage | src/routes/notes.js:11-42 | with a positive limit and page at least 1, a page is non-empty exactly when it is at most `lastPage` |
| Notes.PageInRange | src/routes/notes.js:11-42 | a page of `limit` rows starting at `(page-1)*limit` is non-empty exactly when `page` is at most `ceil(total/limit)`, the `lastPage` the route reports |
| Notes.ListingShape | src/routes/notes.js:26-41 | a successful listing is the window of the selection and `total` is the selection's size |
| Notes.VerbatimIsFound | src/routes/notes.js:18-23 | a note containing the search term verbatim matches the insensitive search |
| Notes.SearchCaseIrrelevant | src/routes/notes.js:18-23 | the case of the search term does not change what matches |
| Notes.EmptySearchMatchesAll | src/routes/notes.js:18-23 | an empty search term matches every note |
| Notes.LowerAll | src/routes/notes.js:21 | lower-casing keeps the length and maps each ASCII capital to its small letter, position by position |
| Notes.ContainsInsensitive | src/routes/notes.js:18-23 | the search matches exactly when the term equals, letter by letter up to case, some run of the content |
| Notes.NotesOfClient | src/routes/notes.js:50-64 | exactly the caller's notes for that client, newest first, unpaginated; a failure answers 500 with the error's message |
| Notes.TokenOwnerScopesNotes | src/routes/notes.js:52-56 | a caller with only `userId` still sees only their own notes |
| Notes.CreateNote | src/routes/notes.js:67-83 | the stored note's owner is the caller (`id`, else `userId`), never the body; no owner or a failure answers 400 and stores nothing |
| Notes.UpdateNote | src/routes/notes.js:86-105 | only `content` changes, only on the row matching id and caller; zero matches answers 404 `Nota não encontrada` and leaves the table unchanged; other users' rows stay unchanged |
| Notes.EditWrites | src/routes/notes.js:94 | PUT writes `content` when given and keeps it otherwise; id, client, owner and creation time are never touched |
| Notes.DeleteNote | src/routes/notes.js:108-125 | removes exactly the rows matching id and caller; zero matches answers 404 and leaves the table unchanged; other users' notes are never removed |
| Notes.DeleteTwice | src/routes/notes.js:108-125 | deleting the same id again answers 404; the first delete succeeds exactly when the caller had such a note |
| Reminders.CreateReminder | src/routes/reminders.js:9-26 | the stored reminder has `done == false`, owner `req.user.id`, and the given type, date and client; title and description are not stored; a missing `id` or a failure answers 500 `Erro ao criar lembrete` |
| Reminders.Owner | src/routes/reminders.js:17 | the router's owner is `req.user.id` (also reminders.js:32,48,67,85): it agrees with the notes router's caller when `id` is present, and without `id` there is no owner filter at all |
| Reminders.ListReminders | src/routes/reminders.js:29-41 | exactly the caller's reminders, by date ascending, unpaginated; a failure answers 500 `Erro ao buscar lembretes` |
| Reminders.GetReminder | src/routes/reminders.js:44-59 | a reminder only when id and owner match; otherwise 404, the same for "not yours" and "no such id"; a failure answers 500 |
| Reminders.CreatedIsReadable | src/routes/reminders.js:9-59 | a reminder created by a caller with an `id` is read back by that caller |
| Reminders.UpdateReminder | src/routes/reminders.js:62-78 | writes type, date, done and client only on the row matching id and owner; zero matches answers 404 and changes nothing; other users' rows stay unchanged |
| Reminders.EditWrites | src/routes/reminders.js:68 | PUT always writes the date, writes type, done and client when given and keeps them otherwise; id and owner are never touched |
| Reminders.DeleteReminder | src/routes/reminders.js:81-95 | removes only rows matching id and owner; zero matches answers 404 and leaves the table unchanged; other users' reminders stay |
| Reminders.DeleteIsNotRepeatable | src/routes/reminders.js:81-95 | after a delete nothing matches the same id and owner, so a repeated delete or read answers 404 |
| Reminders.NoIdListsEveryone | src/routes/reminders.js:29-41 | a caller without `id` lists every user's reminders |
| Reminders.NoIdReadsAnyone | src/routes/reminders.js:44-59 | a caller without `id` reads any user's reminder by id |
| Reminders.CreateWithoutId | src/routes/reminders.js:9-26 | a caller without `id` can create no reminder |
| Clients.ListClients | src/routes/clients.js:8-11 | every client of every user, unfiltered |
| Clients.ListingIgnoresCaller | src/routes/clients.js:8-11 | any caller's listing holds every user's clients and is the same for all callers |
| Clients.GetClient | src/routes/clients.js:14-23 | the row with that id; an unknown id answers 404 `Cliente não encontrado` |
| Clients.AnyCallerReadsAnyClient | src/routes/clients.js:14-23 | any caller reads any user's client by id |
| Clients.CreateClient | src/routes/clients.js:26-44 | stores the body's fields, the birthday or null, and the body's `userId`; a missing `userId` or a failure answers 400 with the storage message |
| Clients.UpdateClient | src/routes/clients.js:47-66 | by id alone: writes name, phone, e-mail and notes when given and resets the birthday to null when none is given, answering the updated row; an unknown id or a failure answers 400 `Erro ao atualizar cliente` with nothing changed |
| Clients.EditWrites | src/routes/clients.js:54-60 | PUT writes name, phone, e-mail and notes when given, always writes the birthday (none clears it); id, owner and creation time are never touched |
| Clients.DeleteClient | src/routes/clients.js:69-80 | removes exactly the one row with that id, whoever owns it, and the table shrinks by one; an unknown id or a failure answers 400 `Erro ao deletar cliente` and changes nothing |
| Sales.ListSales | src/routes/sales.js:8-20 | every sale of every user; a failure answers 500 with the storage message |
| Sales.ListingIgnoresCaller | src/routes/sales.js:8-20 | any caller's listing holds every user's sales and is the same for all callers |
| Sales.GetSale | src/routes/sales.js:23-40 | the row with that id; an unknown id answers 404 `Venda não encontrada`; a failure answers 500 |
| Sales.AnyCallerReadsAnySale | src/routes/sales.js:23-40 | any caller reads any user's sale by id |
| Sales.CreateSale | src/routes/sales.js:43-60 | stores client, owner, description and value from the body and the given date; a missing reference or a failure answers 400 |
| Sales.UpdateSale | src/routes/sales.js:63-80 | by id alone: changes description and value when given and always the date; client and owner are untouched; an unknown id answers 400 record-not-found |
| Sales.EditWrites | src/routes/sales.js:70-74 | PUT writes description and value when given and always the date; id, client and owner are never touched |
| Sales.DeleteSale | src/routes/sales.js:83-94 | removes exactly the one row with that id, whoever owns it, and the table shrinks by one; an unknown id answers 400 record-not-found and a failure 400 with the storage message, both changing nothing |
| Calendar.DaysInMonth | src/routes/dashboard.js:12-14 | months have 28 to 31 days; February has 29 exactly in leap years |
| Calendar.YearLength | src/routes/dashboard.js:12-14 | 1 January of the next year is 365 or 366 days on, by the Gregorian leap rule |
| Calendar.YearsApart | src/routes/dashboard.js:12-14 | years are at least 365 days apart |
| Calendar.DayZeroIsLastDay | src/routes/dashboard.js:14 | date 0 of the next month is the month's last date, also in December, and the day before the next month's first |
| Calendar.EarlierYearFirst | src/routes/dashboard.js:46-49 | every date of a month in an earlier year precedes the first of that month in a later year |
| Calendar.MakeDay | src/routes/dashboard.js:14 | `new Date`'s day number: a month within the year counts from that year's start; a month of 12 to 23 carries into the next year |
| Calendar.NewDate | src/routes/dashboard.js:13-14 | a constructed date is a local midnight; two-digit years mean 1900 onwards |
| Dashboard.LastDayIsMonthEnd | src/routes/dashboard.js:12-14 | `lastDayOfMonth` is midnight of the month's last date, one day before the next month, `(days - 1)` days after `firstDayOfMonth`, and equal to the birthday filter's upper bound |
| Dashboard.FirstDay | src/routes/dashboard.js:13 | `firstDayOfMonth` is a midnight no later than any date of the month |
| Dashboard.LastDay | src/routes/dashboard.js:14 | `lastDayOfMonth`, date 0 of the next month, is midnight of this month's last date |
| Dashboard.BirthdayLimit | src/routes/dashboard.js:47-48 | the birthday filter's upper bound is a midnight `days - 1` days after the first of the month |
| Dashboard.DecemberWindow | src/routes/dashboard.js:14 | December's window closes on the 31st, the day before 1 January of the next year |
| Dashboard.FebruaryWindow | src/routes/dashboard.js:14 | February's window closes on the 29th in leap years and on the 28th otherwise |
| Dashboard.SumOrNull | src/routes/dashboard.js:31-40 | the aggregate is null exactly when no row matches |
| Dashboard.MonthlySales | src/routes/dashboard.js:31-40 | the sum of `value` over the caller's sales dated within the window; 0 when there is none |
| Dashboard.Birthdays | src/routes/dashboard.js:43-56 | one `{id, name, birthday}` entry per caller's client whose stored birthday lies within the window, and no other |
| Dashboard.Dashboard | src/routes/dashboard.js:9-71 | the four totals count only the caller's rows; the revenue and the birthdays are those of the window; nothing is written; a failure answers 500 `Erro ao gerar dashboard` |
| Dashboard.LateOnLastDayNotCounted | src/routes/dashboard.js:14-37 | the bounds are midnights: a sale later on the last date adds nothing to the revenue |
| Dashboard.MidnightOfLastDayCounted | src/routes/dashboard.js:14-37 | a caller's sale at midnight of the last date adds its value |
| Dashboard.EarlierYearBirthdayNotListed | src/routes/dashboard.js:43-56 | a birthday on a date of this month in an earlier year is not listed |
| Dashboard.ThisYearBirthdayListed | src/routes/dashboard.js:43-56 | a caller's client whose birthday is a date of this month of this year is listed |
| Auth.Login | src/routes/auth.js:12-43 | an unknown e-mail answers 400 `Usuário não encontrado`; a failed comparison answers 400 `Senha incorreta`; success answers a token signed over `{userId, name, email}` for 8 hours and the user `{id, name, email}`; nothing is written |
| Auth.SessionFor | src/routes/auth.js:29-41 | the token is signed over `{ userId, name, email }` of the user for 8 hours, and the user is shown by id, name and e-mail without the hash |
| Auth.LoginChecksTheUser | src/routes/auth.js:15-27 | with unique e-mails, login succeeds exactly when the password matches the one user's hash, and otherwise answers `Senha incorreta` |
| Auth.RegisteredCanLogIn | src/routes/auth.js:23-68 | if a password matches its own hash, a user stored with that hash under a new e-mail logs in with that password and gets a token for that user |
| Auth.Register | src/routes/auth.js:46-77 | a taken e-mail answers 400 `E-mail já cadastrado` and leaves the user table unchanged; otherwise stores the hash of the password, never the password, and answers `{id, name, email, created_at}` without the hash |
| Auth.RegisterThenLogin | src/routes/auth.js:12-77 | a successful registration followed by login with the same credentials succeeds for the registered user |
| Users.CreateUser | src/routes/users.js:9-27 | stores the hash of the password and answers the whole row, hash included; it makes no check of its own: a taken e-mail is the database's unique-constraint error, answered 400 like any failure |
| Users.ListUsers | src/routes/users.js:29-33 | every user, hashes included, unfiltered |

## Left out

- Express wiring, CORS, body parsing and the listening port: plumbing with no logic.
- The token-verifying middleware, which is not part of this model. Handlers take the resolved `Identity`. The `/clients` and `/sales` handlers take it but do not read it.
- The API documentation (`docs/swagger.js` and the comment block at the end of `notes.js`).
- The `include` joins of the note listing (`client`, notes.js:32), the reminder reads (`client`) and the sale reads (`client`, `user`): rows are returned without their related rows.
- Foreign keys. A reference to a client or a user that does not exist is not refused, and a delete is never refused because other rows reference the row.
- Parsing dates from strings (`new Date(date)`), invalid dates, and time zones. Dates are instants in local time. A truthy client birthday is already parsed (`Some`), and a falsy one is `None`.
- `page` and `limit` that are not integers, or empty-string query parameters. Absent parameters take their defaults. An empty `clientId` or `search` is modelled as absent.
- Decimal sale values, which are integers here (for example cents).
- Row ids, which the database generates as opaque values. The model draws them from a counter.
- Case-insensitive matching, which uses ASCII letters only. The database's collation folds more characters.
- `Promise.all`: the independent queries are evaluated one after another.
- Failures in handlers with no `try`/`catch`. Those failures go unhandled, so no response is modelled: the `/clients` reads, the `/users` list, login, and the lookup and insert of registration.
- The bcrypt salt and cost, the token secret and the signature format. Hashing is one function of the password, and the token is `sign(payload, 28800 seconds)`.
- The race between registration's e-mail check and its insert, which the model runs as one step.
- Reminders.UpdateReminder: an explicit `null` in the body cannot be told apart from an absent field. `clientId: null` clears the reference in the source, but here it leaves the reference unchanged.
- Clients.CreateClient, Sales.CreateSale: of the required fields, only the owner (`userId`) and the client reference are checked. The error message names the first one missing, not the database's exact text.
- Notes.NoteOnItsPage, Notes.ListNotes: notes with equal `created_at` keep storage order here. The database leaves the order of ties unspecified, and each page is a query of its own (notes.js:27-31), so with ties a note may appear on two pages or on none. The model promises an order the database does not.
- Notes.CreateNote, Reminders.CreateReminder: the required body fields (`clientId` and `content` of a note, `type` of a reminder) are always present here. The database refuses a body without them, which answers 400 with the error's message for a note (notes.js:81) and 500 `Erro ao criar lembrete` for a reminder (reminders.js:24); the model has no such error path.
- Calendar: `getDate()` is not modelled for an arbitrary instant. The one instant the dashboard asks it of is shown by `Calendar.DayZeroIsLastDay` to be the month's last date, so `getDate()` there is the length of the month.
