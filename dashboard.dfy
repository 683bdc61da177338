/** The dashboard router's `GET /` (the server file does not mount it): per-user totals,
    the month's sales revenue and the month's birthdays, for the caller `req.user.id || req.user.userId`. The clock reading is a parameter: the
    year and month of `new Date()` in local time. */
module Dashboard {
  import opened Base
  import opened Tables
  import opened Calendar

  const Failed: Message := Text("Erro ao gerar dashboard")

  datatype BirthdayEntry = BirthdayEntry(id: Id, name: string, birthday: Option<Instant>)

  datatype Summary = Summary(
    totalClients: nat, totalSales: nat, totalNotes: nat, totalReminders: nat,
    salesThisMonth: int, birthdaysThisMonth: seq<BirthdayEntry>)

  /** `new Date(year, month, 1)`: midnight of the month's earliest date. */
  function FirstDay(year: int, month: Month): (r: Instant)
    ensures r % MsPerDay == 0
    ensures forall d :: d >= 1 ==> r <= NewDate(year, month, d)
  {
    FirstIsEarliest(year, month);
    NewDate(year, month, 1)
  }

  lemma FirstIsEarliest(year: int, month: Month)
    ensures forall d :: d >= 1 ==> NewDate(year, month, 1) <= NewDate(year, month, d)
  {
    forall d | d >= 1 ensures NewDate(year, month, 1) <= NewDate(year, month, d) {
      DatesInOrder(FullYear(year), month, 1, d);
    }
  }

  /** `new Date(year, month + 1, 0)`: date 0 of the next month, which is midnight of this
      month's last date. */
  function LastDay(year: int, month: Month): (r: Instant)
    ensures r % MsPerDay == 0
    ensures r == NewDate(year, month, DaysInMonth(FullYear(year), month))
  {
    DayZeroIsLastDay(FullYear(year), month);
    NewDate(year, month + 1, 0)
  }

  /** The upper bound of the birthday filter, `new Date(year, month, lastDayOfMonth.getDate())`;
      `getDate()` of the last day is the length of the month (see `LastDay`). */
  function BirthdayLimit(year: int, month: Month): (r: Instant)
    ensures r % MsPerDay == 0
    ensures r == FirstDay(year, month) + (DaysInMonth(FullYear(year), month) - 1) * MsPerDay
  {
    DatesInOrder(FullYear(year), month, 1, DaysInMonth(FullYear(year), month));
    NewDate(year, month, DaysInMonth(FullYear(year), month))
  }

  /** `lastDayOfMonth` is midnight of the month's last date, one day before the next month
      starts, and so also the birthday filter's upper bound. */
  lemma LastDayIsMonthEnd(year: int, month: Month)
    ensures LastDay(year, month) == NewDate(year, month, DaysInMonth(FullYear(year), month))
    ensures LastDay(year, month) == BirthdayLimit(year, month)
    ensures LastDay(year, month) + MsPerDay == NewDate(year, month + 1, 1)
    ensures LastDay(year, month) - FirstDay(year, month) == (DaysInMonth(FullYear(year), month) - 1) * MsPerDay
  {
    var y := FullYear(year);
    DayZeroIsLastDay(y, month);
    DatesInOrder(y, month, 1, DaysInMonth(y, month));
  }

  /** December's window closes on the 31st, the day before 1 January of the next year. */
  lemma DecemberWindow(year: int)
    requires year > 99
    ensures LastDay(year, 11) == NewDate(year, 11, 31)
    ensures LastDay(year, 11) + MsPerDay == NewDate(year + 1, 0, 1)
  {
    LastDayIsMonthEnd(year, 11);
    assert MakeDay(year, 12, 1) == MakeDay(year + 1, 0, 1);
  }

  /** February's window closes on the 29th in leap years and on the 28th otherwise. */
  lemma FebruaryWindow(year: int)
    ensures IsLeap(FullYear(year)) ==> LastDay(year, 1) == NewDate(year, 1, 29)
    ensures !IsLeap(FullYear(year)) ==> LastDay(year, 1) == NewDate(year, 1, 28)
  {
    LastDayIsMonthEnd(year, 1);
  }

  /** The window of both monthly filters: `gte` the first day, `lte` the last day. */
  predicate InMonth(t: Instant, year: int, month: Month) {
    FirstDay(year, month) <= t <= LastDay(year, month)
  }

  function SaleOf(owner: Option<Id>): Sale -> bool {
    (s: Sale) => OwnerMatches(owner, s.userId)
  }

  function ClientOf(owner: Option<Id>): Client -> bool {
    (c: Client) => OwnerMatches(owner, c.userId)
  }

  function NoteOf(owner: Option<Id>): Note -> bool {
    (n: Note) => OwnerMatches(owner, n.userId)
  }

  function ReminderOf(owner: Option<Id>): Reminder -> bool {
    (r: Reminder) => OwnerMatches(owner, r.userId)
  }

  function SaleInMonth(owner: Option<Id>, year: int, month: Month): Sale -> bool {
    (s: Sale) => OwnerMatches(owner, s.userId) && InMonth(s.date, year, month)
  }

  /** A null birthday fails both comparisons. */
  function BirthdayInMonth(owner: Option<Id>, year: int, month: Month): Client -> bool {
    (c: Client) => OwnerMatches(owner, c.userId) && c.birthday.Some? &&
                   FirstDay(year, month) <= c.birthday.value <= BirthdayLimit(year, month)
  }

  function Value(s: Sale): int { s.value }

  function Entry(c: Client): BirthdayEntry { BirthdayEntry(c.id, c.name, c.birthday) }

  /** `aggregate({ _sum: { value } })`: null when no row matches. */
  function SumOrNull(t: seq<Sale>): (r: Option<int>)
    ensures r.None? <==> t == []
  {
    if t == [] then None else Some(SumOf(t, Value))
  }

  /** `salesThisMonth`: the sum over the caller's sales dated inside the window, and 0
      (`_sum.value || 0`) when there is none. */
  function MonthlySales(sales: seq<Sale>, owner: Option<Id>, year: int, month: Month): (total: int)
    ensures total == SumOf(sales, Masked(SaleInMonth(owner, year, month), Value))
    ensures (forall s :: s in sales ==> !SaleInMonth(owner, year, month)(s)) ==> total == 0
    ensures (forall s :: s in sales ==> s.value >= 0) ==> total >= 0
  {
    SumOfFilter(sales, SaleInMonth(owner, year, month), Value);
    SumOrNull(Filter(sales, SaleInMonth(owner, year, month))).GetOr(0)
  }

  /** `birthdaysThisMonth`: `id`, `name` and `birthday` of each of the caller's clients whose
      full birthday date lies in the window. */
  function Birthdays(clients: seq<Client>, owner: Option<Id>, year: int, month: Month): (b: seq<BirthdayEntry>)
    ensures |b| == Count(clients, BirthdayInMonth(owner, year, month))
    ensures forall c :: c in clients && BirthdayInMonth(owner, year, month)(c) ==> Entry(c) in b
    ensures forall e :: e in b ==> exists c :: c in clients && BirthdayInMonth(owner, year, month)(c) && e == Entry(c)
  {
    var born := Filter(clients, BirthdayInMonth(owner, year, month));
    var entries := Select(born, Entry);
    assert forall c :: c in born ==> Entry(c) in entries by {
      forall c | c in born ensures Entry(c) in entries {
        var i :| 0 <= i < |born| && born[i] == c;
        assert entries[i] == Entry(c);
      }
    }
    entries
  }

  /** GET /. Nothing is written; any failure answers 500 with a fixed message. */
  function Dashboard(
    clients: seq<Client>, sales: seq<Sale>, notes: seq<Note>, reminders: seq<Reminder>,
    who: Identity, year: int, month: Month, fault: Option<string>): (r: Response<Summary>)
    ensures fault.Some? ==> r == Error(500, Failed)
    ensures fault.None? ==> r.Ok?
    ensures r.Ok? ==> var owner := ActingUser(who);
      && r.body.totalClients == Count(clients, ClientOf(owner))
      && r.body.totalSales == Count(sales, SaleOf(owner))
      && r.body.totalNotes == Count(notes, NoteOf(owner))
      && r.body.totalReminders == Count(reminders, ReminderOf(owner))
      && r.body.salesThisMonth == MonthlySales(sales, owner, year, month)
      && r.body.birthdaysThisMonth == Birthdays(clients, owner, year, month)
  {
    if fault.Some? then Error(500, Failed)
    else
      var owner := ActingUser(who);
      Ok(Summary(
        Count(clients, ClientOf(owner)), Count(sales, SaleOf(owner)),
        Count(notes, NoteOf(owner)), Count(reminders, ReminderOf(owner)),
        MonthlySales(sales, owner, year, month), Birthdays(clients, owner, year, month)))
  }

  /** The upper bound is midnight: a sale later on the month's last date adds nothing,
      while one at midnight of that date adds its value. */
  lemma LateOnLastDayNotCounted(sales: seq<Sale>, owner: Option<Id>, year: int, month: Month, s: Sale)
    requires LastDay(year, month) < s.date < LastDay(year, month) + MsPerDay
    ensures MonthlySales(sales + [s], owner, year, month) == MonthlySales(sales, owner, year, month)
  {
    SumOfAppend(sales, s, Masked(SaleInMonth(owner, year, month), Value));
  }

  lemma MidnightOfLastDayCounted(sales: seq<Sale>, owner: Option<Id>, year: int, month: Month, s: Sale)
    requires s.date == LastDay(year, month) && OwnerMatches(owner, s.userId)
    ensures MonthlySales(sales + [s], owner, year, month) == MonthlySales(sales, owner, year, month) + s.value
  {
    LastDayIsMonthEnd(year, month);
    DatesInOrder(FullYear(year), month, 1, DaysInMonth(FullYear(year), month));
    SumOfAppend(sales, s, Masked(SaleInMonth(owner, year, month), Value));
  }

  /** The birthday filter compares full dates: a client born on a date of this month in an
      earlier year is not listed, one whose stored birthday is a date of this month of this
      year is. */
  lemma EarlierYearBirthdayNotListed(c: Client, owner: Option<Id>, year: int, month: Month, bornYear: int, date: int)
    requires FullYear(bornYear) < FullYear(year)
    requires 1 <= date <= DaysInMonth(FullYear(bornYear), month)
    requires c.birthday == Some(NewDate(bornYear, month, date))
    ensures !BirthdayInMonth(owner, year, month)(c)
  {
    EarlierYearFirst(FullYear(bornYear), FullYear(year), month, date);
  }

  lemma ThisYearBirthdayListed(c: Client, owner: Option<Id>, year: int, month: Month, date: int)
    requires OwnerMatches(owner, c.userId)
    requires 1 <= date <= DaysInMonth(FullYear(year), month)
    requires c.birthday == Some(NewDate(year, month, date))
    ensures BirthdayInMonth(owner, year, month)(c)
  {
    var y := FullYear(year);
    DatesInOrder(y, month, 1, date);
    DatesInOrder(y, month, date, DaysInMonth(y, month));
  }
}
