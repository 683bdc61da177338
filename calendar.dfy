/** The proleptic Gregorian calendar as JavaScript's `Date` computes it: day numbers counted
    from 1 January 1970, `MakeDay` for a (year, month, date) triple whose month and date may
    run out of range, and the `new Date(year, month, date)` constructor. Instants are
    milliseconds in local time. */
module Calendar {
  import opened Base

  const MsPerDay: int := 86400000

  /** A month as `getMonth()` numbers it: 0 is January, 11 December. */
  type Month = m: int | 0 <= m < 12

  predicate IsLeap(y: int) {
    y % 4 == 0 && (y % 100 != 0 || y % 400 == 0)
  }

  function DaysInYear(y: int): int {
    if IsLeap(y) then 366 else 365
  }

  function DaysInMonth(y: int, m: Month): (n: int)
    ensures 28 <= n <= 31
    ensures m == 1 ==> (n == 29 <==> IsLeap(y))
  {
    if m == 1 then (if IsLeap(y) then 29 else 28)
    else if m == 3 || m == 5 || m == 8 || m == 10 then 30
    else 31
  }

  /** Days of year `y` before the first of month `m`. */
  function DaysBeforeMonth(y: int, m: Month): int {
    [0, 31, 59, 90, 120, 151, 181, 212, 243, 273, 304, 334][m] + (if m >= 2 && IsLeap(y) then 1 else 0)
  }

  /** Month `m + 1` starts where month `m` ends; December ends the year. */
  lemma DaysBeforeNext(y: int, m: Month)
    ensures m < 11 ==> DaysBeforeMonth(y, m + 1) == DaysBeforeMonth(y, m) + DaysInMonth(y, m)
    ensures m == 11 ==> DaysBeforeMonth(y, m) + DaysInMonth(y, m) == DaysInYear(y)
  {
  }

  /** The day number of 1 January of year `y` (floor division throughout). */
  function DayFromYear(y: int): int {
    365 * (y - 1970) + (y - 1969) / 4 - (y - 1901) / 100 + (y - 1601) / 400
  }

  /** A year is as long as the gap between its first day and the next year's. */
  lemma {:induction false} YearLength(y: int)
    ensures DayFromYear(y + 1) == DayFromYear(y) + DaysInYear(y)
  {
    LeapStep4(y);
    LeapStep100(y);
    LeapStep400(y);
    LeapNesting(y);
  }

  /** Euclidean quotient and remainder by 4, 100 and 400, from a witness. */
  lemma Quot4(a: int, q: int, r: int)
    requires a == 4 * q + r && 0 <= r < 4
    ensures a / 4 == q && a % 4 == r
  {
  }

  lemma Quot100(a: int, q: int, r: int)
    requires a == 100 * q + r && 0 <= r < 100
    ensures a / 100 == q && a % 100 == r
  {
  }

  lemma Quot400(a: int, q: int, r: int)
    requires a == 400 * q + r && 0 <= r < 400
    ensures a / 400 == q && a % 400 == r
  {
  }

  /** From year `y` to `y + 1` the count of multiples of 4 since the epoch grows exactly
      when `y` is one; likewise for 100 and 400. */
  lemma LeapStep4(y: int)
    ensures (y + 1 - 1969) / 4 == (y - 1969) / 4 + (if y % 4 == 0 then 1 else 0)
  {
    var q, r := y / 4, y % 4;
    Quot4(y + 1 - 1969, q - 492, r);
    if r == 0 {
      Quot4(y - 1969, q - 493, 3);
    } else {
      Quot4(y - 1969, q - 492, r - 1);
    }
  }

  lemma LeapStep100(y: int)
    ensures (y + 1 - 1901) / 100 == (y - 1901) / 100 + (if y % 100 == 0 then 1 else 0)
  {
    var q, r := y / 100, y % 100;
    Quot100(y + 1 - 1901, q - 19, r);
    if r == 0 {
      Quot100(y - 1901, q - 20, 99);
    } else {
      Quot100(y - 1901, q - 19, r - 1);
    }
  }

  lemma LeapStep400(y: int)
    ensures (y + 1 - 1601) / 400 == (y - 1601) / 400 + (if y % 400 == 0 then 1 else 0)
  {
    var q, r := y / 400, y % 400;
    Quot400(y + 1 - 1601, q - 4, r);
    if r == 0 {
      Quot400(y - 1601, q - 5, 399);
    } else {
      Quot400(y - 1601, q - 4, r - 1);
    }
  }

  /** Multiples of 400 are multiples of 100, which are multiples of 4. */
  lemma LeapNesting(y: int)
    ensures y % 400 == 0 ==> y % 100 == 0
    ensures y % 100 == 0 ==> y % 4 == 0
  {
    if y % 400 == 0 {
      Quot100(y, 4 * (y / 400), 0);
    }
    if y % 100 == 0 {
      Quot4(y, 25 * (y / 100), 0);
    }
  }

  /** Years are at least 365 days long. */
  lemma {:induction false} YearsApart(a: int, b: int)
    requires a <= b
    ensures DayFromYear(b) - DayFromYear(a) >= 365 * (b - a)
    decreases b - a
  {
    if a < b {
      YearsApart(a, b - 1);
      YearLength(b - 1);
    }
  }

  /** ECMAScript `MakeDay`: the month is first folded into the year, the date may be 0 or
      run past the month's end. */
  function MakeDay(year: int, month: int, date: int): (r: int)
    ensures 0 <= month < 12 ==> r == DayFromYear(year) + DaysBeforeMonth(year, month) + date - 1
    ensures 12 <= month < 24 ==> r == DayFromYear(year + 1) + DaysBeforeMonth(year + 1, month - 12) + date - 1
  {
    MonthFold(month);
    var y := year + month / 12;
    var m: Month := month % 12;
    DayFromYear(y) + DaysBeforeMonth(y, m) + date - 1
  }

  /** `new Date(year, month, date)`: years 0 to 99 mean 1900 to 1999. */
  function FullYear(year: int): int {
    if 0 <= year <= 99 then 1900 + year else year
  }

  /** `new Date(year, month, date)` at local midnight. */
  function NewDate(year: int, month: int, date: int): (r: Instant)
    ensures r % MsPerDay == 0
    ensures 0 <= year <= 99 ==> r / MsPerDay == MakeDay(1900 + year, month, date)
  {
    MakeDay(FullYear(year), month, date) * MsPerDay
  }

  /** A month in the year stays in it; a month of the following year carries one year. */
  lemma MonthFold(month: int)
    ensures 0 <= month < 12 ==> month / 12 == 0 && month % 12 == month
    ensures 12 <= month < 24 ==> month / 12 == 1 && month % 12 == month - 12
  {
    if 0 <= month < 12 {
      Quot12(month, 0, month);
    } else if 12 <= month < 24 {
      Quot12(month, 1, month - 12);
    }
  }

  /** Date 0 of the next month is the last date of this one, in December as in any other
      month, and it is the day before the next month's first. */
  lemma DayZeroIsLastDay(y: int, m: Month)
    ensures MakeDay(y, m + 1, 0) == MakeDay(y, m, DaysInMonth(y, m))
    ensures MakeDay(y, m + 1, 0) + 1 == MakeDay(y, m + 1, 1)
  {
    DaysBeforeNext(y, m);
    Quot12(m, 0, m);
    if m == 11 {
      Quot12(m + 1, 1, 0);
      YearLength(y);
    } else {
      Quot12(m + 1, 0, m + 1);
    }
  }

  lemma Quot12(a: int, q: int, r: int)
    requires a == 12 * q + r && 0 <= r < 12
    ensures a / 12 == q && a % 12 == r
  {
  }

  /** Within a month, later dates are later days. */
  lemma DatesInOrder(y: int, m: Month, d: int, e: int)
    ensures MakeDay(y, m, e) - MakeDay(y, m, d) == e - d
  {
  }

  /** Every date of a month of an earlier year comes before the first of the month in a
      later year. */
  lemma EarlierYearFirst(a: int, b: int, m: Month, d: int)
    requires a < b && d <= DaysInMonth(a, m)
    ensures MakeDay(a, m, d) < MakeDay(b, m, 1)
  {
    YearsApart(a, b);
  }
}
