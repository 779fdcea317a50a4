/** Calendar arithmetic on date-only values.

    A date is a day number: 0 is 1970-01-01 (the Unix epoch), 1 the day after,
    negative numbers the days before. Adding days is integer addition, the
    weekday is a residue modulo 7, and the proleptic Gregorian calendar
    (year, month, day) maps to day numbers by `DayNumber`. */
module Calendar {

  /** A calendar date as a count of days since 1970-01-01. */
  type Date = int

  /** 1970-01-01 was a Thursday. */
  const EpochWeekday := 4

  /** The weekday of a date, numbered as JavaScript's getDay does:
      0 = Sunday, 1 = Monday, ..., 6 = Saturday. */
  function Weekday(d: Date): (w: int)
    ensures 0 <= w < 7
  {
    (d + EpochWeekday) % 7
  }

  /** A week later is the same weekday. */
  lemma WeekdayWeekLater(d: Date)
    ensures Weekday(d + 7) == Weekday(d)
  {
  }

  /** Seven consecutive days starting at `lo` show every weekday exactly once:
      this is the date among them whose weekday is `w`. */
  function DayWithWeekday(lo: Date, w: int): (d: Date)
    requires 0 <= w < 7
    ensures lo <= d < lo + 7
    ensures Weekday(d) == w
  {
    lo + (w - Weekday(lo)) % 7
  }

  // ---------------------------------------------------------------------
  // The proleptic Gregorian calendar, years 0 through 9999 (the years that
  // the four-digit YYYY-MM-DD form can write).

  datatype CivilDate = CivilDate(year: int, month: int, day: int)

  predicate IsLeapYear(y: int)
  {
    y % 4 == 0 && (y % 100 != 0 || y % 400 == 0)
  }

  function DaysInYear(y: int): int
  {
    if IsLeapYear(y) then 366 else 365
  }

  function DaysInMonth(y: int, m: int): (n: int)
    requires 1 <= m <= 12
    ensures 28 <= n <= 31
  {
    if m == 2 then (if IsLeapYear(y) then 29 else 28)
    else if m == 4 || m == 6 || m == 9 || m == 11 then 30
    else 31
  }

  /** Days of the year `y` that lie before the first of month `m`. */
  function DaysBeforeMonth(y: int, m: int): int
    requires 1 <= m <= 12
  {
    var base :=
      if m == 1 then 0 else if m == 2 then 31 else if m == 3 then 59
      else if m == 4 then 90 else if m == 5 then 120 else if m == 6 then 151
      else if m == 7 then 181 else if m == 8 then 212 else if m == 9 then 243
      else if m == 10 then 273 else if m == 11 then 304 else 334;
    base + (if m > 2 && IsLeapYear(y) then 1 else 0)
  }

  /** Days from 0000-01-01 to y-01-01: 365 per year plus one per leap year
      among 0 .. y-1 (multiples of 4, less multiples of 100, plus multiples of 400). */
  function DaysBeforeYear(y: nat): int
  {
    365 * y + (y + 3) / 4 - (y + 99) / 100 + (y + 399) / 400
  }

  /** Days from 0000-01-01 to 1970-01-01. */
  const EpochOffset := 719528

  predicate ValidCivil(c: CivilDate)
  {
    0 <= c.year <= 9999 && 1 <= c.month <= 12 && 1 <= c.day <= DaysInMonth(c.year, c.month)
  }

  /** The day number of a calendar date. */
  function DayNumber(c: CivilDate): Date
    requires ValidCivil(c)
  {
    DaysBeforeYear(c.year) + DaysBeforeMonth(c.year, c.month) + c.day - 1 - EpochOffset
  }

  /** Chronological order of calendar dates: year, then month, then day. */
  predicate CivilBefore(a: CivilDate, b: CivilDate)
  {
    a.year < b.year
    || (a.year == b.year && a.month < b.month)
    || (a.year == b.year && a.month == b.month && a.day < b.day)
  }

  lemma EpochIsDayZero()
    ensures DayNumber(CivilDate(1970, 1, 1)) == 0
    ensures Weekday(DayNumber(CivilDate(2000, 1, 1))) == 6
  {
  }

  /** A year contributes its own length to the days before the next year. */
  lemma DaysBeforeNextYear(y: nat)
    ensures DaysBeforeYear(y + 1) == DaysBeforeYear(y) + DaysInYear(y)
  {
    CountStep(y, 4);
    CountStep(y, 100);
    CountStep(y, 400);
    MultipleOfMultiple(y, 4, 25);
    MultipleOfMultiple(y, 100, 4);
  }

  /** A multiple of a * b is a multiple of a. */
  lemma MultipleOfMultiple(y: int, a: int, b: int)
    requires a >= 1 && b >= 1
    ensures y % (a * b) == 0 ==> y % a == 0
  {
    if y % (a * b) == 0 {
      var q := y / (a * b);
      assert y == (a * b) * q;
      assert y == a * (b * q);
      DivModUnique(y, a, b * q, 0);
    }
  }

  // ---------------------------------------------------------------------
  // Integer division facts the proofs above and the interval pattern use

  /** A positive multiple of a positive number is at least that number, a
      negative one at most its negation. */
  lemma {:induction false} MulAtLeast(n: int, k: int)
    requires n >= 1
    ensures k >= 1 ==> n * k >= n
    ensures k <= -1 ==> n * k <= -n
    decreases if k < 0 then -k else k
  {
    if k > 1 {
      MulAtLeast(n, k - 1);
      assert n * k == n * (k - 1) + n;
    } else if k < -1 {
      MulAtLeast(n, k + 1);
      assert n * k == n * (k + 1) - n;
    }
  }

  /** Quotient and remainder are the only ones that fit. */
  lemma DivModUnique(x: int, n: int, q: int, r: int)
    requires n >= 1 && x == n * q + r && 0 <= r < n
    ensures x / n == q && x % n == r
  {
    var q', r' := x / n, x % n;
    assert x == n * q' + r';
    assert n * (q - q') == r' - r;
    MulAtLeast(n, q - q');
  }

  /** Counting the multiples of k among 0 .. y: one more than among
      0 .. y - 1 exactly when y itself is a multiple. */
  lemma CountStep(y: nat, k: int)
    requires k >= 1
    ensures (y + k) / k == (y + k - 1) / k + (if y % k == 0 then 1 else 0)
  {
    var q, r := y / k, y % k;
    assert y == k * q + r;
    assert k * (q + 1) == k * q + k;
    DivModUnique(y + k, k, q + 1, r);
    if r == 0 {
      DivModUnique(y + k - 1, k, q, k - 1);
    } else {
      DivModUnique(y + k - 1, k, q + 1, r - 1);
    }
  }

  /** Every year before `y2` has ended by the time `y2` starts. */
  lemma {:induction false} DaysBeforeYearGrows(y1: nat, y2: nat)
    requires y1 < y2
    ensures DaysBeforeYear(y1) + DaysInYear(y1) <= DaysBeforeYear(y2)
    decreases y2 - y1
  {
    DaysBeforeNextYear(y1);
    if y1 + 1 < y2 {
      DaysBeforeYearGrows(y1 + 1, y2);
    }
  }

  /** A month ends before any later month of the same year starts, and
      December ends the year. */
  lemma DaysBeforeMonthGrows(y: int, m1: int, m2: int)
    requires 1 <= m1 < m2 <= 12
    ensures DaysBeforeMonth(y, m1) + DaysInMonth(y, m1) <= DaysBeforeMonth(y, m2)
  {
  }

  lemma MonthsFillYear(y: int, m: int)
    requires 1 <= m <= 12
    ensures DaysBeforeMonth(y, m) + DaysInMonth(y, m) <= DaysInYear(y)
  {
  }

  /** Day numbers order calendar dates chronologically: a strictly earlier
      date has a strictly smaller day number. */
  lemma DayNumberStrictlyMonotone(a: CivilDate, b: CivilDate)
    requires ValidCivil(a) && ValidCivil(b)
    requires CivilBefore(a, b)
    ensures DayNumber(a) < DayNumber(b)
  {
    if a.year < b.year {
      MonthsFillYear(a.year, a.month);
      DaysBeforeYearGrows(a.year, b.year);
    } else if a.month < b.month {
      DaysBeforeMonthGrows(a.year, a.month, b.month);
    }
  }

  /** Two valid calendar dates are in the same order as their day numbers,
      and name the same day exactly when they are the same date. */
  lemma DayNumberOrder(a: CivilDate, b: CivilDate)
    requires ValidCivil(a) && ValidCivil(b)
    ensures CivilBefore(a, b) <==> DayNumber(a) < DayNumber(b)
    ensures a == b <==> DayNumber(a) == DayNumber(b)
  {
    if CivilBefore(a, b) {
      DayNumberStrictlyMonotone(a, b);
    } else if CivilBefore(b, a) {
      DayNumberStrictlyMonotone(b, a);
    }
  }
}
