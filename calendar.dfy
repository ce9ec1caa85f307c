/**
 * The calendar facts the pipeline takes from pandas' datetime64 values:
 * a timestamp is a count of nanoseconds since 1970-01-01 00:00, truncating it
 * to its calendar day (what resample('D') buckets by) and reading its month
 * (what .dt.month returns), in the proleptic Gregorian calendar.
 */
module Calendar {

  const NanosPerDay: int := 86_400_000_000_000

  /** The day a timestamp falls on, as a count of days since 1970-01-01;
      truncation is towards the past, also before 1970. */
  function DayOf(t: int): (d: int)
    ensures d * NanosPerDay <= t < (d + 1) * NanosPerDay
  {
    t / NanosPerDay
  }

  /** The day holding a timestamp is the only day whose span holds it. */
  lemma DayOfUnique(t: int, d: int)
    requires d * NanosPerDay <= t < (d + 1) * NanosPerDay
    ensures DayOf(t) == d
  {
    var e := DayOf(t);
    ScaleDays(e + 1, d);
    ScaleDays(d + 1, e);
  }

  lemma ScaleDays(a: int, b: int)
    ensures a <= b ==> a * NanosPerDay <= b * NanosPerDay
  {
  }

  /** Truncating to the day keeps the order of timestamps. */
  lemma DayOfMonotone(a: int, b: int)
    requires a <= b
    ensures DayOf(a) <= DayOf(b)
  {
  }

  predicate IsLeap(y: int)
  {
    y % 4 == 0 && (y % 100 != 0 || y % 400 == 0)
  }

  function DaysInYear(y: int): int
  {
    if IsLeap(y) then 366 else 365
  }

  function DaysInMonth(y: int, m: int): int
    requires 1 <= m <= 12
  {
    if m == 2 then (if IsLeap(y) then 29 else 28)
    else if m == 4 || m == 6 || m == 9 || m == 11 then 30
    else 31
  }

  /** Days from 1970-01-01 to January 1 of year y (negative before 1970). */
  function YearStart(y: int): int
    decreases if y < 1970 then 1970 - y else y - 1970
  {
    if y == 1970 then 0
    else if y > 1970 then YearStart(y - 1) + DaysInYear(y - 1)
    else YearStart(y + 1) - DaysInYear(y)
  }

  /** Consecutive years follow each other with no gap. */
  lemma YearStartStep(y: int)
    ensures YearStart(y + 1) == YearStart(y) + DaysInYear(y)
  {
  }

  /** A year ends no later than any later year begins. */
  lemma {:induction false} YearStartOrder(a: int, b: int)
    ensures a < b ==> YearStart(a) + DaysInYear(a) <= YearStart(b)
    decreases b - a
  {
    if a < b {
      YearStartStep(a);
      if a + 1 < b {
        YearStartOrder(a + 1, b);
      }
    }
  }

  /** A day number has exactly one (year, day of year) reading. */
  lemma SameYear(a: int, i: int, b: int, j: int)
    requires 0 <= i < DaysInYear(a) && 0 <= j < DaysInYear(b)
    requires YearStart(a) + i == YearStart(b) + j
    ensures a == b && i == j
  {
    YearStartOrder(a, b);
    YearStartOrder(b, a);
  }

  /** The year of the day that lies n days after January 1 of year y (n may be
      negative or beyond the year's end), with that day's 0-based position in
      its year. */
  function YearAndDay(y: int, n: int): (r: (int, int))
    ensures 0 <= r.1 < DaysInYear(r.0)
    ensures YearStart(r.0) + r.1 == YearStart(y) + n
    decreases if n < 0 then -n else 0, if n < 0 then 0 else n
  {
    if n < 0 then
      YearStartStep(y - 1);
      YearAndDay(y - 1, n + DaysInYear(y - 1))
    else if n >= DaysInYear(y) then
      YearStartStep(y);
      YearAndDay(y + 1, n - DaysInYear(y))
    else (y, n)
  }

  /** Days in the months of year y before month m. */
  function DaysBeforeMonth(y: int, m: int): int
    requires 1 <= m <= 12
  {
    var leap := if IsLeap(y) then 1 else 0;
    if m == 1 then 0
    else if m == 2 then 31
    else if m == 3 then 59 + leap
    else if m == 4 then 90 + leap
    else if m == 5 then 120 + leap
    else if m == 6 then 151 + leap
    else if m == 7 then 181 + leap
    else if m == 8 then 212 + leap
    else if m == 9 then 243 + leap
    else if m == 10 then 273 + leap
    else if m == 11 then 304 + leap
    else 334 + leap
  }

  /** Each month starts where the one before it ends, and December ends
      where the year does. */
  lemma MonthsFillYear(y: int, m: int)
    requires 1 <= m <= 12
    ensures m < 12 ==> DaysBeforeMonth(y, m + 1) == DaysBeforeMonth(y, m) + DaysInMonth(y, m)
    ensures m == 12 ==> DaysBeforeMonth(y, m) + DaysInMonth(y, m) == DaysInYear(y)
    ensures DaysBeforeMonth(y, m) + DaysInMonth(y, m) <= DaysInYear(y)
  {
  }

  /** A month ends no later than any later month of the year begins. */
  lemma MonthOrder(y: int, a: int, b: int)
    requires 1 <= a <= 12 && 1 <= b <= 12
    ensures a < b ==> DaysBeforeMonth(y, a) + DaysInMonth(y, a) <= DaysBeforeMonth(y, b)
  {
  }

  /** The month, from m on, holding the day that lies rem days after the first
      of month m of year y: it begins no later than that day and, unless it
      is December, ends after it. */
  function MonthFrom(y: int, m: int, rem: int): (r: int)
    requires 1 <= m <= 12 && 0 <= rem
    ensures m <= r <= 12
    ensures DaysBeforeMonth(y, r) <= DaysBeforeMonth(y, m) + rem
    ensures r == 12 || DaysBeforeMonth(y, m) + rem < DaysBeforeMonth(y, r) + DaysInMonth(y, r)
    decreases 12 - m
  {
    if m == 12 || rem < DaysInMonth(y, m) then m
    else
      MonthsFillYear(y, m);
      MonthFrom(y, m + 1, rem - DaysInMonth(y, m))
  }

  /** The calendar month (1 to 12) of a day number. */
  function MonthOfDay(d: int): (m: int)
    ensures 1 <= m <= 12
  {
    var (y, doy) := YearAndDay(1970, d);
    MonthFrom(y, 1, doy)
  }

  /** The calendar month of a timestamp, as .dt.month reads it. */
  function MonthOf(t: int): (m: int)
    ensures 1 <= m <= 12
  {
    MonthOfDay(DayOf(t))
  }

  /** The day number of the date y-m-d. */
  function DaysFromCivil(y: int, m: int, d: int): int
    requires 1 <= m <= 12
  {
    YearStart(y) + DaysBeforeMonth(y, m) + d - 1
  }

  /** Every day of month m of year y is read back as month m. */
  lemma MonthOfCivilDay(y: int, m: int, d: int)
    requires 1 <= m <= 12 && 1 <= d <= DaysInMonth(y, m)
    ensures MonthOfDay(DaysFromCivil(y, m, d)) == m
  {
    var n := DaysFromCivil(y, m, d);
    var doy := DaysBeforeMonth(y, m) + d - 1;
    MonthsFillYear(y, m);
    var yd := YearAndDay(1970, n);
    SameYear(yd.0, yd.1, y, doy);
    var r := MonthFrom(y, 1, doy);
    MonthOrder(y, r, m);
    MonthOrder(y, m, r);
  }

  /** Every instant of the date y-m-d has month m. */
  lemma MonthOfDate(y: int, m: int, d: int, t: int)
    requires 1 <= m <= 12 && 1 <= d <= DaysInMonth(y, m)
    requires DaysFromCivil(y, m, d) * NanosPerDay <= t < (DaysFromCivil(y, m, d) + 1) * NanosPerDay
    ensures MonthOf(t) == m
  {
    DayOfUnique(t, DaysFromCivil(y, m, d));
    MonthOfCivilDay(y, m, d);
  }

  /** Day 0 is in January 1970, day 181 is July 1 1970 and day -1 is
      December 31 1969. */
  lemma MonthExamples()
    ensures MonthOfDay(0) == 1
    ensures MonthOfDay(181) == 7
    ensures MonthOfDay(-1) == 12
  {
    MonthOfCivilDay(1970, 1, 1);
    MonthOfCivilDay(1970, 7, 1);
    MonthOfCivilDay(1969, 12, 31);
  }
}
