/**
 * The proleptic Gregorian calendar that JavaScript's Date uses for local
 * wall-clock dates. A date is a (year, month, day) triple with months and
 * days counted from 1. `DayNumber` plays the part of `getTime()` divided by
 * the length of a day: it counts days from 1 January of year 1, and two local
 * midnights compare as their day numbers do. `NextDay` and `PrevDay` are what
 * `setDate(getDate() + 1)` and `setDate(getDate() - 1)` do once the Date
 * object has normalised an overflowing day of the month.
 */
module CivilCalendar {

  datatype Date = Date(year: int, month: int, day: int)

  /** The Gregorian leap-year rule. Dafny's `%` is Euclidean, so it also holds for years before 1. */
  predicate IsLeapYear(y: int) {
    y % 4 == 0 && (y % 100 != 0 || y % 400 == 0)
  }

  function DaysInMonth(y: int, m: int): (n: int)
    requires 1 <= m <= 12
    ensures 28 <= n <= 31
  {
    if m == 2 then (if IsLeapYear(y) then 29 else 28)
    else if m == 4 || m == 6 || m == 9 || m == 11 then 30
    else 31
  }

  predicate ValidDate(d: Date) {
    1 <= d.month <= 12 && 1 <= d.day <= DaysInMonth(d.year, d.month)
  }

  function YearLength(y: int): int {
    if IsLeapYear(y) then 366 else 365
  }

  /**
   * Days from 1 January of year 1 to 1 January of year `y` (negative for
   * earlier years): 365 a year plus one for each leap year in between.
   */
  function DaysBeforeYear(y: int): int {
    var p := y - 1;
    365 * p + p / 4 - p / 100 + p / 400
  }

  /** Days from 1 January to the first day of month `m` of year `y`. */
  function DaysBeforeMonth(y: int, m: int): int
    requires 1 <= m <= 12
  {
    (if m <= 6 then
       (if m <= 3 then (if m == 1 then 0 else if m == 2 then 31 else 59)
        else (if m == 4 then 90 else if m == 5 then 120 else 151))
     else
       (if m <= 9 then (if m == 7 then 181 else if m == 8 then 212 else 243)
        else (if m == 10 then 273 else if m == 11 then 304 else 334)))
      + (if m > 2 && IsLeapYear(y) then 1 else 0)
  }

  function DayNumber(d: Date): int
    requires 1 <= d.month <= 12
  {
    DaysBeforeYear(d.year) + DaysBeforeMonth(d.year, d.month) + d.day - 1
  }

  /** The calendar day after `d`. */
  function NextDay(d: Date): (e: Date)
    requires ValidDate(d)
    ensures ValidDate(e)
  {
    if d.day < DaysInMonth(d.year, d.month) then Date(d.year, d.month, d.day + 1)
    else if d.month < 12 then Date(d.year, d.month + 1, 1)
    else Date(d.year + 1, 1, 1)
  }

  /** The calendar day before `d`. */
  function PrevDay(d: Date): (e: Date)
    requires ValidDate(d)
    ensures ValidDate(e)
  {
    if d.day > 1 then Date(d.year, d.month, d.day - 1)
    else if d.month > 1 then Date(d.year, d.month - 1, DaysInMonth(d.year, d.month - 1))
    else Date(d.year - 1, 12, 31)
  }

  /**
   * The date with day number `n`, reached from 1 January of year 1 one day at
   * a time; this is how a Date object moved by `setDate` lands on a day.
   */
  function DateOf(n: int): (d: Date)
    ensures ValidDate(d)
    decreases if n >= 0 then n else -n
  {
    if n == 0 then Date(1, 1, 1)
    else if n > 0 then NextDay(DateOf(n - 1))
    else PrevDay(DateOf(n + 1))
  }

  /** Calendar order as a person reads it: by year, then month, then day. */
  predicate LexBefore(a: Date, b: Date) {
    a.year < b.year
    || (a.year == b.year && (a.month < b.month || (a.month == b.month && a.day < b.day)))
  }

  lemma FloorStep(p: int, k: int)
    requires k == 4 || k == 100 || k == 400
    ensures (p + 1) / k == p / k + (if (p + 1) % k == 0 then 1 else 0)
  {
    var q, r := p / k, p % k;
    assert p == k * q + r && 0 <= r < k;
    if r + 1 < k {
      assert p + 1 == k * q + (r + 1);
    } else {
      assert p + 1 == k * (q + 1) + 0;
    }
  }

  /** A year is as long as the leap rule says: 1 January moves by 365 or 366 days. */
  lemma YearStep(y: int)
    ensures DaysBeforeYear(y + 1) == DaysBeforeYear(y) + YearLength(y)
  {
    FloorStep(y - 1, 4);
    FloorStep(y - 1, 100);
    FloorStep(y - 1, 400);
  }

  /** The day after has the next day number. */
  lemma NextDayNumber(d: Date)
    requires ValidDate(d)
    ensures DayNumber(NextDay(d)) == DayNumber(d) + 1
  {
    YearStep(d.year);
  }

  /** The day before has the previous day number. */
  lemma PrevDayNumber(d: Date)
    requires ValidDate(d)
    ensures DayNumber(PrevDay(d)) == DayNumber(d) - 1
  {
    NextPrevInverse(d);
    NextDayNumber(PrevDay(d));
  }

  /** Stepping a day forward and back again returns the same date, both ways round. */
  lemma NextPrevInverse(d: Date)
    requires ValidDate(d)
    ensures PrevDay(NextDay(d)) == d
    ensures NextDay(PrevDay(d)) == d
  {
  }

  lemma {:induction false} DaysBeforeYearMonotone(a: int, b: int)
    requires a <= b
    ensures DaysBeforeYear(a) <= DaysBeforeYear(b)
    decreases b - a
  {
    if a < b {
      YearStep(b - 1);
      DaysBeforeYearMonotone(a, b - 1);
    }
  }

  /** A valid date lies within its own year's span of day numbers. */
  lemma DayNumberInYear(d: Date)
    requires ValidDate(d)
    ensures DaysBeforeYear(d.year) <= DayNumber(d) < DaysBeforeYear(d.year + 1)
  {
    YearStep(d.year);
  }

  lemma {:induction false} DaysBeforeMonthMonotone(y: int, m1: int, m2: int)
    requires 1 <= m1 < m2 <= 12
    ensures DaysBeforeMonth(y, m1) + DaysInMonth(y, m1) <= DaysBeforeMonth(y, m2)
    decreases m2 - m1
  {
    if m1 + 1 < m2 {
      DaysBeforeMonthMonotone(y, m1, m2 - 1);
    }
  }

  /** Comparing `getTime()` of two local midnights is comparing the dates in calendar order. */
  lemma DayOrderIsCalendarOrder(a: Date, b: Date)
    requires ValidDate(a) && ValidDate(b)
    ensures LexBefore(a, b) <==> DayNumber(a) < DayNumber(b)
  {
    LexBeforeOrdersDayNumbers(a, b);
    LexBeforeOrdersDayNumbers(b, a);
  }

  lemma LexBeforeOrdersDayNumbers(a: Date, b: Date)
    requires ValidDate(a) && ValidDate(b)
    ensures LexBefore(a, b) ==> DayNumber(a) < DayNumber(b)
  {
    if a.year < b.year {
      DayNumberInYear(a);
      DayNumberInYear(b);
      DaysBeforeYearMonotone(a.year + 1, b.year);
    } else if a.year == b.year && a.month < b.month {
      DaysBeforeMonthMonotone(a.year, a.month, b.month);
    }
  }

  /** Two valid dates with the same day number are the same date. */
  lemma DayNumberInjective(a: Date, b: Date)
    requires ValidDate(a) && ValidDate(b)
    ensures DayNumber(a) == DayNumber(b) <==> a == b
  {
    LexBeforeOrdersDayNumbers(a, b);
    LexBeforeOrdersDayNumbers(b, a);
  }

  /** Day numbers and dates correspond one to one: `DateOf` inverts `DayNumber`. */
  lemma {:induction false} DayNumberOfDateOf(n: int)
    ensures DayNumber(DateOf(n)) == n
    decreases if n >= 0 then n else -n
  {
    if n > 0 {
      DayNumberOfDateOf(n - 1);
      NextDayNumber(DateOf(n - 1));
    } else if n < 0 {
      DayNumberOfDateOf(n + 1);
      PrevDayNumber(DateOf(n + 1));
    }
  }

  /** Every valid date is the date of its own day number. */
  lemma DateOfDayNumber(d: Date)
    requires ValidDate(d)
    ensures DateOf(DayNumber(d)) == d
  {
    DayNumberOfDateOf(DayNumber(d));
    DayNumberInjective(d, DateOf(DayNumber(d)));
  }

  /** Moving a Date one day on or one day back moves its day number by one. */
  lemma DateOfSteps(n: int)
    ensures DateOf(n + 1) == NextDay(DateOf(n))
    ensures DateOf(n - 1) == PrevDay(DateOf(n))
  {
    DayNumberOfDateOf(n);
    DayNumberOfDateOf(n + 1);
    DayNumberOfDateOf(n - 1);
    NextDayNumber(DateOf(n));
    PrevDayNumber(DateOf(n));
    DayNumberInjective(DateOf(n + 1), NextDay(DateOf(n)));
    DayNumberInjective(DateOf(n - 1), PrevDay(DateOf(n)));
  }
}
