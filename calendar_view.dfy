/**
 * The month calendar on the dashboard: which days a month shows, how each
 * day cell is classified and coloured, and the two month-navigation buttons.
 * The month on screen is kept, as on the page, as a year and a zero-based
 * month (`viewYear`, `viewMonth`).
 */
module CalendarView {
  import opened Wrappers
  import opened CivilCalendar
  import opened DateKeys
  import opened StreakLog
  import opened Streaks

  /** The month on screen; `month0` counts from 0 for January, as `getMonth()` does. */
  datatype MonthView = MonthView(year: int, month0: int)

  predicate ValidView(v: MonthView) {
    0 <= v.month0 < 12
  }

  /** The month that contains `today`, which is the month the page opens on. */
  function TodayView(today: Date): (v: MonthView)
    requires ValidDate(today)
    ensures ValidView(v)
  {
    MonthView(today.year, today.month - 1)
  }

  /** Months counted from January of year 0, so that neighbouring months differ by one. */
  function MonthIndex(v: MonthView): int {
    12 * v.year + v.month0
  }

  /**
   * `new Date(y, m0, 1)` for a zero-based month one outside the year at
   * most: month -1 is December of the year before and month 12 is January
   * of the year after.
   */
  function MonthStart(y: int, m0: int): (d: Date)
    requires -1 <= m0 <= 12
    ensures ValidDate(d) && d.day == 1
  {
    if m0 < 0 then Date(y - 1, 12, 1)
    else if m0 > 11 then Date(y + 1, 1, 1)
    else Date(y, m0 + 1, 1)
  }

  /** The date of day `day` of the month on screen: `new Date(viewYear, viewMonth, day)`. */
  function DayDate(v: MonthView, day: int): Date {
    Date(v.year, v.month0 + 1, day)
  }

  /**
   * `new Date(viewYear, viewMonth + 1, 0).getDate()`: day 0 of the next
   * month is the last day of this one, so this is the length of the month.
   */
  function MonthLength(v: MonthView): (n: int)
    requires ValidView(v)
    ensures n == DaysInMonth(v.year, v.month0 + 1)
  {
    PrevDay(MonthStart(v.year, v.month0 + 1)).day
  }

  /** `getDaysInMonth()`: the day numbers 1, 2, ... of the month on screen. */
  function MonthDays(v: MonthView): (days: seq<int>)
    requires ValidView(v)
    ensures |days| == MonthLength(v)
    ensures forall i :: 0 <= i < |days| ==> days[i] == i + 1
  {
    seq(MonthLength(v), i => i + 1)
  }

  /** The calendar lists exactly the days that exist in the month on screen. */
  lemma MonthDaysAreTheMonth(v: MonthView, day: int)
    requires ValidView(v)
    ensures day in MonthDays(v) <==> ValidDate(DayDate(v, day))
  {
    var days := MonthDays(v);
    if ValidDate(DayDate(v, day)) {
      assert days[day - 1] == day;
    }
  }

  /** February shows 29 days in a leap year and 28 otherwise. */
  lemma FebruaryLength(y: int)
    ensures MonthLength(MonthView(y, 1)) == if IsLeapYear(y) then 29 else 28
  {
  }

  /** What the page works out for one day cell before drawing it. */
  datatype DayCell = DayCell(isFuture: bool, isBeforeStart: bool, isToday: bool, status: Option<Status>)

  /** `streakData[formatted]`: the entry under a key, if there is one. */
  function StatusAt(log: Log, key: string): (st: Option<Status>)
    ensures st.Some? <==> key in log
    ensures st.Some? ==> st.value == log[key]
  {
    if key in log then Some(log[key]) else None
  }

  /**
   * The cell for day `day` of the month on screen: after today, before the
   * start date (only when there is one), today itself, and the log's entry
   * under the unpadded key built from the view's year and month.
   */
  function ViewDay(today: Date, start: Option<Date>, log: Log, v: MonthView, day: int): DayCell
    requires ValidDate(today) && (start.Some? ==> ValidDate(start.value))
    requires ValidView(v) && 1 <= day <= MonthLength(v)
  {
    var n := DayNumber(DayDate(v, day));
    DayCell(
      n > DayNumber(today),
      start.Some? && n < DayNumber(start.value),
      n == DayNumber(today),
      StatusAt(log, FormatKeyParts(v.year, v.month0 + 1, day)))
  }

  /** A cell reacts to a click only when it is neither in the future nor before the start. */
  predicate Selectable(c: DayCell) {
    !c.isFuture && !c.isBeforeStart
  }

  datatype Shade = Disabled | Red | Green

  /** The cell's background: grey when not selectable, otherwise red for a relapse and green for anything else. */
  function ShadeOf(c: DayCell): (s: Shade)
    ensures s == Disabled <==> !Selectable(c)
    ensures Selectable(c) ==> (s == Red <==> c.status == Some(Relapse))
  {
    if c.isFuture || c.isBeforeStart then Disabled
    else if c.status == Some(Relapse) then Red
    else Green
  }

  /** Whether the cell carries the yellow ring, which is drawn whatever the shade. */
  function HasRing(c: DayCell): bool {
    c.isToday
  }

  /** The three date flags say, in calendar terms, where the day lies relative to today and the start. */
  lemma ViewDayFlags(today: Date, start: Option<Date>, log: Log, v: MonthView, day: int)
    requires ValidDate(today) && (start.Some? ==> ValidDate(start.value))
    requires ValidView(v) && 1 <= day <= MonthLength(v)
    ensures var c, d := ViewDay(today, start, log, v, day), DayDate(v, day);
      && (c.isFuture <==> LexBefore(today, d))
      && (c.isToday <==> d == today)
      && (c.isBeforeStart <==> start.Some? && LexBefore(d, start.value))
      && !(c.isFuture && c.isToday)
  {
    var d := DayDate(v, day);
    DayOrderIsCalendarOrder(today, d);
    DayNumberInjective(today, d);
    if start.Some? {
      DayOrderIsCalendarOrder(d, start.value);
    }
  }

  /** The ring sits on today's cell and on no other, and a ringed cell may be clicked unless the start is later. */
  lemma RingMarksToday(today: Date, start: Option<Date>, log: Log, v: MonthView, day: int)
    requires ValidDate(today) && (start.Some? ==> ValidDate(start.value))
    requires ValidView(v) && 1 <= day <= MonthLength(v)
    ensures var c := ViewDay(today, start, log, v, day);
      && (HasRing(c) <==> DayDate(v, day) == today)
      && (HasRing(c) ==> (Selectable(c) <==> !(start.Some? && LexBefore(today, start.value))))
  {
    ViewDayFlags(today, start, log, v, day);
  }

  /** With a start date, the clickable days are exactly the tracked days, from the start to today. */
  lemma SelectableIsTracked(today: Date, s: Date, log: Log, v: MonthView, day: int)
    requires ValidDate(today) && ValidDate(s) && ValidView(v) && 1 <= day <= MonthLength(v)
    ensures var d := DayDate(v, day);
      && (Selectable(ViewDay(today, Some(s), log, v, day)) <==> Between(s, today, d))
      && (Selectable(ViewDay(today, Some(s), log, v, day))
          <==> 0 <= DayNumber(d) - DayNumber(s) < TrackedDaysOf(today, Some(s)))
  {
    ViewDayFlags(today, Some(s), log, v, day);
    TrackedDaysAreTheRange(today, s, DayDate(v, day));
  }

  /** The status a cell shows is the log's entry for its own date. */
  lemma CellStatusIsTheDaysEntry(today: Date, start: Option<Date>, log: Log, v: MonthView, day: int)
    requires ValidDate(today) && (start.Some? ==> ValidDate(start.value))
    requires ValidView(v) && 1 <= day <= MonthLength(v)
    ensures ViewDay(today, start, log, v, day).status == Some(Relapse) <==> Relapsed(log, DayDate(v, day))
  {
  }

  /**
   * The red cells are exactly the selectable days that the streaks count as
   * relapses: a cell's colour and the streak figures read the same entry.
   */
  lemma RedIsMarked(today: Date, start: Option<Date>, log: Log, v: MonthView, day: int)
    requires ValidDate(today) && (start.Some? ==> ValidDate(start.value))
    requires ValidView(v) && 1 <= day <= MonthLength(v)
    ensures var c, d := ViewDay(today, start, log, v, day), DayDate(v, day);
      ShadeOf(c) == Red <==> Selectable(c) && Marks(log)(DayNumber(d))
  {
    MarksReadTheLog(log, DayDate(v, day));
  }

  /** `new Date(viewYear, viewMonth - 1, 1)`: the month before. */
  function PrevView(v: MonthView): (p: MonthView)
    requires ValidView(v)
    ensures ValidView(p)
  {
    var d := MonthStart(v.year, v.month0 - 1);
    MonthView(d.year, d.month - 1)
  }

  /** `new Date(viewYear, viewMonth + 1, 1)`: the month after. */
  function NextView(v: MonthView): (p: MonthView)
    requires ValidView(v)
    ensures ValidView(p)
  {
    var d := MonthStart(v.year, v.month0 + 1);
    MonthView(d.year, d.month - 1)
  }

  /** The forward button moves on only while the next month is not after today's month. */
  function ShowNext(v: MonthView, today: Date): (p: MonthView)
    requires ValidView(v) && ValidDate(today)
    ensures ValidView(p)
  {
    var next := NextView(v);
    if next.year < today.year || (next.year == today.year && next.month0 <= today.month - 1) then next
    else v
  }

  /** Back and forward move by exactly one month and undo each other. */
  lemma NavigationSteps(v: MonthView)
    requires ValidView(v)
    ensures MonthIndex(PrevView(v)) == MonthIndex(v) - 1
    ensures MonthIndex(NextView(v)) == MonthIndex(v) + 1
    ensures NextView(PrevView(v)) == v && PrevView(NextView(v)) == v
  {
  }

  /**
   * Forward moves exactly when the view is before today's month, and stays
   * put otherwise; so a view never passes today's month.
   */
  lemma ShowNextRule(v: MonthView, today: Date)
    requires ValidView(v) && ValidDate(today)
    ensures MonthIndex(v) < MonthIndex(TodayView(today)) ==> ShowNext(v, today) == NextView(v)
    ensures MonthIndex(v) >= MonthIndex(TodayView(today)) ==> ShowNext(v, today) == v
    ensures MonthIndex(v) <= MonthIndex(TodayView(today)) ==> MonthIndex(ShowNext(v, today)) <= MonthIndex(TodayView(today))
  {
    NavigationSteps(v);
  }

  /** Every day of a month after today's month is in the future. */
  lemma LaterMonthIsFuture(today: Date, v: MonthView, day: int)
    requires ValidDate(today) && ValidView(v) && 1 <= day <= MonthLength(v)
    requires MonthIndex(v) > MonthIndex(TodayView(today))
    ensures LexBefore(today, DayDate(v, day))
  {
  }
}
