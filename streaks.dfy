/**
 * The statistics shown on the dashboard, all determined by today's date, the
 * optional start date and the log. The two streaks are loops in the page
 * component (`calculateCurrentStreak`, `calculateLongestStreak`) and are
 * methods here, each proved equal to a specification function; the counts
 * are expressions and are functions.
 *
 * Days are handled through their day numbers (`DayNumber`, `DateOf`): the
 * page's `getTime()` comparisons are comparisons of day numbers, and moving a
 * Date with `setDate` by `k` days lands on the date whose day number is `k`
 * further on.
 */
module Streaks {
  import opened Wrappers
  import opened CivilCalendar
  import opened DateKeys
  import opened StreakLog

  /** The backward walk looks at most this many days back (the loop runs for i = 1 .. 364). */
  const MaxBackSteps: nat := 364

  /** Which days, by day number, are marked "relapse". */
  type DayMarks = int -> bool

  /** The marks the log gives: day `n` is a relapse when the key of its date maps to "relapse". */
  function Marks(log: Log): DayMarks {
    n => Relapsed(log, DateOf(n))
  }

  /** `marked` reads the log: each day's mark is the log's entry for the date with that day number. */
  ghost predicate ReadsLog(log: Log, marked: DayMarks) {
    forall n {:trigger Relapsed(log, DateOf(n))} :: Relapsed(log, DateOf(n)) == marked(n)
  }

  lemma MarksReadLog(log: Log)
    ensures ReadsLog(log, Marks(log))
  {
  }

  /** `streakData[key] === "relapse"` for the key of `date`, the date with day number `n`. */
  method LookUpDay(log: Log, ghost marked: DayMarks, date: Date, ghost n: int) returns (relapsed: bool)
    requires ReadsLog(log, marked) && date == DateOf(n)
    ensures relapsed == marked(n)
  {
    var key := FormatKey(date);
    relapsed := key in log && log[key] == Relapse;
    assert relapsed == Relapsed(log, date);
  }

  /** Looking a valid date up through its day number finds the log's entry for that date. */
  lemma MarksReadTheLog(log: Log, d: Date)
    requires ValidDate(d)
    ensures Marks(log)(DayNumber(d)) == Relapsed(log, d)
  {
    DateOfDayNumber(d);
  }

  /** One flag per day with a day number in [lo, hi), in order: `true` for a relapse. */
  function ForwardFlags(marked: DayMarks, lo: int, hi: int): (f: seq<bool>)
    requires lo <= hi
    ensures |f| == hi - lo
    decreases hi - lo
  {
    if hi == lo then [] else ForwardFlags(marked, lo, hi - 1) + [marked(hi - 1)]
  }

  lemma {:induction false} ForwardFlagAt(marked: DayMarks, lo: int, hi: int, n: int)
    requires lo <= n < hi
    ensures ForwardFlags(marked, lo, hi)[n - lo] == marked(n)
    decreases hi - lo
  {
    if n < hi - 1 {
      ForwardFlagAt(marked, lo, hi - 1, n);
    }
  }

  /** How many days before today the walk may look at: those on or after the start, at most `MaxBackSteps`. */
  function WalkLength(t: int, sn: int): (m: nat)
    ensures m <= MaxBackSteps && (m == 0 || sn <= t - m)
    ensures m < MaxBackSteps ==> m == 0 || t - m == sn
    ensures sn < t ==> m > 0
  {
    if t - sn <= 0 then 0 else if t - sn < MaxBackSteps then t - sn else MaxBackSteps
  }

  /**
   * The current streak: 1 or 0 when the start date is today (by today's own
   * mark); otherwise the clean days that end yesterday, within the days the
   * walk may look at.
   */
  function CurrentStreakOf(today: Date, start: Option<Date>, marked: DayMarks): nat
    requires ValidDate(today) && (start.Some? ==> ValidDate(start.value))
  {
    match start
    case None => 0
    case Some(s) =>
      var t := DayNumber(today);
      if DayNumber(s) == t then (if marked(t) then 0 else 1)
      else TrailingClean(ForwardFlags(marked, t - WalkLength(t, DayNumber(s)), t))
  }

  /** `calculateCurrentStreak`. */
  method CurrentStreak(today: Date, start: Option<Date>, log: Log, ghost marked: DayMarks) returns (streak: nat)
    requires ValidDate(today) && (start.Some? ==> ValidDate(start.value)) && ReadsLog(log, marked)
    ensures streak == CurrentStreakOf(today, start, marked)
  {
    if start.None? {
      return 0;
    }
    var s := start.value;
    var t, sn := DayNumber(today), DayNumber(s);
    if sn == t {
      DateOfDayNumber(today);
      var relapsed := LookUpDay(log, marked, today, t);
      return if relapsed then 0 else 1;
    }
    streak := CountCleanDaysBack(log, marked, t, sn);
  }

  /**
   * The loop of `calculateCurrentStreak`, for today's day number `t` and the
   * start's `sn`: for i = 1 .. 364 it looks at the date `i` days before
   * today, stopping before the start date or at a relapse.
   */
  method CountCleanDaysBack(log: Log, ghost marked: DayMarks, t: int, sn: int) returns (streak: nat)
    requires ReadsLog(log, marked)
    ensures streak == TrailingClean(ForwardFlags(marked, t - WalkLength(t, sn), t))
  {
    ghost var m := WalkLength(t, sn);
    ghost var f := ForwardFlags(marked, t - m, t);
    streak := 0;
    var i := 1;
    while i < MaxBackSteps + 1
      invariant 1 <= i <= MaxBackSteps + 1 && streak == i - 1
      invariant i - 1 <= m && CleanRun(f, m - (i - 1), m)
    {
      // a copy of today moved back `i` days; its day number is `t - i`
      var date := DateOf(t - i);
      if t - i < sn {
        break;
      }
      ForwardFlagAt(marked, t - m, t, t - i);
      var relapsed := LookUpDay(log, marked, date, t - i);
      if relapsed {
        break;
      }
      streak := streak + 1;
      i := i + 1;
    }
    TrailingCleanIsFirstRelapse(f, streak);
  }

  /** Length of the run of clean (non-relapse) days at the end of `f`. */
  function TrailingClean(f: seq<bool>): nat {
    if f == [] then 0 else if f[|f| - 1] then 0 else TrailingClean(f[..|f| - 1]) + 1
  }

  function Max(a: int, b: int): int {
    if a >= b then a else b
  }

  /** The longest clean run, built up one day at a time as the forward loop does. */
  function LongestRun(f: seq<bool>): nat {
    if f == [] then 0 else Max(LongestRun(f[..|f| - 1]), TrailingClean(f))
  }

  /** `f[i..j]` is a run of clean days. */
  ghost predicate CleanRun(f: seq<bool>, i: int, j: int) {
    0 <= i <= j <= |f| && forall k :: i <= k < j ==> !f[k]
  }

  /** `totalTrackedDays`: the days of the inclusive range [start, today], or 0 when the start is later. */
  function TrackedDaysOf(today: Date, start: Option<Date>): nat
    requires ValidDate(today) && (start.Some? ==> ValidDate(start.value))
  {
    match start
    case None => 0
    case Some(s) => var n := DayNumber(today) - DayNumber(s) + 1; if n > 0 then n else 0
  }

  /**
   * The page's computation of `totalTrackedDays`: 0 without a start date,
   * otherwise the whole days from the start to today plus one, raised to 0
   * when negative.
   */
  method TotalTrackedDays(today: Date, start: Option<Date>) returns (tracked: int)
    requires ValidDate(today) && (start.Some? ==> ValidDate(start.value))
    ensures tracked == TrackedDaysOf(today, start)
  {
    tracked := 0;
    if start.Some? {
      tracked := DayNumber(today) - DayNumber(start.value) + 1;
      tracked := if tracked > 0 then tracked else 0;
    }
  }

  /** The longest run of clean days among the tracked days, from the start date to today. */
  function LongestStreakOf(today: Date, start: Option<Date>, marked: DayMarks): nat
    requires ValidDate(today) && (start.Some? ==> ValidDate(start.value))
  {
    match start
    case None => 0
    case Some(s) => LongestRun(ForwardFlags(marked, DayNumber(s), DayNumber(s) + TrackedDaysOf(today, start)))
  }

  lemma RunStep(f: seq<bool>, b: bool)
    ensures TrailingClean(f + [b]) == if b then 0 else TrailingClean(f) + 1
    ensures LongestRun(f + [b]) == Max(LongestRun(f), TrailingClean(f + [b]))
  {
    assert (f + [b])[..|f|] == f;
  }

  /** `calculateLongestStreak`. */
  method LongestStreak(today: Date, start: Option<Date>, log: Log, ghost marked: DayMarks) returns (longest: nat)
    requires ValidDate(today) && (start.Some? ==> ValidDate(start.value)) && ReadsLog(log, marked)
    ensures longest == LongestStreakOf(today, start, marked)
  {
    if start.None? {
      return 0;
    }
    var s := start.value;
    var t, sn := DayNumber(today), DayNumber(s);
    DateOfDayNumber(s);
    longest := LongestCleanRun(log, marked, s, sn, t);
  }

  /**
   * The loop of `calculateLongestStreak`: a date starting at the start date
   * (day number `sn`) moves forward one day at a time while it is not after
   * today (day number `t`), counting the current run of clean days and the
   * longest one.
   */
  method LongestCleanRun(log: Log, ghost marked: DayMarks, start: Date, sn: int, t: int) returns (longest: nat)
    requires ReadsLog(log, marked) && start == DateOf(sn)
    ensures longest == LongestRun(ForwardFlags(marked, sn, if t < sn then sn else t + 1))
  {
    longest := 0;
    var current := 0;
    var date, day := start, sn;
    while day <= t
      invariant sn <= day <= (if t < sn then sn else t + 1)
      invariant date == DateOf(day)
      invariant current == TrailingClean(ForwardFlags(marked, sn, day))
      invariant longest == LongestRun(ForwardFlags(marked, sn, day))
      decreases t - day
    {
      var relapsed := LookUpDay(log, marked, date, day);
      assert ForwardFlags(marked, sn, day + 1) == ForwardFlags(marked, sn, day) + [relapsed];
      RunStep(ForwardFlags(marked, sn, day), relapsed);
      if relapsed {
        current := 0;
      } else {
        current := current + 1;
        longest := Max(longest, current);
      }
      // `date.setDate(date.getDate() + 1)`
      DateOfSteps(day);
      date, day := NextDay(date), day + 1;
    }
  }

  /** `cleanDays`: not clamped, so relapses outside the tracked range can make it negative. */
  function CleanDays(tracked: nat, relapses: nat): (c: int)
    ensures c <= tracked
    ensures c < 0 <==> relapses > tracked
  {
    tracked - relapses
  }

  /** `successRate`: 100 * clean / tracked rounded half up, or 0 with no tracked days. */
  function SuccessRate(tracked: nat, clean: int): (r: int)
    ensures tracked == 0 ==> r == 0
    ensures tracked > 0 ==> tracked * (2 * r - 1) <= 200 * clean < tracked * (2 * r + 1)
  {
    if tracked > 0 then (200 * clean + tracked) / (2 * tracked) else 0
  }

  /** Whether every day with a day number in [lo, hi) is clean. */
  ghost predicate CleanSpan(marked: DayMarks, lo: int, hi: int) {
    forall n :: lo <= n < hi ==> !marked(n)
  }

  /** The trailing clean count is the longest clean run that ends at the last day. */
  lemma {:induction false} TrailingCleanIsRun(f: seq<bool>)
    ensures TrailingClean(f) <= |f| && CleanRun(f, |f| - TrailingClean(f), |f|)
    ensures forall i :: CleanRun(f, i, |f|) ==> |f| - i <= TrailingClean(f)
    ensures TrailingClean(f) < |f| ==> f[|f| - 1 - TrailingClean(f)]
  {
    if f != [] {
      var g := f[..|f| - 1];
      TrailingCleanIsRun(g);
      if !f[|f| - 1] && TrailingClean(g) < |g| {
        assert f[|f| - 1 - TrailingClean(f)] == g[|g| - 1 - TrailingClean(g)];
      }
      forall i | CleanRun(f, i, |f|)
        ensures |f| - i <= TrailingClean(f)
      {
        if i < |f| {
          assert CleanRun(g, i, |g|);
        }
      }
    }
  }

  /** `k` clean days at the end, preceded by a relapse or by nothing, make `TrailingClean` exactly `k`. */
  lemma TrailingCleanIsFirstRelapse(f: seq<bool>, k: nat)
    requires k <= |f| && CleanRun(f, |f| - k, |f|) && (k == |f| || f[|f| - 1 - k])
    ensures TrailingClean(f) == k
  {
    TrailingCleanIsRun(f);
  }

  /** `LongestRun` is the length of a longest clean run: one exists, and no run is longer. */
  lemma {:induction false} LongestRunIsMaximum(f: seq<bool>)
    ensures exists i, j :: CleanRun(f, i, j) && j - i == LongestRun(f)
    ensures forall i, j :: CleanRun(f, i, j) ==> j - i <= LongestRun(f)
  {
    if f == [] {
      assert CleanRun(f, 0, 0);
    } else {
      var g := f[..|f| - 1];
      LongestRunIsMaximum(g);
      TrailingCleanIsRun(f);
      if LongestRun(g) >= TrailingClean(f) {
        var i, j :| CleanRun(g, i, j) && j - i == LongestRun(g);
        assert CleanRun(f, i, j);
      } else {
        assert CleanRun(f, |f| - TrailingClean(f), |f|);
      }
      forall i, j | CleanRun(f, i, j)
        ensures j - i <= LongestRun(f)
      {
        if j < |f| {
          assert CleanRun(g, i, j);
        }
      }
    }
  }

  /** A run of clean flags is a span of clean days, and back. */
  lemma RunsAreSpans(marked: DayMarks, lo: int, hi: int, i: int, j: int)
    requires lo <= i <= j <= hi
    ensures CleanRun(ForwardFlags(marked, lo, hi), i - lo, j - lo) <==> CleanSpan(marked, i, j)
  {
    var f := ForwardFlags(marked, lo, hi);
    forall n | i <= n < j
      ensures f[n - lo] == marked(n)
    {
      ForwardFlagAt(marked, lo, hi, n);
    }
    if CleanSpan(marked, i, j) {
      forall k | i - lo <= k < j - lo
        ensures !f[k]
      {
        assert f[(k + lo) - lo] == marked(k + lo);
      }
    }
  }

  /**
   * The longest streak is the length of the longest run of consecutive tracked
   * days none of which is marked "relapse"; unmarked days count as clean.
   */
  lemma LongestStreakIsLongestCleanRun(today: Date, s: Date, marked: DayMarks)
    requires ValidDate(today) && ValidDate(s)
    ensures var sn, n, r := DayNumber(s), TrackedDaysOf(today, Some(s)), LongestStreakOf(today, Some(s), marked);
      && (exists lo, hi :: sn <= lo <= hi <= sn + n && hi - lo == r && CleanSpan(marked, lo, hi))
      && (forall lo, hi :: sn <= lo <= hi <= sn + n && CleanSpan(marked, lo, hi) ==> hi - lo <= r)
  {
    var sn, n := DayNumber(s), TrackedDaysOf(today, Some(s));
    LongestRunIsLongestSpan(marked, sn, sn + n, LongestStreakOf(today, Some(s), marked));
  }

  /** The same, for the flags of any range of days [lo0, hi0). */
  lemma LongestRunIsLongestSpan(marked: DayMarks, lo0: int, hi0: int, r: int)
    requires lo0 <= hi0 && r == LongestRun(ForwardFlags(marked, lo0, hi0))
    ensures && (exists lo, hi :: lo0 <= lo <= hi <= hi0 && hi - lo == r && CleanSpan(marked, lo, hi))
      && (forall lo, hi :: lo0 <= lo <= hi <= hi0 && CleanSpan(marked, lo, hi) ==> hi - lo <= r)
  {
    var f := ForwardFlags(marked, lo0, hi0);
    LongestRunIsMaximum(f);
    var i, j :| CleanRun(f, i, j) && j - i == LongestRun(f);
    RunsAreSpans(marked, lo0, hi0, lo0 + i, lo0 + j);
    assert CleanSpan(marked, lo0 + i, lo0 + j);
    forall lo, hi | lo0 <= lo <= hi <= hi0 && CleanSpan(marked, lo, hi)
      ensures hi - lo <= LongestRun(f)
    {
      RunsAreSpans(marked, lo0, hi0, lo, hi);
    }
  }

  /** No start date, or a start after today, gives a longest streak of 0; it never exceeds the tracked days. */
  lemma LongestStreakBounds(today: Date, start: Option<Date>, marked: DayMarks)
    requires ValidDate(today) && (start.Some? ==> ValidDate(start.value))
    ensures start.None? ==> LongestStreakOf(today, start, marked) == 0
    ensures start.Some? && LexBefore(today, start.value) ==> LongestStreakOf(today, start, marked) == 0
    ensures LongestStreakOf(today, start, marked) <= TrackedDaysOf(today, start)
  {
    if start.Some? {
      var sn := DayNumber(start.value);
      DayOrderIsCalendarOrder(today, start.value);
      LongestRunIsMaximum(ForwardFlags(marked, sn, sn + TrackedDaysOf(today, start)));
    }
  }

  /** The cases that the current streak settles before walking, and its cap. */
  lemma CurrentStreakSimpleCases(today: Date, start: Option<Date>, marked: DayMarks)
    requires ValidDate(today) && (start.Some? ==> ValidDate(start.value))
    ensures start.None? ==> CurrentStreakOf(today, start, marked) == 0
    ensures start == Some(today) ==> CurrentStreakOf(today, start, marked) == if marked(DayNumber(today)) then 0 else 1
    ensures start.Some? && LexBefore(today, start.value) ==> CurrentStreakOf(today, start, marked) == 0
    ensures CurrentStreakOf(today, start, marked) <= MaxBackSteps
  {
    if start.Some? {
      var t, sn := DayNumber(today), DayNumber(start.value);
      DayOrderIsCalendarOrder(today, start.value);
      if sn != t {
        TrailingCleanIsRun(ForwardFlags(marked, t - WalkLength(t, sn), t));
      }
    }
  }

  /**
   * Otherwise the current streak `r` counts the `r` days just before today:
   * all on or after the start date and clean, while the day before them is
   * before the start or a relapse, unless the walk reached its cap.
   */
  lemma CurrentStreakIsCleanDaysBack(today: Date, s: Date, marked: DayMarks)
    requires ValidDate(today) && ValidDate(s) && DayNumber(s) != DayNumber(today)
    ensures var t, r := DayNumber(today), CurrentStreakOf(today, Some(s), marked);
      && r <= MaxBackSteps
      && (r > 0 ==> DayNumber(s) <= t - r)
      && CleanSpan(marked, t - r, t)
      && (r < MaxBackSteps ==> t - r - 1 < DayNumber(s) || marked(t - r - 1))
  {
    var t := DayNumber(today);
    var m := WalkLength(t, DayNumber(s));
    var f := ForwardFlags(marked, t - m, t);
    TrailingCleanIsRun(f);
    var r := TrailingClean(f);
    RunsAreSpans(marked, t - m, t, t - r, t);
    if r < m {
      ForwardFlagAt(marked, t - m, t, t - r - 1);
    }
  }

  /** The flags of ten days with a relapse on the fifth: four trailing clean days in the first nine, a longest run of five. */
  lemma TenFlagRuns()
    ensures TrailingClean([false, false, false, false, true, false, false, false, false]) == 4
    ensures LongestRun([false, false, false, false, true, false, false, false, false, false]) == 5
  {
    var p: seq<bool> := [];
    RunStep(p, false);
    p := p + [false];
    RunStep(p, false);
    p := p + [false];
    RunStep(p, false);
    p := p + [false];
    RunStep(p, false);
    p := p + [false];
    RunStep(p, true);
    p := p + [true];
    RunStep(p, false);
    p := p + [false];
    RunStep(p, false);
    p := p + [false];
    RunStep(p, false);
    p := p + [false];
    RunStep(p, false);
    p := p + [false];
    assert p == [false, false, false, false, true, false, false, false, false];
    RunStep(p, false);
    p := p + [false];
    assert p == [false, false, false, false, true, false, false, false, false, false];
  }

  /**
   * Start nine days before today and a relapse on the fifth tracked day only
   * (for a start of 2024-01-01, today 2024-01-10 and a relapse on
   * 2024-01-05): the walk back from yesterday counts four clean days, and the
   * longest run is the last five, which end with today.
   */
  lemma TenDayExample(today: Date, s: Date, marked: DayMarks)
    requires ValidDate(today) && ValidDate(s) && DayNumber(today) == DayNumber(s) + 9
    requires forall n :: marked(n) <==> n == DayNumber(s) + 4
    ensures CurrentStreakOf(today, Some(s), marked) == 4
    ensures LongestStreakOf(today, Some(s), marked) == 5
  {
    var sn := DayNumber(s);
    var walked, tracked := ForwardFlags(marked, sn, sn + 9), ForwardFlags(marked, sn, sn + 10);
    forall k | 0 <= k < 9
      ensures walked[k] == (k == 4)
    {
      ForwardFlagAt(marked, sn, sn + 9, sn + k);
    }
    forall k | 0 <= k < 10
      ensures tracked[k] == (k == 4)
    {
      ForwardFlagAt(marked, sn, sn + 10, sn + k);
    }
    assert walked == [false, false, false, false, true, false, false, false, false];
    assert tracked == [false, false, false, false, true, false, false, false, false, false];
    TenFlagRuns();
  }

  /** The example on real dates: start 2024-01-01, today 2024-01-10, a relapse on 2024-01-05 only. */
  lemma JanuaryExample(marked: DayMarks)
    requires forall n :: marked(n) <==> n == DayNumber(Date(2024, 1, 5))
    ensures CurrentStreakOf(Date(2024, 1, 10), Some(Date(2024, 1, 1)), marked) == 4
    ensures LongestStreakOf(Date(2024, 1, 10), Some(Date(2024, 1, 1)), marked) == 5
  {
    TenDayExample(Date(2024, 1, 10), Date(2024, 1, 1), marked);
  }

  /** Flags depend only on the marks of their own days. */
  lemma {:induction false} FlagsAgree(m1: DayMarks, m2: DayMarks, lo: int, hi: int)
    requires lo <= hi && forall n :: lo <= n < hi ==> m1(n) == m2(n)
    ensures ForwardFlags(m1, lo, hi) == ForwardFlags(m2, lo, hi)
    decreases hi - lo
  {
    if lo < hi {
      FlagsAgree(m1, m2, lo, hi - 1);
    }
  }

  /** Writing today's entry leaves the entries of all earlier days as they were. */
  lemma LaterEntryUnseen(log: Log, today: Date, st: Status, n: int)
    requires ValidDate(today) && n < DayNumber(today)
    ensures Relapsed(log[FormatKey(today) := st], DateOf(n)) == Relapsed(log, DateOf(n))
  {
    DayNumberOfDateOf(n);
    FormatKeyInjective(DateOf(n), today);
  }

  /** Today's own entry never enters the walked count (unless the start date is today). */
  lemma CurrentStreakIgnoresToday(today: Date, s: Date, log: Log, st: Status, before: DayMarks, after: DayMarks)
    requires ValidDate(today) && ValidDate(s) && DayNumber(s) != DayNumber(today)
    requires ReadsLog(log, before) && ReadsLog(log[FormatKey(today) := st], after)
    ensures CurrentStreakOf(today, Some(s), after) == CurrentStreakOf(today, Some(s), before)
  {
    var t := DayNumber(today);
    var lo := t - WalkLength(t, DayNumber(s));
    forall n | lo <= n < t
      ensures after(n) == before(n)
    {
      LaterEntryUnseen(log, today, st, n);
    }
    FlagsAgree(after, before, lo, t);
  }

  /** For the same inputs the longest streak is at least the current streak. */
  lemma LongestAtLeastCurrent(today: Date, start: Option<Date>, marked: DayMarks)
    requires ValidDate(today) && (start.Some? ==> ValidDate(start.value))
    ensures CurrentStreakOf(today, start, marked) <= LongestStreakOf(today, start, marked)
  {
    if start.Some? {
      var s := start.value;
      var t, sn := DayNumber(today), DayNumber(s);
      var hi := sn + TrackedDaysOf(today, start);
      var f := ForwardFlags(marked, sn, hi);
      var r := CurrentStreakOf(today, start, marked);
      LongestRunIsMaximum(f);
      if sn == t {
        ForwardFlagAt(marked, sn, hi, sn);
        if !marked(DayNumber(today)) {
          assert CleanRun(f, 0, 1);
        }
      } else if r > 0 {
        CurrentStreakIsCleanDaysBack(today, s, marked);
        RunsAreSpans(marked, sn, hi, t - r, t);
        assert CleanRun(f, t - r - sn, t - sn);
      }
    }
  }

  /** Calendar order: `d` lies between `lo` and `hi`, both included. */
  predicate Between(lo: Date, hi: Date, d: Date) {
    !LexBefore(d, lo) && !LexBefore(hi, d)
  }

  /**
   * The tracked days are the dates from the start date to today: a valid date
   * lies in that range exactly when its offset from the start is below the
   * tracked count, and the forward walk reaches it after that many steps.
   */
  lemma TrackedDaysAreTheRange(today: Date, s: Date, d: Date)
    requires ValidDate(today) && ValidDate(s) && ValidDate(d)
    ensures var k := DayNumber(d) - DayNumber(s);
      && (Between(s, today, d) <==> 0 <= k < TrackedDaysOf(today, Some(s)))
      && DateOf(DayNumber(s) + k) == d
  {
    DayOrderIsCalendarOrder(d, s);
    DayOrderIsCalendarOrder(today, d);
    DateOfDayNumber(d);
  }

  /** No start date gives no tracked days, a start after today none, a start of today one. */
  lemma TrackedDaysBounds(today: Date, start: Option<Date>)
    requires ValidDate(today) && (start.Some? ==> ValidDate(start.value))
    ensures start.None? ==> TrackedDaysOf(today, start) == 0
    ensures start.Some? ==> (TrackedDaysOf(today, start) == 0 <==> LexBefore(today, start.value))
    ensures start == Some(today) ==> TrackedDaysOf(today, start) == 1
  {
    if start.Some? {
      DayOrderIsCalendarOrder(today, start.value);
    }
  }

  lemma MulPositive(x: int, y: int)
    requires x > 0 && y > 0
    ensures x * y > 0
  {
  }

  /** For positive `t`, multiplying by `t` keeps the order. */
  lemma ScaleOrder(t: int, a: int, b: int)
    requires t > 0
    ensures t * a <= t * b <==> a <= b
    ensures t * a < t * b <==> a < b
  {
    assert t * b - t * a == t * (b - a);
    if a < b {
      MulPositive(t, b - a);
    } else if a > b {
      MulPositive(t, a - b);
      assert t * a - t * b == t * (a - b);
    }
  }

  /** The success rate is a percentage when clean days do not exceed tracked days. */
  lemma SuccessRateBounds(tracked: nat, clean: int)
    ensures clean <= tracked ==> SuccessRate(tracked, clean) <= 100
    ensures 0 <= clean ==> 0 <= SuccessRate(tracked, clean)
    ensures 0 < tracked && clean == tracked ==> SuccessRate(tracked, clean) == 100
  {
    if tracked > 0 {
      var r := SuccessRate(tracked, clean);
      if clean <= tracked {
        assert tracked * (2 * r - 1) <= tracked * 200;
        ScaleOrder(tracked, 2 * r - 1, 200);
      }
      if 0 <= clean {
        assert tracked * 0 < tracked * (2 * r + 1);
        ScaleOrder(tracked, 0, 2 * r + 1);
      }
      if clean == tracked {
        assert tracked * 200 < tracked * (2 * r + 1);
        ScaleOrder(tracked, 200, 2 * r + 1);
      }
    }
  }
}
