/**
 * The state of the dashboard page and its event handlers. Each piece of
 * React state the page keeps becomes a field, and each handler a method
 * that updates the fields as the handler's state setters do. Writes to the
 * user's stored document are left to the caller: a method changes the page
 * state, the stored copy receives the same value.
 */
module Dashboard {
  import opened Wrappers
  import opened CivilCalendar
  import opened DateKeys
  import opened StreakLog
  import opened Streaks
  import opened CalendarView

  /** The stored user document's fields the page reads; either may be missing. */
  datatype UserDoc = UserDoc(streakData: Option<Log>, startDate: Option<string>)

  /** The question the confirmation dialog asks about the selected day. */
  datatype Prompt = RemoveRelapse | MarkRelapse

  class DashboardPage {
    /** Local midnight of the day the page is shown. */
    const today: Date
    /** Whether a user is signed in (`user !== null`). */
    var signedIn: bool
    var loading: bool
    var startDate: Option<string>
    var streakData: Log
    var selectedDay: Option<int>
    var showConfirm: bool
    /** The month on screen (`viewDate`'s year and month). */
    var view: MonthView

    /**
     * The page's invariant: the month on screen is never after today's
     * month, the dialog is open exactly while a day is selected, no user is
     * known and nothing is selected while the page is loading, and a
     * selected day is a day of the month on screen that may be clicked, on
     * a page that has a start date (the calendar is drawn only then).
     */
    ghost predicate Valid()
      reads this
    {
      && ValidDate(today)
      && ValidView(view)
      && MonthIndex(view) <= MonthIndex(TodayView(today))
      && (showConfirm <==> selectedDay.Some?)
      && (loading ==> selectedDay.None? && !signedIn)
      && (selectedDay.Some? ==>
            && HasStart()
            && 1 <= selectedDay.value <= MonthLength(view)
            && Selectable(ViewDay(today, Start(), streakData, view, selectedDay.value)))
    }

    /** `if (startDate)`: a start date is set and is not the empty string. */
    predicate HasStart()
      reads this
    {
      startDate.Some? && startDate.value != ""
    }

    /** The start date's calendar day, when it is set and names one. */
    function Start(): (s: Option<Date>)
      reads this
      ensures s.Some? ==> HasStart() && ValidDate(s.value)
    {
      if HasStart() then ParseDate(startDate.value) else None
    }

    /** The date of the selected day in the month on screen. */
    function SelectedDate(): Date
      reads this
      requires selectedDay.Some?
    {
      DayDate(view, selectedDay.value)
    }

    /** The first render: loading, no user, an empty log and today's month on screen. */
    constructor (today: Date)
      requires ValidDate(today)
      ensures this.today == today && Valid()
      ensures !signedIn && loading && startDate == None && streakData == map[]
      ensures selectedDay == None && !showConfirm && view == TodayView(today)
    {
      this.today := today;
      signedIn := false;
      loading := true;
      startDate := None;
      streakData := map[];
      selectedDay := None;
      showConfirm := false;
      view := TodayView(today);
    }

    /**
     * The first report of the sign-in state. Without a user the page stops
     * loading (and sends the visitor to the login page); with one it takes
     * the stored log and start date, where a missing or empty start date is
     * no start date.
     */
    method SignIn(user: bool, doc: Option<UserDoc>)
      requires Valid() && loading
      modifies this
      ensures Valid() && !loading && signedIn == user
      ensures user && doc.Some? ==> streakData == (if doc.value.streakData.Some? then doc.value.streakData.value else map[])
      ensures user && doc.Some? ==>
        startDate == if doc.value.startDate.Some? && doc.value.startDate.value != "" then doc.value.startDate else None
      ensures !(user && doc.Some?) ==> streakData == old(streakData) && startDate == old(startDate)
      ensures selectedDay == old(selectedDay) && showConfirm == old(showConfirm) && view == old(view)
    {
      if !user {
        loading := false;
        return;
      }
      signedIn := true;
      if doc.Some? {
        streakData := if doc.value.streakData.Some? then doc.value.streakData.value else map[];
        startDate := if doc.value.startDate.Some? && doc.value.startDate.value != "" then doc.value.startDate else None;
      }
      loading := false;
    }

    /**
     * `saveStartDate`: with a user, the picked value becomes the start date.
     * The picker is drawn only while no start date is set, and sits under
     * the dialog's overlay, so it is not used while the dialog is open.
     */
    method SaveStartDate(date: string)
      requires Valid() && !HasStart() && !showConfirm
      modifies this
      ensures Valid()
      ensures startDate == if old(signedIn) then Some(date) else old(startDate)
      ensures signedIn == old(signedIn) && loading == old(loading) && streakData == old(streakData)
      ensures selectedDay == old(selectedDay) && showConfirm == old(showConfirm) && view == old(view)
    {
      if !signedIn {
        return;
      }
      startDate := Some(date);
    }

    /**
     * A click on a day cell: a selectable day is selected and the dialog
     * opens; other cells ignore it. The cells are drawn only once loading
     * has finished and a start date is set.
     */
    method ClickDay(day: int)
      requires Valid() && !loading && HasStart() && 1 <= day <= MonthLength(view)
      modifies this
      ensures signedIn == old(signedIn) && loading == old(loading) && startDate == old(startDate)
      ensures streakData == old(streakData) && view == old(view)
      ensures Valid()
      ensures var selectable := Selectable(ViewDay(today, Start(), streakData, view, day));
        && (selectable ==> selectedDay == Some(day) && showConfirm)
        && (!selectable ==> selectedDay == old(selectedDay) && showConfirm == old(showConfirm))
    {
      var cell := ViewDay(today, Start(), streakData, view, day);
      if !cell.isFuture && !cell.isBeforeStart {
        selectedDay := Some(day);
        showConfirm := true;
      }
    }

    /** The dialog's question: remove the relapse from a relapse day, mark any other day. */
    function ConfirmPrompt(): (p: Prompt)
      reads this
      requires selectedDay.Some?
      ensures p == RemoveRelapse <==> StatusAt(streakData, FormatKeyParts(view.year, view.month0 + 1, selectedDay.value)) == Some(Relapse)
    {
      var key := FormatKeyParts(view.year, view.month0 + 1, selectedDay.value);
      if key in streakData && streakData[key] == Relapse then RemoveRelapse else MarkRelapse
    }

    /**
     * `confirmToggle`: with a user and a selected day, the day's entry is
     * flipped (a relapse becomes a success, anything else a relapse) and the
     * dialog closes; otherwise nothing changes. The flipped day is a day of
     * the tracked range, and afterwards it is a relapse exactly when the
     * dialog offered to mark one.
     */
    method ConfirmToggle()
      requires Valid()
      modifies this
      ensures Valid()
      ensures old(signedIn && selectedDay.Some?) ==>
        && streakData == Toggled(old(streakData), FormatKey(old(SelectedDate())))
        && (Relapsed(streakData, old(SelectedDate())) <==> old(ConfirmPrompt()) == MarkRelapse)
        && HasStart() && !LexBefore(today, old(SelectedDate()))
        && (Start().Some? ==> !LexBefore(old(SelectedDate()), Start().value))
        && selectedDay == None && !showConfirm
      ensures !old(signedIn && selectedDay.Some?) ==>
        streakData == old(streakData) && selectedDay == old(selectedDay) && showConfirm == old(showConfirm)
      ensures signedIn == old(signedIn) && loading == old(loading) && startDate == old(startDate) && view == old(view)
    {
      if !signedIn || selectedDay.None? {
        return;
      }
      ghost var d := SelectedDate();
      ghost var prompt := ConfirmPrompt();
      ViewDayFlags(today, Start(), streakData, view, selectedDay.value);
      var key := FormatKeyParts(view.year, view.month0 + 1, selectedDay.value);
      streakData := Toggled(streakData, key);
      ToggleDay(old(streakData), d, d);
      showConfirm := false;
      selectedDay := None;
    }

    /** The dialog's Cancel button: the dialog closes and the selection is dropped. */
    method Cancel()
      requires Valid()
      modifies this
      ensures Valid() && selectedDay == None && !showConfirm
      ensures signedIn == old(signedIn) && loading == old(loading) && startDate == old(startDate)
      ensures streakData == old(streakData) && view == old(view)
    {
      showConfirm := false;
      selectedDay := None;
    }

    /** The back button shows the month before; it sits under the dialog's overlay. */
    method ShowPrevMonth()
      requires Valid() && !showConfirm
      modifies this
      ensures Valid() && view == PrevView(old(view)) && MonthIndex(view) == MonthIndex(old(view)) - 1
      ensures signedIn == old(signedIn) && loading == old(loading) && startDate == old(startDate)
      ensures streakData == old(streakData) && selectedDay == old(selectedDay) && showConfirm == old(showConfirm)
    {
      NavigationSteps(view);
      view := PrevView(view);
    }

    /** The forward button shows the month after, unless that month is after today's month. */
    method ShowNextMonth()
      requires Valid() && !showConfirm
      modifies this
      ensures Valid() && view == ShowNext(old(view), today)
      ensures MonthIndex(old(view)) < MonthIndex(TodayView(today)) ==> MonthIndex(view) == MonthIndex(old(view)) + 1
      ensures MonthIndex(old(view)) == MonthIndex(TodayView(today)) ==> view == old(view)
      ensures signedIn == old(signedIn) && loading == old(loading) && startDate == old(startDate)
      ensures streakData == old(streakData) && selectedDay == old(selectedDay) && showConfirm == old(showConfirm)
    {
      NavigationSteps(view);
      ShowNextRule(view, today);
      var next := NextView(view);
      if next.year < today.year || (next.year == today.year && next.month0 <= today.month - 1) {
        view := next;
      }
    }

    /**
     * The four figures on the stat cards: the current and longest streaks,
     * the clean days and the success rate, each as its definition gives it
     * for today, the start date and the log.
     */
    method Statistics() returns (current: nat, longest: nat, clean: int, rate: int)
      requires Valid()
      ensures current == CurrentStreakOf(today, Start(), Marks(streakData))
      ensures longest == LongestStreakOf(today, Start(), Marks(streakData))
      ensures clean == CleanDays(TrackedDaysOf(today, Start()), RelapseCount(streakData))
      ensures rate == SuccessRate(TrackedDaysOf(today, Start()), clean)
      ensures current <= longest && rate <= 100
      ensures clean >= 0 ==> rate >= 0
    {
      var start := Start();
      MarksReadLog(streakData);
      current := CurrentStreak(today, start, streakData, Marks(streakData));
      longest := LongestStreak(today, start, streakData, Marks(streakData));
      var tracked := TotalTrackedDays(today, start);
      clean := CleanDays(tracked, RelapseCount(streakData));
      rate := SuccessRate(tracked, clean);
      LongestAtLeastCurrent(today, start, Marks(streakData));
      SuccessRateBounds(tracked, clean);
    }
  }
}
