# Resurge dashboard, modelled in Dafny

Resurge is a habit tracker. A signed-in user picks a start date, then marks
calendar days as relapses or clears those marks. The dashboard page shows
four figures computed from today's date, the start date and the day log:
- the current streak
- the longest streak
- the clean days
- the success rate

It also shows a month calendar whose cells can be clicked to toggle a day.

This project models that page's logic:

- **Calendar and day numbers.** `CivilCalendar` holds the proleptic
  Gregorian calendar, with a day number for every date. The page compares
  local midnights with `getTime()` and moves a `Date` with `setDate`. Here
  those become comparisons of day numbers and steps to the next or previous
  day.
- **Key format.** `DateKeys` holds the unpadded log-key format (`2024-3-7`)
  and its parse, which is `split("-").map(Number)`. The parse reads both log
  keys and the date input's zero-padded `YYYY-MM-DD`.
- **The log.** `StreakLog` models the log as a map from keys to
  success/relapse, together with the toggle and the relapse count.
- **The statistics.** `Streaks` holds the two streak loops as methods, each
  proved equal to a specification function over the day marks. It also
  holds the tracked-day, clean-day and success-rate figures. Lemmas say
  what the figures mean in terms of clean runs of days.
- **The calendar.** `CalendarView` covers the days a month shows, the
  classification and colour of a day cell, and the two navigation buttons.
- **The page.** `Dashboard` holds the page's state as a class, with one
  method per event handler:
  - sign-in report
  - saving the start date
  - clicking a day
  - confirm and cancel
  - back and forward
  - reading the figures

  Its invariant `Valid` says:
  - the month on screen never passes today's month;
  - the dialog is open exactly while a day is selected;
  - a selected day is always one that may be clicked, on a page that has a
    start date.

The streak figures are defined over `DayMarks`, a function from day numbers
to "is a relapse". `Marks(log)` reads the log for the date of each day
number. The methods that walk the log look each day up by its key, as the
page does (`LookUpDay`). What they compute is proved equal to the
definitions over `Marks(log)`.

For start 2024-01-01, today 2024-01-10 and a relapse on 2024-01-05, the
forward walk includes today, so the longest streak is 5 (January 6 to 10),
while the backward walk from yesterday gives a current streak of 4.
`Streaks.TenDayExample` proves both figures for any start nine days before
today with a relapse on the fifth tracked day only, and
`Streaks.JanuaryExample` for these very dates.

## Model

| member | source | states |
|---|---|---|
| CivilCalendar.DaysInMonth | src/app/dashboard/page.tsx:73-76 | a month of the Gregorian calendar has 28 to 31 days, February 29 exactly in leap years |
| CivilCalendar.NextDayNumber | src/app/dashboard/page.tsx:144 | moving a date forward one day raises its day number by exactly one |
| CivilCalendar.PrevDayNumber | src/app/dashboard/page.tsx:116 | moving a date back one day lowers its day number by exactly one |
| CivilCalendar.NextPrevInverse | src/app/dashboard/page.tsx:114-116 | a step forward and a step back undo each other, across month and year ends |
| CivilCalendar.DayOrderIsCalendarOrder | src/app/dashboard/page.tsx:118 | one date is earlier than another (year, then month, then day) exactly when its day number is smaller, which is what the `getTime()` comparisons test |
| CivilCalendar.DayNumberInjective | src/app/dashboard/page.tsx:107 | two valid dates have equal day numbers exactly when they are the same date |
| CivilCalendar.DayNumberOfDateOf | src/app/dashboard/page.tsx:115-116 | the date reached after n one-day steps from the epoch has day number n |
| CivilCalendar.DateOfDayNumber | src/app/dashboard/page.tsx:115-116 | every valid date is the date of its own day number |
| CivilCalendar.DateOfSteps | src/app/dashboard/page.tsx:142-144 | the date of day number n + 1 is the day after the date of n, and that of n - 1 the day before |
| DateKeys.FormatKeyParts | src/app/dashboard/page.tsx:81 | definition of the key template `${y}-${m}-${d}` with unpadded numbers |
| DateKeys.FormatKey | src/app/dashboard/page.tsx:120 | definition of a date's log key from its year, month and day; ParseFormatKey and FormatKeyInjective state what it preserves |
| DateKeys.Split | src/app/dashboard/page.tsx:103 | `split("-")`: the pieces between dashes, always at least one; SplitAfterDigits and SplitDigits state how it cuts a key |
| DateKeys.NumberOf | src/app/dashboard/page.tsx:103 | `Number` on one field, defined for runs of digits; NumberOfNatToString and NumberOfPadLeft state that it reads printed and zero-padded numbers back |
| DateKeys.ParseFields | src/app/dashboard/page.tsx:103-104 | the destructuring of the first three fields; ParseThreeFields states its result on three digit runs |
| DateKeys.NatToString | src/app/dashboard/page.tsx:81 | a number prints as a non-empty run of decimal digits |
| DateKeys.ParseDate | src/app/dashboard/page.tsx:103-104 | a parsed start date is always a valid calendar date |
| DateKeys.ParseFormatKey | src/app/dashboard/page.tsx:120 | reading an unpadded log key back with split and Number recovers its date |
| DateKeys.ParseIsoDate | src/app/dashboard/page.tsx:217-220 | reading the zero-padded value of the date input recovers the same date |
| DateKeys.FormatKeyInjective | src/app/dashboard/page.tsx:146 | two valid dates have the same log key exactly when they are the same date, negative years included |
| StreakLog.Flip | src/app/dashboard/page.tsx:86 | definition of the written status: "success" for a relapse, "relapse" for anything else including an absent entry; ToggleChangesOnlyKey states its effect |
| StreakLog.Toggled | src/app/dashboard/page.tsx:83-87 | after a toggle the log has the same keys plus the toggled one |
| StreakLog.ToggleChangesOnlyKey | src/app/dashboard/page.tsx:83-87 | the toggled key becomes a relapse iff it was not one; every other entry keeps its presence and its value |
| StreakLog.ToggleTwice | src/app/dashboard/page.tsx:86 | toggling a present key twice restores the log; toggling an absent key twice leaves it "success", not absent |
| StreakLog.RelapseCount | src/app/dashboard/page.tsx:159-161 | the relapse total never exceeds the number of entries |
| StreakLog.RelapseKeysAfterToggle | src/app/dashboard/page.tsx:83-87 | a toggle removes its key from the set of relapse keys or adds it, and changes nothing else in that set |
| StreakLog.RelapseCountAfterToggle | src/app/dashboard/page.tsx:159-161 | a toggle lowers the relapse total by one when it clears a relapse and raises it by one otherwise, whatever the date of the key |
| StreakLog.ToggleDay | src/app/dashboard/page.tsx:81-87 | toggling a day flips whether that day is a relapse and leaves every other day's status as it was |
| Streaks.MarksReadTheLog | src/app/dashboard/page.tsx:146-148 | the mark of a valid date's day number is whether the log holds "relapse" under that date's key |
| Streaks.LookUpDay | src/app/dashboard/page.tsx:120-122 | looking up the key of the date with day number n finds the mark of n |
| Streaks.CurrentStreakOf | src/app/dashboard/page.tsx:100-128 | definition of the current streak over the day marks: 0 without a start, today's mark when the start is today, else the trailing clean days of the walked range; characterised by CurrentStreakSimpleCases and CurrentStreakIsCleanDaysBack |
| Streaks.LongestStreakOf | src/app/dashboard/page.tsx:131-157 | definition of the longest streak as the longest run over the flags of the tracked days; characterised by LongestStreakIsLongestCleanRun |
| Streaks.TrackedDaysOf | src/app/dashboard/page.tsx:163-177 | definition of the tracked days as max(0, today - start + 1) in day numbers; characterised by TrackedDaysAreTheRange and TrackedDaysBounds |
| Streaks.WalkLength | src/app/dashboard/page.tsx:114-118 | the backward walk may look at no more than 364 days, none before the start, and at least one when the start is before today |
| Streaks.CurrentStreak | src/app/dashboard/page.tsx:100-128 | the method returns the current streak as defined: 0 without a start, today's own mark when the start is today, otherwise the clean days ending yesterday |
| Streaks.CountCleanDaysBack | src/app/dashboard/page.tsx:112-127 | the walk back from yesterday, stopping before the start, at a relapse or after 364 days, counts the trailing clean days of the walked range |
| Streaks.TotalTrackedDays | src/app/dashboard/page.tsx:163-177 | the tracked-day computation equals the inclusive count of days from the start to today, or 0 |
| Streaks.LongestStreak | src/app/dashboard/page.tsx:131-157 | the method returns the longest run of clean days over the tracked days, 0 without a start |
| Streaks.LongestCleanRun | src/app/dashboard/page.tsx:138-156 | the forward walk from the start to today inclusive keeps the current run and the longest run, which equal those of the days walked so far |
| Streaks.CleanDays | src/app/dashboard/page.tsx:179 | clean days never exceed tracked days, and are negative exactly when there are more relapses than tracked days |
| Streaks.SuccessRate | src/app/dashboard/page.tsx:181-184 | 0 with no tracked days, otherwise 100 × clean / tracked rounded half up |
| Streaks.TrailingCleanIsRun | src/app/dashboard/page.tsx:114-125 | the trailing clean count is a clean run ending at the last day, no longer clean run ends there, and the day before it is a relapse |
| Streaks.LongestRunIsMaximum | src/app/dashboard/page.tsx:141-154 | the running maximum is the length of some clean run, and no clean run is longer |
| Streaks.RunsAreSpans | src/app/dashboard/page.tsx:141-154 | a clean run of flags is exactly a span of consecutive unmarked days |
| Streaks.LongestRunIsLongestSpan | src/app/dashboard/page.tsx:141-154 | over any range of days, the longest-run figure is the length of a clean span in the range, and no clean span in it is longer |
| Streaks.LongestStreakIsLongestCleanRun | src/app/dashboard/page.tsx:131-157 | the longest streak is the length of some clean span within [start, today], and no clean span in that range is longer; unmarked days count as clean |
| Streaks.LongestStreakBounds | src/app/dashboard/page.tsx:131-157 | 0 without a start or with a start after today, and never more than the tracked days |
| Streaks.CurrentStreakSimpleCases | src/app/dashboard/page.tsx:100-110 | 0 without a start; with start = today 0 for a relapse today and 1 otherwise; 0 for a start after today; never above 364 |
| Streaks.CurrentStreakIsCleanDaysBack | src/app/dashboard/page.tsx:112-127 | otherwise the r counted days just before today are on or after the start and clean, and the day before them is before the start or a relapse unless the cap of 364 was hit |
| Streaks.TenFlagRuns | src/app/dashboard/page.tsx:141-154 | on the flags of ten days with a relapse on the fifth, the first nine end with four clean days and the longest clean run is five |
| Streaks.JanuaryExample | src/app/dashboard/page.tsx:100-157 | for start 2024-01-01, today 2024-01-10 and a relapse on 2024-01-05 only, the current streak is 4 and the longest streak 5 |
| Streaks.TenDayExample | src/app/dashboard/page.tsx:100-157 | with the start nine days before today and a relapse on the fifth tracked day only, CurrentStreakOf is 4 and LongestStreakOf is 5 |
| Streaks.CurrentStreakIgnoresToday | src/app/dashboard/page.tsx:114-116 | unless the start is today, changing today's entry never changes the current streak |
| Streaks.LongestAtLeastCurrent | src/app/dashboard/page.tsx:100-157 | for the same inputs the longest streak is at least the current streak |
| Streaks.TrackedDaysAreTheRange | src/app/dashboard/page.tsx:163-177 | a date lies between the start and today exactly when its offset from the start is below the tracked count, and the forward walk reaches it at that offset |
| Streaks.TrackedDaysBounds | src/app/dashboard/page.tsx:163-177 | 0 without a start, 0 exactly when the start is after today, 1 when the start is today |
| Streaks.SuccessRateBounds | src/app/dashboard/page.tsx:181-184 | the rate lies in 0..100 whenever the clean days lie in 0..tracked, and is 100 when every tracked day is clean |
| CalendarView.TodayView | src/app/dashboard/page.tsx:27-29 | the page opens on a valid month view, the month containing today |
| CalendarView.MonthStart | src/app/dashboard/page.tsx:239 | the first of a month given one month outside the year is a valid date, with the year carried |
| CalendarView.MonthLength | src/app/dashboard/page.tsx:74 | day 0 of the next month is the last day of this one, so the count is the month's length |
| CalendarView.MonthDays | src/app/dashboard/page.tsx:75 | the shown days are 1, 2, ... up to the month's length, in order |
| CalendarView.MonthDaysAreTheMonth | src/app/dashboard/page.tsx:73-76 | a day number is shown exactly when it names a real day of the month on screen |
| CalendarView.FebruaryLength | src/app/dashboard/page.tsx:73-76 | February shows 29 days in a leap year and 28 otherwise |
| CalendarView.StatusAt | src/app/dashboard/page.tsx:292 | a cell's status is present exactly when the log has its key, and is then that entry |
| CalendarView.ViewDay | src/app/dashboard/page.tsx:270-292 | definition of a day cell's three flags by day-number comparison and its status by the unpadded key; ViewDayFlags and CellStatusIsTheDaysEntry state what they mean |
| CalendarView.Selectable | src/app/dashboard/page.tsx:298 | definition of the click guard, neither future nor before the start; SelectableIsTracked states what it means |
| CalendarView.ViewDayFlags | src/app/dashboard/page.tsx:270-290 | a cell is in the future exactly when its date is after today, is today exactly when its date is today, and is before the start exactly when there is a start later than its date |
| CalendarView.SelectableIsTracked | src/app/dashboard/page.tsx:297-302 | with a start date, a cell may be clicked exactly when its date lies between the start and today, that is, when it is a tracked day |
| CalendarView.CellStatusIsTheDaysEntry | src/app/dashboard/page.tsx:273-292 | a cell shows "relapse" exactly when its own date is a relapse in the log |
| CalendarView.ShadeOf | src/app/dashboard/page.tsx:306-312 | grey exactly for cells that may not be clicked; among the others red exactly for relapses |
| CalendarView.HasRing | src/app/dashboard/page.tsx:313-317 | definition: a cell is ringed when it is today's; RingMarksToday states what that means |
| CalendarView.RingMarksToday | src/app/dashboard/page.tsx:313-317 | the ring sits exactly on the cell whose date is today, and that cell may be clicked unless the start is after today |
| CalendarView.RedIsMarked | src/app/dashboard/page.tsx:306-312 | the red cells are exactly the clickable days the streaks count as relapses |
| CalendarView.PrevView | src/app/dashboard/page.tsx:237-240 | the back button always yields a valid month view |
| CalendarView.NextView | src/app/dashboard/page.tsx:252 | the following month is a valid month view |
| CalendarView.ShowNext | src/app/dashboard/page.tsx:251-261 | the forward button always leaves a valid month view |
| CalendarView.NavigationSteps | src/app/dashboard/page.tsx:237-261 | back moves exactly one month earlier, the next month is exactly one later, and the two undo each other |
| CalendarView.ShowNextRule | src/app/dashboard/page.tsx:251-261 | forward moves one month on exactly when the view is before today's month and leaves it unchanged otherwise, so the view never passes today's month |
| CalendarView.LaterMonthIsFuture | src/app/dashboard/page.tsx:275-276 | every day of a month after today's month is in the future |
| Dashboard.DashboardPage.Start | src/app/dashboard/page.tsx:101-105 | a start day exists only when a non-empty start string is set, and is then a valid date |
| Dashboard.DashboardPage.constructor | src/app/dashboard/page.tsx:13-29 | the first render is loading, without user, log or start date, with nothing selected and today's month on screen |
| Dashboard.DashboardPage.SignIn | src/app/dashboard/page.tsx:32-53 | without a user loading ends and nothing else changes; with one, the stored log (or an empty one) and start date (a missing or empty one being none) are taken |
| Dashboard.DashboardPage.SaveStartDate | src/app/dashboard/page.tsx:63-71 | while no start date is set, with a user the picked string becomes the start date; without one nothing changes |
| Dashboard.DashboardPage.ClickDay | src/app/dashboard/page.tsx:297-302 | on a loaded page with a start date, a clickable cell selects its day and opens the dialog; any other cell changes nothing |
| Dashboard.DashboardPage.ConfirmPrompt | src/app/dashboard/page.tsx:333-337 | the dialog offers to remove a relapse exactly when the selected day's entry is "relapse" |
| Dashboard.DashboardPage.ConfirmToggle | src/app/dashboard/page.tsx:78-97 | with a user and a selection, the log becomes the toggle of the selected day's key, that day (on a page with a start date, never after today or before the start) ends a relapse exactly when the dialog offered to mark it, and the dialog closes; otherwise nothing changes |
| Dashboard.DashboardPage.Cancel | src/app/dashboard/page.tsx:349-352 | the dialog closes and the selection is dropped, with the log and the view unchanged |
| Dashboard.DashboardPage.ShowPrevMonth | src/app/dashboard/page.tsx:237-240 | the view moves exactly one month back, nothing else changes |
| Dashboard.DashboardPage.ShowNextMonth | src/app/dashboard/page.tsx:251-261 | the view moves one month on while it is before today's month and stays when it is today's month |
| Dashboard.DashboardPage.Statistics | src/app/dashboard/page.tsx:159-184 | the four figures are the current and longest streaks, clean days and success rate of today, the start and the log; current ≤ longest and the rate is at most 100 |

## Left out

- Firebase is not modelled: the auth listener, `getDoc`, `updateDoc`, `signOut`, the redirects to the login page and `handleLogout`. The methods change the page state only; the stored document is meant to receive the same values. A failed write is not modelled either: after one, the page keeps the new log but the dialog stays open.
- Dashboard.DashboardPage.SignIn: models only the listener's first report, the one that ends loading (`requires loading`). Later reports, such as a sign-out in another tab, are not modelled.
- Dashboard.DashboardPage.SaveStartDate, ShowPrevMonth and ShowNextMonth require that the dialog be closed. The dialog's full-screen overlay covers the date picker and the navigation buttons, so these handlers cannot fire while it is open.
- Dashboard.DashboardPage.ClickDay requires that loading has finished and that a start date is set, because day cells are drawn only then (the calendar sits under `{startDate && …}`).
- Dashboard.DashboardPage.SaveStartDate also requires that no start date is set, because the date picker is drawn only under `{!startDate && …}`.
- Dashboard.DashboardPage.Start: a start string that does not name a valid date is treated as no start date. On the page, a string with numeric but out-of-range fields rolls over: "2024-02-30" becomes 1 March 2024, and the streaks are computed from that day. A string with a non-numeric field gives an invalid `Date` (NaN): the backward walk never stops at the start, the tracked days show NaN and the longest streak is 0.
- DateKeys.ParseDate: `Number()` also accepts surrounding whitespace, signs, exponents and hexadecimal, and `new Date(y, m - 1, d)` rolls over out-of-range months and days and maps years 0 to 99 to 1900 to 1999. The model reads plain digit runs only and rejects invalid dates.
- Time zones and daylight-saving time are not modelled. Days are whole day numbers, so the millisecond difference divided by a day's length and floored is exact here.
- Streaks.SuccessRate: the floating-point result of `Math.round` at exact halves is replaced by integer rounding half up.
- Today is fixed when the page is constructed (`today` is a constant). The page recomputes it on every render.
- The forward loop moves one `Date` object in place with `setDate`. The model steps a date value with `NextDay` and keeps it equal to `DateOf` of the step's day number (`DateOfSteps`). The backward loop makes a fresh copy of today at each step and moves it back `i` days; the model takes the date with day number `today - i` (`DateOf`). Neither models the sharing of the `Date` object.
- `new Date(viewYear, …)` maps years 0 to 99 to 1900 to 1999, and back navigation can reach those years. The model keeps the proleptic year as it is.
- The greeting (`username`, e-mail), the month name from `toLocaleString`, the CSS classes and `StatCard` are presentation only.
