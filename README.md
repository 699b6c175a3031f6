# Period tracker calendar and prediction model

A Dafny model of the `PeriodTracker` React component of *bloodflow*
(`src/components/PeriodTracker.jsx`). The component keeps five pieces of
state:

- the date whose month the calendar shows;
- the cycle length, 28 days by default;
- the period length, 5 days by default;
- the list of days the user has marked;
- whether the setup form is shown instead of the calendar.

It offers these operations:

- `getCalendarDays` builds the month grid: a `null` for each weekday before the 1st, then one `Date` per day of the month.
- `getPredictedDates` lists the days of the next three periods after an anchor day.
- `toggleDate` marks or unmarks a day.
- `nextMonth` and `prevMonth` move the displayed month.
- `isDateMarked` and `isPredicted` answer per-cell queries. The anchor of the prediction is the last marked day.

Dates are integer day numbers: days since 1970-01-01, negative before it.
The `Date` methods the component calls follow the day arithmetic of
section 21.4.1 of ECMA-262 (DayFromYear, MonthFromTime, DateFromTime,
WeekDay, MakeDay), modelled over the proleptic Gregorian calendar. One more
rule is modelled: the `Date(year, month, date)` constructor reads a year
from 0 to 99 as 1900 to 1999 (the `Date ( ...values )` constructor,
section 21.4.2.1 of ECMA-262).
`toDateString` equality is equality of the (year, month, date) triple, and
it is proved to coincide with equality of day numbers.

Modules:

- `Calendar` (calendar.dfy) holds the date arithmetic. It includes
  `AdvanceDays`, the `d.setDate(d.getDate() + k)` step of the prediction loop.
- `Selection` (selection.dfy) holds the marked list and the toggle, as values.
- `Predictions` (predictions.dfy) holds the prediction formula, as values.
- `Tracker` (tracker.dfy) holds the calendar grid and the month navigation.
  It also holds the `PeriodTracker` class, whose fields are the component's
  state and whose methods are its handlers; the loops of `getCalendarDays`
  and `getPredictedDates` are `while`/`for` loops proved against the value
  functions.

## Model

| member | source | states |
|---|---|---|
| Calendar.MakeDay | src/components/PeriodTracker.jsx:16-17 | definition only: ECMA-262 MakeDay, a month outside 0..11 carrying into the year and a date outside the month into the neighbouring months; its meaning is stated by CalendarDayOfMakeDay, MakeDayOfCalendarDay, LastDayOfMonth and MonthSpan |
| Calendar.NewDate | src/components/PeriodTracker.jsx:16-17 | definition only: `new Date(year, month, date)`, MakeDay of the constructor year (1900 + year for a year 0..99); SelectedDayShown and TwoDigitYearJump state what the year rule does to the tracker |
| Calendar.DateFromDay | src/components/PeriodTracker.jsx:28 | definition only: `getDate`, the day of the month; CalendarDayValid bounds it by DaysInMonth and LastDayOfMonth reads it on day 0 of the next month |
| Calendar.SetDate | src/components/PeriodTracker.jsx:44-47 | definition only: `setDate(dt)`, day dt of the same year and month, without the two-digit-year rule; SetDateAdvance states what the prediction loop's use of it does |
| Calendar.CalendarDay | src/components/PeriodTracker.jsx:56 | definition only: the (year, month, date) that `toDateString` prints; CalendarDayValid and SameCalendarDayIff state its meaning |
| Calendar.DaysInMonth | src/components/PeriodTracker.jsx:17 | February has 29 days in a leap year and 28 otherwise; every other month has 30 or 31; the months tile the year (DaysBeforeMonth of the next month) |
| Calendar.DayFromYearClosedForm | src/components/PeriodTracker.jsx:16-17 | the year-by-year count of New Year days equals ECMA-262's DayFromYear formula with floor divisions, for every year |
| Calendar.DayFromYearFormulaStep | src/components/PeriodTracker.jsx:16-17 | ECMA-262's formula grows by exactly the length of year y from y to y + 1 |
| Calendar.DayFromYearIncreasing | src/components/PeriodTracker.jsx:13 | New Year days are strictly increasing, at least 365 days per year |
| Calendar.YearFromDay | src/components/PeriodTracker.jsx:13 | `getFullYear` returns the one year whose span holds the day |
| Calendar.YearFromDayUnique | src/components/PeriodTracker.jsx:13 | a day belongs to exactly one year |
| Calendar.MonthFromDay | src/components/PeriodTracker.jsx:14 | `getMonth` is between 0 and 11 |
| Calendar.MonthFromDayUnique | src/components/PeriodTracker.jsx:14 | a day of the year lies in exactly one month |
| Calendar.WeekDay | src/components/PeriodTracker.jsx:20 | `getDay` is between 0 and 6, and 1970-01-01 is a Thursday (4) |
| Calendar.WeekDayStep | src/components/PeriodTracker.jsx:20 | the day after a day falls on the next weekday, Saturday wrapping round to Sunday, and a week later on the same weekday; with WeekDay(0) == 4 this fixes `getDay` for every day |
| Calendar.CalendarDayValid | src/components/PeriodTracker.jsx:56 | every day number reads back as an existing (year, month, date) triple |
| Calendar.MakeDayOfCalendarDay | src/components/PeriodTracker.jsx:13-16 | rebuilding a date from its own year, month and date gives the same day |
| Calendar.CalendarDayOfMakeDay | src/components/PeriodTracker.jsx:29 | MakeDay(y, m, d) for a valid triple reads back as exactly (y, m, d); this is `new Date(y, m, d)` for years outside 0..99 |
| Calendar.SameCalendarDayIff | src/components/PeriodTracker.jsx:56-57 | two dates have the same `toDateString` exactly when they are the same day |
| Calendar.LastDayOfMonth | src/components/PeriodTracker.jsx:17-28 | day 0 of month m + 1 is the last day of month m, also across December, and `lastDay.getDate()` is the number of days in the month |
| Calendar.SetDateAdvance | src/components/PeriodTracker.jsx:44-47 | `d.setDate(d.getDate() + k)` moves exactly k days, across month and year ends |
| Calendar.AdvanceDays | src/components/PeriodTracker.jsx:44-47 | the date object holds t + k after `setDate(getDate() + k)` |
| Calendar.MonthSpan | src/components/PeriodTracker.jsx:16-17 | a day is in month m of year y exactly when it is among the DaysInMonth consecutive days from the 1st |
| Calendar.CalendarDayOfMonthOffset | src/components/PeriodTracker.jsx:28-29 | the day i days after the 1st, within the month, is day i + 1 of that month |
| Selection.CalendarDayInjective | src/components/PeriodTracker.jsx:56-57 | the `toDateString` key tells different days apart |
| Selection.AnySameDay | src/components/PeriodTracker.jsx:57 | definition only: `some(d => d.toDateString() === x.toDateString())`; AnySameDayIff states its meaning |
| Selection.WithoutDay | src/components/PeriodTracker.jsx:58 | definition only: `filter(d => d.toDateString() !== x.toDateString())`; WithoutDayContents, WithoutDayAppend and WithoutAbsentDay state its meaning |
| Selection.Toggled | src/components/PeriodTracker.jsx:53-62 | definition only: the marked list after `toggleDate`; ToggledMembership, ToggledDistinct, ToggledAbsentIsLast, ToggleTwiceAbsent and ToggleTwicePresent state its meaning |
| Selection.AnySameDayIff | src/components/PeriodTracker.jsx:57 | the `some` search by `toDateString` is plain membership |
| Selection.WithoutDayContents | src/components/PeriodTracker.jsx:58 | the `filter` drops every copy of the day and keeps every other day with its multiplicity |
| Selection.WithoutDayAppend | src/components/PeriodTracker.jsx:58 | the filter distributes over concatenation, so survivors keep their order |
| Selection.WithoutAbsentDay | src/components/PeriodTracker.jsx:58 | filtering out an unmarked day leaves the list unchanged |
| Selection.WithoutDayDistinct | src/components/PeriodTracker.jsx:58 | filtering keeps a repeat-free list repeat-free |
| Selection.WithoutDayLength | src/components/PeriodTracker.jsx:58 | on a list without repeated days, filtering out a marked day removes exactly one entry |
| Selection.ToggledMembership | src/components/PeriodTracker.jsx:53-62 | toggling flips the membership of the toggled day and leaves every other day's membership alone |
| Selection.ToggledDistinct | src/components/PeriodTracker.jsx:53-62 | toggling keeps the marked list free of repeated days |
| Selection.ToggledAbsentIsLast | src/components/PeriodTracker.jsx:60 | an unmarked day is appended as the last entry |
| Selection.ToggleTwiceAbsent | src/components/PeriodTracker.jsx:53-62 | toggling an unmarked day twice restores the exact list |
| Selection.ToggleTwicePresent | src/components/PeriodTracker.jsx:53-62 | toggling a marked day twice keeps the same days, moving that day to the end; on a repeat-free list the multiset is unchanged |
| Selection.DistinctCount | src/components/PeriodTracker.jsx:53-62 | in a repeat-free list a marked day occurs exactly once |
| Predictions.RunShape | src/components/PeriodTracker.jsx:42-45 | one period holds the consecutive days first, ..., first + count - 1, in order, and nothing when count <= 0 |
| Predictions.RunMembership | src/components/PeriodTracker.jsx:42-45 | a day is in a period exactly when it lies in its range |
| Predictions.CyclesLength | src/components/PeriodTracker.jsx:41-48 | k cycles hold k * periodLength days, or none when periodLength <= 0 |
| Predictions.LastCycleEntry | src/components/PeriodTracker.jsx:41-48 | entry (k-1)*P + j of k cycles is anchor + (k-1)*C + j |
| Predictions.EarlierCycleEntry | src/components/PeriodTracker.jsx:41-48 | appending a cycle leaves earlier entries in place |
| Predictions.CyclesEntry | src/components/PeriodTracker.jsx:41-48 | entry i*P + j of k cycles is anchor + i*C + j, for every i < k and j < P |
| Predictions.CyclesMembership | src/components/PeriodTracker.jsx:41-48 | a day is among k cycles exactly when it is anchor + i*C + j for some i < k and j < P |
| Predictions.PredictedDates | src/components/PeriodTracker.jsx:36-51 | definition only: `getPredictedDates(anchor)` as a value, three cycles of periodLength consecutive days; PredictedDatesShape and PredictedMembership state its meaning |
| Predictions.PredictedDatesShape | src/components/PeriodTracker.jsx:36-51 | the predictions hold 3 * periodLength days (none when periodLength <= 0), entry i*P + j being anchor + i*C + j |
| Predictions.PredictedMembership | src/components/PeriodTracker.jsx:36-51 | a day is predicted exactly when it lies in one of the three predicted windows |
| Predictions.AnchorIsPredicted | src/components/PeriodTracker.jsx:43 | with periodLength >= 1 the anchor itself is predicted |
| Predictions.LeapYearExample | src/components/PeriodTracker.jsx:41-48 | with 5/28 from 1 January of a leap year, the third period covers 29 February and 1 March and not 2 March |
| Predictions.CommonYearExample | src/components/PeriodTracker.jsx:41-48 | in a common year the third period ends on 2 March |
| Tracker.NextMonthStart | src/components/PeriodTracker.jsx:65 | definition only: `new Date(getFullYear(), getMonth() + 1)`; NextMonthCalendarDay states its meaning |
| Tracker.PrevMonthStart | src/components/PeriodTracker.jsx:69 | definition only: `new Date(getFullYear(), getMonth() - 1)`; PrevMonthCalendarDay states its meaning |
| Tracker.NewDateNextMonth | src/components/PeriodTracker.jsx:65 | `new Date(year, m + 1, 1)` is the 1st of the next month, rolling December over into January of the (constructor) year + 1 |
| Tracker.NewDatePrevMonth | src/components/PeriodTracker.jsx:69 | `new Date(year, m - 1, 1)` is the 1st of the previous month, rolling January back into December of the (constructor) year - 1 |
| Tracker.NextMonthCalendarDay | src/components/PeriodTracker.jsx:64-66 | next month shows day 1 of the following month of the constructor year (1900 + y for a year y in 0..99), December rolling over into January of the year after |
| Tracker.PrevMonthCalendarDay | src/components/PeriodTracker.jsx:68-70 | previous month shows day 1 of the preceding month of the constructor year (1900 + y for a year y in 0..99), January rolling back into December of the year before |
| Tracker.NextThenPrev | src/components/PeriodTracker.jsx:64-70 | previous after next restores the year and month |
| Tracker.PrevThenNext | src/components/PeriodTracker.jsx:64-70 | next after previous restores the year and month |
| Tracker.AddMonthsCarry | src/components/PeriodTracker.jsx:65 | counting n months on adds n to the month and carries whole years into the year |
| Tracker.NextMonthStep | src/components/PeriodTracker.jsx:65 | from a year outside 0..99, one press moves the shown (year, month) one month on |
| Tracker.PressesShown | src/components/PeriodTracker.jsx:64-66 | n presses move the shown (year, month) n months on, provided each press does so from any year outside 0..99 and the years passed through all stay at 100 or later or all stay negative |
| Tracker.NextMonthsAdvance | src/components/PeriodTracker.jsx:64-66 | after n presses of next month the year is year + (month + n) / 12 and the month (month + n) % 12 |
| Tracker.TwelveNextMonths | src/components/PeriodTracker.jsx:64-66 | twelve presses of next month show the same month of the next year |
| Tracker.TwoDigitYearJump | src/components/PeriodTracker.jsx:64-70 | from a date in year y in 0..99, next month lands in 1900 + y (1901 + y from December) and previous month then lands in 1900 + y, not back in y |
| Tracker.MonthGrid | src/components/PeriodTracker.jsx:12-33 | definition only: WeekDay(1st) blanks, then the days of the month from the 1st; MonthGridLayout, MonthGridDays, MonthGridAscending, MonthGridMembership and SelectedDayShown state its meaning |
| Tracker.GridCells | src/components/PeriodTracker.jsx:19-31 | pad blanks followed by n cells, cell pad + i holding day first + i |
| Tracker.MonthGridLayout | src/components/PeriodTracker.jsx:19-31 | the grid has one blank per weekday before the 1st and one cell per day of the month, blanks first |
| Tracker.MonthGridDays | src/components/PeriodTracker.jsx:28-30 | cell pad + d - 1 holds day d of the month |
| Tracker.GridAscending | src/components/PeriodTracker.jsx:28-30 | after the blanks the cells are strictly ascending days |
| Tracker.MonthGridAscending | src/components/PeriodTracker.jsx:28-30 | the days of the month grid are strictly ascending |
| Tracker.MonthGridMembership | src/components/PeriodTracker.jsx:12-33 | a day appears in the grid exactly when it falls in the grid's year and month |
| Tracker.SelectedDayShown | src/components/PeriodTracker.jsx:12-33 | the grid built for the displayed date holds that date exactly when its year is outside 0..99; for a year 0..99 it shows the same month of 1900 + year |
| Tracker.PushBlanks | src/components/PeriodTracker.jsx:23-25 | the first loop appends exactly startPadding `null` cells |
| Tracker.PushDays | src/components/PeriodTracker.jsx:28-30 | the second loop appends `new Date(year, month, i)` for i = 1..n, consecutive days from the 1st |
| Tracker.PeriodTracker.constructor | src/components/PeriodTracker.jsx:5-9 | the initial state: today's date, lengths 28 and 5, nothing marked, setup form shown |
| Tracker.PeriodTracker.SetPeriodLength | src/components/PeriodTracker.jsx:92 | the period length becomes the entered value; nothing else changes |
| Tracker.PeriodTracker.SetCycleLength | src/components/PeriodTracker.jsx:103 | the cycle length becomes the entered value; nothing else changes |
| Tracker.PeriodTracker.StartTracking | src/components/PeriodTracker.jsx:110 | the setup form is closed; nothing else changes |
| Tracker.PeriodTracker.GetCalendarDays | src/components/PeriodTracker.jsx:12-33 | the cells are the month grid of the month `new Date(getFullYear(), getMonth(), 1)` lands in, and they include the displayed date exactly when its year is outside 0..99 |
| Tracker.PeriodTracker.GetPredictedDates | src/components/PeriodTracker.jsx:36-51 | the loop computes the prediction formula: 3 * periodLength days, membership exactly the three predicted windows |
| Tracker.PeriodTracker.ToggleDate | src/components/PeriodTracker.jsx:53-62 | a blank changes nothing; a marked day is removed, an unmarked one appended; membership flips; no repeated days is preserved, and on such a list unmarking removes exactly one entry |
| Tracker.PeriodTracker.NextMonth | src/components/PeriodTracker.jsx:64-66 | the displayed date becomes the 1st of the next month of the constructor year (1900 + y for a year y in 0..99); nothing else changes |
| Tracker.PeriodTracker.PrevMonth | src/components/PeriodTracker.jsx:68-70 | the displayed date becomes the 1st of the previous month of the constructor year (1900 + y for a year y in 0..99); nothing else changes |
| Tracker.PeriodTracker.IsDateMarked | src/components/PeriodTracker.jsx:72-74 | true exactly when the cell holds a marked day |
| Tracker.PeriodTracker.IsPredicted | src/components/PeriodTracker.jsx:76-80 | false for a blank or with nothing marked; otherwise true exactly when the day is in a window predicted from the last marked day |
| Tracker.LastMarkedIsPredicted | src/components/PeriodTracker.jsx:76-80 | with periodLength >= 1 the last marked day is itself shown as predicted |

## Left out

- Time of day, time zones and daylight saving time: dates are whole days in one fixed zone. The local-time conversions of `Date` are not modelled.
- The `Date` range limit of 8.64e15 ms and the `Invalid Date` value: years are unbounded integers.
- `new Date()` reads the clock: it is the `today` parameter of the constructor.
- `parseInt` of the setup inputs: the setters take an integer. A `NaN` from an empty field is not modelled, and neither are the form's `min`/`max` hints, which the code does not enforce.
- Rendering: the JSX markup, the `toLocaleString` month header and the cell styles are not modelled.
- React state updates are modelled as immediate field assignments. Batching and re-rendering are not modelled.
- Which handlers can run depends on the rendered view: the length inputs and "Start Tracking" exist only while the setup form is shown, and the calendar handlers only after it is closed. The model lets every handler run in any state, and no contract reads `showSetup`.
- Tracker.PeriodTracker.IsDateMarked: for a `null` cell the source returns `null` (falsy), not `false`. The model returns `false`.
- The component has no locked periods, ovulation window, ±1-day prediction window or persisted settings, so none is modelled.
- Login, the header, the authentication context, routing and layout: src/components/Login/Login.jsx, src/components/Header/Header.jsx, src/contexts/Authcontext.jsx, src/main.jsx and src/layout/Main.jsx are not part of this model.
- Tracker.NextThenPrev: proved only when neither year involved is 0..99. In those years the constructor reads the year as 19xx; TwoDigitYearJump shows the jump.
- Tracker.PrevThenNext: proved only when neither year involved is 0..99, for the same reason.
- Tracker.NextMonthsAdvance: proved only when every year passed through stays at 100 or later, or stays negative, for the same reason.
- Tracker.TwelveNextMonths: proved only for years from 100 on or below -1, for the same reason. January of year -1 also reaches January of year 0 in twelve presses; the lemma does not cover that case.
- Tracker.NextMonthStep: proved only from years outside 0..99, for the same reason.
- Tracker.PressesShown: proved only when every year passed through stays at 100 or later, or stays negative, for the same reason.
