/**
 * The period tracker component: its state (the displayed date, the cycle
 * and period lengths, the marked days, the setup flag) and the handlers and
 * queries that read and replace it. Dates are day numbers (see Calendar);
 * a grid cell or a handler argument that may be `null` is an Option.
 */
module Tracker {
  import opened Calendar
  import opened Selection
  import opened Predictions

  /** Default lengths of the setup form, in days. */
  const DefaultCycleLength: int := 28
  const DefaultPeriodLength: int := 5

  /** The year in which `new Date(getFullYear(), ...)` lands for the date `t`. */
  function GridYear(t: int): int {
    ConstructorYear(YearFromDay(t))
  }

  /** `new Date(d.getFullYear(), d.getMonth() + 1)`: the first day of the next month. */
  function NextMonthStart(t: int): int {
    NewDate(YearFromDay(t), MonthFromDay(t) + 1, 1)
  }

  /** `new Date(d.getFullYear(), d.getMonth() - 1)`: the first day of the previous month. */
  function PrevMonthStart(t: int): int {
    NewDate(YearFromDay(t), MonthFromDay(t) - 1, 1)
  }

  /**
   * The date shown after `n` presses of a navigation button `step`. The
   * button is a parameter so that proofs about repeated presses
   * (PressesShown) do not unfold the calendar arithmetic of one press.
   */
  function Presses(step: int -> int, t: int, n: nat): int {
    if n == 0 then t else step(Presses(step, t, n - 1))
  }

  /** `n` presses of the next-month button. */
  function NextMonths(t: int, n: nat): int {
    Presses(NextMonthStart, t, n)
  }

  /** `new Date(year, m + 1, 1)` is the 1st of the month after `m`, rolling over after December. */
  lemma NewDateNextMonth(year: int, m: int)
    requires 0 <= m < 12
    ensures CalendarDay(NewDate(year, m + 1, 1)) ==
      if m == 11 then CivilDate(ConstructorYear(year) + 1, 0, 1)
      else CivilDate(ConstructorYear(year), m + 1, 1)
  {
    var y := ConstructorYear(year);
    if m == 11 {
      assert NewDate(year, m + 1, 1) == MakeDay(y + 1, 0, 1);
      CalendarDayOfMakeDay(y + 1, 0, 1);
    } else {
      CalendarDayOfMakeDay(y, m + 1, 1);
    }
  }

  /** `new Date(year, m - 1, 1)` is the 1st of the month before `m`, rolling back before January. */
  lemma NewDatePrevMonth(year: int, m: int)
    requires 0 <= m < 12
    ensures CalendarDay(NewDate(year, m - 1, 1)) ==
      if m == 0 then CivilDate(ConstructorYear(year) - 1, 11, 1)
      else CivilDate(ConstructorYear(year), m - 1, 1)
  {
    var y := ConstructorYear(year);
    if m == 0 {
      assert NewDate(year, m - 1, 1) == MakeDay(y - 1, 11, 1);
      CalendarDayOfMakeDay(y - 1, 11, 1);
    } else {
      CalendarDayOfMakeDay(y, m - 1, 1);
    }
  }

  /** The next-month button shows day 1 of the following month; December rolls over into January of the next year. */
  lemma NextMonthCalendarDay(t: int)
    ensures MonthFromDay(t) == 11 ==> CalendarDay(NextMonthStart(t)) == CivilDate(GridYear(t) + 1, 0, 1)
    ensures MonthFromDay(t) != 11 ==> CalendarDay(NextMonthStart(t)) == CivilDate(GridYear(t), MonthFromDay(t) + 1, 1)
  {
    var year, m := YearFromDay(t), MonthFromDay(t);
    assert NextMonthStart(t) == NewDate(year, m + 1, 1);
    assert GridYear(t) == ConstructorYear(year);
    NewDateNextMonth(year, m);
  }

  /** The previous-month button shows day 1 of the preceding month; January rolls back into December of the year before. */
  lemma PrevMonthCalendarDay(t: int)
    ensures MonthFromDay(t) == 0 ==> CalendarDay(PrevMonthStart(t)) == CivilDate(GridYear(t) - 1, 11, 1)
    ensures MonthFromDay(t) != 0 ==> CalendarDay(PrevMonthStart(t)) == CivilDate(GridYear(t), MonthFromDay(t) - 1, 1)
  {
    NewDatePrevMonth(YearFromDay(t), MonthFromDay(t));
  }

  /**
   * Previous month after next month shows the original year and month again,
   * as long as neither year is one that the `Date` constructor reads as 19xx.
   */
  lemma NextThenPrev(t: int)
    requires KeepsYear(YearFromDay(t)) && KeepsYear(YearFromDay(NextMonthStart(t)))
    ensures YearFromDay(PrevMonthStart(NextMonthStart(t))) == YearFromDay(t)
    ensures MonthFromDay(PrevMonthStart(NextMonthStart(t))) == MonthFromDay(t)
  {
    NextMonthCalendarDay(t);
    PrevMonthCalendarDay(NextMonthStart(t));
  }

  /** Next month after previous month likewise restores the year and month. */
  lemma PrevThenNext(t: int)
    requires KeepsYear(YearFromDay(t)) && KeepsYear(YearFromDay(PrevMonthStart(t)))
    ensures YearFromDay(NextMonthStart(PrevMonthStart(t))) == YearFromDay(t)
    ensures MonthFromDay(NextMonthStart(PrevMonthStart(t))) == MonthFromDay(t)
  {
    PrevMonthCalendarDay(t);
    NextMonthCalendarDay(PrevMonthStart(t));
  }

  /** The (year, month) pair the header shows for the date `t`. */
  datatype YearMonth = YearMonth(year: int, month: int)

  function Shown(t: int): YearMonth {
    YearMonth(YearFromDay(t), MonthFromDay(t))
  }

  /** One month later, December rolling over into January. */
  function AddMonth(ym: YearMonth): YearMonth {
    if ym.month == 11 then YearMonth(ym.year + 1, 0) else YearMonth(ym.year, ym.month + 1)
  }

  /** `n` months later. */
  function AddMonths(ym: YearMonth, n: nat): YearMonth {
    if n == 0 then ym else AddMonth(AddMonths(ym, n - 1))
  }

  /** Adding `n` months is adding to the month count and carrying into the year. */
  lemma {:induction false} AddMonthsCarry(ym: YearMonth, n: nat)
    requires 0 <= ym.month < 12
    ensures AddMonths(ym, n) == YearMonth(ym.year + (ym.month + n) / 12, (ym.month + n) % 12)
  {
    if n > 0 {
      AddMonthsCarry(ym, n - 1);
      var a := ym.month + n - 1;
      assert (a + 1) / 12 == a / 12 + (if a % 12 == 11 then 1 else 0);
      assert (a + 1) % 12 == if a % 12 == 11 then 0 else a % 12 + 1;
    }
  }

  /** One press of next month, for a year the constructor takes literally. */
  lemma NextMonthStep(u: int)
    requires KeepsYear(YearFromDay(u))
    ensures Shown(NextMonthStart(u)) == AddMonth(Shown(u))
  {
    assert GridYear(u) == YearFromDay(u);
    var c := CalendarDay(NextMonthStart(u));
    NextMonthCalendarDay(u);
    assert Shown(NextMonthStart(u)) == YearMonth(c.year, c.month);
  }

  /** Counting months on never moves the year back. */
  lemma {:induction false} AddMonthsYearGrows(ym: YearMonth, n: nat)
    ensures ym.year <= AddMonths(ym, n).year
  {
    if n > 0 {
      AddMonthsYearGrows(ym, n - 1);
    }
  }

  /**
   * Counting `n` months on from `ym` passes only through years the `Date`
   * constructor takes literally: either they all stay at 100 or later, or
   * they all stay negative.
   */
  predicate ClearOfTwoDigitYears(ym: YearMonth, n: nat) {
    100 <= ym.year || AddMonths(ym, n).year < 0
  }

  /** The years passed through before the last month are clear as well. */
  lemma ClearOfTwoDigitYearsStep(ym: YearMonth, n: nat)
    requires n > 0 && ClearOfTwoDigitYears(ym, n)
    ensures ClearOfTwoDigitYears(ym, n - 1)
    ensures KeepsYear(AddMonths(ym, n - 1).year)
  {
    AddMonthsYearGrows(ym, n - 1);
  }

  /** NextMonthStep for every date at once. */
  lemma NextMonthSteps()
    ensures forall u :: KeepsYear(Shown(u).year) ==> Shown(NextMonthStart(u)) == AddMonth(Shown(u))
  {
    forall u | KeepsYear(Shown(u).year) ensures Shown(NextMonthStart(u)) == AddMonth(Shown(u)) {
      NextMonthStep(u);
    }
  }

  /**
   * Pressing a button `n` times advances the displayed month `n` times, as
   * long as each press advances it by one from every year the presses pass
   * through. `shown` reads the displayed (year, month) off a date.
   */
  lemma {:induction false} PressesShown(step: int -> int, shown: int -> YearMonth, t: int, n: nat)
    requires forall u :: KeepsYear(shown(u).year) ==> shown(step(u)) == AddMonth(shown(u))
    requires ClearOfTwoDigitYears(shown(t), n)
    ensures shown(Presses(step, t, n)) == AddMonths(shown(t), n)
  {
    if n > 0 {
      ClearOfTwoDigitYearsStep(shown(t), n);
      PressesShown(step, shown, t, n - 1);
      var u := Presses(step, t, n - 1);
      assert KeepsYear(shown(u).year);
    }
  }

  /**
   * After `n` presses of next month the display has advanced `n` months,
   * carrying into the year, while the years passed through stay clear of 0..99.
   */
  lemma NextMonthsAdvance(t: int, n: nat)
    requires 100 <= YearFromDay(t) || YearFromDay(t) + (MonthFromDay(t) + n) / 12 < 0
    ensures YearFromDay(NextMonths(t, n)) == YearFromDay(t) + (MonthFromDay(t) + n) / 12
    ensures MonthFromDay(NextMonths(t, n)) == (MonthFromDay(t) + n) % 12
  {
    var ym := Shown(t);
    AddMonthsCarry(ym, n);
    assert ClearOfTwoDigitYears(ym, n);
    NextMonthSteps();
    PressesShown(NextMonthStart, Shown, t, n);
  }

  /** Twelve presses of next month show the same month of the following year. */
  lemma TwelveNextMonths(t: int)
    requires 100 <= YearFromDay(t) || YearFromDay(t) < -1
    ensures YearFromDay(NextMonths(t, 12)) == YearFromDay(t) + 1
    ensures MonthFromDay(NextMonths(t, 12)) == MonthFromDay(t)
  {
    NextMonthsAdvance(t, 12);
  }

  /**
   * In a year 0..99 the next-month button jumps to 19xx (from December to
   * the year after): the constructor reads the two-digit year, so previous
   * month does not come back.
   */
  lemma TwoDigitYearJump(y: int, m: int, d: int)
    requires 0 <= y <= 99 && IsValidCivil(CivilDate(y, m, d))
    ensures YearFromDay(NextMonthStart(MakeDay(y, m, d))) == 1900 + y + (if m == 11 then 1 else 0)
    ensures YearFromDay(PrevMonthStart(NextMonthStart(MakeDay(y, m, d)))) == 1900 + y != y
  {
    var t := MakeDay(y, m, d);
    CalendarDayOfMakeDay(y, m, d);
    NextMonthCalendarDay(t);
    PrevMonthCalendarDay(NextMonthStart(t));
  }

  // ---------------------------------------------------------------------
  // The calendar grid

  /** `n` blank cells. */
  function Blanks(n: nat): seq<Option<int>> {
    seq(n, _ => None)
  }

  /** Cells for the `n` consecutive days from `first` on. */
  function DayCells(first: int, n: nat): seq<Option<int>> {
    seq(n, k => Some(first + k))
  }

  /** `pad` blanks followed by the cells of the `n` days from `first` on. */
  function Grid(pad: nat, first: int, n: nat): seq<Option<int>> {
    Blanks(pad) + DayCells(first, n)
  }

  /** Cell by cell: blanks before `pad`, then day `first + (k - pad)` in cell `k`. */
  lemma GridCells(pad: nat, first: int, n: nat)
    ensures |Grid(pad, first, n)| == pad + n
    ensures forall k :: 0 <= k < pad ==> Grid(pad, first, n)[k] == None
    ensures forall k :: pad <= k < pad + n ==> Grid(pad, first, n)[k] == Some(first + (k - pad))
  {
  }

  /**
   * The grid of month `m` of year `y`: a blank for each weekday before the
   * 1st (the week starting on Sunday), then the days of the month.
   */
  function MonthGrid(y: int, m: int): seq<Option<int>>
    requires 0 <= m < 12
  {
    Grid(WeekDay(MakeDay(y, m, 1)), MakeDay(y, m, 1), DaysInMonth(y, m))
  }

  /** The grid has a blank per leading weekday and a cell per day of the month, the blanks first. */
  lemma MonthGridLayout(y: int, m: int)
    requires 0 <= m < 12
    ensures |MonthGrid(y, m)| == WeekDay(MakeDay(y, m, 1)) + DaysInMonth(y, m)
    ensures forall k :: 0 <= k < WeekDay(MakeDay(y, m, 1)) ==> MonthGrid(y, m)[k] == None
  {
    GridCells(WeekDay(MakeDay(y, m, 1)), MakeDay(y, m, 1), DaysInMonth(y, m));
  }

  /** Cell `pad + d - 1` of the grid shows day `d` of the month. */
  lemma MonthGridDays(y: int, m: int)
    requires 0 <= m < 12
    ensures forall k :: WeekDay(MakeDay(y, m, 1)) <= k < |MonthGrid(y, m)| ==>
      MonthGrid(y, m)[k].Some? && CalendarDay(MonthGrid(y, m)[k].value) == CivilDate(y, m, k - WeekDay(MakeDay(y, m, 1)) + 1)
  {
    var pad, first, n := WeekDay(MakeDay(y, m, 1)), MakeDay(y, m, 1), DaysInMonth(y, m);
    var grid := Grid(pad, first, n);
    assert MonthGrid(y, m) == grid;
    GridCells(pad, first, n);
    forall k | pad <= k < |grid|
      ensures grid[k].Some? && CalendarDay(grid[k].value) == CivilDate(y, m, k - pad + 1)
    {
      assert grid[k] == Some(first + (k - pad));
      CalendarDayOfMonthOffset(y, m, k - pad);
    }
  }

  /** After the blanks, the cells of a grid hold strictly ascending days. */
  lemma GridAscending(pad: nat, first: int, n: nat)
    ensures forall k1, k2 :: pad <= k1 < k2 < |Grid(pad, first, n)| ==>
      Grid(pad, first, n)[k1].Some? && Grid(pad, first, n)[k2].Some? && Grid(pad, first, n)[k1].value < Grid(pad, first, n)[k2].value
  {
    GridCells(pad, first, n);
    forall k1, k2 | pad <= k1 < k2 < |Grid(pad, first, n)|
      ensures Grid(pad, first, n)[k1].Some? && Grid(pad, first, n)[k2].Some? && Grid(pad, first, n)[k1].value < Grid(pad, first, n)[k2].value
    {
      assert Grid(pad, first, n)[k1] == Some(first + (k1 - pad));
      assert Grid(pad, first, n)[k2] == Some(first + (k2 - pad));
    }
  }

  /** The days of the month grid are in strictly ascending order. */
  lemma MonthGridAscending(y: int, m: int)
    requires 0 <= m < 12
    ensures forall k1, k2 :: WeekDay(MakeDay(y, m, 1)) <= k1 < k2 < |MonthGrid(y, m)| ==>
      MonthGrid(y, m)[k1].Some? && MonthGrid(y, m)[k2].Some? && MonthGrid(y, m)[k1].value < MonthGrid(y, m)[k2].value
  {
    var grid := Grid(WeekDay(MakeDay(y, m, 1)), MakeDay(y, m, 1), DaysInMonth(y, m));
    assert MonthGrid(y, m) == grid;
    GridAscending(WeekDay(MakeDay(y, m, 1)), MakeDay(y, m, 1), DaysInMonth(y, m));
  }

  /** A day appears in the grid exactly when it falls in that year and month. */
  lemma MonthGridMembership(y: int, m: int, t: int)
    requires 0 <= m < 12
    ensures Some(t) in MonthGrid(y, m) <==> YearFromDay(t) == y && MonthFromDay(t) == m
  {
    var grid, pad, first := MonthGrid(y, m), WeekDay(MakeDay(y, m, 1)), MakeDay(y, m, 1);
    GridCells(pad, first, DaysInMonth(y, m));
    MonthSpan(y, m, t);
    if first <= t < first + DaysInMonth(y, m) {
      assert grid[pad + (t - first)] == Some(t);
    }
    if Some(t) in grid {
      var k :| 0 <= k < |grid| && grid[k] == Some(t);
      assert pad <= k && t == first + (k - pad);
    }
  }

  /**
   * The grid built for the date `t` holds `t` itself exactly when the year of
   * `t` is one the constructor takes literally; for a year 0..99 it is the
   * grid of the same month of 1900..1999.
   */
  lemma SelectedDayShown(t: int)
    ensures Some(t) in MonthGrid(GridYear(t), MonthFromDay(t)) <==> KeepsYear(YearFromDay(t))
  {
    MonthGridMembership(GridYear(t), MonthFromDay(t), t);
  }

  /** The first loop of `getCalendarDays`: push `count` blank cells. */
  method PushBlanks(days0: seq<Option<int>>, count: nat) returns (days: seq<Option<int>>)
    ensures days == days0 + Blanks(count)
  {
    days := days0;
    var i := 0;
    while i < count
      invariant 0 <= i <= count
      invariant |days| == |days0| + i
      invariant forall k :: 0 <= k < |days0| ==> days[k] == days0[k]
      invariant forall k :: |days0| <= k < |days| ==> days[k] == None
    {
      days := days + [None];
      i := i + 1;
    }
    assert days == days0 + Blanks(count);
  }

  /**
   * The second loop of `getCalendarDays`: push `new Date(year, month, i)`
   * for i = 1..n, which are the `n` consecutive days from the 1st.
   */
  method PushDays(days0: seq<Option<int>>, year: int, month: int, n: nat) returns (days: seq<Option<int>>)
    ensures days == days0 + DayCells(NewDate(year, month, 1), n)
  {
    days := days0;
    ghost var y := ConstructorYear(year);
    ghost var first := MakeDay(y, month, 1);
    var i := 1;
    while i <= n
      invariant 1 <= i <= n + 1
      invariant |days| == |days0| + i - 1
      invariant forall k :: 0 <= k < |days0| ==> days[k] == days0[k]
      invariant forall k :: |days0| <= k < |days| ==> days[k] == Some(first + (k - |days0|))
    {
      ghost var cell := NewDate(year, month, i);
      assert cell == MakeDay(y, month, i);
      MakeDayOffset(y, month, i);
      days := days + [Some(NewDate(year, month, i))];
      i := i + 1;
    }
    assert days == days0 + DayCells(first, n);
  }

  class PeriodTracker {
    /** The date whose month the calendar shows. */
    var selectedDate: int
    var cycleLength: int
    var periodLength: int
    /** Marked period days, in the order they were marked. */
    var markedDates: seq<int>
    /** Whether the setup form is shown instead of the calendar. */
    var showSetup: bool

    /** The invariant kept by every handler: no two marked entries share a calendar day. */
    ghost predicate Valid()
      reads this`markedDates
    {
      Distinct(markedDates)
    }

    /** The initial state; `today` stands for `new Date()`, read from the clock. */
    constructor (today: int)
      ensures selectedDate == today
      ensures cycleLength == DefaultCycleLength && periodLength == DefaultPeriodLength
      ensures markedDates == [] && showSetup
      ensures Valid()
    {
      selectedDate := today;
      cycleLength := DefaultCycleLength;
      periodLength := DefaultPeriodLength;
      markedDates := [];
      showSetup := true;
    }

    /** The period-length field of the setup form (no range check is made). */
    method SetPeriodLength(n: int)
      modifies this`periodLength
      ensures periodLength == n
    {
      periodLength := n;
    }

    /** The cycle-length field of the setup form (no range check is made). */
    method SetCycleLength(n: int)
      modifies this`cycleLength
      ensures cycleLength == n
    {
      cycleLength := n;
    }

    /** The "Start Tracking" button. */
    method StartTracking()
      modifies this`showSetup
      ensures !showSetup
    {
      showSetup := false;
    }

    /**
     * The cells of the displayed month: the grid of the month (MonthGrid)
     * in which `new Date(getFullYear(), getMonth(), 1)` lands; see
     * MonthGridLayout, MonthGridDays, MonthGridAscending,
     * MonthGridMembership and SelectedDayShown for what it holds.
     */
    method GetCalendarDays() returns (days: seq<Option<int>>)
      ensures days == MonthGrid(GridYear(selectedDate), MonthFromDay(selectedDate))
      ensures Some(selectedDate) in days <==> KeepsYear(YearFromDay(selectedDate))
    {
      var year := YearFromDay(selectedDate);
      var month := MonthFromDay(selectedDate);
      var firstDay := NewDate(year, month, 1);
      var lastDay := NewDate(year, month + 1, 0);
      ghost var y := GridYear(selectedDate);
      days := [];
      var startPadding := WeekDay(firstDay);
      days := PushBlanks(days, startPadding);
      LastDayOfMonth(y, month);
      days := PushDays(days, year, month, DateFromDay(lastDay));
      assert [] + Blanks(startPadding) == Blanks(startPadding);
      assert days == Grid(startPadding, firstDay, DaysInMonth(y, month));
      SelectedDayShown(selectedDate);
    }

    /**
     * `getPredictedDates(startDate)`: three cycles of `periodLength` days,
     * moving one date forward with `setDate`.
     */
    method GetPredictedDates(startDate: int) returns (predictions: seq<int>)
      ensures predictions == PredictedDates(startDate, periodLength, cycleLength)
      ensures |predictions| == if periodLength <= 0 then 0 else 3 * periodLength
      ensures forall d :: d in predictions <==> InPredictedWindow(startDate, periodLength, cycleLength, d)
    {
      predictions := [];
      var current := startDate;
      for i := 0 to CyclesAhead
        invariant predictions == Cycles(startDate, periodLength, cycleLength, i)
        invariant periodLength > 0 ==> current == startDate + i * cycleLength
      {
        ghost var cycleStart := current;
        var j := 0;
        while j < periodLength
          invariant 0 <= j <= if periodLength > 0 then periodLength else 0
          invariant current == cycleStart + j
          invariant predictions == Cycles(startDate, periodLength, cycleLength, i) + Run(cycleStart, j)
        {
          predictions := predictions + [current];
          current := AdvanceDays(current, 1);
          j := j + 1;
        }
        current := AdvanceDays(current, cycleLength - periodLength);
        assert (i + 1) * cycleLength == i * cycleLength + cycleLength;
      }
      PredictedDatesShape(startDate, periodLength, cycleLength);
      forall d ensures d in predictions <==> InPredictedWindow(startDate, periodLength, cycleLength, d) {
        PredictedMembership(startDate, periodLength, cycleLength, d);
      }
    }

    /**
     * `toggleDate(date)`: a blank cell changes nothing, a marked day is
     * removed, an unmarked day is appended and becomes the prediction anchor.
     */
    method ToggleDate(date: Option<int>)
      modifies this`markedDates
      ensures markedDates == Toggled(old(markedDates), date, CalendarDay)
      ensures old(Valid()) ==> Valid()
      ensures date.Some? ==> forall d :: d in markedDates <==> (if d == date.value then d !in old(markedDates) else d in old(markedDates))
      ensures date.Some? && date.value !in old(markedDates) ==> markedDates == old(markedDates) + [date.value]
      ensures old(Valid()) && date.Some? && date.value in old(markedDates) ==> |markedDates| == |old(markedDates)| - 1
    {
      if date.Some? {
        var x := date.value;
        if AnySameDay(markedDates, x, CalendarDay) {
          markedDates := WithoutDay(markedDates, x, CalendarDay);
        } else {
          markedDates := markedDates + [x];
        }
      }
      CalendarDayInjective();
      if old(Valid()) {
        ToggledDistinct(old(markedDates), date, CalendarDay);
        if date.Some? && date.value in old(markedDates) {
          WithoutDayLength(old(markedDates), date.value, CalendarDay);
        }
      }
      if date.Some? {
        AnySameDayIff(old(markedDates), date.value, CalendarDay);
        forall d ensures d in markedDates <==> (if d == date.value then d !in old(markedDates) else d in old(markedDates)) {
          ToggledMembership(old(markedDates), date.value, d, CalendarDay);
        }
      }
    }

    /** The next-month button. */
    method NextMonth()
      modifies this`selectedDate
      ensures selectedDate == NextMonthStart(old(selectedDate))
      ensures CalendarDay(selectedDate) ==
        if MonthFromDay(old(selectedDate)) == 11 then CivilDate(GridYear(old(selectedDate)) + 1, 0, 1)
        else CivilDate(GridYear(old(selectedDate)), MonthFromDay(old(selectedDate)) + 1, 1)
    {
      NextMonthCalendarDay(selectedDate);
      selectedDate := NewDate(YearFromDay(selectedDate), MonthFromDay(selectedDate) + 1, 1);
    }

    /** The previous-month button. */
    method PrevMonth()
      modifies this`selectedDate
      ensures selectedDate == PrevMonthStart(old(selectedDate))
      ensures CalendarDay(selectedDate) ==
        if MonthFromDay(old(selectedDate)) == 0 then CivilDate(GridYear(old(selectedDate)) - 1, 11, 1)
        else CivilDate(GridYear(old(selectedDate)), MonthFromDay(old(selectedDate)) - 1, 1)
    {
      PrevMonthCalendarDay(selectedDate);
      selectedDate := NewDate(YearFromDay(selectedDate), MonthFromDay(selectedDate) - 1, 1);
    }

    /** `isDateMarked(date)`: the cell holds a day that is marked; nothing else is read. */
    function IsDateMarked(date: Option<int>): (r: bool)
      reads this`markedDates
      ensures r <==> date.Some? && date.value in markedDates
    {
      if date.None? then false
      else
        CalendarDayInjective();
        AnySameDayIff(markedDates, date.value, CalendarDay);
        AnySameDay(markedDates, date.value, CalendarDay)
    }

    /**
     * `isPredicted(date)`: the cell holds a day of one of the three cycles
     * predicted from the last entry of the marked list.
     */
    function IsPredicted(date: Option<int>): (r: bool)
      reads this`markedDates, this`periodLength, this`cycleLength
      ensures r <==> (date.Some? && markedDates != [] &&
                      InPredictedWindow(markedDates[|markedDates| - 1], periodLength, cycleLength, date.value))
    {
      if date.None? || |markedDates| == 0 then false
      else
        var anchor := markedDates[|markedDates| - 1];
        var predictions := PredictedDates(anchor, periodLength, cycleLength);
        CalendarDayInjective();
        AnySameDayIff(predictions, date.value, CalendarDay);
        PredictedMembership(anchor, periodLength, cycleLength, date.value);
        AnySameDay(predictions, date.value, CalendarDay)
    }
  }

  /** With at least one period day, the last marked day is itself shown as predicted. */
  lemma LastMarkedIsPredicted(tracker: PeriodTracker)
    requires tracker.markedDates != [] && tracker.periodLength >= 1
    ensures tracker.IsPredicted(Some(tracker.markedDates[|tracker.markedDates| - 1]))
  {
    var anchor := tracker.markedDates[|tracker.markedDates| - 1];
    AnchorIsPredicted(anchor, tracker.periodLength, tracker.cycleLength);
    PredictedMembership(anchor, tracker.periodLength, tracker.cycleLength, anchor);
  }
}
