/**
 * The predicted period days: from an anchor date, the next three cycles,
 * each `periodLength` consecutive days, with cycle starts `cycleLength`
 * days apart. These functions specify what the tracker's prediction loop
 * computes (Tracker.PeriodTracker.GetPredictedDates).
 */
module Predictions {
  import opened Calendar

  /** Number of cycles the tracker predicts. */
  const CyclesAhead: nat := 3

  /** `count` consecutive days starting at `first`; none when `count <= 0`. */
  function Run(first: int, count: int): seq<int>
    decreases count
  {
    if count <= 0 then [] else Run(first, count - 1) + [first + count - 1]
  }

  /** The predicted days of the first `k` cycles after `anchor`. */
  function Cycles(anchor: int, periodLength: int, cycleLength: int, k: nat): seq<int> {
    if k == 0 then []
    else Cycles(anchor, periodLength, cycleLength, k - 1) + Run(anchor + (k - 1) * cycleLength, periodLength)
  }

  /** `getPredictedDates(anchor)`, as a value. */
  function PredictedDates(anchor: int, periodLength: int, cycleLength: int): seq<int> {
    Cycles(anchor, periodLength, cycleLength, CyclesAhead)
  }

  /** Day `j` of the `i`-th predicted period. */
  function PredictedDay(anchor: int, cycleLength: int, i: int, j: int): int {
    anchor + i * cycleLength + j
  }

  /** `d` is day `j < periodLength` of one of the predicted cycles `i < CyclesAhead`. */
  predicate InPredictedWindow(anchor: int, periodLength: int, cycleLength: int, d: int) {
    exists i, j :: 0 <= i < CyclesAhead && 0 <= j < periodLength && d == PredictedDay(anchor, cycleLength, i, j)
  }

  /** A run holds exactly the days first, first+1, ..., first+count-1, in this order. */
  lemma {:induction false} RunShape(first: int, count: int)
    ensures |Run(first, count)| == if count <= 0 then 0 else count
    ensures forall j :: 0 <= j < |Run(first, count)| ==> Run(first, count)[j] == first + j
    decreases count
  {
    if count > 0 {
      RunShape(first, count - 1);
    }
  }

  /** Membership in a run, as a range of days. */
  lemma RunMembership(first: int, count: int, d: int)
    ensures d in Run(first, count) <==> first <= d < first + count
  {
    RunShape(first, count);
    if first <= d < first + count {
      assert Run(first, count)[d - first] == d;
    }
  }

  /** The first `k` cycles hold `k * periodLength` days. */
  lemma {:induction false} CyclesLength(anchor: int, periodLength: int, cycleLength: int, k: nat)
    ensures |Cycles(anchor, periodLength, cycleLength, k)| == if periodLength <= 0 then 0 else k * periodLength
  {
    if k > 0 {
      CyclesLength(anchor, periodLength, cycleLength, k - 1);
      RunShape(anchor + (k - 1) * cycleLength, periodLength);
      assert (k - 1) * periodLength + periodLength == k * periodLength;
    }
  }

  /** Entry `(k - 1) * periodLength + j` of the first `k` cycles is day `j` of the last of them. */
  lemma LastCycleEntry(anchor: int, periodLength: int, cycleLength: int, k: nat, j: int)
    requires 0 < k && 0 <= j < periodLength
    ensures (k - 1) * periodLength + j < |Cycles(anchor, periodLength, cycleLength, k)|
    ensures Cycles(anchor, periodLength, cycleLength, k)[(k - 1) * periodLength + j] == PredictedDay(anchor, cycleLength, k - 1, j)
  {
    var prefix := Cycles(anchor, periodLength, cycleLength, k - 1);
    var run := Run(anchor + (k - 1) * cycleLength, periodLength);
    assert Cycles(anchor, periodLength, cycleLength, k) == prefix + run;
    CyclesLength(anchor, periodLength, cycleLength, k - 1);
    RunShape(anchor + (k - 1) * cycleLength, periodLength);
    assert (prefix + run)[|prefix| + j] == run[j];
  }

  /** An entry of the first `k - 1` cycles keeps its place when cycle `k` is appended. */
  lemma EarlierCycleEntry(anchor: int, periodLength: int, cycleLength: int, k: nat, index: int)
    requires 0 < k && 0 <= index < |Cycles(anchor, periodLength, cycleLength, k - 1)|
    ensures index < |Cycles(anchor, periodLength, cycleLength, k)|
    ensures Cycles(anchor, periodLength, cycleLength, k)[index] == Cycles(anchor, periodLength, cycleLength, k - 1)[index]
  {
    var prefix := Cycles(anchor, periodLength, cycleLength, k - 1);
    var run := Run(anchor + (k - 1) * cycleLength, periodLength);
    assert Cycles(anchor, periodLength, cycleLength, k) == prefix + run;
  }

  /** Entry `i * periodLength + j` of the first `k` cycles is day `j` of cycle `i`. */
  lemma {:induction false} CyclesEntry(anchor: int, periodLength: int, cycleLength: int, k: nat, i: int, j: int)
    requires 0 <= i < k && 0 <= j < periodLength
    ensures i * periodLength + j < |Cycles(anchor, periodLength, cycleLength, k)|
    ensures Cycles(anchor, periodLength, cycleLength, k)[i * periodLength + j] == PredictedDay(anchor, cycleLength, i, j)
  {
    if i < k - 1 {
      CyclesEntry(anchor, periodLength, cycleLength, k - 1, i, j);
      EarlierCycleEntry(anchor, periodLength, cycleLength, k, i * periodLength + j);
    } else {
      LastCycleEntry(anchor, periodLength, cycleLength, k, j);
    }
  }

  /** Membership in the first `k` cycles: `d` is day `j` of some cycle `i < k`. */
  lemma {:induction false} CyclesMembership(anchor: int, periodLength: int, cycleLength: int, k: nat, d: int)
    ensures d in Cycles(anchor, periodLength, cycleLength, k) <==>
      exists i, j :: 0 <= i < k && 0 <= j < periodLength && d == PredictedDay(anchor, cycleLength, i, j)
  {
    if k > 0 {
      var first := anchor + (k - 1) * cycleLength;
      var prefix, run := Cycles(anchor, periodLength, cycleLength, k - 1), Run(first, periodLength);
      assert Cycles(anchor, periodLength, cycleLength, k) == prefix + run;
      CyclesMembership(anchor, periodLength, cycleLength, k - 1, d);
      RunMembership(first, periodLength, d);
      if d in run {
        assert d == PredictedDay(anchor, cycleLength, k - 1, d - first);
      } else if d !in prefix {
        forall i, j | 0 <= i < k && 0 <= j < periodLength
          ensures d != PredictedDay(anchor, cycleLength, i, j)
        {
          if i == k - 1 {
            assert PredictedDay(anchor, cycleLength, i, j) == first + j;
          }
        }
      }
    }
  }

  /**
   * The prediction formula: 3 * periodLength days (none when periodLength <= 0),
   * entry i * periodLength + j being anchor + i * cycleLength + j.
   */
  lemma PredictedDatesShape(anchor: int, periodLength: int, cycleLength: int)
    ensures |PredictedDates(anchor, periodLength, cycleLength)| == if periodLength <= 0 then 0 else 3 * periodLength
    ensures forall i, j :: 0 <= i < 3 && 0 <= j < periodLength ==>
      PredictedDates(anchor, periodLength, cycleLength)[i * periodLength + j] == PredictedDay(anchor, cycleLength, i, j)
  {
    CyclesLength(anchor, periodLength, cycleLength, CyclesAhead);
    forall i, j | 0 <= i < 3 && 0 <= j < periodLength
      ensures PredictedDates(anchor, periodLength, cycleLength)[i * periodLength + j] == PredictedDay(anchor, cycleLength, i, j)
    {
      CyclesEntry(anchor, periodLength, cycleLength, CyclesAhead, i, j);
    }
  }

  /** A day is predicted exactly when it lies in one of the predicted windows. */
  lemma PredictedMembership(anchor: int, periodLength: int, cycleLength: int, d: int)
    ensures d in PredictedDates(anchor, periodLength, cycleLength) <==> InPredictedWindow(anchor, periodLength, cycleLength, d)
  {
    CyclesMembership(anchor, periodLength, cycleLength, CyclesAhead, d);
  }

  /** With at least one period day, the anchor itself is predicted. */
  lemma AnchorIsPredicted(anchor: int, periodLength: int, cycleLength: int)
    requires periodLength >= 1
    ensures anchor in PredictedDates(anchor, periodLength, cycleLength)
  {
    PredictedMembership(anchor, periodLength, cycleLength, anchor);
    assert anchor == PredictedDay(anchor, cycleLength, 0, 0);
  }

  /**
   * The default setup (periods of 5 days, cycles of 28) anchored on January 1st
   * of a leap year: the third predicted period runs from February 26th over
   * the leap day to March 1st, and March 2nd is not predicted.
   */
  lemma LeapYearExample(y: int)
    requires IsLeapYear(y)
    ensures MakeDay(y, 1, 29) in PredictedDates(MakeDay(y, 0, 1), 5, 28)
    ensures MakeDay(y, 2, 1) in PredictedDates(MakeDay(y, 0, 1), 5, 28)
    ensures MakeDay(y, 2, 2) !in PredictedDates(MakeDay(y, 0, 1), 5, 28)
  {
    var anchor := MakeDay(y, 0, 1);
    MakeDayInYear(y, 0, 1);
    MakeDayInYear(y, 1, 29);
    MakeDayInYear(y, 2, 1);
    MakeDayInYear(y, 2, 2);
    PredictedMembership(anchor, 5, 28, MakeDay(y, 1, 29));
    PredictedMembership(anchor, 5, 28, MakeDay(y, 2, 1));
    PredictedMembership(anchor, 5, 28, MakeDay(y, 2, 2));
    assert MakeDay(y, 1, 29) == PredictedDay(anchor, 28, 2, 3);
    assert MakeDay(y, 2, 1) == PredictedDay(anchor, 28, 2, 4);
  }

  /** In a common year the same third period runs from February 26th to March 2nd. */
  lemma CommonYearExample(y: int)
    requires !IsLeapYear(y)
    ensures MakeDay(y, 2, 2) in PredictedDates(MakeDay(y, 0, 1), 5, 28)
    ensures MakeDay(y, 2, 3) !in PredictedDates(MakeDay(y, 0, 1), 5, 28)
  {
    var anchor := MakeDay(y, 0, 1);
    MakeDayInYear(y, 0, 1);
    MakeDayInYear(y, 2, 2);
    MakeDayInYear(y, 2, 3);
    PredictedMembership(anchor, 5, 28, MakeDay(y, 2, 2));
    PredictedMembership(anchor, 5, 28, MakeDay(y, 2, 3));
    assert MakeDay(y, 2, 2) == PredictedDay(anchor, 28, 2, 4);
  }
}
