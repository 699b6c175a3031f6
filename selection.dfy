/**
 * The list of marked period days and the toggle that edits it.
 *
 * Marked dates are kept in the order they were added. Dates are compared
 * through a key that stands for `toDateString`: the tracker passes
 * Calendar.CalendarDay, which is injective (CalendarDayInjective), so the
 * lemmas below assume only that the key is injective. Keeping the key a
 * parameter also keeps the calendar arithmetic out of these proofs.
 * A grid cell is either a date or the `null` of a leading blank.
 */
module Selection {
  import opened Calendar

  datatype Option<T> = None | Some(value: T)

  /** A key that tells different days apart. */
  ghost predicate Injective(key: int -> CivilDate) {
    forall a, b :: key(a) == key(b) ==> a == b
  }

  /** The `toDateString` key of the tracker tells different days apart. */
  lemma CalendarDayInjective()
    ensures Injective(CalendarDay)
  {
    forall a, b | CalendarDay(a) == CalendarDay(b) ensures a == b {
      SameCalendarDayIff(a, b);
    }
  }

  /** `dates.some(d => d.toDateString() === x.toDateString())` */
  function AnySameDay(dates: seq<int>, x: int, key: int -> CivilDate): bool {
    if dates == [] then false
    else key(dates[0]) == key(x) || AnySameDay(dates[1..], x, key)
  }

  /** `dates.filter(d => d.toDateString() !== x.toDateString())` */
  function WithoutDay(dates: seq<int>, x: int, key: int -> CivilDate): seq<int> {
    if dates == [] then []
    else if key(dates[0]) == key(x) then WithoutDay(dates[1..], x, key)
    else [dates[0]] + WithoutDay(dates[1..], x, key)
  }

  /**
   * The marked list after `toggleDate(date)`: a blank cell changes nothing,
   * a marked day is filtered out, an unmarked day is appended at the end.
   */
  function Toggled(dates: seq<int>, date: Option<int>, key: int -> CivilDate): seq<int> {
    match date
    case None => dates
    case Some(x) => if AnySameDay(dates, x, key) then WithoutDay(dates, x, key) else dates + [x]
  }

  /** No two entries share a calendar day. */
  predicate Distinct(dates: seq<int>) {
    forall i, j :: 0 <= i < j < |dates| ==> dates[i] != dates[j]
  }

  /** The calendar-day search is plain membership. */
  lemma {:induction false} AnySameDayIff(dates: seq<int>, x: int, key: int -> CivilDate)
    requires Injective(key)
    ensures AnySameDay(dates, x, key) <==> x in dates
  {
    if dates != [] {
      assert key(dates[0]) == key(x) <==> dates[0] == x;
      AnySameDayIff(dates[1..], x, key);
      assert dates == [dates[0]] + dates[1..];
    }
  }

  /** Filtering keeps every other day with its multiplicity and drops every copy of `x`. */
  lemma {:induction false} WithoutDayContents(dates: seq<int>, x: int, key: int -> CivilDate)
    requires Injective(key)
    ensures multiset(WithoutDay(dates, x, key)) == multiset(dates)[x := 0]
    ensures x !in WithoutDay(dates, x, key)
  {
    if dates != [] {
      assert key(dates[0]) == key(x) <==> dates[0] == x;
      WithoutDayContents(dates[1..], x, key);
      assert dates == [dates[0]] + dates[1..];
      assert multiset(dates) == multiset{dates[0]} + multiset(dates[1..]);
      assert x !in multiset(WithoutDay(dates, x, key));
    }
  }

  /** One step of the filter, on a list written as head and tail. */
  lemma WithoutDayCons(h: int, rest: seq<int>, x: int, key: int -> CivilDate)
    requires Injective(key)
    ensures WithoutDay([h] + rest, x, key) == (if h == x then [] else [h]) + WithoutDay(rest, x, key)
  {
    assert ([h] + rest)[0] == h && ([h] + rest)[1..] == rest;
  }

  /** Filtering distributes over concatenation, so the survivors keep their order. */
  lemma {:induction false} WithoutDayAppend(a: seq<int>, b: seq<int>, x: int, key: int -> CivilDate)
    requires Injective(key)
    ensures WithoutDay(a + b, x, key) == WithoutDay(a, x, key) + WithoutDay(b, x, key)
  {
    if a == [] {
      assert a + b == b;
    } else {
      var h := if a[0] == x then [] else [a[0]];
      assert a == [a[0]] + a[1..];
      assert a + b == [a[0]] + (a[1..] + b);
      WithoutDayCons(a[0], a[1..] + b, x, key);
      WithoutDayCons(a[0], a[1..], x, key);
      WithoutDayAppend(a[1..], b, x, key);
    }
  }

  /** Filtering out a day that is not there changes nothing. */
  lemma {:induction false} WithoutAbsentDay(dates: seq<int>, x: int, key: int -> CivilDate)
    requires Injective(key)
    requires x !in dates
    ensures WithoutDay(dates, x, key) == dates
  {
    if dates != [] {
      assert key(dates[0]) == key(x) <==> dates[0] == x;
      WithoutAbsentDay(dates[1..], x, key);
      assert dates == [dates[0]] + dates[1..];
    }
  }

  /** Filtering keeps the list free of repeated days. */
  lemma {:induction false} WithoutDayDistinct(dates: seq<int>, x: int, key: int -> CivilDate)
    requires Injective(key)
    requires Distinct(dates)
    ensures Distinct(WithoutDay(dates, x, key))
  {
    if dates != [] {
      WithoutDayDistinct(dates[1..], x, key);
      WithoutDayContents(dates[1..], x, key);
      var rest := WithoutDay(dates[1..], x, key);
      assert dates[0] !in dates[1..];
      assert dates[0] !in multiset(rest);
    }
  }

  /** In a list without repeats, filtering out a member removes exactly one entry. */
  lemma {:induction false} WithoutDayLength(dates: seq<int>, x: int, key: int -> CivilDate)
    requires Injective(key)
    requires Distinct(dates) && x in dates
    ensures |WithoutDay(dates, x, key)| == |dates| - 1
  {
    assert key(dates[0]) == key(x) <==> dates[0] == x;
    assert dates == [dates[0]] + dates[1..];
    if dates[0] == x {
      assert x !in dates[1..];
      WithoutAbsentDay(dates[1..], x, key);
    } else {
      WithoutDayLength(dates[1..], x, key);
    }
  }

  /** Toggling a day flips its membership and leaves every other day as it was. */
  lemma ToggledMembership(dates: seq<int>, x: int, y: int, key: int -> CivilDate)
    requires Injective(key)
    ensures y in Toggled(dates, Some(x), key) <==> (if y == x then x !in dates else y in dates)
  {
    AnySameDayIff(dates, x, key);
    WithoutDayContents(dates, x, key);
    if x in dates {
      assert y in WithoutDay(dates, x, key) <==> y in multiset(WithoutDay(dates, x, key));
    }
  }

  /** Toggling keeps the invariant that no two marked entries share a calendar day. */
  lemma ToggledDistinct(dates: seq<int>, date: Option<int>, key: int -> CivilDate)
    requires Injective(key)
    requires Distinct(dates)
    ensures Distinct(Toggled(dates, date, key))
  {
    if date.Some? {
      AnySameDayIff(dates, date.value, key);
      if date.value in dates {
        WithoutDayDistinct(dates, date.value, key);
      }
    }
  }

  /** A newly marked day is appended, so it becomes the last entry, the anchor of the prediction. */
  lemma ToggledAbsentIsLast(dates: seq<int>, x: int, key: int -> CivilDate)
    requires Injective(key)
    requires x !in dates
    ensures Toggled(dates, Some(x), key) == dates + [x]
  {
    AnySameDayIff(dates, x, key);
  }

  /** Toggling an unmarked day twice restores the exact list. */
  lemma ToggleTwiceAbsent(dates: seq<int>, x: int, key: int -> CivilDate)
    requires Injective(key)
    requires x !in dates
    ensures Toggled(Toggled(dates, Some(x), key), Some(x), key) == dates
  {
    AnySameDayIff(dates, x, key);
    AnySameDayIff(dates + [x], x, key);
    WithoutDayAppend(dates, [x], x, key);
    WithoutAbsentDay(dates, x, key);
    WithoutDayCons(x, [], x, key);
    assert [x] + [] == [x];
  }

  /**
   * Toggling a marked day twice restores the same days, with that day moved
   * to the end; on a list without repeats the contents are unchanged as a multiset.
   */
  lemma ToggleTwicePresent(dates: seq<int>, x: int, key: int -> CivilDate)
    requires Injective(key)
    requires x in dates
    ensures Toggled(Toggled(dates, Some(x), key), Some(x), key) == WithoutDay(dates, x, key) + [x]
    ensures forall y :: y in Toggled(Toggled(dates, Some(x), key), Some(x), key) <==> y in dates
    ensures Distinct(dates) ==> multiset(Toggled(Toggled(dates, Some(x), key), Some(x), key)) == multiset(dates)
  {
    AnySameDayIff(dates, x, key);
    WithoutDayContents(dates, x, key);
    var once := WithoutDay(dates, x, key);
    AnySameDayIff(once, x, key);
    var twice := once + [x];
    assert Toggled(once, Some(x), key) == twice;
    forall y ensures y in twice <==> y in dates {
      assert y in once <==> y in multiset(once);
    }
    if Distinct(dates) {
      DistinctCount(dates, x);
      assert multiset(twice) == multiset(once) + multiset{x};
    }
  }

  /** In a list without repeats a member occurs once. */
  lemma {:induction false} DistinctCount(dates: seq<int>, x: int)
    requires Distinct(dates) && x in dates
    ensures multiset(dates)[x] == 1
  {
    assert dates == [dates[0]] + dates[1..];
    assert multiset(dates) == multiset{dates[0]} + multiset(dates[1..]);
    if dates[0] == x {
      assert x !in dates[1..];
    } else {
      DistinctCount(dates[1..], x);
    }
  }
}
