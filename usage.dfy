/**
 * `ESBData`: the rows of the meter's half-hourly download and the six usage
 * totals the sensors show. A total keeps the rows whose end time is at or
 * after the start of its window and adds up their readings.
 *
 * Python's `strptime` raises `ValueError` for a row whose time it cannot
 * read, and it is called on every row, so one bad row makes every total
 * raise; here every total is then `None`.
 */
module Usage {
  import opened Wrappers
  import opened Calendar
  import opened ReadTimestamp
  import opened Windows

  /** One row of the download: `Read Date and End Time` as written, and `Read Value` in kWh. */
  datatype Reading = Reading(readDateAndEndTime: string, readValue: real)

  predicate Readable(row: Reading) {
    Parse(row.readDateAndEndTime).Some?
  }

  /** Every row's time reads; checked row by row, as the loop over the rows does. */
  predicate AllReadable(rows: seq<Reading>) {
    rows == [] || (Readable(rows[0]) && AllReadable(rows[1..]))
  }

  lemma {:induction false} AllReadableEveryRow(rows: seq<Reading>)
    ensures AllReadable(rows) <==> forall i :: 0 <= i < |rows| ==> Readable(rows[i])
  {
    if rows != [] {
      AllReadableEveryRow(rows[1..]);
      assert forall i :: 1 <= i < |rows| ==> rows[i] == rows[1..][i - 1];
    }
  }

  /** `strptime(row['Read Date and End Time'], '%d-%m-%Y %H:%M') >= since`, for a row that reads. */
  predicate InWindow(row: Reading, since: DateTime) {
    var t := Parse(row.readDateAndEndTime);
    t.Some? && AtOrAfter(t.value, since)
  }

  /** The instant a readable row ends at. */
  function EndInstant(row: Reading): int
    requires Readable(row)
  {
    Parse(row.readDateAndEndTime).value.ToMicros()
  }

  /**
   * A row is in the window exactly when it ends at or after the window's
   * start: the bound is inclusive.
   */
  lemma InWindowIffAtOrAfterStart(row: Reading, since: DateTime)
    requires since.Valid()
    ensures InWindow(row, since) <==> Readable(row) && EndInstant(row) >= since.ToMicros()
  {
    if Readable(row) {
      AtOrAfterIffNotEarlier(Parse(row.readDateAndEndTime).value, since);
    }
  }

  /**
   * `__get_data_since`: the rows in the window, in their order, or `None`
   * when some row's time does not read.
   */
  function DataSince(rows: seq<Reading>, since: DateTime): (r: Option<seq<Reading>>)
    ensures r.Some? <==> AllReadable(rows)
  {
    if rows == [] then Some([])
    else if !Readable(rows[0]) then None
    else
      match DataSince(rows[1..], since)
      case None => None
      case Some(rest) =>
        if InWindow(rows[0], since) then Some([rows[0]] + rest) else Some(rest)
  }

  /**
   * The rows selected are exactly the rows of the download in the window, as
   * often as they occur there, and in their order.
   */
  lemma {:induction false} DataSinceSelects(rows: seq<Reading>, since: DateTime)
    requires AllReadable(rows)
    ensures var selected := DataSince(rows, since).value;
            && (forall row :: multiset(selected)[row]
                              == if InWindow(row, since) then multiset(rows)[row] else 0)
            && Subsequence(selected, rows)
  {
    if rows != [] {
      DataSinceSelects(rows[1..], since);
      var rest := DataSince(rows[1..], since).value;
      var selected := DataSince(rows, since).value;
      assert rows == [rows[0]] + rows[1..];
      if InWindow(rows[0], since) {
        assert selected == [rows[0]] + rest;
        assert selected[1..] == rest;
      } else {
        assert selected == rest;
      }
    }
  }

  /** `xs` is `ys` with some elements left out and the rest kept in order. */
  predicate Subsequence<T(==)>(xs: seq<T>, ys: seq<T>)
    decreases |ys|
  {
    if xs == [] then true
    else if ys == [] then false
    else if xs[0] == ys[0] then Subsequence(xs[1..], ys[1..])
    else Subsequence(xs, ys[1..])
  }

  /** `sum(float(row['Read Value']) for row in rows)`. */
  function SumValues(rows: seq<Reading>): real {
    if rows == [] then 0.0 else rows[0].readValue + SumValues(rows[1..])
  }

  /** `__sum_data_since`. */
  function SumSince(rows: seq<Reading>, since: DateTime): (r: Option<real>)
    ensures r.Some? <==> AllReadable(rows)
  {
    match DataSince(rows, since)
    case None => None
    case Some(selected) => Some(SumValues(selected))
  }

  /**
   * The total from an instant on, stated on instants in one pass over the
   * rows: the reference the totals are proved equal to.
   */
  function Total(rows: seq<Reading>, start: int): Option<real> {
    if rows == [] then Some(0.0)
    else if !Readable(rows[0]) then None
    else
      match Total(rows[1..], start)
      case None => None
      case Some(rest) =>
        Some(if EndInstant(rows[0]) >= start then rows[0].readValue + rest else rest)
  }

  // ---------------------------------------------------------------------
  // Sums

  lemma {:induction false} SumValuesAppend(xs: seq<Reading>, ys: seq<Reading>)
    ensures SumValues(xs + ys) == SumValues(xs) + SumValues(ys)
  {
    if xs == [] {
      assert xs + ys == ys;
    } else {
      SumValuesAppend(xs[1..], ys);
      assert (xs + ys)[1..] == xs[1..] + ys;
    }
  }

  /** The sum of the readings does not depend on the order of the rows. */
  lemma {:induction false} SumValuesPermutation(xs: seq<Reading>, ys: seq<Reading>)
    requires multiset(xs) == multiset(ys)
    ensures SumValues(xs) == SumValues(ys)
    decreases |xs|
  {
    if xs != [] {
      var x := xs[0];
      assert x in multiset(ys);
      var k :| 0 <= k < |ys| && ys[k] == x;
      var rest := ys[..k] + ys[k + 1..];
      RemoveOne(ys, k);
      SumValuesRemove(ys, k);
      assert xs == [x] + xs[1..];
      assert multiset(xs) == multiset{x} + multiset(xs[1..]);
      Cancel(multiset(xs[1..]), multiset(rest), x);
      SumValuesPermutation(xs[1..], rest);
    }
  }

  lemma Cancel(a: multiset<Reading>, b: multiset<Reading>, x: Reading)
    requires multiset{x} + a == multiset{x} + b
    ensures a == b
  {
    assert forall row :: a[row] == (multiset{x} + a)[row] - multiset{x}[row];
    assert forall row :: b[row] == (multiset{x} + b)[row] - multiset{x}[row];
  }

  /** Taking the row at `k` out of `ys` takes one occurrence of it out of the multiset. */
  lemma RemoveOne(ys: seq<Reading>, k: int)
    requires 0 <= k < |ys|
    ensures multiset(ys) == multiset{ys[k]} + multiset(ys[..k] + ys[k + 1..])
  {
    var pre, post := ys[..k], ys[k + 1..];
    assert ys == pre + [ys[k]] + post;
  }

  /** Taking the row at `k` out of `ys` takes its reading out of the sum. */
  lemma SumValuesRemove(ys: seq<Reading>, k: int)
    requires 0 <= k < |ys|
    ensures SumValues(ys) == ys[k].readValue + SumValues(ys[..k] + ys[k + 1..])
  {
    var pre, post := ys[..k], ys[k + 1..];
    var tail := [ys[k]] + post;
    assert ys == pre + tail;
    assert tail[1..] == post;
    SumValuesAppend(pre, tail);
    SumValuesAppend(pre, post);
  }

  // ---------------------------------------------------------------------
  // Properties of the totals

  /** Summing the selected rows is the total from the window's start instant. */
  lemma {:induction false} SumSinceIsTotal(rows: seq<Reading>, since: DateTime)
    requires since.Valid()
    ensures SumSince(rows, since) == Total(rows, since.ToMicros())
  {
    if rows != [] && Readable(rows[0]) {
      SumSinceIsTotal(rows[1..], since);
      InWindowIffAtOrAfterStart(rows[0], since);
      var rest := DataSince(rows[1..], since);
      if rest.Some? && InWindow(rows[0], since) {
        var selected := [rows[0]] + rest.value;
        assert selected[1..] == rest.value;
      }
    }
  }

  /** Reordering the rows leaves every total unchanged. */
  lemma SumSinceOrderIndependent(rows1: seq<Reading>, rows2: seq<Reading>, since: DateTime)
    requires multiset(rows1) == multiset(rows2)
    ensures SumSince(rows1, since) == SumSince(rows2, since)
  {
    SameRows(rows1, rows2);
    if AllReadable(rows1) {
      SelectionPermuted(rows1, rows2, since);
      SumValuesPermutation(DataSince(rows1, since).value, DataSince(rows2, since).value);
    }
  }

  /** Reordering the download reorders the rows selected and nothing more. */
  lemma SelectionPermuted(rows1: seq<Reading>, rows2: seq<Reading>, since: DateTime)
    requires multiset(rows1) == multiset(rows2) && AllReadable(rows1) && AllReadable(rows2)
    ensures multiset(DataSince(rows1, since).value) == multiset(DataSince(rows2, since).value)
  {
    DataSinceSelects(rows1, since);
    DataSinceSelects(rows2, since);
  }

  lemma SameRows(rows1: seq<Reading>, rows2: seq<Reading>)
    requires multiset(rows1) == multiset(rows2)
    ensures AllReadable(rows1) <==> AllReadable(rows2)
  {
    AllReadableEveryRow(rows1);
    AllReadableEveryRow(rows2);
    forall i | 0 <= i < |rows2|
      ensures rows2[i] in rows1
    {
      assert rows2[i] in multiset(rows2);
    }
    forall i | 0 <= i < |rows1|
      ensures rows1[i] in rows2
    {
      assert rows1[i] in multiset(rows1);
    }
  }

  /** A window that starts later keeps a sub-collection of the rows. */
  lemma SelectionNested(rows: seq<Reading>, earlier: DateTime, later: DateTime)
    requires earlier.Valid() && later.Valid() && AtOrAfter(later, earlier)
    requires AllReadable(rows)
    ensures multiset(DataSince(rows, later).value) <= multiset(DataSince(rows, earlier).value)
  {
    AtOrAfterIffNotEarlier(later, earlier);
    DataSinceSelects(rows, later);
    DataSinceSelects(rows, earlier);
    forall row | InWindow(row, later)
      ensures InWindow(row, earlier)
    {
      InWindowIffAtOrAfterStart(row, later);
      InWindowIffAtOrAfterStart(row, earlier);
    }
  }

  predicate NonNegative(rows: seq<Reading>) {
    forall i :: 0 <= i < |rows| ==> rows[i].readValue >= 0.0
  }

  /** With readings that are never negative, a later start never gives a larger total. */
  lemma {:induction false} TotalAntitone(rows: seq<Reading>, earlier: int, later: int)
    requires earlier <= later && NonNegative(rows) && AllReadable(rows)
    ensures Total(rows, earlier).Some? && Total(rows, later).Some?
    ensures Total(rows, later).value <= Total(rows, earlier).value
  {
    if rows != [] {
      TotalAntitone(rows[1..], earlier, later);
    }
  }

  /** When no row reaches the window, the total is zero; in particular for no rows at all. */
  lemma {:induction false} NothingInWindow(rows: seq<Reading>, since: DateTime)
    requires AllReadable(rows)
    requires forall i :: 0 <= i < |rows| ==> !InWindow(rows[i], since)
    ensures DataSince(rows, since) == Some([])
    ensures SumSince(rows, since) == Some(0.0)
  {
    if rows != [] {
      assert !InWindow(rows[0], since);
      assert forall i :: 0 <= i < |rows[1..]| ==> rows[1..][i] == rows[i + 1];
      NothingInWindow(rows[1..], since);
    }
  }

  // ---------------------------------------------------------------------
  // The six totals

  /** `ESBData(data=...)`; each total takes the clock reading `datetime.now()` as `now`. */
  datatype EsbData = EsbData(data: seq<Reading>)
  {
    /** `today`: from the midnight that began today. */
    function Today(now: DateTime): (r: Option<real>)
      requires now.Valid()
      ensures r == Total(data, MidnightOf(now))
    {
      SumSinceIsTotal(data, StartOfToday(now));
      SumSince(data, StartOfToday(now))
    }

    /** `last_24_hours`: from exactly one day before now. */
    function Last24Hours(now: DateTime): (r: Option<real>)
      requires CanGoBack(now, 1)
      ensures r == Total(data, DaysBefore(now, 1))
    {
      SumSinceIsTotal(data, Last24HoursStart(now));
      SumSince(data, Last24HoursStart(now))
    }

    /** `this_week`: from midnight of this week's Monday. */
    function ThisWeek(now: DateTime): (r: Option<real>)
      requires now.Valid()
      ensures r == Total(data, MidnightDaysBefore(now, now.Weekday()))
    {
      SumSinceIsTotal(data, StartOfWeek(now));
      SumSince(data, StartOfWeek(now))
    }

    /** `this_week` as the sensor computes it, reading the clock twice. */
    function ThisWeekAsWritten(nowForDate: DateTime, nowForWeekday: DateTime): (r: Option<real>)
      requires nowForWeekday.Valid() && CanGoBack(nowForDate, nowForWeekday.Weekday())
      ensures r == Total(data, MidnightDaysBefore(nowForDate, nowForWeekday.Weekday()))
    {
      SumSinceIsTotal(data, StartOfWeekAsWritten(nowForDate, nowForWeekday));
      SumSince(data, StartOfWeekAsWritten(nowForDate, nowForWeekday))
    }

    /** `last_7_days`: from exactly seven days before now. */
    function Last7Days(now: DateTime): (r: Option<real>)
      requires CanGoBack(now, 7)
      ensures r == Total(data, DaysBefore(now, 7))
    {
      SumSinceIsTotal(data, Last7DaysStart(now));
      SumSince(data, Last7DaysStart(now))
    }

    /** `this_month`: from midnight on the first of this month. */
    function ThisMonth(now: DateTime): (r: Option<real>)
      requires now.Valid()
      ensures r == Total(data, MidnightDaysBefore(now, now.day - 1))
    {
      SumSinceIsTotal(data, StartOfMonth(now));
      SumSince(data, StartOfMonth(now))
    }

    /** `last_30_days`: from exactly thirty days before now. */
    function Last30Days(now: DateTime): (r: Option<real>)
      requires CanGoBack(now, 30)
      ensures r == Total(data, DaysBefore(now, 30))
    {
      SumSinceIsTotal(data, Last30DaysStart(now));
      SumSince(data, Last30DaysStart(now))
    }
  }

  /*
   * With readings that are never negative, the totals nest as their windows
   * do; `WindowInstantsOrdered` gives the order of the windows' starts.
   */

  /** Today within the last 24 hours, within the last 7 days, within the last 30 days. */
  lemma RollingTotalsOrdered(d: EsbData, now: DateTime)
    requires CanGoBack(now, 30) && AllReadable(d.data) && NonNegative(d.data)
    ensures d.Today(now).Some? && d.Last24Hours(now).Some?
    ensures d.Last7Days(now).Some? && d.Last30Days(now).Some?
    ensures d.Today(now).value <= d.Last24Hours(now).value <= d.Last7Days(now).value
            <= d.Last30Days(now).value
  {
    WindowInstantsOrdered(now);
    TotalAntitone(d.data, DaysBefore(now, 1), MidnightOf(now));
    TotalAntitone(d.data, DaysBefore(now, 7), DaysBefore(now, 1));
    TotalAntitone(d.data, DaysBefore(now, 30), DaysBefore(now, 7));
  }

  /** Today within this week, and this week within the last 7 days. */
  lemma WeekTotalOrdered(d: EsbData, now: DateTime)
    requires CanGoBack(now, 30) && AllReadable(d.data) && NonNegative(d.data)
    ensures d.Today(now).Some? && d.ThisWeek(now).Some? && d.Last7Days(now).Some?
    ensures d.Today(now).value <= d.ThisWeek(now).value <= d.Last7Days(now).value
  {
    WindowInstantsOrdered(now);
    TotalAntitone(d.data, MidnightDaysBefore(now, now.Weekday()), MidnightOf(now));
    TotalAntitone(d.data, DaysBefore(now, 7), MidnightDaysBefore(now, now.Weekday()));
  }

  /** Today within this month. */
  lemma MonthTotalOrdered(d: EsbData, now: DateTime)
    requires CanGoBack(now, 30) && AllReadable(d.data) && NonNegative(d.data)
    ensures d.Today(now).Some? && d.ThisMonth(now).Some?
    ensures d.Today(now).value <= d.ThisMonth(now).value
  {
    WindowInstantsOrdered(now);
    TotalAntitone(d.data, MidnightDaysBefore(now, now.day - 1), MidnightOf(now));
  }

  /** The window starts of the six totals, as instants, in the order the totals nest. */
  lemma WindowInstantsOrdered(now: DateTime)
    requires CanGoBack(now, 30)
    ensures var today, day, week := MidnightOf(now), DaysBefore(now, 1), MidnightDaysBefore(now, now.Weekday());
            var seven, month, thirty := DaysBefore(now, 7), MidnightDaysBefore(now, now.day - 1), DaysBefore(now, 30);
            day <= today && seven <= day && week <= today && seven <= week && thirty <= seven && month <= today
  {
  }
}
