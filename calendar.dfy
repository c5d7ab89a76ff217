/**
 * Naive local date-times as Python's `datetime` has them: the proleptic
 * Gregorian calendar, years 1 to 9999, microsecond resolution, no time zone.
 *
 * Days are numbered as `date.toordinal()` numbers them (0001-01-01 is day 1),
 * and an instant is the number of microseconds since 0001-01-01 00:00.
 * Python's field-by-field comparison of date-times is proved to agree with
 * the order of instants, and different dates to have different day numbers.
 */
module Calendar {

  const MinYear := 1
  const MaxYear := 9999

  const MicrosPerDay := 86_400_000_000

  /**
   * `k` whole days in microseconds, `timedelta(days=k)`. Products and
   * quotients below spell the constants out as numerals, which keeps the
   * arithmetic linear for the solver.
   */
  function Days(k: int): int {
    k * 86_400_000_000
  }

  predicate IsLeapYear(y: int) {
    y % 4 == 0 && (y % 100 != 0 || y % 400 == 0)
  }

  function DaysInYear(y: int): int {
    if IsLeapYear(y) then 366 else 365
  }

  function DaysInMonth(y: int, m: int): int
    requires 1 <= m <= 12
  {
    if m == 2 then (if IsLeapYear(y) then 29 else 28)
    else if m == 4 || m == 6 || m == 9 || m == 11 then 30
    else 31
  }

  /** Days in the year before the first of month `m` (Python's `_days_before_month`). */
  function DaysBeforeMonth(y: int, m: int): int
    requires 1 <= m <= 12
  {
    var common :=
      if m == 1 then 0 else if m == 2 then 31 else if m == 3 then 59
      else if m == 4 then 90 else if m == 5 then 120 else if m == 6 then 151
      else if m == 7 then 181 else if m == 8 then 212 else if m == 9 then 243
      else if m == 10 then 273 else if m == 11 then 304 else 334;
    common + (if m > 2 && IsLeapYear(y) then 1 else 0)
  }

  /** Days before January 1 of year `y` (Python's `_days_before_year`). */
  function DaysBeforeYear(y: int): int
    requires y >= 1
  {
    var z := y - 1;
    z * 365 + z / 4 - z / 100 + z / 400
  }

  predicate ValidDate(y: int, m: int, d: int) {
    MinYear <= y <= MaxYear && 1 <= m <= 12 && 1 <= d <= DaysInMonth(y, m)
  }

  /** The day number of a date (Python's `_ymd2ord`). */
  function Ordinal(y: int, m: int, d: int): int
    requires ValidDate(y, m, d)
  {
    DaysBeforeYear(y) + DaysBeforeMonth(y, m) + d
  }

  /**
   * A naive `datetime`. The date is kept as Python keeps it, in three fields;
   * the clock time is kept as microseconds since midnight, from which
   * `hour`, `minute`, `second` and `microsecond` are read off.
   */
  datatype DateTime = DateTime(year: int, month: int, day: int, timeOfDay: int)
  {
    predicate Valid() {
      ValidDate(year, month, day) && 0 <= timeOfDay < 86_400_000_000
    }

    function Hour(): int {
      timeOfDay / 3_600_000_000
    }

    function Minute(): int {
      timeOfDay % 3_600_000_000 / 60_000_000
    }

    function Second(): int {
      timeOfDay % 60_000_000 / 1_000_000
    }

    function Microsecond(): int {
      timeOfDay % 1_000_000
    }

    function ToOrdinal(): int
      requires Valid()
    {
      Ordinal(year, month, day)
    }

    /** Microseconds since 0001-01-01 00:00. */
    function ToMicros(): int
      requires Valid()
    {
      Days(ToOrdinal() - 1) + timeOfDay
    }

    /** `datetime.weekday()`: Monday is 0 and Sunday is 6. */
    function Weekday(): int
      requires Valid()
    {
      (ToOrdinal() + 6) % 7
    }

    predicate IsMidnight() {
      timeOfDay == 0
    }
  }

  /** The time of day `hour:minute:second.microsecond`, in microseconds. */
  function Clock(hour: int, minute: int, second: int, microsecond: int): int {
    hour * 3_600_000_000 + minute * 60_000_000 + second * 1_000_000 + microsecond
  }

  /** The clock fields read off a time of day are the ones it was made from. */
  lemma ClockFields(hour: int, minute: int, second: int, microsecond: int)
    requires 0 <= hour < 24 && 0 <= minute < 60 && 0 <= second < 60
    requires 0 <= microsecond < 1_000_000
    ensures var dt := DateTime(1, 1, 1, Clock(hour, minute, second, microsecond));
            dt.Valid() && dt.Hour() == hour && dt.Minute() == minute
            && dt.Second() == second && dt.Microsecond() == microsecond
  {
    var t := Clock(hour, minute, second, microsecond);
    var r2 := second * 1_000_000 + microsecond;
    var r1 := minute * 60_000_000 + r2;
    DivUnique(t, 3_600_000_000, hour, r1);
    DivUnique(r1, 60_000_000, minute, r2);
    DivUnique(r2, 1_000_000, second, microsecond);
    DivUnique(t, 60_000_000, hour * 60 + minute, r2);
    DivUnique(t, 1_000_000, hour * 3600 + minute * 60 + second, microsecond);
  }

  /** The clock fields of a valid date-time are in range and make up its time of day. */
  lemma ClockRanges(dt: DateTime)
    requires dt.Valid()
    ensures 0 <= dt.Hour() < 24 && 0 <= dt.Minute() < 60 && 0 <= dt.Second() < 60
    ensures 0 <= dt.Microsecond() < 1_000_000
    ensures dt.timeOfDay == Clock(dt.Hour(), dt.Minute(), dt.Second(), dt.Microsecond())
  {
    var t := dt.timeOfDay;
    var hour, r1 := t / 3_600_000_000, t % 3_600_000_000;
    var minute, r2 := r1 / 60_000_000, r1 % 60_000_000;
    var second, microsecond := r2 / 1_000_000, r2 % 1_000_000;
    DivUnique(t, 60_000_000, hour * 60 + minute, r2);
    DivUnique(t, 1_000_000, hour * 3600 + minute * 60 + second, microsecond);
  }

  /**
   * Python's `a < b` on naive date-times: lexicographic on the date, then on
   * the time of day (which is lexicographic on the clock fields, see
   * `FieldOrder`).
   */
  predicate Before(a: DateTime, b: DateTime) {
    if a.year != b.year then a.year < b.year
    else if a.month != b.month then a.month < b.month
    else if a.day != b.day then a.day < b.day
    else a.timeOfDay < b.timeOfDay
  }

  /** Python's `a >= b` on naive date-times. */
  predicate AtOrAfter(a: DateTime, b: DateTime) {
    !Before(a, b)
  }

  /**
   * Python's order compares the tuples `(year, month, day, hour, minute,
   * second, microsecond)`; it is the order `Before` states.
   */
  predicate FieldsBefore(a: DateTime, b: DateTime) {
    if a.year != b.year then a.year < b.year
    else if a.month != b.month then a.month < b.month
    else if a.day != b.day then a.day < b.day
    else if a.Hour() != b.Hour() then a.Hour() < b.Hour()
    else if a.Minute() != b.Minute() then a.Minute() < b.Minute()
    else if a.Second() != b.Second() then a.Second() < b.Second()
    else a.Microsecond() < b.Microsecond()
  }

  // ---------------------------------------------------------------------
  // Facts about the day-counting tables

  lemma {:induction false} MulAtLeast(n: int, d: int)
    requires n >= 1 && d > 0
    ensures n * d >= d
    decreases n
  {
    if n > 1 {
      MulAtLeast(n - 1, d);
      assert n * d == (n - 1) * d + d;
    }
  }

  /** Division with remainder has exactly one answer. */
  lemma DivUnique(x: int, d: int, q: int, r: int)
    requires d > 0 && x == q * d + r && 0 <= r < d
    ensures x / d == q && x % d == r
  {
    var q', r' := x / d, x % d;
    assert x == q' * d + r';
    assert (q - q') * d == r' - r;
    if q > q' {
      MulAtLeast(q - q', d);
    } else if q < q' {
      MulAtLeast(q' - q, d);
    }
  }

  lemma DivStep(z: int, k: int)
    requires z >= 0 && k > 0
    ensures (z + 1) / k == z / k + (if (z + 1) % k == 0 then 1 else 0)
  {
    var q, r := z / k, z % k;
    if r + 1 == k {
      DivUnique(z + 1, k, q + 1, 0);
    } else {
      DivUnique(z + 1, k, q, r + 1);
    }
  }

  lemma DivisibleBy400(y: int)
    requires y % 400 == 0
    ensures y % 100 == 0 && y % 4 == 0
  {
    var q := y / 400;
    assert y == 100 * (4 * q);
    assert y == 4 * (100 * q);
  }

  lemma DivisibleBy100(y: int)
    requires y % 100 == 0
    ensures y % 4 == 0
  {
    var q := y / 100;
    assert y == 4 * (25 * q);
  }

  /** One more year adds that year's length to the days before it. */
  lemma DaysBeforeYearStep(y: int)
    requires y >= 1
    ensures DaysBeforeYear(y + 1) == DaysBeforeYear(y) + DaysInYear(y)
  {
    var z := y - 1;
    DivStep(z, 4);
    DivStep(z, 100);
    DivStep(z, 400);
    if y % 400 == 0 { DivisibleBy400(y); }
    if y % 100 == 0 { DivisibleBy100(y); }
  }

  lemma {:induction false} DaysBeforeYearMonotone(y1: int, y2: int)
    requires 1 <= y1 <= y2
    ensures DaysBeforeYear(y1) + 365 * (y2 - y1) <= DaysBeforeYear(y2)
    decreases y2 - y1
  {
    if y1 < y2 {
      DaysBeforeYearStep(y1);
      DaysBeforeYearMonotone(y1 + 1, y2);
    }
  }

  /** The months of a year, laid end to end, fill exactly that year. */
  lemma MonthsFillYear(y: int, m1: int, m2: int)
    requires 1 <= m1 < m2 <= 12
    ensures DaysBeforeMonth(y, m1) + DaysInMonth(y, m1) <= DaysBeforeMonth(y, m2)
    ensures m2 == m1 + 1 ==> DaysBeforeMonth(y, m1) + DaysInMonth(y, m1) == DaysBeforeMonth(y, m2)
  {
  }

  lemma DayOfYearBound(y: int, m: int)
    requires 1 <= m <= 12
    ensures DaysBeforeMonth(y, m) + DaysInMonth(y, m) <= DaysInYear(y)
    ensures m == 12 ==> DaysBeforeMonth(y, m) + DaysInMonth(y, m) == DaysInYear(y)
  {
  }

  // ---------------------------------------------------------------------
  // Order: day numbers and instants follow the calendar order

  predicate DateBefore(y1: int, m1: int, d1: int, y2: int, m2: int, d2: int) {
    y1 < y2 || (y1 == y2 && (m1 < m2 || (m1 == m2 && d1 < d2)))
  }

  /** Later dates have larger day numbers. */
  lemma OrdinalIncreasing(y1: int, m1: int, d1: int, y2: int, m2: int, d2: int)
    requires ValidDate(y1, m1, d1) && ValidDate(y2, m2, d2)
    requires DateBefore(y1, m1, d1, y2, m2, d2)
    ensures Ordinal(y1, m1, d1) < Ordinal(y2, m2, d2)
  {
    if y1 < y2 {
      DayOfYearBound(y1, m1);
      DaysBeforeYearStep(y1);
      DaysBeforeYearMonotone(y1 + 1, y2);
    } else if m1 < m2 {
      MonthsFillYear(y1, m1, m2);
    }
  }

  /** Different dates have different day numbers. */
  lemma OrdinalInjective(y1: int, m1: int, d1: int, y2: int, m2: int, d2: int)
    requires ValidDate(y1, m1, d1) && ValidDate(y2, m2, d2)
    requires Ordinal(y1, m1, d1) == Ordinal(y2, m2, d2)
    ensures y1 == y2 && m1 == m2 && d1 == d2
  {
    if DateBefore(y1, m1, d1, y2, m2, d2) {
      OrdinalIncreasing(y1, m1, d1, y2, m2, d2);
    } else if DateBefore(y2, m2, d2, y1, m1, d1) {
      OrdinalIncreasing(y2, m2, d2, y1, m1, d1);
    }
  }

  /** Comparing the clock fields in turn is comparing the times of day. */
  lemma FieldOrder(a: DateTime, b: DateTime)
    requires a.Valid() && b.Valid()
    ensures FieldsBefore(a, b) <==> Before(a, b)
  {
    ClockRanges(a);
    ClockRanges(b);
  }

  /**
   * Python's comparison of date-times is the order of their instants:
   * `a < b` exactly when `a` is the earlier instant.
   */
  lemma BeforeIffEarlier(a: DateTime, b: DateTime)
    requires a.Valid() && b.Valid()
    ensures Before(a, b) <==> a.ToMicros() < b.ToMicros()
    ensures a == b <==> a.ToMicros() == b.ToMicros()
  {
    if DateBefore(a.year, a.month, a.day, b.year, b.month, b.day) {
      EarlierDay(a, b);
    } else if DateBefore(b.year, b.month, b.day, a.year, a.month, a.day) {
      EarlierDay(b, a);
    }
  }

  /** A date-time on an earlier day is before, and is the earlier instant. */
  lemma EarlierDay(a: DateTime, b: DateTime)
    requires a.Valid() && b.Valid()
    requires DateBefore(a.year, a.month, a.day, b.year, b.month, b.day)
    ensures Before(a, b) && !Before(b, a) && a != b
    ensures a.ToMicros() < b.ToMicros()
  {
    OrdinalIncreasing(a.year, a.month, a.day, b.year, b.month, b.day);
    assert a.ToMicros() < Days(a.ToOrdinal());
    assert Days(a.ToOrdinal()) <= Days(b.ToOrdinal() - 1);
  }

  lemma AtOrAfterIffNotEarlier(a: DateTime, b: DateTime)
    requires a.Valid() && b.Valid()
    ensures AtOrAfter(a, b) <==> a.ToMicros() >= b.ToMicros()
  {
    BeforeIffEarlier(a, b);
  }

  // ---------------------------------------------------------------------
  // Going back whole days

  /** The same clock time on the day before. */
  function PreviousDay(dt: DateTime): (r: DateTime)
    requires dt.Valid() && dt.ToOrdinal() > 1
    ensures r.Valid() && r.ToOrdinal() == dt.ToOrdinal() - 1 && r.timeOfDay == dt.timeOfDay
  {
    if dt.day > 1 then dt.(day := dt.day - 1)
    else if dt.month > 1 then
      MonthsFillYear(dt.year, dt.month - 1, dt.month);
      dt.(month := dt.month - 1, day := DaysInMonth(dt.year, dt.month - 1))
    else
      DaysBeforeYearStep(dt.year - 1);
      dt.(year := dt.year - 1, month := 12, day := 31)
  }

  /**
   * `dt - timedelta(days=k)`: the same clock time, `k` days earlier. Python
   * raises `OverflowError` when that day would come before 0001-01-01; that
   * case is excluded here.
   */
  function MinusDays(dt: DateTime, k: nat): (r: DateTime)
    requires dt.Valid() && k < dt.ToOrdinal()
    ensures r.Valid() && r.ToOrdinal() == dt.ToOrdinal() - k && r.timeOfDay == dt.timeOfDay
    ensures r.ToMicros() == dt.ToMicros() - Days(k)
  {
    if k == 0 then dt else PreviousDay(MinusDays(dt, k - 1))
  }

  /** Going back a whole number of days moves the weekday back by as many. */
  lemma WeekdayBack(later: DateTime, earlier: DateTime, k: int)
    requires later.Valid() && earlier.Valid() && earlier.ToOrdinal() == later.ToOrdinal() - k
    ensures earlier.Weekday() == (later.Weekday() - k) % 7
  {
    ModSeven(later.ToOrdinal() + 6, k);
  }

  /** Subtracting before or after taking the remainder gives the same remainder. */
  lemma ModSeven(x: int, k: int)
    ensures (x % 7 - k) % 7 == (x - k) % 7
  {
    var w := x % 7;
    DivUnique(x - k, 7, x / 7 + (w - k) / 7, (w - k) % 7);
  }

}
