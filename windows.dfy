/**
 * Where each of the six usage windows of `ESBData` begins, computed from the
 * clock reading `now` with the `datetime` operations the sensors use:
 * `replace(...)` to midnight or to the first of the month, and subtraction
 * of whole days.
 */
module Windows {
  import opened Calendar

  /**
   * `now - timedelta(days=k)` stays within the calendar; before 0001-01-01
   * Python raises `OverflowError`, and such clock readings are excluded.
   */
  predicate CanGoBack(now: DateTime, k: int) {
    now.Valid() && 0 <= k < now.ToOrdinal()
  }

  /** Midnight at the start of a day, as an instant. */
  function MidnightOf(dt: DateTime): int
    requires dt.Valid()
  {
    Days(dt.ToOrdinal() - 1)
  }

  /** The instant `k` whole days before `dt`. */
  function DaysBefore(dt: DateTime, k: int): int
    requires dt.Valid()
  {
    dt.ToMicros() - Days(k)
  }

  /** Midnight `k` whole days before the day of `dt`. */
  function MidnightDaysBefore(dt: DateTime, k: int): int
    requires dt.Valid()
  {
    MidnightOf(dt) - Days(k)
  }

  /** `now.replace(hour=0, minute=0, second=0, microsecond=0)`: the midnight that began today. */
  function StartOfToday(now: DateTime): (r: DateTime)
    requires now.Valid()
    ensures r.Valid() && r.IsMidnight()
    ensures r.year == now.year && r.month == now.month && r.day == now.day
    ensures r.ToMicros() == MidnightOf(now)
    ensures r.ToMicros() <= now.ToMicros() < r.ToMicros() + MicrosPerDay
  {
    now.(timeOfDay := 0)
  }

  /** `now - timedelta(days=1)`. */
  function Last24HoursStart(now: DateTime): (r: DateTime)
    requires CanGoBack(now, 1)
    ensures r.Valid() && r.ToMicros() == DaysBefore(now, 1)
    ensures r.timeOfDay == now.timeOfDay
  {
    MinusDays(now, 1)
  }

  /**
   * The week start as the sensor computes it: `replace(...)` and `weekday()`
   * each read the clock, so midnight is taken from `nowForDate` and the
   * number of days to go back from `nowForWeekday`, a later reading.
   */
  function StartOfWeekAsWritten(nowForDate: DateTime, nowForWeekday: DateTime): (r: DateTime)
    requires nowForWeekday.Valid() && CanGoBack(nowForDate, nowForWeekday.Weekday())
    ensures r.Valid() && r.IsMidnight()
    ensures r.ToMicros() == MidnightDaysBefore(nowForDate, nowForWeekday.Weekday())
    ensures r.ToOrdinal() == nowForDate.ToOrdinal() - nowForWeekday.Weekday()
  {
    var today := StartOfToday(nowForDate);
    MinusDays(today, nowForWeekday.Weekday())
  }

  /**
   * The Monday of the current week at midnight: today's midnight minus
   * `weekday()` days, both taken from the one clock reading `now`.
   */
  function StartOfWeek(now: DateTime): (r: DateTime)
    requires now.Valid()
    ensures r.Valid() && r.IsMidnight() && r.Weekday() == 0
    ensures r.ToMicros() == MidnightDaysBefore(now, now.Weekday())
    ensures r.ToOrdinal() == now.ToOrdinal() - now.Weekday()
  {
    WeekBeginsInCalendar(now);
    var r := StartOfWeekAsWritten(now, now);
    BackToMonday(now, r);
    r
  }

  /** Day 1 is a Monday, so going back `weekday()` days never leaves the calendar. */
  lemma WeekBeginsInCalendar(now: DateTime)
    requires now.Valid()
    ensures now.Weekday() < now.ToOrdinal()
  {
    var o := now.ToOrdinal();
    if o < 7 {
      DivUnique(o + 6, 7, 1, o - 1);
    }
  }

  /** Going back `weekday()` days from any day reaches a Monday. */
  lemma BackToMonday(day: DateTime, monday: DateTime)
    requires day.Valid() && monday.Valid()
    requires monday.ToOrdinal() == day.ToOrdinal() - day.Weekday()
    ensures monday.Weekday() == 0
  {
    var o := day.ToOrdinal();
    DivUnique(monday.ToOrdinal() + 6, 7, (o + 6) / 7, 0);
  }

  /** `now - timedelta(days=7)`. */
  function Last7DaysStart(now: DateTime): (r: DateTime)
    requires CanGoBack(now, 7)
    ensures r.Valid() && r.ToMicros() == DaysBefore(now, 7)
    ensures r.timeOfDay == now.timeOfDay
  {
    MinusDays(now, 7)
  }

  /** `now.replace(day=1, hour=0, minute=0, second=0, microsecond=0)`. */
  function StartOfMonth(now: DateTime): (r: DateTime)
    requires now.Valid()
    ensures r.Valid() && r.IsMidnight() && r.day == 1
    ensures r.year == now.year && r.month == now.month
    ensures r.ToMicros() == MidnightDaysBefore(now, now.day - 1)
  {
    now.(day := 1, timeOfDay := 0)
  }

  /** `now - timedelta(days=30)`. */
  function Last30DaysStart(now: DateTime): (r: DateTime)
    requires CanGoBack(now, 30)
    ensures r.Valid() && r.ToMicros() == DaysBefore(now, 30)
    ensures r.timeOfDay == now.timeOfDay
  {
    MinusDays(now, 30)
  }

  /**
   * The window starts, earliest first: the last 30 days reach back furthest,
   * then the last 7 days; the week and the month begin no later than today,
   * and the last 24 hours begin before today's midnight.
   */
  lemma WindowStartsOrdered(now: DateTime)
    requires CanGoBack(now, 30)
    ensures Last30DaysStart(now).ToMicros() < Last7DaysStart(now).ToMicros()
    ensures Last7DaysStart(now).ToMicros() < StartOfWeek(now).ToMicros()
    ensures StartOfWeek(now).ToMicros() <= StartOfToday(now).ToMicros()
    ensures Last7DaysStart(now).ToMicros() < Last24HoursStart(now).ToMicros()
    ensures Last24HoursStart(now).ToMicros() < StartOfToday(now).ToMicros()
    ensures StartOfMonth(now).ToMicros() <= StartOfToday(now).ToMicros()
  {
  }

  /**
   * The month so far lies within the last 30 days exactly when today is not
   * the 31st, or it is midnight on the 31st.
   */
  lemma MonthWithinLast30Days(now: DateTime)
    requires CanGoBack(now, 30)
    ensures Last30DaysStart(now).ToMicros() <= StartOfMonth(now).ToMicros()
            <==> now.day < 31 || now.IsMidnight()
  {
  }

  /** With both readings on the same day, the sensor's week start is the Monday. */
  lemma AsWrittenSameDay(nowForDate: DateTime, nowForWeekday: DateTime)
    requires nowForWeekday.Valid() && CanGoBack(nowForDate, nowForWeekday.Weekday())
    requires nowForDate.year == nowForWeekday.year && nowForDate.month == nowForWeekday.month
    requires nowForDate.day == nowForWeekday.day
    ensures StartOfWeekAsWritten(nowForDate, nowForWeekday) == StartOfWeek(nowForDate)
  {
    assert nowForWeekday.ToOrdinal() == nowForDate.ToOrdinal();
    assert nowForWeekday.Weekday() == nowForDate.Weekday();
    assert StartOfWeek(nowForDate) == StartOfWeekAsWritten(nowForDate, nowForDate);
  }

  /** Two midnights on the same day are the same date-time. */
  lemma SameMidnight(a: DateTime, b: DateTime)
    requires a.Valid() && b.Valid() && a.IsMidnight() && b.IsMidnight()
    requires a.ToOrdinal() == b.ToOrdinal()
    ensures a == b
  {
    BeforeIffEarlier(a, b);
  }

  /**
   * When the date is read late on a Sunday and the weekday just after midnight,
   * the sensor's week starts at midnight of that Sunday, six days after the
   * Monday the week really began on.
   */
  lemma AsWrittenAcrossMidnight(nowForDate: DateTime, nowForWeekday: DateTime)
    requires nowForWeekday.Valid() && CanGoBack(nowForDate, nowForWeekday.Weekday())
    requires nowForDate.Weekday() == 6
    requires nowForWeekday.ToOrdinal() == nowForDate.ToOrdinal() + 1
    ensures StartOfWeekAsWritten(nowForDate, nowForWeekday) == StartOfToday(nowForDate)
    ensures StartOfWeekAsWritten(nowForDate, nowForWeekday).Weekday() == 6
    ensures StartOfWeek(nowForDate).ToOrdinal() == nowForDate.ToOrdinal() - 6
  {
    MondayAfterSunday(nowForDate, nowForWeekday);
    AsWrittenOnMonday(nowForDate, nowForWeekday);
    SameWeekdayAtMidnight(nowForDate);
  }

  lemma SameWeekdayAtMidnight(now: DateTime)
    requires now.Valid()
    ensures StartOfToday(now).Weekday() == now.Weekday()
  {
  }

  /** The day after a Sunday is a Monday. */
  lemma MondayAfterSunday(sunday: DateTime, next: DateTime)
    requires sunday.Valid() && next.Valid()
    requires sunday.Weekday() == 6 && next.ToOrdinal() == sunday.ToOrdinal() + 1
    ensures next.Weekday() == 0
  {
    var o := sunday.ToOrdinal();
    DivUnique(o + 7, 7, (o + 6) / 7 + 1, 0);
  }

  /** A weekday reading on a Monday makes the sensor go back no days at all. */
  lemma AsWrittenOnMonday(nowForDate: DateTime, nowForWeekday: DateTime)
    requires nowForDate.Valid() && nowForWeekday.Valid() && nowForWeekday.Weekday() == 0
    ensures StartOfWeekAsWritten(nowForDate, nowForWeekday) == StartOfToday(nowForDate)
  {
    var a, t := StartOfWeekAsWritten(nowForDate, nowForWeekday), StartOfToday(nowForDate);
    assert a.ToOrdinal() == nowForDate.ToOrdinal() == t.ToOrdinal();
    SameMidnight(a, t);
  }

  /** The last microsecond of one day is followed by midnight of the next. */
  lemma NextInstant(a: DateTime, b: DateTime)
    requires a.Valid() && b.Valid()
    requires b.ToOrdinal() == a.ToOrdinal() + 1
    requires a.timeOfDay == MicrosPerDay - 1 && b.IsMidnight()
    ensures b.ToMicros() == a.ToMicros() + 1
  {
  }

  /**
   * Sunday 3 March 2024, a microsecond before midnight, then Monday 4 March:
   * the sensor's week starts on Sunday 3 March instead of Monday 26 February.
   */
  lemma AsWrittenSundayNight(nowForDate: DateTime, nowForWeekday: DateTime)
    requires nowForDate.year == 2024 && nowForDate.month == 3 && nowForDate.day == 3
    requires nowForDate.timeOfDay == Clock(23, 59, 59, 999_999)
    requires nowForWeekday.year == 2024 && nowForWeekday.month == 3 && nowForWeekday.day == 4
    requires nowForWeekday.IsMidnight()
    ensures CanGoBack(nowForDate, 30) && CanGoBack(nowForWeekday, 30)
    ensures nowForWeekday.ToMicros() == nowForDate.ToMicros() + 1
    ensures var r := StartOfWeekAsWritten(nowForDate, nowForWeekday);
            r.year == 2024 && r.month == 3 && r.day == 3 && r.IsMidnight() && r.Weekday() == 6
    ensures var r := StartOfWeek(nowForDate);
            r.year == 2024 && r.month == 2 && r.day == 26 && r.IsMidnight()
  {
    SundayReadings(nowForDate, nowForWeekday);
    NextInstant(nowForDate, nowForWeekday);
    AsWrittenAcrossMidnight(nowForDate, nowForWeekday);
    MondayBeforeSundayNight(StartOfWeek(nowForDate));
  }

  /** Day 738942 is Monday 26 February 2024. */
  lemma MondayBeforeSundayNight(monday: DateTime)
    requires monday.Valid() && monday.ToOrdinal() == 738942
    ensures monday.year == 2024 && monday.month == 2 && monday.day == 26
  {
    OrdinalInjective(monday.year, monday.month, monday.day, 2024, 2, 26);
  }

  lemma SundayReadings(nowForDate: DateTime, nowForWeekday: DateTime)
    requires nowForDate.year == 2024 && nowForDate.month == 3 && nowForDate.day == 3
    requires nowForDate.timeOfDay == Clock(23, 59, 59, 999_999)
    requires nowForWeekday.year == 2024 && nowForWeekday.month == 3 && nowForWeekday.day == 4
    requires nowForWeekday.IsMidnight()
    ensures nowForDate.Valid() && nowForWeekday.Valid()
    ensures nowForDate.ToOrdinal() == 738948 && nowForWeekday.ToOrdinal() == 738949
    ensures nowForDate.Weekday() == 6 && nowForDate.timeOfDay == MicrosPerDay - 1
    ensures CanGoBack(nowForDate, 30) && CanGoBack(nowForWeekday, 30)
  {
  }
}
