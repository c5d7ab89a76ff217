# ESB smart meter integration: a verified model of the sensor core

This project models the logic in `custom_components/esb_smart_meter/sensor.py`
of the ESB Networks smart meter integration for Home Assistant. It covers three
parts:

- **`ESBCachingApi.fetch`**, the cache in front of the portal download. It asks
  for fresh data when it has none or when its timestamp is more than five
  minutes old. It keeps the data and a timestamp on success and clears both
  when the download raises an `Exception`. A cancellation
  (`asyncio.CancelledError`, not an `Exception`) passes through and leaves
  both as they were. It is modelled as a class `Caching.CachingApi` with the two fields
  the source updates in place. Its `Fetch` method is proved against the
  specification function `Caching.Step`, and the lemmas about `Step` state when
  the download is consulted and what the cache holds afterwards.
- **`ESBData`**, the six usage totals. Each total keeps the rows of the
  half-hourly download whose `Read Date and End Time`, read with
  `strptime(..., '%d-%m-%Y %H:%M')`, is at or after the start of its window,
  and adds their `Read Value`s. The model is in four modules:
  - `Calendar` models Python's naive `datetime`: the proleptic Gregorian day
    numbers of `toordinal`, microsecond instants, `weekday()`, the
    field-by-field comparison, and subtracting whole days.
  - `ReadTimestamp` models the timestamp format. It reads the format and writes
    it, with both round trips proved.
  - `Windows` computes where each window starts.
  - `Usage` does the filter and the sum, and proves the properties of the
    totals: the inclusive bound, order independence, zero for no rows, nesting
    of the selections, and the order of the six totals.
- **The text checks in `ESBDataApi.__login`**, in module `LoginChecks`:
  - reading the `SETTINGS` token with `(?<=var SETTINGS = )\S*;` and dropping
    its `;`;
  - the step-3 test that the reply starts with `<!DOCTYPE html PUBLIC`;
  - the step-5 test that the welcome heading starts with `We`.

  A failed test only logs and closes the session, so each test is a classifier
  that returns true or false.

Kilowatt-hours are `real`. A Python exception (`ValueError` from `strptime`,
`IndexError` when the regular expression finds nothing) is `None` in the
model. A re-raised download error is `Raised`, a cancellation passing through
is `Interrupted`. `datetime.now()` and what the download would return are
parameters.

Points of the code's behaviour the model keeps exactly:

- **Five-minute boundary.** The cache refreshes only when its timestamp is
  strictly older than five minutes (the `<` at sensor.py:159). A timestamp
  exactly five minutes old is still served.
- **Timestamp clock reading.** The stored timestamp comes from a second clock
  reading taken after the download returns (sensor.py:162). It is not the
  `now` the freshness test used.
- **No concurrency guard.** Nothing stops two overlapping calls from both
  refreshing, and no guard is modelled.
- **Login checks do not raise.** A failed check only logs and closes the
  session (sensor.py:314-331, 427-429).

## Model

| member | source | states |
|---|---|---|
| `Calendar.ClockFields` | custom_components/esb_smart_meter/sensor.py:117 | a time of day built from in-range hour, minute, second and microsecond is valid and gives back exactly those four fields |
| `Calendar.ClockRanges` | custom_components/esb_smart_meter/sensor.py:117 | the hour, minute, second and microsecond of a valid date-time are in range and make up its time of day |
| `Calendar.FieldOrder` | custom_components/esb_smart_meter/sensor.py:117 | Python's comparison of `(year, month, day, hour, minute, second, microsecond)` tuples is the same order as `Before` |
| `Calendar.BeforeIffEarlier` | custom_components/esb_smart_meter/sensor.py:117 | `a < b` on date-times holds exactly when `a` is the earlier instant, and two date-times are equal exactly when their instants are |
| `Calendar.AtOrAfterIffNotEarlier` | custom_components/esb_smart_meter/sensor.py:117 | `a >= b` holds exactly when `a`'s instant is not earlier than `b`'s |
| `Calendar.OrdinalIncreasing` | custom_components/esb_smart_meter/sensor.py:117 | a later date has a larger day number |
| `Calendar.OrdinalInjective` | custom_components/esb_smart_meter/sensor.py:117 | two dates with the same day number are the same date |
| `Calendar.PreviousDay` | custom_components/esb_smart_meter/sensor.py:130 | the day before, across month and year ends: a valid date-time with day number one less and the same clock time |
| `Calendar.MinusDays` | custom_components/esb_smart_meter/sensor.py:130 | `dt - timedelta(days=k)` is a valid date-time `k` day numbers earlier, at the same clock time, and exactly `k` days of microseconds earlier |
| `Calendar.WeekdayBack` | custom_components/esb_smart_meter/sensor.py:134 | going back `k` days moves `weekday()` back by `k`, modulo 7 |
| `ReadTimestamp.DigitsRoundTrip` | custom_components/esb_smart_meter/sensor.py:117 | a number below `10^w`, written in `w` zero-padded digits and read back, is the number |
| `ReadTimestamp.ValueRoundTrip` | custom_components/esb_smart_meter/sensor.py:117 | a run of digits read as a number and written back at the same width is the run |
| `ReadTimestamp.Scan` | custom_components/esb_smart_meter/sensor.py:117 | reading text against a format gives one non-negative number per numeric field, or nothing |
| `ReadTimestamp.ScanRender` | custom_components/esb_smart_meter/sensor.py:117 | numbers that fit their fields, written in the format's shape and read back, are the numbers |
| `ReadTimestamp.RenderScan` | custom_components/esb_smart_meter/sensor.py:117 | text that reads against a format, written back from the numbers read, is the same text, and each number fits its field |
| `ReadTimestamp.Parse` | custom_components/esb_smart_meter/sensor.py:117 | `strptime(s, '%d-%m-%Y %H:%M')`: whatever it accepts is a valid date-time; with `ParseFormat` and `FormatParse` it accepts exactly the zero-padded spellings of real whole-minute date-times |
| `ReadTimestamp.ParsedOnTheMinute` | custom_components/esb_smart_meter/sensor.py:117 | a parsed end time has no seconds or microseconds |
| `ReadTimestamp.ParseFormat` | custom_components/esb_smart_meter/sensor.py:117 | every whole-minute date-time, written as `DD-MM-YYYY HH:MM`, parses back to itself |
| `ReadTimestamp.FormatParse` | custom_components/esb_smart_meter/sensor.py:117 | every text that parses is the one spelling of the date-time it names |
| `Windows.StartOfToday` | custom_components/esb_smart_meter/sensor.py:126 | midnight of the same date, at or before `now` and less than a day before it |
| `Windows.Last24HoursStart` | custom_components/esb_smart_meter/sensor.py:130 | exactly one day before `now`, at the same clock time |
| `Windows.StartOfWeekAsWritten` | custom_components/esb_smart_meter/sensor.py:134 | midnight of the date of the first clock reading, minus the `weekday()` of the second reading in days |
| `Windows.StartOfWeek` | custom_components/esb_smart_meter/sensor.py:134 | with one clock reading, the week starts at midnight on a Monday, `weekday()` days before today |
| `Windows.WeekBeginsInCalendar` | custom_components/esb_smart_meter/sensor.py:134 | going back `weekday()` days never falls before 0001-01-01, which is a Monday |
| `Windows.BackToMonday` | custom_components/esb_smart_meter/sensor.py:134 | going back `weekday()` days from any day reaches a Monday |
| `Windows.Last7DaysStart` | custom_components/esb_smart_meter/sensor.py:138 | exactly seven days before `now`, at the same clock time |
| `Windows.StartOfMonth` | custom_components/esb_smart_meter/sensor.py:142 | midnight on the first of the current month, `day - 1` days before today's midnight |
| `Windows.Last30DaysStart` | custom_components/esb_smart_meter/sensor.py:146 | exactly thirty days before `now`, at the same clock time |
| `Windows.WindowStartsOrdered` | custom_components/esb_smart_meter/sensor.py:124-146 | the last 30 days start before the last 7 days, which start before both this week and the last 24 hours; this week and this month start no later than today's midnight, and the last 24 hours strictly before it |
| `Windows.MonthWithinLast30Days` | custom_components/esb_smart_meter/sensor.py:140-146 | this month starts within the last 30 days exactly when today is not the 31st, or it is midnight on the 31st |
| `Windows.AsWrittenSameDay` | custom_components/esb_smart_meter/sensor.py:134 | when both clock readings fall on the same day, the sensor's week start is the Monday |
| `Windows.AsWrittenAcrossMidnight` | custom_components/esb_smart_meter/sensor.py:134 | when the date is read on a Sunday and the weekday on the Monday after it, the sensor's week starts at midnight that Sunday, while the real week began six days earlier |
| `Windows.AsWrittenOnMonday` | custom_components/esb_smart_meter/sensor.py:134 | a weekday reading on a Monday makes the sensor's week start at today's midnight |
| `Windows.AsWrittenSundayNight` | custom_components/esb_smart_meter/sensor.py:134 | the readings 2024-03-03 23:59:59.999999 and 2024-03-04 00:00, one microsecond apart, give a week starting on Sunday 2024-03-03 instead of Monday 2024-02-26 |
| `Usage.AllReadableEveryRow` | custom_components/esb_smart_meter/sensor.py:114-117 | the rows are all readable exactly when each row's time parses |
| `Usage.InWindowIffAtOrAfterStart` | custom_components/esb_smart_meter/sensor.py:117 | a row is in the window exactly when it parses and ends at or after the window's start: the bound is inclusive |
| `Usage.DataSince` | custom_components/esb_smart_meter/sensor.py:113-117 | the selection exists exactly when every row's time parses |
| `Usage.DataSinceSelects` | custom_components/esb_smart_meter/sensor.py:113-117 | the selected rows are exactly the rows in the window, each as often as in the download, kept in their order |
| `Usage.SumSince` | custom_components/esb_smart_meter/sensor.py:119-122 | the windowed sum exists exactly when every row's time parses |
| `Usage.SumValuesAppend` | custom_components/esb_smart_meter/sensor.py:120-122 | the sum over two lists of rows laid end to end is the sum of the two sums |
| `Usage.SumValuesPermutation` | custom_components/esb_smart_meter/sensor.py:120-122 | the sum of the readings does not depend on the order of the rows |
| `Usage.SumSinceIsTotal` | custom_components/esb_smart_meter/sensor.py:113-122 | the windowed sum is the single-pass total over the rows ending at or after the window's start instant |
| `Usage.SelectionPermuted` | custom_components/esb_smart_meter/sensor.py:113-117 | reordering the download only reorders the rows selected |
| `Usage.SumSinceOrderIndependent` | custom_components/esb_smart_meter/sensor.py:113-122 | reordering the rows leaves the windowed sum, and whether it fails, unchanged |
| `Usage.SameRows` | custom_components/esb_smart_meter/sensor.py:117 | reordering the rows does not change whether some row's time fails to parse |
| `Usage.SelectionNested` | custom_components/esb_smart_meter/sensor.py:113-117 | the rows selected from a later start are a sub-multiset of those selected from an earlier one |
| `Usage.TotalAntitone` | custom_components/esb_smart_meter/sensor.py:119-122 | with readings that are never negative, a later start never gives a larger total |
| `Usage.NothingInWindow` | custom_components/esb_smart_meter/sensor.py:113-122 | when no row is in the window, in particular for no rows at all, nothing is selected and the sum is 0 |
| `Usage.EsbData.Today` | custom_components/esb_smart_meter/sensor.py:124-126 | `today` is the total from the midnight that began today |
| `Usage.EsbData.Last24Hours` | custom_components/esb_smart_meter/sensor.py:128-130 | `last_24_hours` is the total from exactly one day before now |
| `Usage.EsbData.ThisWeek` | custom_components/esb_smart_meter/sensor.py:132-134 | `this_week`, with one clock reading, is the total from midnight `weekday()` days before today |
| `Usage.EsbData.ThisWeekAsWritten` | custom_components/esb_smart_meter/sensor.py:132-134 | `this_week` as written is the total from the first reading's midnight, minus the second reading's `weekday()` in days |
| `Usage.EsbData.Last7Days` | custom_components/esb_smart_meter/sensor.py:136-138 | `last_7_days` is the total from exactly seven days before now |
| `Usage.EsbData.ThisMonth` | custom_components/esb_smart_meter/sensor.py:140-142 | `this_month` is the total from midnight on the first of the month |
| `Usage.EsbData.Last30Days` | custom_components/esb_smart_meter/sensor.py:144-146 | `last_30_days` is the total from exactly thirty days before now |
| `Usage.RollingTotalsOrdered` | custom_components/esb_smart_meter/sensor.py:124-146 | with non-negative readings, today ≤ last 24 hours ≤ last 7 days ≤ last 30 days |
| `Usage.WeekTotalOrdered` | custom_components/esb_smart_meter/sensor.py:124-138 | with non-negative readings, today ≤ this week ≤ last 7 days |
| `Usage.MonthTotalOrdered` | custom_components/esb_smart_meter/sensor.py:124-142 | with non-negative readings, today ≤ this month |
| `Usage.WindowInstantsOrdered` | custom_components/esb_smart_meter/sensor.py:124-146 | the six window starts, as instants, in the order the totals nest |
| `Caching.Step` | custom_components/esb_smart_meter/sensor.py:157-169 | one `fetch` keeps data and timestamp both present or both absent, returns the data it now holds, leaves nothing cached when it re-raises an `Exception`, and leaves the cache as it was when cancelled |
| `Caching.FreshServesCache` | custom_components/esb_smart_meter/sensor.py:158-169 | within five minutes of the timestamp, the cached data is returned and the cache is unchanged, whatever the download would do |
| `Caching.StaleRefreshes` | custom_components/esb_smart_meter/sensor.py:158-167 | when stale, `fetch` returns or raises exactly what the download does; success caches the data with the finishing time, an `Exception` clears both fields, a cancellation leaves them unchanged |
| `Caching.RaisesIffStale` | custom_components/esb_smart_meter/sensor.py:158-167 | a failing download shows through `fetch` if and only if the cache is stale |
| `Caching.FiveMinutesBoundary` | custom_components/esb_smart_meter/sensor.py:159 | a timestamp exactly five minutes old is fresh; one microsecond older is stale |
| `Caching.RefreshAfterFailure` | custom_components/esb_smart_meter/sensor.py:163-167 | after a failed refresh the next call refreshes, whatever the clock reads |
| `Caching.ServedWithinFiveMinutes` | custom_components/esb_smart_meter/sensor.py:157-169 | after a call that returned data, every call until five minutes after the cache's timestamp returns the same data and changes nothing |
| `Caching.CachingApi.constructor` | custom_components/esb_smart_meter/sensor.py:152-155 | a new cache holds neither data nor timestamp |
| `Caching.CachingApi.Fetch` | custom_components/esb_smart_meter/sensor.py:157-169 | the new fields and the result are those of `Step` on the old fields, and data and timestamp stay both set or both absent |
| `LoginChecks.RunEnd` | custom_components/esb_smart_meter/sensor.py:201 | the run of non-space characters from a position ends at a space or at the end of the text |
| `LoginChecks.LastSemicolon` | custom_components/esb_smart_meter/sensor.py:201 | the last `;` in a range, or none when the range has no `;` |
| `LoginChecks.MatchEnd` | custom_components/esb_smart_meter/sensor.py:201 | the pattern tried at one position gives its longest match there, or nothing when no match starts there |
| `LoginChecks.FirstMatch` | custom_components/esb_smart_meter/sensor.py:201 | the first match `re.findall` reports is a match at the leftmost position where one starts, and the longest there; or there is none |
| `LoginChecks.SettingsText` | custom_components/esb_smart_meter/sensor.py:201-202 | there is a `SETTINGS` text exactly when the page has a match; it is then the first match (leftmost start, longest there) with its closing `;` dropped, and free of spaces |
| `LoginChecks.FirstMatchIs` | custom_components/esb_smart_meter/sensor.py:201 | a match followed by a space or the end of the page, with none starting before it, is the first match |
| `LoginChecks.SettingsTextOf` | custom_components/esb_smart_meter/sensor.py:201-202 | a page with `var SETTINGS = `, a non-space token, `;`, then a space or the end gives back the token, even when it contains `;` |
| `LoginChecks.Head` | custom_components/esb_smart_meter/sensor.py:309 | `text[0:n]` is a prefix of `text`, `n` characters long or all of a shorter text |
| `LoginChecks.ConfirmedPageIff` | custom_components/esb_smart_meter/sensor.py:309-310 | step 3 passes exactly when the reply starts with `<!DOCTYPE html PUBLIC`; a reply shorter than 21 characters fails |
| `LoginChecks.WelcomeHeadingIff` | custom_components/esb_smart_meter/sensor.py:425 | step 5 passes exactly when the heading's first two characters are `W` and `e` |

## Left out

- HTTP requests, headers, timeouts, cookies and the rest of the five-step login (sensor.py:183-441): network I/O.
- `str(request_1_response.content)` (sensor.py:201): the page is given as text.
- `json.loads` of the `SETTINGS` text and the reads of `csrf` and `transId` (sensor.py:202-207): JSON decoding is a library call. `SettingsText` gives the text it is applied to.
- BeautifulSoup lookups of the title, the `h1` heading and the `no_js` / `no_cookie` messages (sensor.py:298-331, 421-424): library calls. The heading text is an input. A missing heading makes Python raise `AttributeError`, and that is not modelled.
- `csv.DictReader` (sensor.py:443-445): rows are given as `Reading` values.
- The conversion `float(row['Read Value'])` and its `ValueError`: `Reading` carries the value as a `real`, so floating-point rounding in `sum` is not modelled.
- The Home Assistant entities, setup functions and units (sensor.py:25-104), `asyncio` and the executor offloading (sensor.py:447-452), and logging.
- `datetime.now()`: each clock reading is a parameter. The cache's readings are instants as integers. Naive `datetime` comparison is the order of instants (`Calendar.BeforeIffEarlier`).
- Overlapping `fetch` calls: the source has no guard, and the model treats calls one at a time.
- ReadTimestamp.Parse: accepts only the zero-padded ASCII `DD-MM-YYYY HH:MM` spelling the portal writes. Python's `strptime` also accepts one-digit day, month, hour and minute fields, a space-padded day such as `" 1"`, non-ASCII decimal digits (its patterns use `\d` on `str`), and other whitespace between date and time. For such rows the model fails where Python would parse.
- Calendar.MinusDays: excludes results before 0001-01-01, where Python raises `OverflowError`.
- Windows.Last24HoursStart: excludes clock readings on 0001-01-01, where Python raises `OverflowError`.
- Windows.Last7DaysStart: excludes clock readings in the first 7 days of year 1, where Python raises `OverflowError`.
- Windows.Last30DaysStart: excludes clock readings in the first 30 days of year 1, where Python raises `OverflowError`.
- Windows.StartOfWeekAsWritten: excludes second readings whose weekday reaches back before 0001-01-01, where Python raises `OverflowError`.

## Findings

| source | as written | input that shows it | evidently intended | confidence | as-written member | corrected member |
|---|---|---|---|---|---|---|
| custom_components/esb_smart_meter/sensor.py:134 | `this_week` reads the clock twice: the date from `datetime.now().replace(...)` and the days to go back from a second `datetime.now().weekday()` | first reading Sunday 2024-03-03 23:59:59.999999, second reading Monday 2024-03-04 00:00:00 | the window starts at midnight on the Monday of the current week, 2024-02-26 here; as written it starts on Sunday 2024-03-03 and drops six days of usage | not executed | `Windows.AsWrittenSundayNight` | `Windows.StartOfWeek` |
