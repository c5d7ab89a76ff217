/**
 * The `Read Date and End Time` column of the meter's download, read as
 * `datetime.strptime(text, '%d-%m-%Y %H:%M')` reads it: day, month, four-digit
 * year, hour and minute, for example `01-03-2024 00:30`. A text that does not
 * have this shape, or names a date or time that does not exist, makes Python
 * raise `ValueError`; here it gives `None`.
 *
 * Only the zero-padded spelling the portal writes is accepted (see README).
 */
module ReadTimestamp {
  import opened Wrappers
  import opened Calendar

  predicate IsDigit(c: char) {
    '0' <= c <= '9'
  }

  predicate AllDigits(s: string) {
    forall i :: 0 <= i < |s| ==> IsDigit(s[i])
  }

  function DigitChar(v: int): (c: char)
    requires 0 <= v < 10
    ensures IsDigit(c) && c as int - '0' as int == v
  {
    ('0' as int + v) as char
  }

  function Pow10(n: nat): (p: nat)
    ensures p >= 1
  {
    if n == 0 then 1 else 10 * Pow10(n - 1)
  }

  /** The number a run of decimal digits denotes, most significant digit first. */
  function DigitsValue(s: string): (v: int)
    requires AllDigits(s)
    ensures 0 <= v < Pow10(|s|)
  {
    if s == [] then 0
    else DigitsValue(s[..|s| - 1]) * 10 + (s[|s| - 1] as int - '0' as int)
  }

  /** `v` written in exactly `width` decimal digits, padded with zeros on the left. */
  function Digits(v: int, width: nat): (s: string)
    requires 0 <= v
    ensures |s| == width && AllDigits(s)
  {
    if width == 0 then [] else Digits(v / 10, width - 1) + [DigitChar(v % 10)]
  }

  /** Writing a number and reading it back gives the number. */
  lemma {:induction false} DigitsRoundTrip(v: int, width: nat)
    requires 0 <= v < Pow10(width)
    ensures DigitsValue(Digits(v, width)) == v
  {
    if width > 0 {
      DigitsRoundTrip(v / 10, width - 1);
      var s := Digits(v, width);
      assert s[..|s| - 1] == Digits(v / 10, width - 1);
    }
  }

  /** Reading a run of digits and writing it back at the same width gives the run. */
  lemma {:induction false} ValueRoundTrip(s: string)
    requires AllDigits(s)
    ensures Digits(DigitsValue(s), |s|) == s
  {
    if s != [] {
      var init := s[..|s| - 1];
      ValueRoundTrip(init);
      var v := DigitsValue(s);
      assert v / 10 == DigitsValue(init);
      assert v % 10 == s[|s| - 1] as int - '0' as int;
    }
  }

  /**
   * A `strptime` format, directive by directive: a field of `width` digits,
   * or a character to match, followed by the rest of the format.
   */
  datatype Directives = End | Number(width: nat, rest: Directives) | Literal(c: char, rest: Directives)

  /**
   * `'%d-%m-%Y %H:%M'`: day, month, year, hour and minute, with `%Y` four
   * digits wide and the others two.
   */
  const Pattern: Directives :=
    Number(2, Literal('-', Number(2, Literal('-', Number(4, Literal(' ',
      Number(2, Literal(':', Number(2, End)))))))))

  /** How many numbers a format reads. */
  function NumberCount(f: Directives): nat {
    match f
    case End => 0
    case Number(_, rest) => 1 + NumberCount(rest)
    case Literal(_, rest) => NumberCount(rest)
  }

  /**
   * Reads `s` against the format `f` from the left, returning the numbers
   * read in order; `None` when a character does not match, a field is not
   * all digits, or text is left over.
   */
  function Scan(s: string, f: Directives): (r: Option<seq<int>>)
    ensures r.Some? ==> |r.value| == NumberCount(f)
    ensures r.Some? ==> forall k :: 0 <= k < |r.value| ==> r.value[k] >= 0
  {
    match f
    case End => if s == [] then Some([]) else None
    case Literal(c, rest) =>
      if s != [] && s[0] == c then Scan(s[1..], rest) else None
    case Number(w, rest) =>
      if w <= |s| && AllDigits(s[..w]) then
        match Scan(s[w..], rest)
        case None => None
        case Some(numbers) => Some([DigitsValue(s[..w])] + numbers)
      else None
  }

  /** Writes `numbers` in the shape the format `f` describes: the inverse of `Scan`. */
  function Render(numbers: seq<int>, f: Directives): string
    requires |numbers| == NumberCount(f)
    requires forall k :: 0 <= k < |numbers| ==> numbers[k] >= 0
  {
    match f
    case End => []
    case Literal(c, rest) => [c] + Render(numbers, rest)
    case Number(w, rest) => Digits(numbers[0], w) + Render(numbers[1..], rest)
  }

  /** Each number fits in the width of the field it is written to. */
  predicate Fits(numbers: seq<int>, f: Directives)
    requires |numbers| == NumberCount(f)
  {
    match f
    case End => true
    case Literal(_, rest) => Fits(numbers, rest)
    case Number(w, rest) => 0 <= numbers[0] < Pow10(w) && Fits(numbers[1..], rest)
  }

  /** Numbers written and then read back are the numbers. */
  lemma {:induction false} ScanRender(numbers: seq<int>, f: Directives)
    requires |numbers| == NumberCount(f) && Fits(numbers, f)
    requires forall k :: 0 <= k < |numbers| ==> numbers[k] >= 0
    ensures Scan(Render(numbers, f), f) == Some(numbers)
  {
    var s := Render(numbers, f);
    match f
    case End =>
    case Literal(c, rest) =>
      ScanRender(numbers, rest);
      assert s[1..] == Render(numbers, rest);
    case Number(w, rest) =>
      ScanRender(numbers[1..], rest);
      ScanRenderNumber(numbers, w, rest);
  }

  /** The step of `ScanRender` for a field: the number written in its digits is read back. */
  lemma ScanRenderNumber(numbers: seq<int>, w: nat, rest: Directives)
    requires |numbers| == 1 + NumberCount(rest) && 0 <= numbers[0] < Pow10(w)
    requires forall k :: 0 <= k < |numbers| ==> numbers[k] >= 0
    requires Scan(Render(numbers[1..], rest), rest) == Some(numbers[1..])
    ensures Scan(Render(numbers, Number(w, rest)), Number(w, rest)) == Some(numbers)
  {
    var s := Render(numbers, Number(w, rest));
    DigitsRoundTrip(numbers[0], w);
    assert s[..w] == Digits(numbers[0], w) && s[w..] == Render(numbers[1..], rest);
    assert numbers == [numbers[0]] + numbers[1..];
  }

  /** A text read and then written back is the text. */
  lemma {:induction false} RenderScan(s: string, f: Directives)
    requires Scan(s, f).Some?
    ensures Fits(Scan(s, f).value, f)
    ensures Render(Scan(s, f).value, f) == s
  {
    match f
    case End =>
    case Literal(c, rest) =>
      RenderScan(s[1..], rest);
      assert s == [c] + s[1..];
    case Number(w, rest) =>
      RenderScan(s[w..], rest);
      RenderScanNumber(s, w, rest);
  }

  /** The step of `RenderScan` for a field: the digits read are written back as they were. */
  lemma RenderScanNumber(s: string, w: nat, rest: Directives)
    requires w <= |s| && Scan(s[w..], rest).Some? && Scan(s, Number(w, rest)).Some?
    requires Fits(Scan(s[w..], rest).value, rest) && Render(Scan(s[w..], rest).value, rest) == s[w..]
    ensures Fits(Scan(s, Number(w, rest)).value, Number(w, rest))
    ensures Render(Scan(s, Number(w, rest)).value, Number(w, rest)) == s
  {
    var tail := Scan(s[w..], rest).value;
    var numbers := Scan(s, Number(w, rest)).value;
    assert numbers == [DigitsValue(s[..w])] + tail;
    ValueRoundTrip(s[..w]);
    assert numbers[1..] == tail;
    assert s == s[..w] + s[w..];
  }

  /**
   * `datetime.strptime(s, '%d-%m-%Y %H:%M')`: `None` where Python raises
   * `ValueError`, for a text of another shape or a date or time that does
   * not exist.
   */
  function Parse(s: string): (r: Option<DateTime>)
    ensures r.Some? ==> r.value.Valid()
  {
    match Scan(s, Pattern)
    case None => None
    case Some(numbers) =>
      assert NumberCount(Pattern) == 5;
      var day, month, year, hour, minute := numbers[0], numbers[1], numbers[2], numbers[3], numbers[4];
      if ValidDate(year, month, day) && hour < 24 && minute < 60 then
        Some(DateTime(year, month, day, Clock(hour, minute, 0, 0)))
      else None
  }

  /** `%d-%m-%Y %H:%M` names whole minutes. */
  lemma ParsedOnTheMinute(s: string)
    requires Parse(s).Some?
    ensures Parse(s).value.timeOfDay % 60_000_000 == 0
  {
    var numbers := Scan(s, Pattern).value;
    assert NumberCount(Pattern) == 5;
    DivUnique(Parse(s).value.timeOfDay, 60_000_000, numbers[3] * 60 + numbers[4], 0);
  }

  /** The numbers `Format` writes, in the order of `Pattern`. */
  function Fields(dt: DateTime): (numbers: seq<int>)
    requires dt.Valid()
    ensures |numbers| == NumberCount(Pattern) && Fits(numbers, Pattern)
    ensures forall k :: 0 <= k < |numbers| ==> numbers[k] >= 0
  {
    ClockRanges(dt);
    var numbers := [dt.day, dt.month, dt.year, dt.Hour(), dt.Minute()];
    FitsPattern(numbers);
    numbers
  }

  lemma FitsPattern(numbers: seq<int>)
    requires |numbers| == 5 && 0 <= numbers[0] < 100 && 0 <= numbers[1] < 100
    requires 0 <= numbers[2] < 10000 && 0 <= numbers[3] < 100 && 0 <= numbers[4] < 100
    ensures NumberCount(Pattern) == 5 && Fits(numbers, Pattern)
  {
    var p := Pattern;
    assert Fits(numbers[4..], p.rest.rest.rest.rest.rest.rest.rest.rest);
    assert Fits(numbers[3..], p.rest.rest.rest.rest.rest.rest) by {
      assert numbers[3..][1..] == numbers[4..];
    }
    assert Fits(numbers[2..], p.rest.rest.rest.rest) by {
      assert numbers[2..][1..] == numbers[3..];
    }
    assert Fits(numbers[1..], p.rest.rest) by {
      assert numbers[1..][1..] == numbers[2..];
    }
  }

  /** `dt.strftime('%d-%m-%Y %H:%M')`. */
  function Format(dt: DateTime): string
    requires dt.Valid()
  {
    Render(Fields(dt), Pattern)
  }

  /** Every whole-minute date-time is read back from its text. */
  lemma ParseFormat(dt: DateTime)
    requires dt.Valid() && dt.timeOfDay % 60_000_000 == 0
    ensures Parse(Format(dt)) == Some(dt)
  {
    ScanRender(Fields(dt), Pattern);
    WholeMinute(dt);
  }

  /** A time of day on a whole minute is made of its hour and minute alone. */
  lemma WholeMinute(dt: DateTime)
    requires dt.Valid() && dt.timeOfDay % 60_000_000 == 0
    ensures 0 <= dt.Hour() < 24 && 0 <= dt.Minute() < 60
    ensures dt.timeOfDay == Clock(dt.Hour(), dt.Minute(), 0, 0)
  {
    ClockRanges(dt);
  }

  /** Every accepted text is the one and only spelling of what it denotes. */
  lemma FormatParse(s: string)
    requires Parse(s).Some?
    ensures Format(Parse(s).value) == s
  {
    var numbers := Scan(s, Pattern).value;
    assert NumberCount(Pattern) == 5;
    ClockFields(numbers[3], numbers[4], 0, 0);
    assert Fields(Parse(s).value) == numbers;
    RenderScan(s, Pattern);
  }
}
