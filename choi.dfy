/**
 * The date handling of the tide-level command (`choi.ts`): `YYYYMMDD`
 * arguments become local midnights, the range is checked (an error when the
 * start is after the end, only a warning when it spans more than 31 days),
 * the end is moved to 23:59 of its day, and the output path is built from
 * the station code and the two date arguments.
 */
module Choi {
  import opened Wrappers
  import opened JsText
  import opened Civil

  /** Why the command rejects its date arguments. */
  datatype DateError =
    | NotEightUnits   // 日付は YYYYMMDD 形式で入力してください
    | NotANumber      // 無効な日付形式です
    | StartAfterEnd   // 開始日は終了日より前である必要があります

  // ---------------------------------------------------------------------
  // parseDate

  /** `new Date(year, monthIndex, day, 0, 0, 0)`: a local midnight, kept as the arguments it was built from. */
  datatype LocalMidnight = LocalMidnight(year: int, monthIndex: int, day: int)
  {
    /** The time value of the `Date`. */
    function TimeValue(): int {
      LocalTimeValue(year, monthIndex, day, 0, 0, 0)
    }
  }

  /**
   * `parseDate(dateStr)`: units 0-4 are the year, 4-6 the month (one-based
   * in the text) and 6-8 the day, each read by `parseInt` without a radix.
   */
  function ParseDate(s: JsString): (r: Result<LocalMidnight, DateError>)
    ensures r == Err(NotEightUnits) <==> |s| != 8
    ensures r == Err(NotANumber) <==> |s| == 8 && (ParseInt(s[0..4], 0).None? || ParseInt(s[4..6], 0).None? || ParseInt(s[6..8], 0).None?)
    ensures r.Ok? <==> |s| == 8 && ParseInt(s[0..4], 0).Some? && ParseInt(s[4..6], 0).Some? && ParseInt(s[6..8], 0).Some?
    ensures r.Ok? ==> r.value == LocalMidnight(ParseInt(s[0..4], 0).value, ParseInt(s[4..6], 0).value - 1, ParseInt(s[6..8], 0).value)
  {
    if |s| != 8 then Err(NotEightUnits)
    else
      var year := ParseInt(s[0..4], 0);
      var month := ParseInt(s[4..6], 0);
      var day := ParseInt(s[6..8], 0);
      if year.None? || month.None? || day.None? then Err(NotANumber)
      else Ok(LocalMidnight(year.value, month.value - 1, day.value))
  }

  /** `YYYYMMDD` for a four-digit year and a month and day below 100. */
  function DateText(year: nat, month: nat, day: nat): JsString {
    NatToString(year) + PadStart2(NatToString(month)) + PadStart2(NatToString(day))
  }

  /** Every `new Date(year, monthIndex, day, 0, 0, 0)` is a local midnight, on the day `MakeDay` gives. */
  lemma MidnightOnItsDay(d: LocalMidnight)
    ensures (d.TimeValue() + LOCAL_OFFSET_MS) % MS_PER_DAY == 0
    ensures LocalDay(d.TimeValue()) == MakeDay(MakeFullYear(d.year), d.monthIndex, d.day)
  {
    MidnightDivides(MakeDay(MakeFullYear(d.year), d.monthIndex, d.day), d.TimeValue() + LOCAL_OFFSET_MS);
  }

  lemma MidnightDivides(days: int, x: int)
    requires x == days * MS_PER_DAY
    ensures x % MS_PER_DAY == 0 && x / MS_PER_DAY == days
  {}

  /** Eight units whose three fields read as numbers read back as those numbers. */
  lemma ParseDateOfFields(y: JsString, m: JsString, d: JsString, year: int, month: int, day: int)
    requires |y| == 4 && |m| == 2 && |d| == 2
    requires ParseInt(y, 0) == Some(year) && ParseInt(m, 0) == Some(month) && ParseInt(d, 0) == Some(day)
    ensures ParseDate(y + m + d).Ok? && ParseDate(y + m + d).value == LocalMidnight(year, month - 1, day)
  {
    DateSlices(y, m, d);
    ParseDateOf(y + m + d, year, month, day);
  }

  lemma ParseDateOf(s: JsString, year: int, month: int, day: int)
    requires |s| == 8
    requires ParseInt(s[0..4], 0) == Some(year) && ParseInt(s[4..6], 0) == Some(month) && ParseInt(s[6..8], 0) == Some(day)
    ensures ParseDate(s).Ok? && ParseDate(s).value == LocalMidnight(year, month - 1, day)
  {
  }

  lemma DateSlices(y: JsString, m: JsString, d: JsString)
    requires |y| == 4 && |m| == 2 && |d| == 2
    ensures |y + m + d| == 8 && (y + m + d)[0..4] == y && (y + m + d)[4..6] == m && (y + m + d)[6..8] == d
  {
  }

  /** A `YYYYMMDD` text reads back as its year, zero-based month and day. */
  lemma DateTextRoundTrip(year: nat, month: nat, day: nat)
    requires 1000 <= year <= 9999 && month < 100 && day < 100
    ensures ParseDate(DateText(year, month, day)).Ok? && ParseDate(DateText(year, month, day)).value == LocalMidnight(year, month - 1, day)
  {
    NatToStringLength(year);
    NatToStringLength(month);
    NatToStringLength(day);
    ParseNatToString(year, 0);
    ParsePadded(month, 0);
    ParsePadded(day, 0);
    ParseDateOfFields(NatToString(year), PadStart2(NatToString(month)), PadStart2(NatToString(day)), year, month, day);
  }

  /** Outside the years 0 to 99, the midnight of a calendar date lies on that date's day number. */
  lemma MidnightOfDate(year: int, month: int, day: int)
    requires !(0 <= year <= 99) && 1 <= month <= 12
    ensures var t := LocalMidnight(year, month - 1, day).TimeValue();
      LocalDay(t) == DaysFromCivil(year, month, day) && (t + LOCAL_OFFSET_MS) % MS_PER_DAY == 0
  {
    MidnightOnItsDay(LocalMidnight(year, month - 1, day));
    MakeDayInRange(year, month - 1, day);
  }

  // ---------------------------------------------------------------------
  // The range checks of main

  /** `Math.ceil(x)`. */
  function Ceil(x: real): (n: int)
    ensures n as real - 1.0 < x <= n as real
  {
    -((-x).Floor)
  }

  /** `Math.ceil((end - start) / (1000 * 60 * 60 * 24))`: the span in days, rounded up. */
  function DaysDiff(start: int, end: int): int {
    Ceil((end - start) as real / MS_PER_DAY as real)
  }

  /** The span is reported as longer than 31 days exactly when the two instants are more than 31 whole days apart. */
  lemma LongSpanExactly(start: int, end: int)
    ensures DaysDiff(start, end) > 31 <==> end - start > 31 * MS_PER_DAY
  {
    var x := (end - start) as real / MS_PER_DAY as real;
    assert (end - start) as real == x * MS_PER_DAY as real;
    if end - start > 31 * MS_PER_DAY {
      assert x > 31.0;
    }
    if DaysDiff(start, end) > 31 {
      assert x > 31.0;
    }
  }

  /** `endDateTime.setHours(23, 59, 0, 0)` on a copy of the end date. */
  function EndOfDay(t: int): (u: int)
    ensures LocalDay(u) == LocalDay(t)
    ensures (u + LOCAL_OFFSET_MS) % MS_PER_DAY == MakeTime(23, 59, 0, 0)
  {
    SetHoursSameDay(t, 23, 59, 0, 0);
    SetHours(t, 23, 59, 0, 0)
  }

  /** For a local midnight, the end of the day is 23 hours and 59 minutes later. */
  lemma EndOfMidnight(t: int)
    requires (t + LOCAL_OFFSET_MS) % MS_PER_DAY == 0
    ensures EndOfDay(t) == t + 23 * MS_PER_HOUR + 59 * MS_PER_MINUTE
  {
    assert t + LOCAL_OFFSET_MS == LocalDay(t) * MS_PER_DAY;
  }

  /** The checked dates: both instants, the end moved to 23:59, the span in days and whether it is warned about. */
  datatype DateRange = DateRange(start: int, end: int, endDateTime: int, daysDiff: int, longSpanWarning: bool)

  /**
   * The date part of `main`: parse the start, then the end (the first error
   * wins), reject a start after the end, warn (and go on) above 31 days, and
   * compute the end of the last day.
   */
  function CheckDates(startText: JsString, endText: JsString): (r: Result<DateRange, DateError>)
    ensures ParseDate(startText).Err? ==> r == Err(ParseDate(startText).error)
    ensures ParseDate(startText).Ok? && ParseDate(endText).Err? ==> r == Err(ParseDate(endText).error)
    ensures r == Err(StartAfterEnd) <==> (ParseDate(startText).Ok? && ParseDate(endText).Ok?
      && ParseDate(startText).value.TimeValue() > ParseDate(endText).value.TimeValue())
    ensures r.Ok? ==> (r.value.start == ParseDate(startText).value.TimeValue() && r.value.end == ParseDate(endText).value.TimeValue()
      && r.value.start <= r.value.end
      && (r.value.longSpanWarning <==> r.value.end - r.value.start > 31 * MS_PER_DAY)
      && r.value.endDateTime == r.value.end + 23 * MS_PER_HOUR + 59 * MS_PER_MINUTE)
  {
    match ParseDate(startText)
    case Err(e) => Err(e)
    case Ok(startDate) =>
      match ParseDate(endText)
      case Err(e) => Err(e)
      case Ok(endDate) =>
        var start := startDate.TimeValue();
        var end := endDate.TimeValue();
        if start > end then Err(StartAfterEnd)
        else
          var daysDiff := DaysDiff(start, end);
          LongSpanExactly(start, end);
          MidnightOnItsDay(endDate);
          EndOfMidnight(end);
          Ok(DateRange(start, end, EndOfDay(end), daysDiff, daysDiff > 31))
  }

  // ---------------------------------------------------------------------
  // generateOutputPath

  const OUTPUT_DIR: JsString := Str("./build/choi/")
  const JSON_EXTENSION: JsString := Str(".json")
  const HYPHEN: CodeUnit := '-' as CodeUnit

  /** `./build/choi/<code>-<start>-<end>.json`. */
  function GenerateOutputPath(stationCode: JsString, startDate: JsString, endDate: JsString): (r: JsString)
    ensures |r| == |OUTPUT_DIR| + |stationCode| + |startDate| + |endDate| + 2 + |JSON_EXTENSION|
    ensures r[..|OUTPUT_DIR|] == OUTPUT_DIR && r[|r| - |JSON_EXTENSION|..] == JSON_EXTENSION
  {
    OUTPUT_DIR + (stationCode + [HYPHEN] + startDate + [HYPHEN] + endDate) + JSON_EXTENSION
  }

  /** The file name between the directory and the extension. */
  function OutputStem(path: JsString): JsString
    requires |path| >= |OUTPUT_DIR| + |JSON_EXTENSION|
  {
    path[|OUTPUT_DIR|..|path| - |JSON_EXTENSION|]
  }

  /** When none of the three arguments holds a hyphen, the path splits back into them. */
  lemma OutputPathRoundTrip(stationCode: JsString, startDate: JsString, endDate: JsString)
    requires HYPHEN !in stationCode && HYPHEN !in startDate && HYPHEN !in endDate
    ensures var path := GenerateOutputPath(stationCode, startDate, endDate);
      Split(OutputStem(path), HYPHEN) == [stationCode, startDate, endDate]
  {
    var stem := stationCode + [HYPHEN] + startDate + [HYPHEN] + endDate;
    var path := GenerateOutputPath(stationCode, startDate, endDate);
    assert OutputStem(path) == stem;
    assert stem == stationCode + [HYPHEN] + (startDate + [HYPHEN] + endDate);
    SplitCons(stationCode, HYPHEN, startDate + [HYPHEN] + endDate);
    SplitTwo(startDate, HYPHEN, endDate);
  }
}
