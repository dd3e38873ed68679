/**
 * The tide calendar script: the per-day moon table is grouped into tide
 * periods, and each period becomes one whole-day event of the calendar.
 */
module Ushio {
  import opened Wrappers
  import opened JsText
  import opened MoonPhase
  import TC = TideCalculator
  import Ics = IcsGenerator

  /** The calendar period of a tide period: its class label, its first and last day, and its glyph. */
  function CalendarPeriodOf(p: TC.TidePeriod): Ics.CalendarPeriod {
    Ics.CalendarPeriod(p.tideName.Label(), p.startDate, p.endDate, Some(p.emoji))
  }

  /** The calendar periods handed to the calendar writer, one per tide period, in order. */
  function CalendarPeriodsOf(ps: seq<TC.TidePeriod>): (cs: seq<Ics.CalendarPeriod>)
    ensures |cs| == |ps|
  {
    seq(|ps|, k requires 0 <= k < |ps| => CalendarPeriodOf(ps[k]))
  }

  /** The calendar name the script passes. */
  const USHIO_CALENDAR_NAME: JsString := Str("日本の潮まわりカレンダー")

  /** The description the script's calendar gets: it passes none, and `${undefined}` reads "undefined". */
  const NO_DESCRIPTION: JsString := Str("undefined")

  /**
   * The script's calendar: the tide periods of the table as whole-day events.
   * It passes no description, so the description line reads
   * `X-WR-CALDESC:undefined`.
   */
  function UshioCalendar(phases: seq<MoonPhaseDay>): JsString {
    Ics.GenerateICSContent(CalendarPeriodsOf(TC.TidePeriods(phases)), USHIO_CALENDAR_NAME, NO_DESCRIPTION, true)
  }

  /** The last row of run `k`: the row before the next run starts, or the last row of the table. */
  function LastRow(rows: nat, starts: seq<nat>, k: nat): int
    requires k < |starts|
  {
    if k + 1 < |starts| then starts[k + 1] - 1 else rows - 1
  }

  /** Tide period `k` runs from the date of run `k`'s first row to the date of its last row. */
  lemma PeriodDates(phases: seq<MoonPhaseDay>, k: nat)
    requires k < |TC.TidePeriods(phases)|
    ensures var starts, p := TC.RunStarts(TC.Names(phases), 0), TC.TidePeriods(phases)[k];
      k < |starts| && starts[k] <= LastRow(|phases|, starts, k) < |phases| &&
      p.startDate == phases[starts[k]].date && p.endDate == phases[LastRow(|phases|, starts, k)].date
  {
    TC.TidePeriodsAreMaximalRuns(phases);
    var starts := TC.RunStarts(TC.Names(phases), 0);
    assert TC.CoversRun(phases, TC.Names(phases), starts, k, TC.TidePeriods(phases)[k]);
  }

  /** The whole-day start and end lines of an event carry the DATE values of its first and last instant. */
  lemma WholeDayDateLines(c: Ics.CalendarPeriod, uid: JsString)
    ensures var lines := Ics.EventLines(c, uid, true);
      lines[2] == Ics.DTSTART_DATE + Ics.FormatICSDate(c.startDate) &&
      lines[3] == Ics.DTEND_DATE + Ics.FormatICSDate(c.endDate)
  {
    var f := Ics.EventFields(c, uid, true);
    var lines := Ics.EventLines(c, uid, true);
    assert lines == f[4 := Ics.Folded(f[4])];
    assert lines[2] == f[2] && lines[3] == f[3];
  }

  /** The start and end lines of event `k` in a whole-day calendar, read off the written lines. */
  lemma EventDateLinesAt(cs: seq<Ics.CalendarPeriod>, calendarName: JsString, caldesc: JsString, k: nat)
    requires k < |cs|
    ensures var d := Ics.DocumentLines(cs, calendarName, caldesc, true);
      8 + 6 * k + 3 < |d| &&
      d[8 + 6 * k + 2] == Ics.DTSTART_DATE + Ics.FormatICSDate(cs[k].startDate) &&
      d[8 + 6 * k + 3] == Ics.DTEND_DATE + Ics.FormatICSDate(cs[k].endDate)
  {
    Ics.DocumentLineEvents(cs, calendarName, caldesc, true);
    var ls := Ics.EventLineLists(cs, true);
    assert ls[k] == Ics.EventLines(cs[k], Ics.PeriodUid(cs[k], true), true);
    WholeDayDateLines(cs[k], Ics.PeriodUid(cs[k], true));
  }

  /**
   * In the whole-day calendar of the tide periods, event `k` starts on the
   * date of run `k`'s first row and its DTEND carries the date of the run's
   * last row: the last day of the period itself, not the day after it.
   */
  lemma WholeDayEndIsLastDay(phases: seq<MoonPhaseDay>, calendarName: JsString, caldesc: JsString, k: nat)
    requires k < |TC.TidePeriods(phases)|
    ensures var cs := CalendarPeriodsOf(TC.TidePeriods(phases));
      var d := Ics.DocumentLines(cs, calendarName, caldesc, true);
      var starts := TC.RunStarts(TC.Names(phases), 0);
      Ics.GenerateICSContent(cs, calendarName, caldesc, true) == Join(d, CRLF) &&
      k < |starts| && starts[k] <= LastRow(|phases|, starts, k) < |phases| && 8 + 6 * k + 3 < |d| &&
      d[8 + 6 * k + 2] == Ics.DTSTART_DATE + Ics.FormatICSDate(phases[starts[k]].date) &&
      d[8 + 6 * k + 3] == Ics.DTEND_DATE + Ics.FormatICSDate(phases[LastRow(|phases|, starts, k)].date)
  {
    var cs := CalendarPeriodsOf(TC.TidePeriods(phases));
    Ics.ContentIsLines(cs, calendarName, caldesc, true);
    PeriodDates(phases, k);
    EventDateLinesAt(cs, calendarName, caldesc, k);
  }

  /**
   * A tide period of a single day gives an event whose DTSTART and DTEND
   * carry the same DATE value; section 3.6.1 of RFC 5545 reads the DATE
   * DTEND as exclusive, so such an event covers no day.
   */
  lemma OneDayPeriodIsEmptyEvent(phases: seq<MoonPhaseDay>, calendarName: JsString, caldesc: JsString, k: nat)
    requires k < |TC.TidePeriods(phases)|
    requires var starts := TC.RunStarts(TC.Names(phases), 0);
      k < |starts| && LastRow(|phases|, starts, k) == starts[k]
    ensures var cs := CalendarPeriodsOf(TC.TidePeriods(phases));
      var d := Ics.DocumentLines(cs, calendarName, caldesc, true);
      var v := Ics.FormatICSDate(TC.TidePeriods(phases)[k].startDate);
      8 + 6 * k + 3 < |d| && d[8 + 6 * k + 2] == Ics.DTSTART_DATE + v && d[8 + 6 * k + 3] == Ics.DTEND_DATE + v
  {
    WholeDayEndIsLastDay(phases, calendarName, caldesc, k);
    PeriodDates(phases, k);
  }

  /**
   * When the class changes from every day to the next, every event of the
   * whole-day calendar has the same DATE value in DTSTART and DTEND.
   */
  lemma EveryChangeEmptyEvents(phases: seq<MoonPhaseDay>, calendarName: JsString, caldesc: JsString)
    requires forall k | 0 <= k < |phases| - 1 :: TC.Names(phases)[k] != TC.Names(phases)[k + 1]
    ensures var cs := CalendarPeriodsOf(TC.TidePeriods(phases));
      var d := Ics.DocumentLines(cs, calendarName, caldesc, true);
      |cs| == |phases| &&
      forall k | 0 <= k < |phases| ::
        8 + 6 * k + 3 < |d| &&
        d[8 + 6 * k + 2] == Ics.DTSTART_DATE + Ics.FormatICSDate(phases[k].date) &&
        d[8 + 6 * k + 3] == Ics.DTEND_DATE + Ics.FormatICSDate(phases[k].date)
  {
    var ps := TC.TidePeriods(phases);
    var cs := CalendarPeriodsOf(ps);
    var d := Ics.DocumentLines(cs, calendarName, caldesc, true);
    TC.EveryChangeOnePeriodPerRow(phases, TC.Names(phases), 0);
    assert |ps| == |phases|;
    forall k | 0 <= k < |phases|
      ensures 8 + 6 * k + 3 < |d| &&
        d[8 + 6 * k + 2] == Ics.DTSTART_DATE + Ics.FormatICSDate(phases[k].date) &&
        d[8 + 6 * k + 3] == Ics.DTEND_DATE + Ics.FormatICSDate(phases[k].date)
    {
      assert ps[k].startDate == phases[k].date && ps[k].endDate == phases[k].date;
      assert cs[k] == CalendarPeriodOf(ps[k]);
      EventDateLinesAt(cs, calendarName, caldesc, k);
    }
  }

  /** The calendar periods of a table whose dates have four-digit years start and end in four-digit years. */
  lemma PeriodsFourDigitYears(phases: seq<MoonPhaseDay>)
    requires forall i | 0 <= i < |phases| :: Ics.FourDigitYears(phases[i].date)
    ensures var cs := CalendarPeriodsOf(TC.TidePeriods(phases));
      forall k | 0 <= k < |cs| :: Ics.FourDigitYears(cs[k].startDate) && Ics.FourDigitYears(cs[k].endDate)
  {
    var ps := TC.TidePeriods(phases);
    var cs := CalendarPeriodsOf(ps);
    forall k | 0 <= k < |cs| ensures Ics.FourDigitYears(cs[k].startDate) && Ics.FourDigitYears(cs[k].endDate) {
      PeriodDates(phases, k);
      assert cs[k] == CalendarPeriodOf(ps[k]);
    }
  }

  /**
   * The script's own calendar keeps every physical line within 75 units when
   * the table's dates have four-digit years: its unfolded description line
   * is `X-WR-CALDESC:undefined`, 22 units long.
   */
  lemma UshioCalendarLineLengths(phases: seq<MoonPhaseDay>)
    requires forall i | 0 <= i < |phases| :: Ics.FourDigitYears(phases[i].date)
    ensures var d := Ics.PhysicalLines(CalendarPeriodsOf(TC.TidePeriods(phases)), USHIO_CALENDAR_NAME, NO_DESCRIPTION, true);
      var i := Ics.DescriptionIndex(USHIO_CALENDAR_NAME);
      UshioCalendar(phases) == Join(d, CRLF) &&
      i < |d| && d[i] == Ics.CALDESC_PREFIX + NO_DESCRIPTION && |d[i]| == 22 &&
      Ics.Short(d)
  {
    var cs := CalendarPeriodsOf(TC.TidePeriods(phases));
    var desc := NO_DESCRIPTION;
    assert |desc| == 9;
    PeriodsFourDigitYears(phases);
    Ics.ContentIsPhysicalLines(cs, USHIO_CALENDAR_NAME, desc, true);
    assert UshioCalendar(phases) == Ics.GenerateICSContent(cs, USHIO_CALENDAR_NAME, desc, true);
    Ics.ShortDescriptionShortLines(cs, USHIO_CALENDAR_NAME, desc, true);
  }
}
