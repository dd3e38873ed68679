/**
 * Rising and falling tides from the day's high and low waters: each adjacent
 * low-then-high pair of extrema is a rising tide (満ち潮), each high-then-low
 * pair a falling tide (引き潮); the tides become calendar periods named after
 * their direction and their rounded levels.
 */
module Shioji {
  import opened Wrappers
  import opened JsText
  import opened JsNumber
  import opened Civil
  import opened IcsGenerator

  /** Whether an extremum is a high or a low water. */
  datatype ExtremumKind = High | Low

  /** A high or low water: its instant, its level in centimetres and its kind. */
  datatype Extremum = Extremum(time: int, level: real, kind: ExtremumKind)

  /** The direction of a tide. */
  datatype EventKind = Rising | Falling

  /** A tide between two adjacent extrema. */
  datatype TideEvent = TideEvent(kind: EventKind, startTime: int, endTime: int, startLevel: real, endLevel: real)

  // ---------------------------------------------------------------------
  // calculateTideEvents

  /** The tide between two adjacent extrema: rising from a low to a high, falling from a high to a low, none between two of a kind. */
  function PairEvent(current: Extremum, next: Extremum): (r: Option<TideEvent>)
    ensures r.Some? <==> current.kind != next.kind
    ensures r.Some? ==> (r.value.kind.Rising? <==> current.kind.Low?)
    ensures r.Some? ==> (r.value.startTime == current.time && r.value.endTime == next.time
      && r.value.startLevel == current.level && r.value.endLevel == next.level)
  {
    if current.kind.Low? && next.kind.High? then
      Some(TideEvent(Rising, current.time, next.time, current.level, next.level))
    else if current.kind.High? && next.kind.Low? then
      Some(TideEvent(Falling, current.time, next.time, current.level, next.level))
    else None
  }

  /** The tides of the pairs (0, 1), ..., (m - 1, m), in order. */
  function PairEvents(extrema: seq<Extremum>, m: nat): seq<TideEvent>
    requires m < |extrema|
  {
    if m == 0 then []
    else
      var prev := PairEvents(extrema, m - 1);
      match PairEvent(extrema[m - 1], extrema[m])
      case Some(ev) => prev + [ev]
      case None => prev
  }

  /** The tides of all adjacent pairs; none for fewer than two extrema. */
  function TideEvents(extrema: seq<Extremum>): seq<TideEvent> {
    if |extrema| < 2 then [] else PairEvents(extrema, |extrema| - 1)
  }

  /** `calculateTideEvents`: one scan over the adjacent pairs of extrema. */
  method CalculateTideEvents(extrema: seq<Extremum>) returns (events: seq<TideEvent>)
    ensures events == TideEvents(extrema)
  {
    if |extrema| < 2 {
      return [];
    }
    events := [];
    for i := 0 to |extrema| - 1
      invariant events == PairEvents(extrema, i)
    {
      var current := extrema[i];
      var next := extrema[i + 1];
      if current.kind.Low? && next.kind.High? {
        events := events + [TideEvent(Rising, current.time, next.time, current.level, next.level)];
      } else if current.kind.High? && next.kind.Low? {
        events := events + [TideEvent(Falling, current.time, next.time, current.level, next.level)];
      }
    }
  }

  /** The pair indices j < m whose extrema differ in kind, in increasing order. */
  function MixedPairs(extrema: seq<Extremum>, m: nat): (r: seq<nat>)
    requires m < |extrema|
    ensures forall k | 0 <= k < |r| :: r[k] < m
  {
    if m == 0 then []
    else if extrema[m - 1].kind != extrema[m].kind then MixedPairs(extrema, m - 1) + [m - 1]
    else MixedPairs(extrema, m - 1)
  }

  /** The indices of the pairs of differing kinds below m increase, and are exactly those pairs. */
  lemma {:induction false} MixedPairsExact(extrema: seq<Extremum>, m: nat)
    requires m < |extrema|
    ensures var ix := MixedPairs(extrema, m);
      (forall k, l | 0 <= k < l < |ix| :: ix[k] < ix[l]) &&
      (forall j | 0 <= j < m :: j in ix <==> extrema[j].kind != extrema[j + 1].kind)
  {
    if m > 0 {
      MixedPairsExact(extrema, m - 1);
      var pix := MixedPairs(extrema, m - 1);
      var ix := MixedPairs(extrema, m);
      if extrema[m - 1].kind != extrema[m].kind {
        assert ix == pix + [m - 1];
        forall k, l | 0 <= k < l < |ix| ensures ix[k] < ix[l] {
          if l < |pix| { assert ix[k] == pix[k] && ix[l] == pix[l]; }
          else { assert ix[k] == pix[k]; }
        }
        forall j | 0 <= j < m ensures j in ix <==> extrema[j].kind != extrema[j + 1].kind {
          assert j in ix <==> j in pix || j == m - 1;
        }
      } else {
        assert ix == pix;
        forall j | 0 <= j < m ensures j in ix <==> extrema[j].kind != extrema[j + 1].kind {
          if j == m - 1 { assert j !in pix; }
        }
      }
    }
  }

  /**
   * The tides up to pair m are one per pair of differing kinds, in the order
   * of the pairs: tide k comes from pair `MixedPairs(extrema, m)[k]`.
   */
  lemma {:induction false} PairEventsAreMixedPairs(extrema: seq<Extremum>, m: nat)
    requires m < |extrema|
    ensures var ev, ix := PairEvents(extrema, m), MixedPairs(extrema, m);
      |ev| == |ix| && forall k | 0 <= k < |ix| :: Some(ev[k]) == PairEvent(extrema[ix[k]], extrema[ix[k] + 1])
  {
    if m > 0 {
      PairEventsAreMixedPairs(extrema, m - 1);
      var prev, pix := PairEvents(extrema, m - 1), MixedPairs(extrema, m - 1);
      var ev, ix := PairEvents(extrema, m), MixedPairs(extrema, m);
      var p := PairEvent(extrema[m - 1], extrema[m]);
      if p.Some? {
        assert ev == prev + [p.value] && ix == pix + [m - 1];
        forall k | 0 <= k < |ix| ensures Some(ev[k]) == PairEvent(extrema[ix[k]], extrema[ix[k] + 1]) {
          if k < |pix| { assert ev[k] == prev[k] && ix[k] == pix[k]; }
        }
      } else {
        assert ev == prev && ix == pix;
      }
    }
  }

  /** There are at most n - 1 tides for n extrema, and none for fewer than two. */
  lemma EventCountBound(extrema: seq<Extremum>)
    ensures |TideEvents(extrema)| <= if |extrema| < 2 then 0 else |extrema| - 1
  {
    if |extrema| >= 2 {
      var m := |extrema| - 1;
      PairEventsAreMixedPairs(extrema, m);
      MixedPairsExact(extrema, m);
      DistinctBelow(MixedPairs(extrema, m), m);
    }
  }

  /** An increasing list of numbers below m has at most m entries. */
  lemma {:induction false} DistinctBelow(ix: seq<nat>, m: nat)
    requires forall k | 0 <= k < |ix| :: ix[k] < m
    requires forall k, l | 0 <= k < l < |ix| :: ix[k] < ix[l]
    ensures |ix| <= m
    decreases m
  {
    if ix != [] {
      var last := ix[|ix| - 1];
      DistinctBelow(ix[..|ix| - 1], last);
    }
  }

  /**
   * With strictly alternating kinds, every adjacent pair gives a tide: there
   * are n - 1 of them, tide k runs from extremum k to extremum k + 1, their
   * directions alternate, and each ends where the next begins.
   */
  lemma AlternatingExtrema(extrema: seq<Extremum>)
    requires |extrema| >= 2
    requires forall j | 0 <= j < |extrema| - 1 :: extrema[j].kind != extrema[j + 1].kind
    ensures var ev := TideEvents(extrema);
      |ev| == |extrema| - 1 &&
      (forall k | 0 <= k < |ev| :: Some(ev[k]) == PairEvent(extrema[k], extrema[k + 1])) &&
      (forall k | 0 <= k < |ev| - 1 :: ev[k].kind != ev[k + 1].kind && ev[k].endTime == ev[k + 1].startTime)
  {
    AlternatingPrefix(extrema, |extrema| - 1);
    var ev := TideEvents(extrema);
    forall k | 0 <= k < |ev| - 1 ensures ev[k].kind != ev[k + 1].kind && ev[k].endTime == ev[k + 1].startTime {
      assert Some(ev[k]) == PairEvent(extrema[k], extrema[k + 1]);
      assert Some(ev[k + 1]) == PairEvent(extrema[k + 1], extrema[k + 2]);
    }
  }

  lemma {:induction false} AlternatingPrefix(extrema: seq<Extremum>, m: nat)
    requires m < |extrema|
    requires forall j | 0 <= j < |extrema| - 1 :: extrema[j].kind != extrema[j + 1].kind
    ensures var ev := PairEvents(extrema, m);
      |ev| == m && forall k | 0 <= k < m :: Some(ev[k]) == PairEvent(extrema[k], extrema[k + 1])
  {
    if m > 0 {
      AlternatingPrefix(extrema, m - 1);
    }
  }

  // ---------------------------------------------------------------------
  // Display names and periods

  const RISING_NAME: JsString := Str("満ち潮")
  const FALLING_NAME: JsString := Str("引き潮")
  const RISING_EMOJI: JsString := Str("↗️")
  const FALLING_EMOJI: JsString := Str("↘️")

  /** `(`, the unit that opens the levels of a period name. */
  const OPEN_PAREN: CodeUnit := 0x28
  /** `→`, the unit between the two levels. */
  const ARROW: CodeUnit := 0x2192

  /** `getTideEventDisplayName`: 満ち潮 for a rising tide, 引き潮 otherwise. */
  function GetTideEventDisplayName(event: TideEvent): (r: JsString)
    ensures r == RISING_NAME <==> event.kind.Rising?
    ensures r == FALLING_NAME <==> event.kind.Falling?
  {
    DisplayNamesDistinct();
    if event.kind.Rising? then RISING_NAME else FALLING_NAME
  }

  lemma DisplayNamesDistinct()
    ensures RISING_NAME != FALLING_NAME
  {
    assert RISING_NAME[0] != FALLING_NAME[0];
  }

  /** The arrow glyph of a direction. */
  function EventEmoji(kind: EventKind): JsString {
    if kind == Rising then RISING_EMOJI else FALLING_EMOJI
  }

  /** The part of a period name before the levels: glyph, space, direction, space. */
  function Heading(kind: EventKind): JsString {
    EventEmoji(kind) + [SP] + (if kind == Rising then RISING_NAME else FALLING_NAME) + [SP]
  }

  /** `<glyph> <direction> (<start> → <end>cm)` with both levels rounded to whole centimetres. */
  function PeriodName(event: TideEvent): JsString {
    Heading(event.kind) + [OPEN_PAREN] + IntToString(MathRound(event.startLevel))
      + [SP, ARROW, SP] + IntToString(MathRound(event.endLevel)) + Str("cm)")
  }

  /** `convertToTidePeriods`: one period per tide, in order, named after it, with no glyph of its own. */
  function ConvertToTidePeriods(events: seq<TideEvent>): (r: seq<CalendarPeriod>)
    ensures |r| == |events|
    ensures forall k | 0 <= k < |r| :: r[k].startDate == events[k].startTime && r[k].endDate == events[k].endTime
    ensures forall k | 0 <= k < |r| :: r[k].emoji == None
  {
    seq(|events|, k requires 0 <= k < |events| => CalendarPeriod(PeriodName(events[k]), events[k].startTime, events[k].endTime, None))
  }

  /** The number written before the only `mark` in `s` (anything after its digits ignored), and what follows the mark. */
  function TakeNumber(s: JsString, mark: CodeUnit): Option<(int, JsString)> {
    var a := Split(s, mark);
    if |a| != 2 then None
    else
      match ParseInt(a[0], 10)
      case Some(n) => Some((n, a[1]))
      case None => None
  }

  /** Text that reads as a number, the mark and the rest: the number is taken and the rest is left. */
  lemma TakeNumberOf(x: JsString, mark: CodeUnit, rest: JsString, n: int)
    requires mark !in x && mark !in rest && ParseInt(x, 10) == Some(n)
    ensures TakeNumber(x + [mark] + rest, mark) == Some((n, rest))
  {
    SplitTwo(x, mark, rest);
  }

  /** Reads the direction back from the part of a period name before `(`. */
  function ParseHeading(h: JsString): Option<EventKind> {
    if h == Heading(Rising) then Some(Rising)
    else if h == Heading(Falling) then Some(Falling)
    else None
  }

  /** Reads the two levels back from the part of a period name after `(`: a number, ` → `, a number. */
  function ParseLevels(s: JsString): Option<(int, int)> {
    match TakeNumber(s, ARROW)
    case None => None
    case Some((start, rest)) =>
      if rest == [] then None
      else
        match ParseInt(rest[1..], 10)
        case Some(end) => Some((start, end))
        case None => None
  }

  /** Reads a period name back: its direction and its two rounded levels. */
  function ParsePeriodName(name: JsString): Option<(EventKind, int, int)> {
    var a := Split(name, OPEN_PAREN);
    if |a| != 2 then None
    else
      match (ParseHeading(a[0]), ParseLevels(a[1]))
      case (Some(kind), Some((start, end))) => Some((kind, start, end))
      case _ => None
  }

  /** Neither `(` nor `→` occurs in a number's decimal text. */
  lemma NumberTextUnits(i: int)
    ensures OPEN_PAREN !in IntToString(i) && ARROW !in IntToString(i)
  {
    IntToStringUnits(i);
  }

  /** The two headings differ and neither contains `(`. */
  lemma HeadingsDistinct()
    ensures Heading(Rising) != Heading(Falling)
    ensures OPEN_PAREN !in Heading(Rising) && OPEN_PAREN !in Heading(Falling)
  {
    assert Heading(Rising)[1] == FALLING_EMOJI[1];
    assert Heading(Rising)[0] != Heading(Falling)[0];
  }

  // Regroupings of concatenations. They state nothing about tides: each is a
  // proof step, kept apart from the parsing facts so the solver sees it alone.

  /** Proof step: the arrow between two levels, split unit by unit. */
  lemma ArrowRegroup(s: JsString, e: JsString)
    ensures s + [SP, ARROW, SP] + e == s + [SP] + [ARROW] + ([SP] + e)
  {
  }

  /** Proof step: the last two of four pieces grouped together. */
  lemma Regroup3(a: JsString, b: JsString, c: JsString, d: JsString)
    ensures a + b + c + d == a + b + (c + d)
  {
  }

  /** Proof step: the last four of six pieces grouped together. */
  lemma Regroup6(a: JsString, b: JsString, c: JsString, d: JsString, e: JsString, f: JsString)
    ensures a + b + c + d + e + f == a + b + (c + d + e + f)
  {
  }

  /** Proof step: six pieces of a date grouped from the right after the first two. */
  lemma DateRegroup(a: JsString, b: JsString, c: JsString, d: JsString, e: JsString, f: JsString)
    ensures a + b + c + d + e + f == a + b + (c + d + (e + f))
  {
  }

  /** Proof step: appending nothing. */
  lemma AppendNothing(a: JsString)
    ensures a == a + []
  {
  }

  /** Two texts that read as numbers, with ` → ` between them, read back as the two numbers. */
  lemma LevelsOf(s: JsString, e: JsString, start: int, end: int)
    requires ARROW !in s && ARROW !in e
    requires ParseInt(s + [SP], 10) == Some(start) && ParseInt(e, 10) == Some(end)
    ensures ParseLevels(s + [SP, ARROW, SP] + e) == Some((start, end))
  {
    var right := [SP] + e;
    ArrowRegroup(s, e);
    TakeNumberOf(s + [SP], ARROW, right, start);
    assert right[1..] == e;
  }

  /** The levels part of a period name reads back as the two numbers. */
  lemma LevelsRoundTrip(start: int, end: int)
    ensures ParseLevels(IntToString(start) + [SP, ARROW, SP] + IntToString(end) + Str("cm)")) == Some((start, end))
  {
    var tail := Str("cm)");
    NumberTextUnits(start);
    ParseIntToString(start, [SP]);
    EndLevelReads(end);
    LevelsOf(IntToString(start), IntToString(end) + tail, start, end);
    Regroup3(IntToString(start), [SP, ARROW, SP], IntToString(end), tail);
  }

  /** The end level followed by `cm)` holds no arrow and reads back as the level. */
  lemma EndLevelReads(end: int)
    ensures ARROW !in IntToString(end) + Str("cm)") && ParseInt(IntToString(end) + Str("cm)"), 10) == Some(end)
  {
    var tail := Str("cm)");
    UnitTail();
    NumberTextUnits(end);
    ParseIntToString(end, tail);
  }

  /** The text after the end level, unit by unit. */
  lemma UnitTail()
    ensures Str("cm)") == ['c' as CodeUnit, 'm' as CodeUnit, ')' as CodeUnit]
  {}

  /** A heading, `(` and a levels part split apart again and read back. */
  lemma NameOf(kind: EventKind, rest: JsString)
    requires OPEN_PAREN !in rest
    ensures ParsePeriodName(Heading(kind) + [OPEN_PAREN] + rest) == match ParseLevels(rest)
      case Some((start, end)) => Some((kind, start, end))
      case None => None
  {
    HeadingsDistinct();
    SplitTwo(Heading(kind), OPEN_PAREN, rest);
  }

  /** The parts of a period name split apart again and read back. */
  lemma NamePartsRoundTrip(kind: EventKind, start: int, end: int)
    ensures ParsePeriodName(Heading(kind) + [OPEN_PAREN] + IntToString(start) + [SP, ARROW, SP] + IntToString(end) + Str("cm)"))
      == Some((kind, start, end))
  {
    var tail := Str("cm)");
    var rest := IntToString(start) + [SP, ARROW, SP] + IntToString(end) + tail;
    assert OPEN_PAREN !in rest by {
      NumberTextUnits(start);
      NumberTextUnits(end);
      assert tail[0] == 'c' as CodeUnit && tail[1] == 'm' as CodeUnit && tail[2] == ')' as CodeUnit;
    }
    NameOf(kind, rest);
    LevelsRoundTrip(start, end);
    Regroup6(Heading(kind), [OPEN_PAREN], IntToString(start), [SP, ARROW, SP], IntToString(end), tail);
  }

  /** A period name reads back as the tide's direction and rounded levels. */
  lemma PeriodNameRoundTrip(event: TideEvent)
    ensures ParsePeriodName(PeriodName(event)) == Some((event.kind, MathRound(event.startLevel), MathRound(event.endLevel)))
  {
    NamePartsRoundTrip(event.kind, MathRound(event.startLevel), MathRound(event.endLevel));
  }

  /** Each period carries its tide's times, no glyph, and a name that reads back as the tide's direction and rounded levels. */
  lemma ConvertedPeriodsDescribeEvents(events: seq<TideEvent>)
    ensures var ps := ConvertToTidePeriods(events);
      forall k | 0 <= k < |ps| ::
        ParsePeriodName(ps[k].tideName) == Some((events[k].kind, MathRound(events[k].startLevel), MathRound(events[k].endLevel)))
  {
    forall k | 0 <= k < |events|
      ensures ParsePeriodName(ConvertToTidePeriods(events)[k].tideName)
        == Some((events[k].kind, MathRound(events[k].startLevel), MathRound(events[k].endLevel)))
    {
      PeriodNameRoundTrip(events[k]);
    }
  }

  /** Period names carry no carriage return. */
  lemma PeriodNameNoCr(event: TideEvent)
    ensures NoCr(PeriodName(event))
  {
    var s, e := IntToString(MathRound(event.startLevel)), IntToString(MathRound(event.endLevel));
    var h := Heading(event.kind);
    var tail := Str("cm)");
    assert NoCr(h) by {
      StrNoCr("満ち潮");
      StrNoCr("引き潮");
      StrNoCr("↗️");
      StrNoCr("↘️");
      NoCrAppend(EventEmoji(event.kind), [SP]);
      NoCrAppend(EventEmoji(event.kind) + [SP], if event.kind == Rising then RISING_NAME else FALLING_NAME);
      NoCrAppend(EventEmoji(event.kind) + [SP] + (if event.kind == Rising then RISING_NAME else FALLING_NAME), [SP]);
    }
    IntToStringNoCr(MathRound(event.startLevel));
    IntToStringNoCr(MathRound(event.endLevel));
    StrNoCr("cm)");
    NoCrAppend(h, [OPEN_PAREN]);
    NoCrAppend(h + [OPEN_PAREN], s);
    NoCrAppend(h + [OPEN_PAREN] + s, [SP, ARROW, SP]);
    NoCrAppend(h + [OPEN_PAREN] + s + [SP, ARROW, SP], e);
    NoCrAppend(h + [OPEN_PAREN] + s + [SP, ARROW, SP] + e, tail);
  }

  /**
   * The timed calendar of the tides unfolds to its logical lines: the periods
   * meet the calendar writer's condition whenever the calendar's name and
   * description have no carriage return.
   */
  lemma TideCalendarUnfolds(events: seq<TideEvent>, calendarName: JsString, caldesc: JsString)
    requires NoCr(calendarName) && NoCr(caldesc)
    ensures var ps := ConvertToTidePeriods(events);
      Unfold(GenerateICSContent(ps, calendarName, caldesc, false)) == Join(DocumentFields(ps, calendarName, caldesc, false), CRLF)
  {
    var ps := ConvertToTidePeriods(events);
    forall k | 0 <= k < |ps| ensures CleanPeriod(ps[k]) {
      PeriodNameNoCr(events[k]);
    }
    UnfoldContent(ps, calendarName, caldesc, false);
  }

  // ---------------------------------------------------------------------
  // formatDateJapanese

  const YEAR_MARK: CodeUnit := 0x5E74
  const MONTH_MARK: CodeUnit := 0x6708
  const DAY_MARK: CodeUnit := 0x65E5

  /** `<year>年<month>月<day>日`, the numbers unpadded. */
  function DateParts(year: int, month: int, day: int): JsString {
    IntToString(year) + [YEAR_MARK] + IntToString(month) + [MONTH_MARK] + IntToString(day) + [DAY_MARK]
  }

  /** The date of a set of fields, with the month counted from 1. */
  function JapaneseDate(f: Fields): JsString {
    DateParts(f.year, f.monthIndex + 1, f.day)
  }

  /** `formatDateJapanese`: the local year, month and day. */
  function FormatDateJapanese(t: int): JsString {
    JapaneseDate(LocalFields(t))
  }

  /** Reads `<day>日` back, with nothing after the mark. */
  function ParseDayPart(s: JsString): Option<int> {
    match TakeNumber(s, DAY_MARK)
    case Some((day, afterDay)) => if afterDay == [] then Some(day) else None
    case None => None
  }

  /** Reads `<month>月<day>日` back. */
  function ParseMonthDay(s: JsString): Option<(int, int)> {
    match TakeNumber(s, MONTH_MARK)
    case None => None
    case Some((month, afterMonth)) =>
      match ParseDayPart(afterMonth)
      case Some(day) => Some((month, day))
      case None => None
  }

  /** Reads a `<year>年<month>月<day>日` date back. */
  function ParseJapaneseDate(s: JsString): Option<(int, int, int)> {
    match TakeNumber(s, YEAR_MARK)
    case None => None
    case Some((year, afterYear)) =>
      match ParseMonthDay(afterYear)
      case Some((month, day)) => Some((year, month, day))
      case None => None
  }

  /** None of the three marks occurs in a number's decimal text. */
  lemma MarksNotInNumber(i: int)
    ensures YEAR_MARK !in IntToString(i) && MONTH_MARK !in IntToString(i) && DAY_MARK !in IntToString(i)
  {
    IntToStringUnits(i);
  }

  /** A Japanese date reads back as its year, month (1 to 12) and day. */
  lemma JapaneseDateRoundTrip(f: Fields)
    ensures ParseJapaneseDate(JapaneseDate(f)) == Some((f.year, f.monthIndex + 1, f.day))
  {
    var s := JapaneseDate(f);
    assert s == DateParts(f.year, f.monthIndex + 1, f.day);
    DatePartsRoundTrip(f.year, f.monthIndex + 1, f.day);
  }

  lemma DayPartOf(d: JsString, day: int)
    requires DAY_MARK !in d && ParseInt(d, 10) == Some(day)
    ensures ParseDayPart(d + [DAY_MARK]) == Some(day)
  {
    AppendNothing(d + [DAY_MARK]);
    TakeNumberOf(d, DAY_MARK, [], day);
  }

  lemma MonthDayOf(m: JsString, d: JsString, month: int, day: int)
    requires MONTH_MARK !in m && MONTH_MARK !in d && DAY_MARK !in d
    requires ParseInt(m, 10) == Some(month) && ParseInt(d, 10) == Some(day)
    ensures ParseMonthDay(m + [MONTH_MARK] + (d + [DAY_MARK])) == Some((month, day))
  {
    TakeNumberOf(m, MONTH_MARK, d + [DAY_MARK], month);
    DayPartOf(d, day);
  }

  /** Three texts that read as numbers, each followed by its mark, read back as the three numbers. */
  lemma DateOf(y: JsString, m: JsString, d: JsString, year: int, month: int, day: int)
    requires YEAR_MARK !in m && YEAR_MARK !in d && YEAR_MARK !in y
    requires MONTH_MARK !in m && MONTH_MARK !in d && DAY_MARK !in d
    requires ParseInt(y, 10) == Some(year) && ParseInt(m, 10) == Some(month) && ParseInt(d, 10) == Some(day)
    ensures ParseJapaneseDate(y + [YEAR_MARK] + m + [MONTH_MARK] + d + [DAY_MARK]) == Some((year, month, day))
  {
    DateRegroup(y, [YEAR_MARK], m, [MONTH_MARK], d, [DAY_MARK]);
    TakeNumberOf(y, YEAR_MARK, m + [MONTH_MARK] + (d + [DAY_MARK]), year);
    MonthDayOf(m, d, month, day);
  }

  /** A number's text reads back as the number and holds none of the marks. */
  lemma NumberReadsBack(i: int)
    ensures ParseInt(IntToString(i), 10) == Some(i)
    ensures YEAR_MARK !in IntToString(i) && MONTH_MARK !in IntToString(i) && DAY_MARK !in IntToString(i)
  {
    MarksNotInNumber(i);
    ParseIntToString(i, []);
    AppendNothing(IntToString(i));
  }

  /** Three numbers joined by the marks split apart again and read back. */
  lemma DatePartsRoundTrip(year: int, month: int, day: int)
    ensures ParseJapaneseDate(DateParts(year, month, day)) == Some((year, month, day))
  {
    NumberReadsBack(year);
    NumberReadsBack(month);
    NumberReadsBack(day);
    DateOf(IntToString(year), IntToString(month), IntToString(day), year, month, day);
  }

  /** The formatted date reads back as the local year, month and day. */
  lemma FormatDateJapaneseRoundTrip(t: int)
    ensures var f := LocalFields(t);
      ParseJapaneseDate(FormatDateJapanese(t)) == Some((f.year, f.monthIndex + 1, f.day))
  {
    JapaneseDateRoundTrip(LocalFields(t));
  }
}
