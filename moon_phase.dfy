/**
 * The moon's age, its elongation from the sun and its phase glyph, from the
 * mean synodic month counted from a reference new moon; and the per-day
 * table of those values over a date range.
 */
module MoonPhase {
  import opened JsText
  import opened JsNumber
  import opened Civil

  /** The reference new moon, 2000-01-06T18:14:00.000Z, as a time value. */
  const NEW_MOON_REFERENCE: int := 947_182_440_000

  /** The mean synodic month in days. */
  const LUNAR_CYCLE_DAYS: real := 29.53059

  /** The synodic month in milliseconds, a whole number. */
  const LUNAR_CYCLE_MS: int := 2_551_442_976

  /** The reference literal is the UTC date-time 2000-01-06 18:14. */
  lemma NewMoonReferenceIsUtc()
    ensures NEW_MOON_REFERENCE == UtcTimeValue(2000, 0, 6, 18, 14, 0)
  {
    MakeDayInRange(2000, 0, 6);
    ReferenceDay();
  }

  /** 2000-01-06 is day 10962 after 1970-01-01. */
  lemma ReferenceDay()
    ensures DaysFromCivil(2000, 1, 6) == 10962
  {
    assert (153 * 10 + 2) / 5 + 6 - 1 == 311;
    assert 399 * 365 + 399 / 4 - 399 / 100 + 311 == 146042;
    assert 1999 / 400 == 4;
  }

  /** Days from the reference new moon to `t` (negative before it). */
  function DaysSinceReference(t: int): real {
    (t - NEW_MOON_REFERENCE) as real / MS_PER_DAY as real
  }

  /** `calculateMoonAge`: the days since the last new moon, in [0, 29.53059). */
  function CalculateMoonAge(t: int): (age: real)
    ensures 0.0 <= age < LUNAR_CYCLE_DAYS
  {
    var moonAge := JsRemainder(DaysSinceReference(t), LUNAR_CYCLE_DAYS);
    if moonAge < 0.0 then moonAge + LUNAR_CYCLE_DAYS else moonAge
  }

  /** The moon's age is the elapsed days reduced modulo the synodic month (the floored modulus). */
  lemma MoonAgeIsFloorMod(t: int)
    ensures var x := DaysSinceReference(t);
      CalculateMoonAge(t) == x - LUNAR_CYCLE_DAYS * (x / LUNAR_CYCLE_DAYS).Floor as real
  {
    var x := DaysSinceReference(t);
    var q := x / LUNAR_CYCLE_DAYS;
    var k := Trunc(q);
    if q < 0.0 && (k as real) != q {
      assert q.Floor == k - 1;
    }
  }

  /** The moon's age repeats after one synodic month. */
  lemma MoonAgePeriodic(t: int)
    ensures CalculateMoonAge(t + LUNAR_CYCLE_MS) == CalculateMoonAge(t)
  {
    var x := DaysSinceReference(t);
    var y := DaysSinceReference(t + LUNAR_CYCLE_MS);
    assert y == x + LUNAR_CYCLE_DAYS by {
      assert LUNAR_CYCLE_MS as real / MS_PER_DAY as real == LUNAR_CYCLE_DAYS;
    }
    var q := x / LUNAR_CYCLE_DAYS;
    assert y / LUNAR_CYCLE_DAYS == q + 1.0;
    assert (q + 1.0).Floor == q.Floor + 1;
    MoonAgeIsFloorMod(t);
    MoonAgeIsFloorMod(t + LUNAR_CYCLE_MS);
  }

  /** The age is zero at the reference new moon and grows by one per day within the cycle. */
  lemma MoonAgeAfterReference(days: nat)
    requires (days as real) < LUNAR_CYCLE_DAYS
    ensures CalculateMoonAge(NEW_MOON_REFERENCE + days * MS_PER_DAY) == days as real
  {
    assert DaysSinceReference(NEW_MOON_REFERENCE + days * MS_PER_DAY) == days as real;
  }

  /** `calculateLongitudeDifference`: the age as a fraction of the cycle, in degrees. */
  function CalculateLongitudeDifference(moonAge: real): (d: real)
    ensures 0.0 <= moonAge < LUNAR_CYCLE_DAYS ==> 0.0 <= d < 360.0
  {
    (moonAge / LUNAR_CYCLE_DAYS) * 360.0
  }

  /** The elongation determines the age, and a later age has a larger elongation. */
  lemma LongitudeDifferenceInverse(a: real, b: real)
    ensures CalculateLongitudeDifference(a) / 360.0 * LUNAR_CYCLE_DAYS == a
    ensures a < b ==> CalculateLongitudeDifference(a) < CalculateLongitudeDifference(b)
  {}

  /** The eight phase glyphs, from new moon through full moon to the waning crescent. */
  const MOON_GLYPHS: seq<JsString> :=
    [Utf16Char('🌑'), Utf16Char('🌒'), Utf16Char('🌓'), Utf16Char('🌔'), Utf16Char('🌕'), Utf16Char('🌖'), Utf16Char('🌗'), Utf16Char('🌘')]

  /** `getMoonEmoji`: the glyph of the eighth of the cycle the age falls in, each eighth centred on its phase. */
  function GetMoonEmoji(moonAge: real): (e: JsString)
    ensures e in MOON_GLYPHS
  {
    var phase := moonAge / LUNAR_CYCLE_DAYS;
    if phase < 0.0625 then Utf16Char('🌑')
    else if phase < 0.1875 then Utf16Char('🌒')
    else if phase < 0.3125 then Utf16Char('🌓')
    else if phase < 0.4375 then Utf16Char('🌔')
    else if phase < 0.5625 then Utf16Char('🌕')
    else if phase < 0.6875 then Utf16Char('🌖')
    else if phase < 0.8125 then Utf16Char('🌗')
    else if phase < 0.9375 then Utf16Char('🌘')
    else Utf16Char('🌑')
  }

  /** The number of phase centres (one every eighth of the cycle, from 1/16) at or below `phase`, clamped to 0..8. */
  function PhaseBucket(phase: real): (b: nat)
    ensures b <= 8
  {
    var n := (8.0 * phase + 0.5).Floor;
    if n < 0 then 0 else if n > 8 then 8 else n
  }

  /** The glyph is the one of the nearest eighth of the cycle, the last eighth wrapping round to new moon. */
  lemma MoonEmojiByBucket(moonAge: real)
    ensures GetMoonEmoji(moonAge) == MOON_GLYPHS[PhaseBucket(moonAge / LUNAR_CYCLE_DAYS) % 8]
  {
    if moonAge / LUNAR_CYCLE_DAYS < 0.4375 {
      WaxingByBucket(moonAge);
    } else {
      WaningByBucket(moonAge);
    }
  }

  /** The glyph by bucket for phases before the full-moon eighth. */
  lemma WaxingByBucket(moonAge: real)
    requires moonAge / LUNAR_CYCLE_DAYS < 0.4375
    ensures GetMoonEmoji(moonAge) == MOON_GLYPHS[PhaseBucket(moonAge / LUNAR_CYCLE_DAYS) % 8]
  {
    var phase := moonAge / LUNAR_CYCLE_DAYS;
    if phase < 0.0625 {
      BucketIs(phase, 0);
    } else if phase < 0.1875 {
      BucketIs(phase, 1);
    } else if phase < 0.3125 {
      BucketIs(phase, 2);
    } else {
      BucketIs(phase, 3);
    }
  }

  /** The glyph by bucket from the full-moon eighth on. */
  lemma WaningByBucket(moonAge: real)
    requires moonAge / LUNAR_CYCLE_DAYS >= 0.4375
    ensures GetMoonEmoji(moonAge) == MOON_GLYPHS[PhaseBucket(moonAge / LUNAR_CYCLE_DAYS) % 8]
  {
    var phase := moonAge / LUNAR_CYCLE_DAYS;
    if phase < 0.5625 {
      BucketIs(phase, 4);
    } else if phase < 0.6875 {
      BucketIs(phase, 5);
    } else if phase < 0.8125 {
      BucketIs(phase, 6);
    } else if phase < 0.9375 {
      BucketIs(phase, 7);
    } else {
      BucketIs(phase, 8);
    }
  }

  /** The bucket of a phase within a sixteenth of the cycle of `n` eighths (below the first centre or past the last, clamped). */
  lemma BucketIs(phase: real, n: int)
    requires 0 <= n <= 8
    requires n == 0 || (n as real) - 0.5 <= 8.0 * phase
    requires n == 8 || 8.0 * phase < (n as real) + 0.5
    ensures PhaseBucket(phase) == n
  {
    var x := 8.0 * phase + 0.5;
    if 0 < n < 8 {
      assert x.Floor == n;
    } else if n == 0 {
      assert x.Floor <= 0;
    } else {
      assert x.Floor >= 8;
    }
  }

  /** The new-moon glyph covers both ends of the cycle, the full-moon glyph its middle eighth. */
  lemma NewAndFullMoon(moonAge: real)
    requires 0.0 <= moonAge < LUNAR_CYCLE_DAYS
    ensures GetMoonEmoji(moonAge) == MOON_GLYPHS[0] <==>
      moonAge < LUNAR_CYCLE_DAYS / 16.0 || moonAge >= LUNAR_CYCLE_DAYS * 15.0 / 16.0
    ensures GetMoonEmoji(moonAge) == MOON_GLYPHS[4] <==>
      LUNAR_CYCLE_DAYS * 7.0 / 16.0 <= moonAge < LUNAR_CYCLE_DAYS * 9.0 / 16.0
  {
    MoonGlyphsDistinct();
  }

  /** The eight glyphs are pairwise different. */
  lemma MoonGlyphsDistinct()
    ensures forall i, j | 0 <= i < j < 8 :: MOON_GLYPHS[i] != MOON_GLYPHS[j]
  {
    MoonGlyphLowUnits();
    forall i, j | 0 <= i < j < 8 ensures MOON_GLYPHS[i] != MOON_GLYPHS[j] {
      assert MOON_GLYPHS[i][1] != MOON_GLYPHS[j][1];
    }
  }

  /** The glyphs are U+1F311 to U+1F318, so their second code units count up from 0xDF11. */
  lemma MoonGlyphLowUnits()
    ensures forall i | 0 <= i < 8 :: |MOON_GLYPHS[i]| == 2 && MOON_GLYPHS[i][1] as int == 0xDF11 + i
  {
    assert MOON_GLYPHS[0][1] as int == 0xDF11;
    assert MOON_GLYPHS[1][1] as int == 0xDF12;
    assert MOON_GLYPHS[2][1] as int == 0xDF13;
    assert MOON_GLYPHS[3][1] as int == 0xDF14;
    assert MOON_GLYPHS[4][1] as int == 0xDF15;
    assert MOON_GLYPHS[5][1] as int == 0xDF16;
    assert MOON_GLYPHS[6][1] as int == 0xDF17;
    assert MOON_GLYPHS[7][1] as int == 0xDF18;
  }

  /** One row of the per-day table. */
  datatype MoonPhaseDay = MoonPhaseDay(date: int, moonAge: real, longitudeDifference: real, emoji: JsString)

  /** The row for the day of `t`: the moon is observed at local noon of that day. */
  function PhaseOfDay(t: int): MoonPhaseDay {
    var age := CalculateMoonAge(AtLocalTime(t, 12, 0, 0));
    MoonPhaseDay(t, age, CalculateLongitudeDifference(age), GetMoonEmoji(age))
  }

  /** How many of `start`, `start` + 1 day, `start` + 2 days, ... are at most `end`. */
  function DayCount(start: int, end: int): nat {
    if start > end then 0 else (end - start) / MS_PER_DAY + 1
  }

  /**
   * `calculateMoonPhases`: one row per day, starting at `startDate` and
   * stepping one local calendar day (`setDate(getDate() + 1)`) while the date
   * is not after `endDate`.
   */
  method CalculateMoonPhases(startDate: int, endDate: int) returns (phases: seq<MoonPhaseDay>)
    ensures |phases| == DayCount(startDate, endDate)
    ensures forall k | 0 <= k < |phases| :: phases[k] == PhaseOfDay(startDate + k * MS_PER_DAY)
  {
    phases := [];
    var currentDate := startDate;
    while currentDate <= endDate
      invariant currentDate == startDate + |phases| * MS_PER_DAY
      invariant |phases| == 0 || currentDate - MS_PER_DAY <= endDate
      invariant forall k | 0 <= k < |phases| :: phases[k] == PhaseOfDay(startDate + k * MS_PER_DAY)
      decreases endDate - currentDate
    {
      var noonJst := AtLocalTime(currentDate, 12, 0, 0);
      var moonAge := CalculateMoonAge(noonJst);
      var longitudeDifference := CalculateLongitudeDifference(moonAge);
      var emoji := GetMoonEmoji(moonAge);
      PushRow(phases, startDate, currentDate, MoonPhaseDay(currentDate, moonAge, longitudeDifference, emoji));
      phases := phases + [MoonPhaseDay(currentDate, moonAge, longitudeDifference, emoji)];
      NextDay(currentDate);
      currentDate := SetDate(currentDate, LocalFields(currentDate).day + 1);
    }
    DayCountAtExit(startDate, endDate, |phases|);
  }

  /** Appending the row of the next day keeps every row the row of its day. */
  lemma PushRow(phases: seq<MoonPhaseDay>, startDate: int, currentDate: int, row: MoonPhaseDay)
    requires forall k | 0 <= k < |phases| :: phases[k] == PhaseOfDay(startDate + k * MS_PER_DAY)
    requires currentDate == startDate + |phases| * MS_PER_DAY && row == PhaseOfDay(currentDate)
    ensures forall k | 0 <= k < |phases| + 1 :: (phases + [row])[k] == PhaseOfDay(startDate + k * MS_PER_DAY)
  {
    forall k | 0 <= k < |phases| + 1 ensures (phases + [row])[k] == PhaseOfDay(startDate + k * MS_PER_DAY) {
      if k < |phases| {
        assert (phases + [row])[k] == phases[k];
      } else {
        assert startDate + k * MS_PER_DAY == currentDate;
      }
    }
  }

  /** `n` days from `start` reach past `end` and `n - 1` days do not exactly when `n` is the day count. */
  lemma DayCountAtExit(start: int, end: int, n: nat)
    requires start + n * MS_PER_DAY > end
    requires n == 0 || start + (n - 1) * MS_PER_DAY <= end
    requires n == 0 ==> start > end
    ensures n == DayCount(start, end)
  {
    if n > 0 {
      DivModUnique(end - start, n - 1, end - start - (n - 1) * MS_PER_DAY);
    }
  }

  /** Row `k`, the row of `t` = `startDate` + `k` days, is dated `k` local days after the first and carries the moon's age at local noon of that day. */
  lemma PhaseRowsAreConsecutiveDays(startDate: int, k: int, t: int)
    requires t == startDate + k * MS_PER_DAY
    requires var f := LocalFields(t); !(0 <= f.year <= 99)
    ensures LocalDay(PhaseOfDay(t).date) == LocalDay(startDate) + k
    ensures PhaseOfDay(t).moonAge == CalculateMoonAge((LocalDay(startDate) + k) * MS_PER_DAY + 12 * MS_PER_HOUR - LOCAL_OFFSET_MS)
  {
    LocalDayAfter(startDate, k);
    RowOfDay(t);
  }

  /** The row of a day is dated that day and carries the moon's age at local noon of it. */
  lemma RowOfDay(t: int)
    requires var f := LocalFields(t); !(0 <= f.year <= 99)
    ensures PhaseOfDay(t).date == t
    ensures PhaseOfDay(t).moonAge == CalculateMoonAge(LocalDay(t) * MS_PER_DAY + 12 * MS_PER_HOUR - LOCAL_OFFSET_MS)
  {
    NoonOfDay(t);
  }

  /** `k` whole days later is `k` local days later. */
  lemma LocalDayAfter(t: int, k: int)
    ensures LocalDay(t + k * MS_PER_DAY) == LocalDay(t) + k
  {}

  /** `setDate(getDate() + 1)` moves a time value on by one day. */
  lemma NextDay(t: int)
    ensures SetDate(t, LocalFields(t).day + 1) == t + MS_PER_DAY
  {
    SetDateShift(t, 1);
  }

  /** Local noon of the day of `t`, outside the years 0 to 99. */
  lemma NoonOfDay(t: int)
    requires var f := LocalFields(t); !(0 <= f.year <= 99)
    ensures AtLocalTime(t, 12, 0, 0) == LocalDay(t) * MS_PER_DAY + 12 * MS_PER_HOUR - LOCAL_OFFSET_MS
  {
    AtLocalTimeIsSetHours(t, 12, 0, 0);
  }
}
