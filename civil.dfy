/**
 * JavaScript `Date` values and the calendar arithmetic behind their getters,
 * setters and constructors.
 *
 * A `Date` is its time value: integer milliseconds since 1970-01-01T00:00:00Z.
 * Local time is a fixed +09:00 offset, Asia/Tokyo's offset since 1952 (its
 * daylight saving of 1948 to 1951 and its local mean time before 1888 are not
 * modelled), so local fields are the UTC fields of the time value shifted by
 * nine hours. Civil dates use the proleptic Gregorian calendar, converted with the
 * era-based days-from-civil algorithm and its inverse.
 */
module Civil {

  const MS_PER_SECOND: int := 1000
  const MS_PER_MINUTE: int := 60_000
  const MS_PER_HOUR: int := 3_600_000
  const MS_PER_DAY: int := 86_400_000

  /** Asia/Tokyo is UTC+09:00 all year. */
  const LOCAL_OFFSET_MS: int := 9 * MS_PER_HOUR

  /** A proleptic Gregorian calendar date; `month` runs from 1 to 12. */
  datatype CivilDate = CivilDate(year: int, month: int, day: int)

  /** What the getters of a `Date` return; `monthIndex` is `getMonth()`, from 0 to 11. */
  datatype Fields = Fields(year: int, monthIndex: int, day: int, hours: int, minutes: int, seconds: int, millis: int)

  // ---------------------------------------------------------------------
  // Days from a civil date and back

  /** The number of days from 1970-01-01 to the given date (negative before it); `d` may lie outside the month. */
  function DaysFromCivil(y0: int, m: int, d: int): int
    requires 1 <= m <= 12
  {
    var y := if m <= 2 then y0 - 1 else y0;
    var era := y / 400;
    var yoe := y - era * 400;
    var mp := (m + 9) % 12;
    var doy := (153 * mp + 2) / 5 + d - 1;
    var doe := yoe * 365 + yoe / 4 - yoe / 100 + doy;
    era * 146097 + doe - 719468
  }

  /** The year within a 400-year era (years starting on 1 March) that holds day `doe` of the era. */
  function YearOfEra(doe: int): int {
    (doe - doe / 1460 + doe / 36524 - doe / 146096) / 365
  }

  /** The day within that year, counted from 1 March. */
  function DayOfYear(doe: int, yoe: int): int {
    doe - (365 * yoe + yoe / 4 - yoe / 100)
  }

  /** The month of a March-based day of the year: 0 for March up to 11 for February. */
  function MonthIndexOf(doy: int): int {
    (5 * doy + 2) / 153
  }

  /** The calendar month (1 to 12) of a March-based month index. */
  function MonthOf(mp: int): int {
    if mp < 10 then mp + 3 else mp - 9
  }

  /** Every day of an era falls in one of its 400 years, at a day of the year from 0 to 365. */
  lemma EraBounds(doe: int)
    requires 0 <= doe < 146097
    ensures 0 <= YearOfEra(doe) <= 399
    ensures 0 <= DayOfYear(doe, YearOfEra(doe)) <= 365
  {
    if doe == 146096 {
      assert YearOfEra(doe) == 399;
    } else {
      // doe = 36524 c + 1461 q + 365 t + u: centuries, four-year cycles, years, days
      var c := doe / 36524;
      var r := doe % 36524;
      var q := r / 1461;
      var s := r % 1461;
      var t := if s == 1460 then 3 else s / 365;
      var u := s - 365 * t;
      assert 0 <= t <= 3 && 0 <= u <= 365;
      var e := (24 * c + q + s) / 1460;
      assert doe == 1460 * (25 * c + q) + (24 * c + q + s);
      assert doe / 1460 == 25 * c + q + e;
      var k := 100 * c + 4 * q + t;
      assert 0 <= u - e < 365;
      assert doe - doe / 1460 + doe / 36524 - doe / 146096 == 365 * k + (u - e);
      assert YearOfEra(doe) == k;
      assert k / 4 == 25 * c + q;
      assert k / 100 == c;
    }
  }

  /** The civil date that lies `z` days after 1970-01-01. */
  function CivilFromDays(z0: int): (r: CivilDate)
    ensures 1 <= r.month <= 12 && 1 <= r.day <= 31
  {
    var z := z0 + 719468;
    var era := z / 146097;
    var doe := z - era * 146097;
    var yoe := YearOfEra(doe);
    var y := yoe + era * 400;
    var doy := DayOfYear(doe, yoe);
    var mp := MonthIndexOf(doy);
    var d := doy - (153 * mp + 2) / 5 + 1;
    var m := MonthOf(mp);
    EraBounds(doe);
    CivilDate(if m <= 2 then y + 1 else y, m, d)
  }

  lemma EraOfYear(y: int, era: int, yoe: int)
    requires 0 <= yoe < 400 && y == yoe + era * 400
    ensures y / 400 == era && y - y / 400 * 400 == yoe
  {}

  lemma MonthIndexRoundTrip(mp: int)
    requires 0 <= mp <= 11
    ensures 1 <= MonthOf(mp) <= 12 && (MonthOf(mp) + 9) % 12 == mp
  {}

  /** The day number of a date, given its year split into era and year of era, and its March-based month. */
  lemma DaysFromCivilParts(y: int, m: int, d: int, era: int, yoe: int, mp: int)
    requires 1 <= m <= 12 && 0 <= yoe < 400 && (m + 9) % 12 == mp
    requires (if m <= 2 then y - 1 else y) == yoe + era * 400
    ensures DaysFromCivil(y, m, d) == era * 146097 + yoe * 365 + yoe / 4 - yoe / 100 + (153 * mp + 2) / 5 + d - 1 - 719468
  {
    EraOfYear(if m <= 2 then y - 1 else y, era, yoe);
  }

  /** Converting a day number to a civil date and back gives the same day number. */
  lemma CivilRoundTrip(z0: int)
    ensures var c := CivilFromDays(z0); DaysFromCivil(c.year, c.month, c.day) == z0
  {
    var z := z0 + 719468;
    var era := z / 146097;
    var doe := z - era * 146097;
    EraBounds(doe);
    var yoe := YearOfEra(doe);
    var doy := DayOfYear(doe, yoe);
    var mp := MonthIndexOf(doy);
    MonthIndexRoundTrip(mp);
    var c := CivilFromDays(z0);
    DaysFromCivilParts(c.year, c.month, c.day, era, yoe, mp);
  }

  /** Moving the day of the month moves the day number by the same amount. */
  lemma DaysFromCivilShift(y: int, m: int, d: int, k: int)
    requires 1 <= m <= 12
    ensures DaysFromCivil(y, m, d + k) == DaysFromCivil(y, m, d) + k
  {}

  // ---------------------------------------------------------------------
  // The abstract operations of ECMAScript's Date (section 21.4.1)

  /** MakeDay(year, month, date): a month index outside 0..11 carries into the year; the date is added on. */
  function MakeDay(year: int, monthIndex: int, date: int): int {
    var ym := year + monthIndex / 12;
    var mn := monthIndex % 12;
    DaysFromCivil(ym, mn + 1, 1) + date - 1
  }

  /** MakeFullYear: the two-digit years 0 to 99 stand for 1900 to 1999. */
  function MakeFullYear(y: int): int {
    if 0 <= y <= 99 then 1900 + y else y
  }

  /** MakeTime(hour, min, sec, ms). */
  function MakeTime(hours: int, minutes: int, seconds: int, millis: int): int {
    hours * MS_PER_HOUR + minutes * MS_PER_MINUTE + seconds * MS_PER_SECOND + millis
  }

  /** `Date.UTC(year, monthIndex, day, hours, minutes, seconds)`. */
  function UtcTimeValue(year: int, monthIndex: int, day: int, hours: int, minutes: int, seconds: int): int {
    MakeDay(MakeFullYear(year), monthIndex, day) * MS_PER_DAY + MakeTime(hours, minutes, seconds, 0)
  }

  /** `new Date(year, monthIndex, day, hours, minutes, seconds).getTime()` in Asia/Tokyo. */
  function LocalTimeValue(year: int, monthIndex: int, day: int, hours: int, minutes: int, seconds: int): int {
    UtcTimeValue(year, monthIndex, day, hours, minutes, seconds) - LOCAL_OFFSET_MS
  }

  /** The UTC getters of a time value (`getUTCFullYear()`, `getUTCMonth()`, ...). */
  function UtcFields(t: int): (f: Fields)
    ensures 0 <= f.monthIndex <= 11 && 1 <= f.day <= 31
    ensures 0 <= f.hours <= 23 && 0 <= f.minutes <= 59 && 0 <= f.seconds <= 59 && 0 <= f.millis <= 999
  {
    var days := t / MS_PER_DAY;
    var inDay := t % MS_PER_DAY;
    var c := CivilFromDays(days);
    Fields(c.year, c.month - 1, c.day, inDay / MS_PER_HOUR, inDay / MS_PER_MINUTE % 60,
           inDay / MS_PER_SECOND % 60, inDay % MS_PER_SECOND)
  }

  /** The local getters of a time value (`getFullYear()`, `getMonth()`, ...). */
  function LocalFields(t: int): (f: Fields)
    ensures 0 <= f.monthIndex <= 11 && 1 <= f.day <= 31
    ensures 0 <= f.hours <= 23 && 0 <= f.minutes <= 59 && 0 <= f.seconds <= 59 && 0 <= f.millis <= 999
  {
    UtcFields(t + LOCAL_OFFSET_MS)
  }

  /** The local day number of a time value: days from 1970-01-01 to its Asia/Tokyo calendar date. */
  function LocalDay(t: int): int {
    (t + LOCAL_OFFSET_MS) / MS_PER_DAY
  }

  /** The local getters read their date off the civil date of the local day number. */
  lemma LocalFieldsDate(t: int)
    ensures var f := LocalFields(t);
      CivilFromDays(LocalDay(t)) == CivilDate(f.year, f.monthIndex + 1, f.day)
  {}

  /** Distinct day numbers are distinct civil dates. */
  lemma CivilInjective(a: int, b: int)
    requires CivilFromDays(a) == CivilFromDays(b)
    ensures a == b
  {
    CivilRoundTrip(a);
    CivilRoundTrip(b);
  }

  /** The local calendar date of a time value is the civil date of its local day number. */
  lemma LocalDateIsLocalDay(t: int)
    ensures var f := LocalFields(t);
      DaysFromCivil(f.year, f.monthIndex + 1, f.day) == LocalDay(t)
  {
    LocalFieldsDate(t);
    CivilRoundTrip(LocalDay(t));
  }

  /** Time values on the same local day share their local date. */
  lemma SameLocalDaySameDate(t: int, u: int)
    requires LocalDay(t) == LocalDay(u)
    ensures var f, g := LocalFields(t), LocalFields(u);
      f.year == g.year && f.monthIndex == g.monthIndex && f.day == g.day
  {}

  /** Two time values with the same local date lie on the same local day. */
  lemma SameDateSameLocalDay(t: int, u: int)
    requires var f, g := LocalFields(t), LocalFields(u);
      f.year == g.year && f.monthIndex == g.monthIndex && f.day == g.day
    ensures LocalDay(t) == LocalDay(u)
  {
    LocalFieldsDate(t);
    LocalFieldsDate(u);
    CivilInjective(LocalDay(t), LocalDay(u));
  }

  /** MakeDay of an in-range month index is days-from-civil of that date. */
  lemma MakeDayInRange(year: int, monthIndex: int, date: int)
    requires 0 <= monthIndex <= 11
    ensures MakeDay(year, monthIndex, date) == DaysFromCivil(year, monthIndex + 1, date)
  {
    DaysFromCivilShift(year, monthIndex + 1, 1, date - 1);
  }

  /** Rebuilding a `Date` from its local getters gives back its time value, except in the years 0 to 99. */
  lemma LocalFieldsRoundTrip(t: int)
    requires var f := LocalFields(t); !(0 <= f.year <= 99)
    ensures var f := LocalFields(t);
      LocalTimeValue(f.year, f.monthIndex, f.day, f.hours, f.minutes, f.seconds) + f.millis == t
  {
    var f := LocalFields(t);
    LocalDateIsLocalDay(t);
    Rebuild(t + LOCAL_OFFSET_MS, f.year, f.monthIndex, f.day);
  }

  /** A shifted time value `lt` whose day number is that of a date is rebuilt by `Date.UTC` from that date and its time of day. */
  lemma Rebuild(lt: int, y: int, mi: int, d: int)
    requires !(0 <= y <= 99) && 0 <= mi <= 11 && DaysFromCivil(y, mi + 1, d) == lt / MS_PER_DAY
    ensures var x := lt % MS_PER_DAY;
      UtcTimeValue(y, mi, d, x / MS_PER_HOUR, x / MS_PER_MINUTE % 60, x / MS_PER_SECOND % 60) + x % MS_PER_SECOND == lt
  {
    MakeDayInRange(y, mi, d);
    TimeWithinDay(lt % MS_PER_DAY);
  }

  /** The hour, minute, second and millisecond getters together recover the time within the day. */
  lemma TimeWithinDay(x: int)
    requires 0 <= x < MS_PER_DAY
    ensures x == MakeTime(x / MS_PER_HOUR, x / MS_PER_MINUTE % 60, x / MS_PER_SECOND % 60, x % MS_PER_SECOND)
  {
    var s := x / MS_PER_SECOND;
    var m := s / 60;
    assert x / MS_PER_MINUTE == m;
    assert x / MS_PER_HOUR == m / 60;
  }

  // ---------------------------------------------------------------------
  // Local setters

  /** `d.setDate(date)`: the day of the local month becomes `date` (carrying into neighbouring months); the local time of day is kept. */
  function SetDate(t: int, date: int): int {
    var f := LocalFields(t);
    MakeDay(f.year, f.monthIndex, date) * MS_PER_DAY + (t + LOCAL_OFFSET_MS) % MS_PER_DAY - LOCAL_OFFSET_MS
  }

  /** `d.setHours(hours, minutes, seconds, millis)`: the local date is kept, the local time of day replaced. */
  function SetHours(t: int, hours: int, minutes: int, seconds: int, millis: int): int {
    LocalDay(t) * MS_PER_DAY + MakeTime(hours, minutes, seconds, millis) - LOCAL_OFFSET_MS
  }

  /** Moving the local day of the month on by `k` moves the time value on by exactly `k` days, across month and year ends. */
  lemma SetDateShift(t: int, k: int)
    ensures SetDate(t, LocalFields(t).day + k) == t + k * MS_PER_DAY
  {
    var f := LocalFields(t);
    LocalDateIsLocalDay(t);
    ShiftDays(t + LOCAL_OFFSET_MS, f.year, f.monthIndex, f.day, k);
  }

  /** Adding `k` to the day of a date whose day number is that of `lt` moves `lt` on by `k` days. */
  lemma ShiftDays(lt: int, y: int, mi: int, d: int, k: int)
    requires 0 <= mi <= 11 && DaysFromCivil(y, mi + 1, d) == lt / MS_PER_DAY
    ensures MakeDay(y, mi, d + k) * MS_PER_DAY + lt % MS_PER_DAY == lt + k * MS_PER_DAY
  {
    MakeDayInRange(y, mi, d + k);
    DaysFromCivilShift(y, mi + 1, d, k);
    SplitDay(lt, lt / MS_PER_DAY + k, k);
  }

  lemma SplitDay(lt: int, a: int, k: int)
    requires a == lt / MS_PER_DAY + k
    ensures a * MS_PER_DAY + lt % MS_PER_DAY == lt + k * MS_PER_DAY
  {}

  /** A time value set by `setHours` to a time within a day lies on the same local day, at that local time. */
  lemma SetHoursSameDay(t: int, hours: int, minutes: int, seconds: int, millis: int)
    requires 0 <= MakeTime(hours, minutes, seconds, millis) < MS_PER_DAY
    ensures var u := SetHours(t, hours, minutes, seconds, millis);
      LocalDay(u) == LocalDay(t) && (u + LOCAL_OFFSET_MS) % MS_PER_DAY == MakeTime(hours, minutes, seconds, millis)
  {
    var x := MakeTime(hours, minutes, seconds, millis);
    var lu := SetHours(t, hours, minutes, seconds, millis) + LOCAL_OFFSET_MS;
    assert lu == LocalDay(t) * MS_PER_DAY + x;
    DivModUnique(lu, LocalDay(t), x);
  }

  /** `lu` splits uniquely into whole days and a time within the day. */
  lemma DivModUnique(lu: int, day: int, x: int)
    requires 0 <= x < MS_PER_DAY && lu == day * MS_PER_DAY + x
    ensures lu / MS_PER_DAY == day && lu % MS_PER_DAY == x
  {}

  /** `new Date(getFullYear(), getMonth(), getDate(), hours, minutes, seconds)` for the local date of `t`. */
  function AtLocalTime(t: int, hours: int, minutes: int, seconds: int): int {
    var f := LocalFields(t);
    LocalTimeValue(f.year, f.monthIndex, f.day, hours, minutes, seconds)
  }

  /** Outside the years 0 to 99, rebuilding the local date at a new time is `setHours` with that time. */
  lemma AtLocalTimeIsSetHours(t: int, hours: int, minutes: int, seconds: int)
    requires var f := LocalFields(t); !(0 <= f.year <= 99)
    ensures AtLocalTime(t, hours, minutes, seconds) == SetHours(t, hours, minutes, seconds, 0)
  {
    var f := LocalFields(t);
    LocalDateIsLocalDay(t);
    RebuildAt(t + LOCAL_OFFSET_MS, f.year, f.monthIndex, f.day, hours, minutes, seconds);
  }

  /** `Date.UTC` of a date whose day number is that of `lt` lands on the day of `lt`, at the given time. */
  lemma RebuildAt(lt: int, y: int, mi: int, d: int, hours: int, minutes: int, seconds: int)
    requires !(0 <= y <= 99) && 0 <= mi <= 11 && DaysFromCivil(y, mi + 1, d) == lt / MS_PER_DAY
    ensures UtcTimeValue(y, mi, d, hours, minutes, seconds) == lt / MS_PER_DAY * MS_PER_DAY + MakeTime(hours, minutes, seconds, 0)
  {
    MakeDayInRange(y, mi, d);
  }
}
