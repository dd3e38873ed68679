/**
 * The Japan Meteorological Agency's tide-table text, one line per station
 * and day, as the download script reads it: columns 1-72 hold 24 hourly
 * levels of three units each, columns 73-78 the two-digit year, month and
 * day, columns 79-80 the station code, columns 81-108 up to four high
 * waters and columns 109-136 up to four low waters, each as a four-digit
 * time and a three-digit level. A time of `9999` or a level of `999` marks
 * a high or low water that does not occur.
 */
module TideText {
  import opened Wrappers
  import opened JsText
  import opened Civil

  // ---------------------------------------------------------------------
  // tideLevelParser

  /** The `time` of a reading: null, a `Date` whose value is NaN, or a time value. */
  datatype Stamp = NullTime | InvalidDate | At(ms: int)

  /** The `level` of a reading: null, NaN, or centimetres. */
  datatype Level = NullLevel | NaNLevel | Cm(cm: int)

  /** One high or low water as `tideLevelParser` returns it. */
  datatype TideReading = TideReading(time: Stamp, level: Level)

  /** The hour or minute that marks a missing time. */
  const NO_TIME: int := 99
  /** The level that marks a missing level. */
  const NO_LEVEL: int := 999

  /** True when `parseInt` gave the number `v`. */
  predicate Parsed(p: Option<int>, v: int) {
    p.Some? && p.value == v
  }

  /** `new Date(year, month - 1, day, hour, minute)`: NaN in any argument gives an invalid date. */
  function LocalDate(year: int, month: Option<int>, day: Option<int>, hour: Option<int>, minute: Option<int>): (r: Stamp)
    ensures !r.NullTime?
    ensures r.InvalidDate? <==> month.None? || day.None? || hour.None? || minute.None?
    ensures r.At? ==> r.ms == LocalTimeValue(year, month.value - 1, day.value, hour.value, minute.value, 0)
  {
    if month.None? || day.None? || hour.None? || minute.None? then InvalidDate
    else At(LocalTimeValue(year, month.value - 1, day.value, hour.value, minute.value, 0))
  }

  /**
   * The reading made of the three numbers of a group: an hour or minute of
   * 99 gives a null time and a level of 999 a null level.
   */
  function ReadingFrom(year: int, month: Option<int>, day: Option<int>, hour: Option<int>, minute: Option<int>, level: Option<int>): (r: TideReading)
    ensures r.time.NullTime? <==> Parsed(hour, NO_TIME) || Parsed(minute, NO_TIME)
    ensures r.time.InvalidDate? <==> !r.time.NullTime? && (month.None? || day.None? || hour.None? || minute.None?)
    ensures r.time.At? ==> r.time.ms == LocalTimeValue(year, month.value - 1, day.value, hour.value, minute.value, 0)
    ensures r.level.NullLevel? <==> Parsed(level, NO_LEVEL)
    ensures r.level.NaNLevel? <==> level.None?
    ensures r.level.Cm? ==> r.level.cm == level.value
  {
    TideReading(
      if Parsed(hour, NO_TIME) || Parsed(minute, NO_TIME) then NullTime else LocalDate(year, month, day, hour, minute),
      if Parsed(level, NO_LEVEL) then NullLevel else if level.None? then NaNLevel else Cm(level.value))
  }

  /** `tideLevelParser(year, month, day)(tide)`: the hour from units 0-2, the minute from 2-4 and the level from 4-7. */
  function TideLevelParser(year: int, month: Option<int>, day: Option<int>, tide: JsString): (r: TideReading)
    ensures r.time.NullTime? <==> Parsed(ParseInt(Slice(tide, 0, 2), 10), NO_TIME) || Parsed(ParseInt(Slice(tide, 2, 4), 10), NO_TIME)
    ensures r.level.NullLevel? <==> Parsed(ParseInt(Slice(tide, 4, 7), 10), NO_LEVEL)
    ensures r.level.NaNLevel? <==> ParseInt(Slice(tide, 4, 7), 10).None?
  {
    ReadingFrom(year, month, day, ParseInt(Slice(tide, 0, 2), 10), ParseInt(Slice(tide, 2, 4), 10), ParseInt(Slice(tide, 4, 7), 10))
  }

  /** `k` spaces. */
  function Spaces(k: nat): (r: JsString)
    ensures |r| == k && forall i | 0 <= i < k :: r[i] == SP
  {
    seq(k, _ => SP)
  }

  /** A level right-aligned in three units, as the tide table writes it. */
  function LevelField(level: int): (r: JsString)
    requires -99 <= level <= 999
    ensures |r| == 3
  {
    NatToStringLength(if level < 0 then -level else level);
    Spaces(3 - |IntToString(level)|) + IntToString(level)
  }

  /** A time and level group: two-digit hour, two-digit minute, three-unit level. */
  function TideGroup(hour: nat, minute: nat, level: int): (r: JsString)
    requires hour < 100 && minute < 100 && -99 <= level <= 999
    ensures |r| == 7
  {
    NatToStringLength(hour);
    NatToStringLength(minute);
    PadStart2(NatToString(hour)) + PadStart2(NatToString(minute)) + LevelField(level)
  }

  /** Leading spaces do not change what `parseInt` reads. */
  lemma {:induction false} TrimSpaces(k: nat, s: JsString)
    ensures TrimStart(Spaces(k) + s) == TrimStart(s)
    decreases k
  {
    if k > 0 {
      TrimSpaces(k - 1, s);
      var t := Spaces(k) + s;
      assert t[0] == SP;
      assert t[1..] == Spaces(k - 1) + s;
      assert TrimStart(t) == TrimStart(t[1..]);
    } else {
      assert Spaces(k) + s == s;
    }
  }

  /** A right-aligned level reads back as the level. */
  lemma LevelFieldReads(level: int)
    requires -99 <= level <= 999
    ensures ParseInt(LevelField(level), 10) == Some(level)
  {
    NatToStringLength(if level < 0 then -level else level);
    var k := 3 - |IntToString(level)|;
    assert LevelField(level) == Spaces(k) + IntToString(level);
    PaddedIntReads(k, level);
  }

  /** An integer's decimal text after any number of spaces reads back as the integer. */
  lemma PaddedIntReads(k: nat, i: int)
    ensures ParseInt(Spaces(k) + IntToString(i), 10) == Some(i)
  {
    var t := IntToString(i);
    TrimSpaces(k, t);
    ParseIntSameTrim(Spaces(k) + t, t);
    ParseIntToString(i, []);
    assert t + [] == t;
  }

  /** A two-digit field reads back as its value. */
  lemma TwoDigitsRead(n: nat)
    requires n < 100
    ensures |PadStart2(NatToString(n))| == 2 && ParseInt(PadStart2(NatToString(n)), 10) == Some(n)
  {
    NatToStringLength(n);
    ParsePadded(n, 10);
  }

  /** Seven units whose three fields read as numbers other than the markers are read as that local time and level. */
  lemma GroupOfFields(h: JsString, m: JsString, l: JsString, year: int, month: int, day: int, hour: int, minute: int, level: int)
    requires |h| == 2 && |m| == 2 && |l| == 3
    requires Parsed(ParseInt(h, 10), hour) && Parsed(ParseInt(m, 10), minute) && Parsed(ParseInt(l, 10), level)
    requires hour != NO_TIME && minute != NO_TIME && level != NO_LEVEL
    ensures TideLevelParser(year, Some(month), Some(day), h + m + l)
      == TideReading(At(LocalTimeValue(year, month - 1, day, hour, minute, 0)), Cm(level))
  {
    GroupSlices(h, m, l);
    ReadingOf(year, month, day, ParseInt(h, 10), ParseInt(m, 10), ParseInt(l, 10), hour, minute, level);
  }

  /** Numbers other than the markers give a valid time and a level. */
  lemma ReadingOf(year: int, month: int, day: int, h: Option<int>, m: Option<int>, l: Option<int>, hour: int, minute: int, level: int)
    requires Parsed(h, hour) && Parsed(m, minute) && Parsed(l, level)
    requires hour != NO_TIME && minute != NO_TIME && level != NO_LEVEL
    ensures ReadingFrom(year, Some(month), Some(day), h, m, l)
      == TideReading(At(LocalTimeValue(year, month - 1, day, hour, minute, 0)), Cm(level))
  {
  }

  lemma GroupSlices(h: JsString, m: JsString, l: JsString)
    requires |h| == 2 && |m| == 2 && |l| == 3
    ensures Slice(h + m + l, 0, 2) == h && Slice(h + m + l, 2, 4) == m && Slice(h + m + l, 4, 7) == l
  {
    assert (h + m + l)[0..2] == h && (h + m + l)[2..4] == m && (h + m + l)[4..7] == l;
  }

  /** A group written from an hour, minute and level other than the markers reads back as that local time and level. */
  lemma TideGroupRoundTrip(year: int, month: int, day: int, hour: nat, minute: nat, level: int)
    requires hour < 99 && minute < 99 && -99 <= level < 999
    ensures TideLevelParser(year, Some(month), Some(day), TideGroup(hour, minute, level))
      == TideReading(At(LocalTimeValue(year, month - 1, day, hour, minute, 0)), Cm(level))
  {
    TwoDigitsRead(hour);
    TwoDigitsRead(minute);
    LevelFieldReads(level);
    GroupOfFields(PadStart2(NatToString(hour)), PadStart2(NatToString(minute)), LevelField(level),
      year, month, day, hour, minute, level);
  }

  /** A group whose hour is 99 has no time; one whose level is 999 has no level. */
  lemma MarkedGroups(year: int, month: Option<int>, day: Option<int>, hour: nat, minute: nat, level: int)
    requires hour < 100 && minute < 100 && -99 <= level <= 999
    ensures hour == NO_TIME || minute == NO_TIME ==> TideLevelParser(year, month, day, TideGroup(hour, minute, level)).time == NullTime
    ensures level == NO_LEVEL ==> TideLevelParser(year, month, day, TideGroup(hour, minute, level)).level == NullLevel
  {
    TwoDigitsRead(hour);
    TwoDigitsRead(minute);
    LevelFieldReads(level);
    GroupSlices(PadStart2(NatToString(hour)), PadStart2(NatToString(minute)), LevelField(level));
  }

  // ---------------------------------------------------------------------
  // Fixed-width fields: `s.match(/.{1,n}/g) || []`

  /** The length of the match of `.{1,n}` at the start of `s`: units other than line terminators, at most `n`. */
  function RunLength(s: JsString, n: nat): (k: nat)
    ensures k <= n && k <= |s|
    ensures forall i | 0 <= i < k :: !IsLineTerminator(s[i])
    ensures k < n && k < |s| ==> IsLineTerminator(s[k])
  {
    if s == [] || n == 0 || IsLineTerminator(s[0]) then 0
    else
      var k := RunLength(s[1..], n - 1);
      assert forall i | 1 <= i < k + 1 :: s[i] == s[1..][i - 1];
      1 + k
  }

  /**
   * `s.match(/.{1,n}/g) || []`: the global matches of up to `n` units, `.`
   * not matching a line terminator; a terminator is stepped over, and no
   * match at all gives the empty list.
   */
  function Chunks(s: JsString, n: nat): (r: seq<JsString>)
    requires n >= 1
    ensures forall k | 0 <= k < |r| :: 1 <= |r[k]| <= n
    decreases |s|
  {
    if s == [] then []
    else if IsLineTerminator(s[0]) then Chunks(s[1..], n)
    else
      var k := RunLength(s, n);
      [s[..k]] + Chunks(s[k..], n)
  }

  /** No unit of `s` is a line terminator. */
  predicate Plain(s: JsString) {
    forall i | 0 <= i < |s| :: !IsLineTerminator(s[i])
  }

  /** Piece `k` of `n` units: what is left after `k` pieces, cut to `n` units. */
  function Piece(s: JsString, n: nat, k: nat): (r: JsString)
    ensures |r| <= n
    decreases k
  {
    if |s| < n then []
    else if k == 0 then s[..n]
    else Piece(s[n..], n, k - 1)
  }

  /** Piece `k` is units `n * k` to `n * k + n` when the text is long enough. */
  lemma {:induction false} PieceAt(s: JsString, n: nat, k: nat)
    requires n * k + n <= |s|
    ensures Piece(s, n, k) == s[n * k..n * k + n]
    decreases k
  {
    if k > 0 {
      MulStep(n, k);
      var p := n * (k - 1);
      PieceAt(s[n..], n, k - 1);
      SubSlice(s, n, |s|, p, p + n);
    }
  }

  /** A text without line terminators whose length is `m` times `n` is cut into its `m` pieces of `n` units. */
  lemma {:induction false} ChunksOfPlain(s: JsString, n: nat, m: nat)
    requires n >= 1 && Plain(s) && |s| == n * m
    ensures |Chunks(s, n)| == m
    ensures forall k | 0 <= k < m :: Chunks(s, n)[k] == Piece(s, n, k)
    decreases m
  {
    if m == 0 {
      assert s == [];
    } else {
      MulStep(n, m);
      var rest := s[n..];
      FirstChunk(s, n);
      assert Plain(rest) by {
        forall i | 0 <= i < |rest| ensures !IsLineTerminator(rest[i]) {
          assert rest[i] == s[n + i];
        }
      }
      ChunksOfPlain(rest, n, m - 1);
      forall j | 1 <= j < m
        ensures Chunks(s, n)[j] == Piece(s, n, j)
      {
        assert Chunks(s, n)[j] == Chunks(rest, n)[j - 1];
      }
    }
  }

  /** Multiplication by a successor. */
  lemma MulStep(n: nat, m: nat)
    requires m >= 1
    ensures n * m == n + n * (m - 1) && n * (m - 1) >= 0
  {
  }

  /** A slice of a slice is a slice of the whole. */
  lemma SubSlice(s: JsString, a: nat, e: nat, b: nat, c: nat)
    requires a <= e <= |s| && b <= c <= e - a
    ensures s[a..e][b..c] == s[a + b..a + c]
  {
    assert forall i | 0 <= i < c - b :: s[a..e][b..c][i] == s[a + b + i];
  }

  /** A plain text of at least `n` units starts with a chunk of exactly `n` units. */
  lemma FirstChunk(s: JsString, n: nat)
    requires n >= 1 && Plain(s) && |s| >= n
    ensures Chunks(s, n) == [s[..n]] + Chunks(s[n..], n)
  {
    assert !IsLineTerminator(s[0]);
    var k := RunLength(s, n);
    if k < |s| {
      assert !IsLineTerminator(s[k]);
    }
    assert k == n;
    assert Chunks(s, n) == [s[..k]] + Chunks(s[k..], n);
  }

  // ---------------------------------------------------------------------
  // One line of the tide table

  /** Whether a reading survives `filter(x => x.time !== null && x.level !== null)`. */
  predicate IsKept(x: TideReading) {
    !x.time.NullTime? && !x.level.NullLevel?
  }

  /** The readings that survive the filter, in order. */
  function Kept(rs: seq<TideReading>): (r: seq<TideReading>)
    ensures |r| <= |rs|
    ensures forall k | 0 <= k < |r| :: IsKept(r[k])
    decreases |rs|
  {
    if rs == [] then []
    else Kept(rs[..|rs| - 1]) + (if IsKept(rs[|rs| - 1]) then [rs[|rs| - 1]] else [])
  }

  /** A reading is kept exactly when it is among the readings and is not marked missing. */
  lemma {:induction false} KeptMembers(rs: seq<TideReading>, x: TideReading)
    ensures x in Kept(rs) <==> x in rs && IsKept(x)
    decreases |rs|
  {
    if rs != [] {
      var init := rs[..|rs| - 1];
      KeptMembers(init, x);
      assert rs == init + [rs[|rs| - 1]];
    }
  }

  /** The filter keeps order: filtering two runs is filtering each in turn. */
  lemma {:induction false} KeptAppend(a: seq<TideReading>, b: seq<TideReading>)
    ensures Kept(a + b) == Kept(a) + Kept(b)
    decreases |b|
  {
    if b == [] {
      assert a + b == a;
    } else {
      var init := b[..|b| - 1];
      KeptAppend(a, init);
      assert (a + b)[..|a + b| - 1] == a + init;
      assert (a + b)[|a + b| - 1] == b[|b| - 1];
    }
  }

  /** The readings of a run of groups, all for the same date. */
  function Readings(year: int, month: Option<int>, day: Option<int>, groups: seq<JsString>): (r: seq<TideReading>)
    ensures |r| == |groups|
    ensures forall k | 0 <= k < |r| :: r[k] == TideLevelParser(year, month, day, groups[k])
  {
    seq(|groups|, k requires 0 <= k < |groups| => TideLevelParser(year, month, day, groups[k]))
  }

  /** What one line of the tide table decodes into. `year` is the year of the line as written plus 2000 (NaN as None). */
  datatype DecodedLine = DecodedLine(
    levels: seq<Option<int>>, year: Option<int>, month: Option<int>, day: Option<int>,
    stationCode: JsString, highTides: seq<TideReading>, lowTides: seq<TideReading>)

  /** `parseInt` of every piece. */
  function ParseAll(pieces: seq<JsString>): (r: seq<Option<int>>)
    ensures |r| == |pieces|
    ensures forall k | 0 <= k < |r| :: r[k] == ParseInt(pieces[k], 10)
  {
    seq(|pieces|, k requires 0 <= k < |pieces| => ParseInt(pieces[k], 10))
  }

  /** The two-digit year of a line plus 2000. */
  function FullYear(line: JsString): (r: Option<int>)
    ensures r.Some? <==> ParseInt(Trim(Slice(line, 72, 74)), 10).Some?
    ensures r.Some? ==> r.value == ParseInt(Trim(Slice(line, 72, 74)), 10).value + 2000
  {
    match ParseInt(Trim(Slice(line, 72, 74)), 10)
    case Some(y) => Some(y + 2000)
    case None => None
  }

  /**
   * The decoding of one line (the loop body of the download, for the
   * target year `year`): hourly levels from units 0-72 in threes, year,
   * month and day from 72-78, the station code from 78-80, high waters from
   * 80-108 and low waters from 108-136 in sevens, each read with
   * `tideLevelParser(year, month, day)` and stripped of readings without a
   * time or a level.
   */
  function DecodeLine(year: int, line: JsString): DecodedLine {
    var month := ParseInt(Trim(Slice(line, 74, 76)), 10);
    var day := ParseInt(Trim(Slice(line, 76, 78)), 10);
    DecodedLine(
      ParseAll(Chunks(Slice(line, 0, 72), 3)),
      FullYear(line),
      month,
      day,
      Trim(Slice(line, 78, 80)),
      Kept(Readings(year, month, day, Chunks(Slice(line, 80, 108), 7))),
      Kept(Readings(year, month, day, Chunks(Slice(line, 108, 136), 7))))
  }

  /** A full line has 24 hourly levels, the level of hour `h` read from units `3h` to `3h + 3`. */
  lemma HourlyLevels(year: int, line: JsString)
    requires |line| >= 72 && Plain(line[..72])
    ensures var d := DecodeLine(year, line);
      |d.levels| == 24 && forall h | 0 <= h < 24 :: d.levels[h] == ParseInt(line[3 * h..3 * h + 3], 10)
  {
    var s := line[0..72];
    assert s == line[..72];
    ChunksOfPlain(s, 3, 24);
    forall h | 0 <= h < 24
      ensures Piece(s, 3, h) == line[3 * h..3 * h + 3]
    {
      PieceAt(s, 3, h);
    }
  }

  /** A run of 28 plain units holds four groups, group `k` at units `7k` to `7k + 7`. */
  lemma FourGroups(line: JsString, start: nat)
    requires start + 28 <= |line| && Plain(line[start..start + 28])
    ensures var g := Chunks(Slice(line, start, start + 28), 7);
      |g| == 4 && forall k | 0 <= k < 4 :: g[k] == line[start + 7 * k..start + 7 * k + 7]
  {
    var s := line[start..start + 28];
    ChunksOfPlain(s, 7, 4);
    forall k | 0 <= k < 4
      ensures Piece(s, 7, k) == line[start + 7 * k..start + 7 * k + 7]
    {
      PieceAt(s, 7, k);
      SubSlice(line, start, start + 28, 7 * k, 7 * k + 7);
    }
  }

  /** A full line's high waters are the readings of its four groups at units 80-108 that have a time and a level, in order; its low waters likewise at 108-136. */
  lemma TideGroupsOfLine(year: int, line: JsString)
    requires |line| >= 136 && Plain(line[80..136])
    ensures var d := DecodeLine(year, line);
      d.highTides == Kept(Readings(year, d.month, d.day, [line[80..87], line[87..94], line[94..101], line[101..108]]))
    ensures var d := DecodeLine(year, line);
      d.lowTides == Kept(Readings(year, d.month, d.day, [line[108..115], line[115..122], line[122..129], line[129..136]]))
  {
    assert line[80..108] == line[80..136][..28];
    assert line[108..136] == line[80..136][28..];
    FourGroups(line, 80);
    FourGroups(line, 108);
    var high := Chunks(Slice(line, 80, 108), 7);
    var low := Chunks(Slice(line, 108, 136), 7);
    assert high == [line[80..87], line[87..94], line[94..101], line[101..108]];
    assert low == [line[108..115], line[115..122], line[122..129], line[129..136]];
  }
}
