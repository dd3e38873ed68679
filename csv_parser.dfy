/**
 * Reading the harmonic-constant table (one CSV file per year, a header line
 * and one line per station): the number sanitising of `parseNumber`, the
 * search for a station's row in `loadHarmonicConstants` and the listing of
 * station codes in `getAvailableStations`, over text already read.
 */
module CsvParser {
  import opened Wrappers
  import opened JsText
  import opened JsNumber

  const COMMA: CodeUnit := ',' as CodeUnit
  const DASH: JsString := ['-' as CodeUnit]
  /** The header of the station-code column, `地点記号`. */
  const STATION_CODE_HEADER: JsString := Str("地点記号")
  /** The last year with its own table; later years use it. */
  const LAST_TABLE_YEAR: int := 2026

  // ---------------------------------------------------------------------
  // parseNumber

  /**
   * `parseNumber(value)`: an empty text and `-` are 0, anything `parseFloat`
   * cannot read is 0, everything else is what `parseFloat` reads (which may
   * be an infinity, never NaN).
   */
  function ParseNumber(value: JsString): (r: Number)
    ensures r != NaN
    ensures value == [] || value == DASH || ParseFloat(value) == NaN ==> r == Finite(0.0)
  {
    if value == [] || value == DASH then Finite(0.0)
    else
      var num := ParseFloat(value);
      if num.NaN? then Finite(0.0) else num
  }

  /** `parseNumber(values[k])`: a missing column is `undefined`, which is falsy and reads as 0. */
  function NumberAt(values: seq<JsString>, k: nat): (r: Number)
    ensures r != NaN
    ensures k >= |values| ==> r == Finite(0.0)
  {
    if k < |values| then ParseNumber(values[k]) else Finite(0.0)
  }

  /** The text of an integer reads back as that integer. */
  lemma ParseNumberOfInt(n: int)
    ensures ParseNumber(IntToString(n)) == Finite(n as real)
  {
    ParseFloatOfInt(n);
  }

  /** A text whose first non-space unit cannot start a number reads as 0. */
  lemma ParseNumberNotNumeric(value: JsString)
    requires var t := TrimStart(value);
      t == [] || !(IsDecimalDigit(t[0]) || t[0] in ['.' as CodeUnit, '+' as CodeUnit, '-' as CodeUnit, 'I' as CodeUnit])
    ensures ParseNumber(value) == Finite(0.0)
  {
    ParseFloatNotNumeric(value);
  }

  /** `year >= 2026 ? 2026 : year`: the year whose table is read. */
  function DataYear(year: int): (r: int)
    ensures r <= LAST_TABLE_YEAR && r <= year
    ensures r == year || r == LAST_TABLE_YEAR
  {
    if year >= LAST_TABLE_YEAR then LAST_TABLE_YEAR else year
  }

  // ---------------------------------------------------------------------
  // loadHarmonicConstants

  /** The amplitude and phase of one tidal constituent. */
  datatype Constituent = Constituent(amplitude: Number, phase: Number)

  /**
   * A station's constants. `stationNameText` is column 2 as it stands
   * (`undefined` when the row is shorter); `loadHarmonicConstants` passes it through
   * `extractStationName`, which is not part of this model.
   */
  datatype HarmonicConstants = HarmonicConstants(
    stationCode: JsString, stationNameText: Option<JsString>, baseLevel: Number,
    m2: Constituent, s2: Constituent, k1: Constituent, o1: Constituent)

  /** The lines of the file. */
  function Lines(csvContent: JsString): (r: seq<JsString>)
    ensures |r| >= 1
  {
    Split(csvContent, LF)
  }

  /** The fields of a data line: trimmed, then split at commas. */
  function RowFields(line: JsString): seq<JsString> {
    Split(Trim(line), COMMA)
  }

  /** A data line the search looks at: not blank, and with at least as many fields as the header. */
  predicate IsCandidate(line: JsString, width: nat) {
    Trim(line) != [] && |RowFields(line)| >= width
  }

  /** A candidate line whose column 1 is the station code. */
  predicate RowMatches(line: JsString, width: nat, stationCode: JsString) {
    IsCandidate(line, width) && |RowFields(line)| >= 2 && RowFields(line)[1] == stationCode
  }

  /** The constants of a matching row: base level from column 7, then amplitude and phase of M2, S2, K1 and O1 from columns 8 to 15. */
  function ConstantsOf(stationCode: JsString, values: seq<JsString>): (r: HarmonicConstants)
    ensures r.stationCode == stationCode
    ensures r.stationNameText.Some? <==> |values| > 2
  {
    HarmonicConstants(
      stationCode,
      if |values| > 2 then Some(values[2]) else None,
      NumberAt(values, 7),
      Constituent(NumberAt(values, 8), NumberAt(values, 9)),
      Constituent(NumberAt(values, 10), NumberAt(values, 11)),
      Constituent(NumberAt(values, 12), NumberAt(values, 13)),
      Constituent(NumberAt(values, 14), NumberAt(values, 15)))
  }

  /** The index of the first line from `i` on that matches. */
  function FirstMatch(lines: seq<JsString>, width: nat, stationCode: JsString, i: nat): (r: Option<nat>)
    ensures r.Some? ==> i <= r.value < |lines|
    decreases |lines| - i
  {
    if i >= |lines| then None
    else if RowMatches(lines[i], width, stationCode) then Some(i)
    else FirstMatch(lines, width, stationCode, i + 1)
  }

  /** `FirstMatch` finds a matching line with none before it, or reports that no line matches. */
  lemma {:induction false} FirstMatchIsFirst(lines: seq<JsString>, width: nat, stationCode: JsString, i: nat)
    ensures var r := FirstMatch(lines, width, stationCode, i);
      r.Some? ==> RowMatches(lines[r.value], width, stationCode) && forall j | i <= j < r.value :: !RowMatches(lines[j], width, stationCode)
    ensures FirstMatch(lines, width, stationCode, i).None? ==> forall j | i <= j < |lines| :: !RowMatches(lines[j], width, stationCode)
    decreases |lines| - i
  {
    if FirstMatch(lines, width, stationCode, i).Some? {
      FirstMatchFound(lines, width, stationCode, i);
    } else {
      FirstMatchNone(lines, width, stationCode, i);
    }
  }

  /** A line found matches, and no line between the start and it does. */
  lemma {:induction false} FirstMatchFound(lines: seq<JsString>, width: nat, stationCode: JsString, i: nat)
    requires FirstMatch(lines, width, stationCode, i).Some?
    ensures var k := FirstMatch(lines, width, stationCode, i).value;
      RowMatches(lines[k], width, stationCode) && forall j | i <= j < k :: !RowMatches(lines[j], width, stationCode)
    decreases |lines| - i
  {
    var k := FirstMatch(lines, width, stationCode, i).value;
    if !RowMatches(lines[i], width, stationCode) {
      assert FirstMatch(lines, width, stationCode, i) == FirstMatch(lines, width, stationCode, i + 1);
      FirstMatchFound(lines, width, stationCode, i + 1);
      forall j | i <= j < k ensures !RowMatches(lines[j], width, stationCode) {
        if j > i {
          assert i + 1 <= j < k;
        }
      }
    } else {
      assert k == i;
    }
  }

  /** When nothing is found, no line from the start on matches. */
  lemma FirstMatchNone(lines: seq<JsString>, width: nat, stationCode: JsString, i: nat)
    requires FirstMatch(lines, width, stationCode, i).None?
    ensures forall j | i <= j < |lines| :: !RowMatches(lines[j], width, stationCode)
  {
    forall j | i <= j < |lines| ensures !RowMatches(lines[j], width, stationCode) {
      if RowMatches(lines[j], width, stationCode) {
        MatchIsFound(lines, width, stationCode, i, j);
        assert false;
      }
    }
  }

  /** A matching line at or after the start is always found. */
  lemma {:induction false} MatchIsFound(lines: seq<JsString>, width: nat, stationCode: JsString, i: nat, j: nat)
    requires i <= j < |lines| && RowMatches(lines[j], width, stationCode)
    ensures FirstMatch(lines, width, stationCode, i).Some?
    decreases j - i
  {
    if RowMatches(lines[i], width, stationCode) {
      assert FirstMatch(lines, width, stationCode, i) == Some(i);
    } else {
      assert i != j;
      assert FirstMatch(lines, width, stationCode, i) == FirstMatch(lines, width, stationCode, i + 1);
      MatchIsFound(lines, width, stationCode, i + 1, j);
    }
  }

  /** The result of the search through the data lines of a file. */
  function SearchResult(stationCode: JsString, lines: seq<JsString>): Option<HarmonicConstants>
    requires |lines| >= 1
  {
    var width := |Split(lines[0], COMMA)|;
    match FirstMatch(lines, width, stationCode, 1)
    case Some(k) => Some(ConstantsOf(stationCode, RowFields(lines[k])))
    case None => None
  }

  /**
   * `loadHarmonicConstants(stationCode, year)` once the file for
   * `DataYear(year)` has been read: null (None) for a file of fewer than two
   * lines, otherwise the constants of the first candidate line whose station
   * code matches, or null when there is none.
   */
  method LoadHarmonicConstants(stationCode: JsString, csvContent: JsString) returns (r: Option<HarmonicConstants>)
    ensures |Lines(csvContent)| < 2 ==> r == None
    ensures |Lines(csvContent)| >= 2 ==> r == SearchResult(stationCode, Lines(csvContent))
  {
    var lines := Lines(csvContent);
    if |lines| < 2 {
      return None;
    }
    var headers := Split(lines[0], COMMA);
    var i := 1;
    while i < |lines|
      invariant 1 <= i <= |lines|
      invariant FirstMatch(lines, |headers|, stationCode, 1) == FirstMatch(lines, |headers|, stationCode, i)
    {
      var line := Trim(lines[i]);
      if line != [] {
        var values := Split(line, COMMA);
        if |values| >= |headers| {
          if |values| >= 2 && values[1] == stationCode {
            return Some(ConstantsOf(stationCode, values));
          }
        }
      }
      i := i + 1;
    }
    return None;
  }

  /** The search gives the constants of the first matching data line, or None exactly when no data line matches. */
  lemma SearchFindsFirstMatch(stationCode: JsString, lines: seq<JsString>)
    requires |lines| >= 1
    ensures var width := |Split(lines[0], COMMA)|;
      SearchResult(stationCode, lines).None? <==> forall j | 1 <= j < |lines| :: !RowMatches(lines[j], width, stationCode)
    ensures var width := |Split(lines[0], COMMA)|;
      SearchResult(stationCode, lines).Some? ==> exists k | 1 <= k < |lines| ::
        (RowMatches(lines[k], width, stationCode)
        && (forall j | 1 <= j < k :: !RowMatches(lines[j], width, stationCode))
        && SearchResult(stationCode, lines).value == ConstantsOf(stationCode, RowFields(lines[k])))
  {
    FirstMatchIsFirst(lines, |Split(lines[0], COMMA)|, stationCode, 1);
  }

  /** Nine numbers written in columns 7 to 15 are read back as the base level and the four constituents, in that order. */
  lemma ColumnsReadBack(values: seq<JsString>, nums: seq<int>)
    requires |nums| == 9 && |values| >= 16
    requires forall k | 0 <= k < 9 :: values[7 + k] == IntToString(nums[k])
    ensures var c := ConstantsOf(values[1], values);
      c.baseLevel == Finite(nums[0] as real)
      && c.m2 == Constituent(Finite(nums[1] as real), Finite(nums[2] as real))
      && c.s2 == Constituent(Finite(nums[3] as real), Finite(nums[4] as real))
      && c.k1 == Constituent(Finite(nums[5] as real), Finite(nums[6] as real))
      && c.o1 == Constituent(Finite(nums[7] as real), Finite(nums[8] as real))
  {
    forall k | 0 <= k < 9
      ensures NumberAt(values, 7 + k) == Finite(nums[k] as real)
    {
      ParseNumberOfInt(nums[k]);
    }
    assert NumberAt(values, 7) == Finite(nums[0] as real);
    assert NumberAt(values, 8) == Finite(nums[1] as real);
    assert NumberAt(values, 15) == Finite(nums[8] as real);
  }

  /** A matching row too short to hold the constants reads every missing one as 0. */
  lemma ShortRowReadsZero(stationCode: JsString, values: seq<JsString>)
    requires |values| <= 7
    ensures var c := ConstantsOf(stationCode, values);
      c.baseLevel == Finite(0.0) && c.m2 == c.s2 == c.k1 == c.o1 == Constituent(Finite(0.0), Finite(0.0))
  {
  }

  // ---------------------------------------------------------------------
  // getAvailableStations

  /** The station code a line contributes: column 1 of a non-blank line with at least two fields, unless empty or the header's `地点記号`. */
  function CodeOf(line: JsString): (r: seq<JsString>)
    ensures |r| <= 1
    ensures r != [] ==> r[0] != [] && r[0] != STATION_CODE_HEADER
  {
    var t := Trim(line);
    if t == [] then []
    else
      var values := Split(t, COMMA);
      if |values| >= 2 && values[1] != [] && values[1] != STATION_CODE_HEADER then [values[1]] else []
  }

  /** The codes of the given lines, in order. */
  function Stations(rows: seq<JsString>): (r: seq<JsString>)
    ensures |r| <= |rows|
    decreases |rows|
  {
    if rows == [] then []
    else Stations(rows[..|rows| - 1]) + CodeOf(rows[|rows| - 1])
  }

  /** One more line adds its code, if any, at the end. */
  lemma StationsSnoc(rows: seq<JsString>, line: JsString)
    ensures Stations(rows + [line]) == Stations(rows) + CodeOf(line)
  {
    assert (rows + [line])[..|rows|] == rows;
  }

  /**
   * `getAvailableStations(year)` once the file for `DataYear(year)` has been
   * read: the codes of every line after the first, in file order.
   */
  method GetAvailableStations(csvContent: JsString) returns (stations: seq<JsString>)
    ensures stations == Stations(Lines(csvContent)[1..])
  {
    var lines := Lines(csvContent);
    stations := [];
    var i := 1;
    while i < |lines|
      invariant 1 <= i <= |lines|
      invariant stations == Stations(lines[1..i])
    {
      StationsStep(lines, i);
      stations := stations + CodeOf(lines[i]);
      i := i + 1;
    }
    assert lines[1..i] == lines[1..];
  }

  /** Taking one more line in adds its code, if any, at the end. */
  lemma StationsStep(lines: seq<JsString>, i: nat)
    requires 1 <= i < |lines|
    ensures Stations(lines[1..i + 1]) == Stations(lines[1..i]) + CodeOf(lines[i])
  {
    assert lines[1..i + 1] == lines[1..i] + [lines[i]];
    StationsSnoc(lines[1..i], lines[i]);
  }

  /** The codes of two runs of lines are the codes of the first run followed by those of the second. */
  lemma {:induction false} StationsAppend(a: seq<JsString>, b: seq<JsString>)
    ensures Stations(a + b) == Stations(a) + Stations(b)
    decreases |b|
  {
    if b == [] {
      assert a + b == a;
    } else {
      var b' := b[..|b| - 1];
      var x := b[|b| - 1];
      StationsAppend(a, b');
      SnocSplit(a, b);
      StationsAppendStep(a, b', x);
    }
  }

  lemma StationsAppendStep(a: seq<JsString>, b: seq<JsString>, x: JsString)
    requires Stations(a + b) == Stations(a) + Stations(b)
    ensures Stations((a + b) + [x]) == Stations(a) + Stations(b + [x])
  {
    StationsSnoc(a + b, x);
    StationsSnoc(b, x);
  }

  lemma SnocSplit(a: seq<JsString>, b: seq<JsString>)
    requires b != []
    ensures a + b == (a + b[..|b| - 1]) + [b[|b| - 1]] && b == b[..|b| - 1] + [b[|b| - 1]]
  {
  }

  /** A code is listed exactly when some line contributes it. */
  lemma StationsMembers(rows: seq<JsString>, code: JsString)
    ensures code in Stations(rows) <==> exists k | 0 <= k < |rows| :: CodeOf(rows[k]) == [code]
  {
    if code in Stations(rows) {
      StationFromLine(rows, code);
    }
    if exists k | 0 <= k < |rows| :: CodeOf(rows[k]) == [code] {
      var k :| 0 <= k < |rows| && CodeOf(rows[k]) == [code];
      LineGivesStation(rows, code, k);
    }
  }

  /** A listed code comes from some line. */
  lemma {:induction false} StationFromLine(rows: seq<JsString>, code: JsString)
    requires code in Stations(rows)
    ensures exists k | 0 <= k < |rows| :: CodeOf(rows[k]) == [code]
    decreases |rows|
  {
    var init, last := rows[..|rows| - 1], rows[|rows| - 1];
    assert Stations(rows) == Stations(init) + CodeOf(last);
    if code in Stations(init) {
      StationFromLine(init, code);
      var k :| 0 <= k < |init| && CodeOf(init[k]) == [code];
      assert rows[k] == init[k];
    } else {
      assert CodeOf(rows[|rows| - 1]) == [code];
    }
  }

  /** The code of any line is listed. */
  lemma {:induction false} LineGivesStation(rows: seq<JsString>, code: JsString, k: nat)
    requires k < |rows| && CodeOf(rows[k]) == [code]
    ensures code in Stations(rows)
    decreases |rows|
  {
    var init, last := rows[..|rows| - 1], rows[|rows| - 1];
    assert Stations(rows) == Stations(init) + CodeOf(last);
    if k < |rows| - 1 {
      assert init[k] == rows[k];
      LineGivesStation(init, code, k);
    }
  }

  /** No listed code is empty or the header's `地点記号`. */
  lemma {:induction false} StationsClean(rows: seq<JsString>)
    ensures forall c | c in Stations(rows) :: c != [] && c != STATION_CODE_HEADER
    decreases |rows|
  {
    if rows != [] {
      StationsClean(rows[..|rows| - 1]);
    }
  }
}
