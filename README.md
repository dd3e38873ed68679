# tide.ical in Dafny

A Dafny model of the deterministic core of tide.ical. tide.ical turns tide
and moon data for Japanese tide stations into iCalendar (RFC 5545) files.
The model covers:

- **Tide classes** (`TideCalculator`). The 12-row table of moon-sun
  elongation ranges classifies each day as 大潮, 中潮, 小潮, 長潮 or 若潮.
  `calculateTidePeriods` groups consecutive days of one class into periods.
- **Moon phases** (`MoonPhase`): the moon's age, the elongation derived
  from it, the eight phase glyphs, and the per-day table.
- **The calendar writer** (`IcsGenerator`):
  - `DTSTART`/`DTEND` as DATE or UTC DATE-TIME values;
  - line folding at 75 UTF-16 code units;
  - base-36 day-number UIDs;
  - the `VEVENT` and `VCALENDAR` frames;
  - the per-class statistics.
- **Rising and falling tides** (`Shioji`). Adjacent high and low waters
  become rising or falling tides, and the tides become named calendar
  periods.
- **The download parsers**:
  - `TideText`: the Japan Meteorological Agency's fixed-width tide text;
  - `ChoihyoTable`: the harmonic-constant station table, that is, the
    header grid with row and column spans, the flattened column names,
    the row-width filter and the degree-minute cells.
- **The harmonic-constant CSV** (`CsvParser`): the station row search, number
  sanitising and the station list, over text already read.
- **The tide-level command's dates** (`Choi`): `YYYYMMDD` parsing, the range
  checks and the output path.
- **The tide calendar script** (`Ushio`): the tide periods of the moon table
  handed to the calendar writer as whole-day events, under the name
  日本の潮まわりカレンダー and with no description.

Supporting modules model the parts of the JavaScript runtime the code relies on:

- `JsText`: strings as UTF-16 code units, `split`, `join`, `slice`, `trim`,
  `parseInt`, number-to-string in any radix, `padStart`;
- `JsNumber`: `parseFloat`, `Math.round`, the `%` operator on numbers, NaN
  and the infinities;
- `Civil`: `Date` as a millisecond time value, with local time fixed at
  UTC+9, the offset of Asia/Tokyo since 1952. Asia/Tokyo's daylight saving
  at UTC+10 in the summers of 1948 to 1951 and its local mean time before
  1888 are not modelled.

Instants are integers (milliseconds since the epoch). Angles and moon ages
are `real`s.

Some behaviours of the code are modelled as written and stated as lemmas:

- A whole-day event's `DTEND` is the date of the last day of the period
  itself, not the day after it (`Ushio.WholeDayEndIsLastDay`). A DATE
  `DTEND` in section 3.6.1 of RFC 5545 is exclusive, so a period of one day
  becomes an event whose `DTSTART` and `DTEND` carry the same date
  (`Ushio.OneDayPeriodIsEmptyEvent`, `Ushio.EveryChangeEmptyEvents`).
- The `X-WR-CALDESC` line is written without folding, unlike the calendar
  name and the summaries. A description of 63 or more units gives a physical
  line longer than 75 units (`IcsGenerator.LongDescriptionLine`); every other
  line stays within 75 (`IcsGenerator.PhysicalLineLengths`). `ushio.ts`
  passes no description, so its line reads `X-WR-CALDESC:undefined`.
- Folding counts UTF-16 code units, not octets.
- A timed UID appends the local hour and minute without padding, so 01:15
  and 11:05 on one day get the same UID (`IcsGenerator.TimedUidCollision`).

## Model

| member | source | states |
|---|---|---|
| TideCalculator.TideName.Label | src/tide-calculator.ts:6 | each class's label is two code units |
| TideCalculator.NormalizeAngle | src/tide-calculator.ts:38 | the normalised elongation lies in [0, 360) |
| TideCalculator.NormalizeIsFloorMod | src/tide-calculator.ts:38 | `((x % 360) + 360) % 360` with the truncating `%` is the floored modulus of x by 360 |
| TideCalculator.NormalizePeriodic | src/tide-calculator.ts:38 | x and x + 360 normalise alike; an angle in [0, 360) is unchanged |
| TideCalculator.IsInRange | src/tide-calculator.ts:58-66 | no contract of its own; IsInRangeIsArc states it |
| TideCalculator.IsInRangeIsArc | src/tide-calculator.ts:58-66 | `isInRange` holds exactly when the angle lies on the counter-clockwise arc from start to end, whether or not the range wraps past 0 |
| TideCalculator.RulesAreContiguous | src/tide-calculator.ts:16-29 | each rule's range ends where the next begins, and the last wraps round to the first |
| TideCalculator.RuleIndex | src/tide-calculator.ts:16-29 | every normalised angle lies in the range of some rule, and that rule's class is the step function's class |
| TideCalculator.RulesPartitionCircle | src/tide-calculator.ts:16-29 | an angle lies in the range of its rule and of no other |
| TideCalculator.FirstMatchIsFirst | src/tide-calculator.ts:40-44 | the search returns the first rule holding the angle, and nothing only when no rule holds it |
| TideCalculator.DetermineTideName | src/tide-calculator.ts:36-48 | no contract of its own; DetermineTideNameByRule, RulesPartitionCircle and TideNameBoundaries state it |
| TideCalculator.DetermineTideNameByRule | src/tide-calculator.ts:36-48 | the 大潮 fallback is never reached: the class is that of the one rule holding the normalised angle |
| TideCalculator.TideNameBoundaries | src/tide-calculator.ts:17-28 | 0→大潮, 31→中潮, 67→小潮, 103→長潮, 115→若潮, 343→大潮, 359.9→大潮, 360→大潮 |
| TideCalculator.TideNameHalfTurnSymmetric | src/tide-calculator.ts:16-29 | the class of x + 180 is the class of x |
| TideCalculator.GetTideDescription | src/tide-calculator.ts:134-144 | every class has a non-empty description |
| TideCalculator.LabelsAndDescriptionsDistinct | src/tide-calculator.ts:134-144 | different classes have different labels and different descriptions |
| TideCalculator.NamesBy | src/tide-calculator.ts:93-98 | one class per row, the class of that row's elongation |
| TideCalculator.Names | src/tide-calculator.ts:93-98 | row k's class is `determineTideName` of row k's elongation |
| TideCalculator.RunEnd | src/tide-calculator.ts:97-114 | the run starting at i ends at the last row of i's class before the class changes |
| TideCalculator.RunEndAt | src/tide-calculator.ts:100 | any j bounding a run of one class followed by a change is that run's end |
| TideCalculator.PeriodsFromRun | src/tide-calculator.ts:100-112 | a run from i to j gives one period from row i's date to row j's date with row i's glyph, then the periods after j |
| TideCalculator.CalculateTidePeriods | src/tide-calculator.ts:73-127 | the loop's periods are the maximal runs of the rows' classes |
| TideCalculator.GroupRuns | src/tide-calculator.ts:84-126 | the loop over any classification yields one period per maximal run, in order |
| TideCalculator.PeriodsFromCoverRuns | src/tide-calculator.ts:93-124 | period k covers the rows from the k-th run start to the row before the next one, all of one class; it has the first row's date and glyph and the last row's date, and the row after it has another class |
| TideCalculator.TidePeriods | src/tide-calculator.ts:73-126 | no contract of its own; CalculateTidePeriods is proved equal to it, and TidePeriodsAreMaximalRuns states it |
| TideCalculator.TidePeriodsAreMaximalRuns | src/tide-calculator.ts:84-124 | no rows give no periods; otherwise the periods partition the rows in order, adjacent periods differ in class, and each period starts at its first row's date, ends at its last row's date and takes its first row's glyph |
| TideCalculator.OneClassOnePeriod | src/tide-calculator.ts:117-123 | rows all of one class give a single period from the first row's date to the last row's |
| TideCalculator.EveryChangeOnePeriodPerRow | src/tide-calculator.ts:100-112 | when the class changes at every row, each row is a period of its own |
| TideCalculator.RunLengthsSum | src/tide-calculator.ts:93-124 | every period covers at least one row, and the period lengths add up to the number of rows |
| MoonPhase.NewMoonReferenceIsUtc | src/moon-phase.ts:8 | the reference time value is 2000-01-06T18:14:00Z |
| MoonPhase.CalculateMoonAge | src/moon-phase.ts:16-21 | the moon's age lies in [0, 29.53059) |
| MoonPhase.MoonAgeIsFloorMod | src/moon-phase.ts:16-21 | the truncating remainder, shifted up by one cycle when negative, is the floored modulus of the elapsed days by the cycle |
| MoonPhase.MoonAgePeriodic | src/moon-phase.ts:16-21 | the age repeats after one synodic month |
| MoonPhase.MoonAgeAfterReference | src/moon-phase.ts:16-21 | d whole days after the reference new moon, within one cycle, the age is d |
| MoonPhase.CalculateLongitudeDifference | src/moon-phase.ts:28-31 | an age in [0, cycle) gives an elongation in [0, 360) |
| MoonPhase.LongitudeDifferenceInverse | src/moon-phase.ts:28-31 | the age is recovered from the elongation, and a larger age gives a larger elongation |
| MoonPhase.GetMoonEmoji | src/moon-phase.ts:38-50 | the result is one of the eight phase glyphs |
| MoonPhase.PhaseBucket | src/moon-phase.ts:41-48 | the bucket count lies in 0..8 |
| MoonPhase.MoonEmojiByBucket | src/moon-phase.ts:38-50 | the glyph is glyph (number of thresholds 0.0625 + k·0.125 at or below the phase) mod 8 |
| MoonPhase.NewAndFullMoon | src/moon-phase.ts:41-49 | 🌑 exactly for a phase below 0.0625 or at least 0.9375; 🌕 exactly for a phase in [0.4375, 0.5625) |
| MoonPhase.MoonGlyphsDistinct | src/moon-phase.ts:41-48 | the eight glyphs are pairwise different |
| MoonPhase.PhaseOfDay | src/moon-phase.ts:72-83 | no contract of its own; CalculateMoonPhases and PhaseRowsAreConsecutiveDays state it |
| MoonPhase.CalculateMoonPhases | src/moon-phase.ts:58-90 | one row per day from the start to the end inclusive, none when the start is after the end; row k is day k's date with its age, elongation and glyph |
| MoonPhase.PhaseRowsAreConsecutiveDays | src/moon-phase.ts:71-86 | row k is dated k local days after the start, and its age is the age at local noon of that day |
| IcsGenerator.Pad2 | src/ics-generator.ts:24-25 | a number below 100 is padded to two code units |
| IcsGenerator.Pad2Parses | src/ics-generator.ts:24-25 | the two padded digits read back as the number |
| IcsGenerator.DateDigitsParse | src/ics-generator.ts:23-26 | a four-digit year, month and day written side by side split back into the three numbers |
| IcsGenerator.DateDigitsAreDigits | src/ics-generator.ts:23-26 | the DATE text is all decimal digits |
| IcsGenerator.FormatICSDate | src/ics-generator.ts:22-27 | no contract of its own; FormatICSDateFields states it |
| IcsGenerator.FormatICSDateFields | src/ics-generator.ts:22-27 | `formatICSDate` is 8 digits: the local year, the one-based month and the day, month and day zero-padded |
| IcsGenerator.DateTimeTextParse | src/ics-generator.ts:34-42 | a DATE-TIME text is 16 units, with `T` at index 8 and `Z` last, and reads back as its six fields |
| IcsGenerator.FormatICSDateTime | src/ics-generator.ts:34-42 | no contract of its own; FormatICSDateTimeFields states it |
| IcsGenerator.FormatICSDateTimeFields | src/ics-generator.ts:34-42 | `formatICSDateTime` is `YYYYMMDDTHHMMSSZ` built from the UTC fields |
| IcsGenerator.FoldICSText | src/ics-generator.ts:49-65 | the `while` loop produces the folded text: the first 75 units, then a space and the next 74 units per line, joined by CRLF |
| IcsGenerator.ContinuationShape | src/ics-generator.ts:58-62 | every continuation line is a space followed by 1 to 74 units; there are none exactly when nothing remains |
| IcsGenerator.FoldLinesShape | src/ics-generator.ts:49-64 | text of at most 75 units is unchanged; longer text has a first line of exactly 75 units; no physical line exceeds 75 units |
| IcsGenerator.UnfoldFolded | src/ics-generator.ts:52-64 | deleting every CRLF + space from the folded text restores the text, when the text has no CRLF |
| IcsGenerator.UnfoldLines | src/ics-generator.ts:64 | unfolding CRLF-joined physical lines gives the CRLF-joined logical lines they fold |
| IcsGenerator.SummaryCases | src/ics-generator.ts:83-85 | the summary is glyph, space, name when the glyph is a non-empty string, and the name alone otherwise |
| IcsGenerator.FilterNonEmpty | src/ics-generator.ts:95 | `filter(Boolean)` keeps only non-empty lines and never lengthens the list |
| IcsGenerator.FilterKeepsNonEmpty | src/ics-generator.ts:95 | on non-empty lines the filter changes nothing |
| IcsGenerator.DateLine | src/ics-generator.ts:75-81 | whole-day lines start with the `;VALUE=DATE:` prefix, timed lines with the UTC prefix |
| IcsGenerator.EventFields | src/ics-generator.ts:87-94 | an event has six logical lines |
| IcsGenerator.GenerateICSEvent | src/ics-generator.ts:74-99 | no contract of its own; EventIsSixLines and EventPhysicalJoin state it |
| IcsGenerator.EventIsSixLines | src/ics-generator.ts:74-99 | the event is exactly BEGIN:VEVENT, UID, DTSTART, DTEND, the folded SUMMARY and END:VEVENT joined by CRLF; no line is dropped by the filter |
| IcsGenerator.EncodeUniqueId | src/ics-generator.ts:102-117 | no contract of its own; EncodeDateText, EncodeFormattedDate, UniqueIdRoundTrip and UniqueIdInjective state it |
| IcsGenerator.UniqueIdRoundTrip | src/ics-generator.ts:102-117 | decoding the base-36 text of a day number gives the day number back |
| IcsGenerator.UniqueIdInjective | src/ics-generator.ts:114 | different day numbers give different UIDs |
| IcsGenerator.EncodeParsed | src/ics-generator.ts:104-107 | a date text whose three slices parse is encoded through the UTC midnight of the date they give |
| IcsGenerator.UtcMidnightDay | src/ics-generator.ts:107-111 | `Date.UTC` at midnight, divided by a day, is the date's day number |
| IcsGenerator.EncodeDateDay | src/ics-generator.ts:102-117 | the UID of a parsed date from the year 1000 on is its day number since 1970-01-01 in base 36 |
| IcsGenerator.EncodeDateText | src/ics-generator.ts:102-117 | the UID of a four-digit-year DATE text is the base-36 day number of that date |
| IcsGenerator.EncodeFormattedDate | src/ics-generator.ts:145-146 | the UID of a formatted start date is the base-36 local day number of the start |
| IcsGenerator.WholeDayUidsByDay | src/ics-generator.ts:145-146 | whole-day UIDs are equal exactly when the starts fall on the same local day |
| IcsGenerator.TimeSuffixAmbiguous | src/ics-generator.ts:146 | 1:15 and 11:05 are both written `115` |
| IcsGenerator.TimedUidCollision | src/ics-generator.ts:146 | two different starts at 01:15 and 11:05 on one day get the same timed UID |
| IcsGenerator.HeaderFields | src/ics-generator.ts:132-141 | the header has eight logical lines |
| IcsGenerator.EventTexts | src/ics-generator.ts:144-148 | one event per period |
| IcsGenerator.GenerateICSContent | src/ics-generator.ts:125-154 | no contract of its own; ContentIsLines, DocumentFrame, DocumentEvents, UnfoldContent and PhysicalLineLengths state it |
| IcsGenerator.ContentIsLines | src/ics-generator.ts:125-154 | the document is the header lines, the events' lines and END:VCALENDAR joined by CRLF |
| IcsGenerator.DocumentFrame | src/ics-generator.ts:131-153 | the logical lines start with BEGIN:VCALENDAR and end with END:VCALENDAR; there are 8 header lines, then 6 per period (one empty line when there are none), then the footer |
| IcsGenerator.DocumentEvents | src/ics-generator.ts:144-153 | line j of period k's event is logical line 8 + 6k + j, so the events follow the periods' order |
| IcsGenerator.DocumentFolds | src/ics-generator.ts:87-141 | the written document folds to its logical lines |
| IcsGenerator.UnfoldContent | src/ics-generator.ts:125-154 | unfolding the calendar text gives its logical lines joined by CRLF |
| IcsGenerator.DocumentLineEvents | src/ics-generator.ts:143-153 | logical line 8 + 6k + j of the document is line j of event k, for every period k and every j below 6 |
| IcsGenerator.EventPhysicalJoin | src/ics-generator.ts:74-99 | an event's physical lines, its folded summary split at each CRLF, join by CRLF into the event text |
| IcsGenerator.ContentIsPhysicalLines | src/ics-generator.ts:132-153 | the document is its physical lines joined by CRLF: the header with the name folded, each event with its summary folded, and END:VCALENDAR |
| IcsGenerator.UidLength | src/ics-generator.ts:145-146 | when the start's local year has four digits, a UID is at most 10 units: at most 5 base-36 digits, a hyphen and at most 4 time digits |
| IcsGenerator.DateLineLength | src/ics-generator.ts:75-81 | with four-digit years and the DATE and UTC prefixes of at most 19 and 11 units, a DTSTART or DTEND line is at most 27 units |
| IcsGenerator.EventPhysicalShort | src/ics-generator.ts:74-99 | with four-digit years every physical line of an event is at most 75 units |
| IcsGenerator.PhysicalLineLengths | src/ics-generator.ts:132-153 | with four-digit years every physical line of the document except the unfolded `X-WR-CALDESC` line is at most 75 units |
| IcsGenerator.ShortDescriptionShortLines | src/ics-generator.ts:140 | a description of at most 62 units gives a description line of 13 + its length units, and then every physical line is at most 75 units |
| IcsGenerator.LongDescriptionLine | src/ics-generator.ts:140 | a description of 63 or more units gives a physical line of 13 + its length units, more than 75, holding no CR when the description has none |
| IcsGenerator.TideLabelsDistinct | src/ics-generator.ts:192-198 | the five count keys are pairwise different |
| IcsGenerator.ZeroCounts | src/ics-generator.ts:187 | every label, and nothing else, is counted zero |
| IcsGenerator.NumberIncrement | src/ics-generator.ts:201 | `++` adds one to a finite number and leaves NaN and the infinities alone |
| IcsGenerator.Incremented | src/ics-generator.ts:201 | incrementing a name raises only its count; an absent name becomes NaN |
| IcsGenerator.GenerateTideStatistics | src/ics-generator.ts:176-212 | no periods give zero counts and the current time as the range; otherwise the period count, the tally of the names and the first start and last end |
| IcsGenerator.TallyOfLabels | src/ics-generator.ts:200-202 | each label's count is the number of periods with that label |
| IcsGenerator.TallyKeys | src/ics-generator.ts:192-202 | the counts have exactly the five labels and the names as keys |
| IcsGenerator.TallyUnknown | src/ics-generator.ts:201 | a name that is not a label counts as NaN |
| IcsGenerator.LabelCountsSum | src/ics-generator.ts:200-205 | for labelled periods the five counts add up to the number of periods |
| IcsGenerator.StatisticsCountPeriods | src/ics-generator.ts:192-206 | for labelled periods the keys are the five labels, each counts its periods, and the counts sum to `totalPeriods` |
| Shioji.PairEvent | shioji.ts:64-86 | a low then a high is a rising tide, a high then a low a falling tide, with that pair's times and levels; a same-kind pair gives nothing |
| Shioji.TideEvents | shioji.ts:56-90 | no contract of its own; CalculateTideEvents is proved equal to it, and PairEventsAreMixedPairs, EventCountBound and AlternatingExtrema state it |
| Shioji.CalculateTideEvents | shioji.ts:56-90 | the loop's tides are those of the adjacent pairs in order, none for fewer than two extrema |
| Shioji.MixedPairs | shioji.ts:63-87 | the pair indices with differing kinds lie below the bound |
| Shioji.MixedPairsExact | shioji.ts:63-87 | those indices increase and are exactly the pairs of differing kinds |
| Shioji.PairEventsAreMixedPairs | shioji.ts:63-87 | tide k comes from the k-th pair of differing kinds, so tides follow the order of their first extremum |
| Shioji.EventCountBound | shioji.ts:57-87 | at most n - 1 tides for n extrema, none for fewer than two |
| Shioji.AlternatingExtrema | shioji.ts:63-87 | alternating extrema give exactly n - 1 tides, alternating in direction, each ending where the next begins |
| Shioji.GetTideEventDisplayName | shioji.ts:120-122 | 満ち潮 exactly for a rising tide, 引き潮 exactly for a falling one |
| Shioji.DisplayNamesDistinct | shioji.ts:121 | the two display names differ |
| Shioji.ConvertToTidePeriods | shioji.ts:97-113 | one period per tide, in order, with the tide's start and end, and no glyph of its own |
| Shioji.PeriodName | shioji.ts:99-103 | no contract of its own; PeriodNameRoundTrip states it |
| Shioji.PeriodNameRoundTrip | shioji.ts:99-103 | a period name reads back as the tide's direction and its two rounded levels |
| Shioji.ConvertedPeriodsDescribeEvents | shioji.ts:97-113 | each period's name reads back as its tide's direction and rounded levels |
| Shioji.TideCalendarUnfolds | shioji.ts:154-158 | the timed calendar of the tides unfolds to its logical lines |
| Shioji.JapaneseDateRoundTrip | shioji.ts:129-131 | `<year>年<month>月<day>日` reads back as the year, the one-based month and the day |
| Shioji.FormatDateJapanese | shioji.ts:129-131 | no contract of its own; FormatDateJapaneseRoundTrip states it |
| Shioji.FormatDateJapaneseRoundTrip | shioji.ts:129-131 | the formatted date reads back as the local year, month and day |
| TideText.LocalDate | download.ts:165 | NaN in any argument gives an invalid date; otherwise the local time value |
| TideText.ReadingFrom | download.ts:164-167 | an hour or minute of 99 gives a null time and a level of 999 a null level; otherwise the time and level read |
| TideText.TideLevelParser | download.ts:159-168 | hour from units 0-2, minute from 2-4 and level from 4-7, with the 99 and 999 markers |
| TideText.TideGroupRoundTrip | download.ts:159-168 | a group written from an hour, a minute and a level that are not markers reads back as that local time and level |
| TideText.MarkedGroups | download.ts:165-166 | a group with hour or minute 99 has no time; one with level 999 has no level |
| TideText.Chunks | download.ts:221 | every piece of `match(/.{1,n}/g) \|\| []` holds 1 to n units; RunLength and ChunksOfPlain state the rest |
| TideText.RunLength | download.ts:221 | the match of `.{1,n}` is at most n non-terminator units and stops only at a terminator or the bound |
| TideText.ChunksOfPlain | download.ts:221 | text without line terminators splits into n-unit pieces, the last possibly shorter |
| TideText.Kept | download.ts:226-227 | the filter never lengthens the list and keeps only readings with both a time and a level; KeptMembers gives the converse |
| TideText.KeptMembers | download.ts:226-227 | a reading is kept exactly when it is one of the readings and has both a time and a level |
| TideText.DecodeLine | download.ts:221-227 | no contract of its own; FullYear, HourlyLevels and TideGroupsOfLine state it |
| TideText.FullYear | download.ts:222 | the year is the two-digit field plus 2000 |
| TideText.HourlyLevels | download.ts:221 | a full line gives 24 levels, hour h read from units 3h to 3h + 3 |
| TideText.TideGroupsOfLine | download.ts:223-227 | the high waters are the kept readings of the four seven-unit groups at 80, 87, 94 and 101, and the low waters those of the groups at 108, 115, 122 and 129 |
| Ushio.CalendarPeriodOf | ushio.ts:75-84 | no contract of its own; WholeDayDateLines and WholeDayEndIsLastDay state it |
| Ushio.UshioCalendar | ushio.ts:75-84 | no contract of its own; WholeDayEndIsLastDay, EveryChangeEmptyEvents and UshioCalendarLineLengths state it |
| Ushio.CalendarPeriodsOf | ushio.ts:75-84 | one calendar period per tide period, in order |
| Ushio.PeriodDates | src/tide-calculator.ts:96-123 | tide period k starts on the date of the first row of run k and ends on the date of its last row |
| Ushio.WholeDayDateLines | src/ics-generator.ts:75-81 | a whole-day event's DTSTART and DTEND lines carry the DATE values of the period's first and last instant |
| Ushio.EventDateLinesAt | src/ics-generator.ts:75-81 | in a whole-day calendar, logical lines 8 + 6k + 2 and 8 + 6k + 3 are period k's DTSTART and DTEND |
| Ushio.WholeDayEndIsLastDay | ushio.ts:75-84 | event k of the whole-day calendar starts on the date of run k's first row and its DTEND carries the date of the run's last row |
| Ushio.OneDayPeriodIsEmptyEvent | src/ics-generator.ts:79-81 | a period of one day gives DTSTART and DTEND lines with the same DATE value |
| Ushio.EveryChangeEmptyEvents | src/tide-calculator.ts:96-123 | when the class changes every day, every event's DTSTART and DTEND carry that row's date |
| Ushio.PeriodsFourDigitYears | src/tide-calculator.ts:96-123 | periods of a table with four-digit years start and end in four-digit years |
| Ushio.UshioCalendarLineLengths | ushio.ts:84 | with four-digit years the script's calendar has the 22-unit description line `X-WR-CALDESC:undefined` and no physical line over 75 units |
| ChoihyoTable.FirstFree | download.ts:77 | the first unoccupied column at or after the start |
| ChoihyoTable.Place | download.ts:78-82 | a cell fits exactly when its rows stay inside the grid |
| ChoihyoTable.PlaceWrites | download.ts:78-82 | the cell's rowspan × colspan slots hold its label, and every other slot is unchanged |
| ChoihyoTable.PlaceRow | download.ts:76-83 | a placed row keeps the grid's height and leaves the rows above it unchanged; FillRow is proved equal to it |
| ChoihyoTable.PlaceRows | download.ts:74-84 | placing the rows keeps the grid's height |
| ChoihyoTable.HeaderGrid | download.ts:71-84 | the grid has one row per header row; FillHeaderGrid is proved equal to it, and HeaderGridFails gives when it fails |
| ChoihyoTable.FillSlots | download.ts:79-81 | the inner loop writes the label into colspan consecutive slots |
| ChoihyoTable.FillCell | download.ts:78-82 | the nested loops write the cell's rectangle, failing exactly when it runs past the last row |
| ChoihyoTable.FillRow | download.ts:75-84 | the row's cells are placed left to right, each in the first free column |
| ChoihyoTable.FillHeaderGrid | download.ts:71-85 | the fill succeeds exactly when every cell fits, and gives the grid of the header rows |
| ChoihyoTable.HeaderGridFails | download.ts:78-80 | the fill fails exactly when some cell's rowspan reaches past the last header row |
| ChoihyoTable.SingleHeaderRow | download.ts:74-85 | one header row of one-row-high cells becomes each label repeated over its colspan |
| ChoihyoTable.Parts | download.ts:91-97 | the parts are non-empty and no two adjacent parts are equal |
| ChoihyoTable.PartsMembers | download.ts:94 | a label is a part exactly when some row of the column holds it and it is not empty |
| ChoihyoTable.SpannedLabel | download.ts:94 | a label down a whole column is one part |
| ChoihyoTable.Headers | download.ts:88-99 | one name per column of the first grid row |
| ChoihyoTable.FlattenHeaders | download.ts:87-99 | the nested loops give each column's parts joined by `/`; an empty grid has no first row |
| ChoihyoTable.SameWidth | download.ts:105 | every kept row has one cell per column name |
| ChoihyoTable.KeepDataRows | download.ts:103-105 | the loop keeps the rows of the right width, in order |
| ChoihyoTable.SameWidthMembers | download.ts:105 | a row is kept exactly when it is a data row of the right width |
| ChoihyoTable.MarkIsFirst | download.ts:133 | in a matching text the degree mark is the first one |
| ChoihyoTable.ParseDegreeMinute | download.ts:131-140 | no contract of its own; DegreeMinuteMatches and DegreeMinuteRoundTrip state it |
| ChoihyoTable.DegreeMinuteMatches | download.ts:131-141 | the text is read as degrees and minutes exactly when it matches `^(\d+)゜(\d+)'$`, with the base-10 values of the two digit runs; otherwise it is 0 |
| ChoihyoTable.DegreeMinuteRoundTrip | download.ts:133-137 | `<d>゜<m>'` reads back as d degrees and m minutes |
| ChoihyoTable.NumberCell | download.ts:143 | `parseFloat(v) \|\| 0` is never NaN and is what `parseFloat` reads when that is a number |
| ChoihyoTable.NumberCellOfInt | download.ts:143 | an integer cell reads as that integer |
| CsvParser.ParseNumber | src/csv-parser.ts:44-50 | empty text, `-` and text that is not a number give 0; the result is never NaN |
| CsvParser.NumberAt | src/csv-parser.ts:87-108 | a missing column reads as 0 |
| CsvParser.ParseNumberOfInt | src/csv-parser.ts:48 | the text of an integer reads as that integer |
| CsvParser.ParseNumberNotNumeric | src/csv-parser.ts:48-49 | text whose first non-space unit cannot start a number gives 0 |
| CsvParser.DataYear | src/csv-parser.ts:60 | the year read is min(year, 2026) |
| CsvParser.ConstantsOf | src/csv-parser.ts:86-109 | the result carries the station code, and a station name text exactly when column 2 exists |
| CsvParser.FirstMatchIsFirst | src/csv-parser.ts:75-113 | the search finds a matching line with none before it, or reports that no line matches |
| CsvParser.LoadHarmonicConstants | src/csv-parser.ts:55-120 | fewer than two lines give null; otherwise the result of the search through the data lines |
| CsvParser.SearchFindsFirstMatch | src/csv-parser.ts:75-115 | the result is the constants of the first non-blank line, at least as wide as the header, whose column 1 is the code; null exactly when there is none |
| CsvParser.ColumnsReadBack | src/csv-parser.ts:87-108 | columns 7 to 15 are read as the base level and the M2, S2, K1 and O1 amplitude and phase, in that order |
| CsvParser.ShortRowReadsZero | src/csv-parser.ts:87-108 | a too-short row reads every missing constant as 0 |
| CsvParser.CodeOf | src/csv-parser.ts:136-145 | a line contributes at most one code, never empty and never `地点記号` |
| CsvParser.GetAvailableStations | src/csv-parser.ts:125-153 | the loop lists the codes of the lines after the header, in order |
| CsvParser.Stations | src/csv-parser.ts:134-145 | at most one code per line; GetAvailableStations is proved equal to it, and StationsMembers and StationsClean state it |
| CsvParser.StationsAppend | src/csv-parser.ts:135-146 | the codes of two runs of lines are those of the first run followed by those of the second |
| CsvParser.StationsMembers | src/csv-parser.ts:135-146 | a code is listed exactly when some line contributes it |
| CsvParser.StationsClean | src/csv-parser.ts:142 | no listed code is empty or `地点記号` |
| Choi.ParseDate | choi.ts:20-35 | a length other than 8 is an error; a NaN year, month or day is an error; otherwise the local midnight of year 0-4, month 4-6 minus 1 and day 6-8 |
| Choi.MidnightOnItsDay | choi.ts:34 | the parsed date is a local midnight on the day `MakeDay` gives |
| Choi.DateTextRoundTrip | choi.ts:20-35 | a `YYYYMMDD` text reads back as its year, zero-based month and day |
| Choi.MidnightOfDate | choi.ts:34 | outside the years 0 to 99, the midnight lies on the date's day number |
| Choi.DaysDiff | choi.ts:117 | no contract of its own; LongSpanExactly states it |
| Choi.LongSpanExactly | choi.ts:117-120 | the warning is given exactly when the two dates are more than 31 whole days apart |
| Choi.EndOfDay | choi.ts:145-146 | the end time is on the same local day, at 23:59 |
| Choi.EndOfMidnight | choi.ts:145-146 | from a local midnight the end time is 23 hours 59 minutes later |
| Choi.CheckDates | choi.ts:108-120 | a parse error of the start, then of the end, is returned; start after end is an error exactly when both parse; otherwise the span only sets the warning flag, and the end moves to 23:59 |
| Choi.GenerateOutputPath | choi.ts:40-42 | the path starts with `./build/choi/` and ends with `.json` |
| Choi.OutputPathRoundTrip | choi.ts:40-42 | when no argument holds a hyphen, the file name splits back into code, start and end |

## Left out

- I/O is not modelled: `fetch`, cheerio's DOM selection, `Bun.file`, `Bun.write`, `fs` reads and writes, `setTimeout` throttling, `console` output. `saveICSFile` is one of these. The CSV functions take the file text as a parameter.
- `new Date()` is not modelled: the current time that `generateTideStatistics` reads for an empty list is given as the parameters `nowStart` and `nowEnd`.
- `src/harmonic-calculator.ts` is not part of this model. It is floating-point trigonometry over `Intl.DateTimeFormat`.
- `ushio.ts` is modelled only in its calendar call (`Ushio.UshioCalendar`). Its date range from the current time, its statistics display, its file writing and its console output are left out.
- `src/json-parser.ts` is not part of this model.
- The `main` functions of `shioji.ts` and `choi.ts` are left out: argument handling, directory scans, JSON reading, station-name maps and console summaries. So are `generateStationICS`, `showUsage` and `showAvailableStations`. The sort of extrema by time in `generateStationICS` is left out too; `Shioji.CalculateTideEvents` takes the extrema in the order given.
- The float minimum, maximum and average statistics of `choi.ts` are left out, as is `generateTideData`, which belongs to the harmonic calculator.
- `extractStationName` (`JSON.parse` of column 2) is left out: `CsvParser.ConstantsOf` keeps the raw text of column 2.
- In `download.ts`, these are left out:
  - the blank-line filter (212);
  - the year and station mismatch warning (229-231);
  - the per-station accumulation and sorting of results (233-278);
  - the cell text normalisation and link URLs of data rows (106-121);
  - the `headerMap` dispatch from column names to cell kinds. The `string` and `linkText` kinds copy the value as is.
- The `process.env.TZ` assignment and time zones in general are left out. Local time is UTC+9 throughout. For Asia/Tokyo this is wrong in two ranges: the daylight saving at UTC+10 in the summers of 1948 to 1951, and the local mean time of UTC+9:18:59 before 1888. The lemmas stated for the years 1000 to 9999 (such as `Choi.DateTextRoundTrip` and `IcsGenerator.FormatICSDateFields`) hold for the model's fixed offset, not for those dates in the real zone.
- Time values outside the ±8.64e15 ms range that `Date` clips to NaN are not modelled. Integers are unbounded.
- `TidePeriod.startTime` and `TidePeriod.endTime` are not modelled: the calendar writer never reads them.
- The default calendar name is the constant `IcsGenerator.DEFAULT_CALENDAR_NAME`. `IcsGenerator.GenerateICSContent` always takes the name explicitly.
- Moon ages and elongations are exact reals, not IEEE doubles, so rounding in `%`, `/` and `* 360` is not modelled.
- ChoihyoTable.FillHeaderGrid: `colspan` and `rowspan` are positive integers. A span attribute that parses to NaN, zero or a negative number is not modelled. A cell that runs past the last header row, which makes `download.ts` throw, is reported as `ok == false`.
- ChoihyoTable.FlattenHeaders: an empty grid, which throws on `table[0]`, is reported as `ok == false`.
- ChoihyoTable.NumberCell: `-0` is not distinguished from `0`.
- TideText.TideGroupRoundTrip: covers levels from -99 to 998 written right-aligned in three units, not every text the field can hold.
- IcsGenerator.FormatICSDateFields: stated for four-digit years only. Other years write a different number of digits.
- IcsGenerator.FormatICSDateTimeFields: stated for four-digit years only.
- IcsGenerator.PhysicalLineLengths: stated for instants whose local and UTC years have four digits, which bounds the UID and date lines.
- IcsGenerator.ShortDescriptionShortLines: stated for four-digit years, as above.
- IcsGenerator.UidLength: stated for starts whose local year has four digits.
- IcsGenerator.DateLineLength: stated for four-digit years.
- IcsGenerator.EventPhysicalShort: stated for four-digit years.
- Ushio.UshioCalendarLineLengths: stated for tables whose dates have four-digit years.
- IcsGenerator.UnfoldContent: requires the calendar name, the description and each period's name and glyph to have no carriage return at all, which is stronger than having no CRLF.
- Choi.DateTextRoundTrip: stated for the years 1000 to 9999, the ones written in four digits.
- Choi.MidnightOfDate: excludes the years 0 to 99, which `new Date` maps to 1900 to 1999.
- MoonPhase.PhaseRowsAreConsecutiveDays: excludes local years 0 to 99, for the same reason.
