/**
 * The iCalendar (RFC 5545) writer: DATE and UTC DATE-TIME values, content
 * line folding, one VEVENT per period inside a VCALENDAR, date-derived
 * UIDs, and per-class statistics.
 */
module IcsGenerator {
  import opened Wrappers
  import opened JsText
  import opened JsNumber
  import opened Civil
  import TideCalculator

  /** A period as the calendar writer receives it: a label, its first and last instant, and an optional glyph. */
  datatype CalendarPeriod = CalendarPeriod(tideName: JsString, startDate: int, endDate: int, emoji: Option<JsString>)

  // ---------------------------------------------------------------------
  // Date and date-time values

  /** `String(n).padStart(2, '0')`. */
  function Pad2(n: int): (s: JsString)
    ensures 0 <= n < 100 ==> |s| == 2
  {
    if n >= 0 then NatToStringLength(n); PadStart2(IntToString(n))
    else PadStart2(IntToString(n))
  }

  /** Two padded digits are decimal digits. */
  lemma Pad2Digits(n: nat)
    requires n < 100
    ensures AllDigits(Pad2(n), 10)
  {
    var d := NatToString(n);
    NatToStringLength(n);
    var p := Pad2(n);
    if n < 10 {
      assert p == ['0' as CodeUnit, d[0]];
      assert IsDecimalDigit(d[0]);
    } else {
      assert p == d;
      assert IsDecimalDigit(d[0]) && IsDecimalDigit(d[1]);
    }
  }

  /** Two padded digits read back as the number they came from. */
  lemma Pad2Parses(n: nat)
    requires n < 100
    ensures ParseInt(Pad2(n), 10) == Some(n)
  {
    ParsePadded(n, 10);
  }

  /** A year followed by two two-digit fields. */
  function DateDigits(year: int, month: int, day: int): JsString {
    IntToString(year) + Pad2(month) + Pad2(day)
  }

  /** Where the pieces of `y + a + b` sit, for a four-unit `y` and two-unit `a` and `b`. */
  lemma DatePieces(y: JsString, a: JsString, b: JsString)
    requires |y| == 4 && |a| == 2 && |b| == 2
    ensures var s := y + a + b; |s| == 8 && s[0..4] == y && s[4..6] == a && s[6..8] == b
  {}

  /** Where the pieces of `d + "T" + a + b + c + "Z"` sit, for an eight-unit `d` and two-unit `a`, `b` and `c`. */
  lemma DateTimePieces(d: JsString, a: JsString, b: JsString, c: JsString)
    requires |d| == 8 && |a| == 2 && |b| == 2 && |c| == 2
    ensures var s := d + ['T' as CodeUnit] + a + b + c + ['Z' as CodeUnit];
      |s| == 16 && s[8] == 'T' as CodeUnit && s[15] == 'Z' as CodeUnit &&
      s[0..4] == d[0..4] && s[4..6] == d[4..6] && s[6..8] == d[6..8] &&
      s[9..11] == a && s[11..13] == b && s[13..15] == c
  {}

  /** The eight-unit date string splits back into its three numbers. */
  lemma DateDigitsParse(year: int, month: nat, day: nat)
    requires 1000 <= year <= 9999 && month < 100 && day < 100
    ensures var s := DateDigits(year, month, day);
      |s| == 8 &&
      ParseInt(s[0..4], 10) == Some(year) &&
      ParseInt(s[4..6], 10) == Some(month) &&
      ParseInt(s[6..8], 10) == Some(day)
  {
    var ys := NatToString(year);
    NatToStringLength(year);
    ParseNatToString(year, 10);
    Pad2Parses(month);
    Pad2Parses(day);
    DatePieces(ys, Pad2(month), Pad2(day));
  }

  /** The eight-unit date string is all decimal digits. */
  lemma DateDigitsAreDigits(year: int, month: nat, day: nat)
    requires 1000 <= year <= 9999 && month < 100 && day < 100
    ensures AllDigits(DateDigits(year, month, day), 10)
  {
    var ys := NatToString(year);
    NatToStringLength(year);
    Pad2Digits(month);
    Pad2Digits(day);
    var pm, pd := Pad2(month), Pad2(day);
    var s := ys + pm + pd;
    assert AllDigits(ys, 10);
    forall i | 0 <= i < 8 ensures DigitValue(s[i]) < 10 {
      if i < 4 { assert s[i] == ys[i]; }
      else if i < 6 { assert s[i] == pm[i - 4]; }
      else { assert s[i] == pd[i - 6]; }
    }
  }

  /** The DATE value of a set of date fields. */
  function DateText(f: Fields): JsString {
    DateDigits(f.year, f.monthIndex + 1, f.day)
  }

  /** The DATE-TIME value of a set of date and time fields. */
  function DateTimeText(f: Fields): JsString {
    DateDigits(f.year, f.monthIndex + 1, f.day) + ['T' as CodeUnit]
      + Pad2(f.hours) + Pad2(f.minutes) + Pad2(f.seconds) + ['Z' as CodeUnit]
  }

  /** A DATE-TIME value splits back into the fields it was written from. */
  lemma DateTimeTextParse(f: Fields)
    requires 1000 <= f.year <= 9999 && 0 <= f.monthIndex <= 11 && 1 <= f.day <= 31
    requires 0 <= f.hours <= 23 && 0 <= f.minutes <= 59 && 0 <= f.seconds <= 59
    ensures var s := DateTimeText(f);
      |s| == 16 && s[8] == 'T' as CodeUnit && s[15] == 'Z' as CodeUnit &&
      ParseInt(s[0..4], 10) == Some(f.year) &&
      ParseInt(s[4..6], 10) == Some(f.monthIndex + 1) &&
      ParseInt(s[6..8], 10) == Some(f.day) &&
      ParseInt(s[9..11], 10) == Some(f.hours) &&
      ParseInt(s[11..13], 10) == Some(f.minutes) &&
      ParseInt(s[13..15], 10) == Some(f.seconds)
  {
    var d := DateDigits(f.year, f.monthIndex + 1, f.day);
    DateDigitsParse(f.year, f.monthIndex + 1, f.day);
    var ph, pm, ps := Pad2(f.hours), Pad2(f.minutes), Pad2(f.seconds);
    Pad2Parses(f.hours);
    Pad2Parses(f.minutes);
    Pad2Parses(f.seconds);
    DateTimePieces(d, ph, pm, ps);
  }

  /** `formatICSDate`: the local calendar date as year, two-digit month and two-digit day. */
  function FormatICSDate(t: int): JsString {
    DateText(LocalFields(t))
  }

  /** For four-digit years the DATE value is `YYYYMMDD`: its three fields read back as the local year, month and day. */
  lemma FormatICSDateFields(t: int)
    requires 1000 <= LocalFields(t).year <= 9999
    ensures var s, f := FormatICSDate(t), LocalFields(t);
      |s| == 8 && AllDigits(s, 10) &&
      ParseInt(s[0..4], 10) == Some(f.year) &&
      ParseInt(s[4..6], 10) == Some(f.monthIndex + 1) &&
      ParseInt(s[6..8], 10) == Some(f.day)
  {
    var f := LocalFields(t);
    DateDigitsParse(f.year, f.monthIndex + 1, f.day);
    DateDigitsAreDigits(f.year, f.monthIndex + 1, f.day);
  }

  /** `formatICSDateTime`: the UTC date and time as `YYYYMMDDTHHMMSSZ`. */
  function FormatICSDateTime(t: int): JsString {
    DateTimeText(UtcFields(t))
  }

  /** For four-digit years the DATE-TIME value reads back as the UTC fields, with `T` at index 8 and `Z` at the end. */
  lemma FormatICSDateTimeFields(t: int)
    requires 1000 <= UtcFields(t).year <= 9999
    ensures var s, f := FormatICSDateTime(t), UtcFields(t);
      |s| == 16 && s[8] == 'T' as CodeUnit && s[15] == 'Z' as CodeUnit &&
      ParseInt(s[0..4], 10) == Some(f.year) &&
      ParseInt(s[4..6], 10) == Some(f.monthIndex + 1) &&
      ParseInt(s[6..8], 10) == Some(f.day) &&
      ParseInt(s[9..11], 10) == Some(f.hours) &&
      ParseInt(s[11..13], 10) == Some(f.minutes) &&
      ParseInt(s[13..15], 10) == Some(f.seconds)
  {
    DateTimeTextParse(UtcFields(t));
  }

  // ---------------------------------------------------------------------
  // Line folding (section 3.1 of RFC 5545), counted in UTF-16 code units

  /** The lines after the first: each a space and the next 74 units of `rest`, the last one possibly shorter. */
  function ContinuationLines(rest: JsString): seq<JsString>
    decreases |rest|
  {
    if rest == [] then []
    else [[SP] + Slice(rest, 0, 74)] + ContinuationLines(SliceFrom(rest, 74))
  }

  /** The physical lines of folded text: the text itself if it has at most 75 units, else its first 75 units and continuation lines. */
  function FoldLines(text: JsString): seq<JsString> {
    if |text| <= 75 then [text] else [text[..75]] + ContinuationLines(text[75..])
  }

  /** The folded text: its physical lines joined by CRLF. */
  function Folded(text: JsString): JsString {
    Join(FoldLines(text), CRLF)
  }

  /**
   * `foldICSText`: take the first 75 units as the first line, then while
   * text remains, cut 74 more units and push them behind a space; join the
   * lines with CRLF.
   */
  method FoldICSText(text: JsString) returns (folded: JsString)
    ensures folded == Folded(text)
  {
    if |text| <= 75 {
      return text;
    }
    var lines: seq<JsString> := [];
    var currentLine := Slice(text, 0, 75);
    var remaining := SliceFrom(text, 75);
    FoldStart(text);
    lines := lines + [currentLine];
    while |remaining| > 0
      invariant lines + ContinuationLines(remaining) == FoldLines(text)
      decreases |remaining|
    {
      var nextChunk := Slice(remaining, 0, 74);
      ContinuationStep(lines, remaining);
      remaining := SliceFrom(remaining, 74);
      lines := lines + [[SP] + nextChunk];
    }
    assert ContinuationLines(remaining) == [];
    assert lines + [] == lines;
    folded := Join(lines, CRLF);
  }

  /** Longer text folds to its first 75 units, then the continuation lines of the rest. */
  lemma FoldStart(text: JsString)
    requires |text| > 75
    ensures [] + [Slice(text, 0, 75)] + ContinuationLines(SliceFrom(text, 75)) == FoldLines(text)
  {
    assert [] + [Slice(text, 0, 75)] == [text[..75]];
  }

  /** Cutting one more chunk moves it from the continuation lines of the rest to the lines already made. */
  lemma ContinuationStep(lines: seq<JsString>, remaining: JsString)
    requires remaining != []
    ensures lines + ContinuationLines(remaining)
      == (lines + [[SP] + Slice(remaining, 0, 74)]) + ContinuationLines(SliceFrom(remaining, 74))
  {
    var x, r := [SP] + Slice(remaining, 0, 74), ContinuationLines(SliceFrom(remaining, 74));
    assert ContinuationLines(remaining) == [x] + r;
    assert lines + ([x] + r) == (lines + [x]) + r;
  }

  /** Every continuation line is a space followed by 1 to 74 units of the text. */
  lemma {:induction false} ContinuationShape(rest: JsString)
    ensures forall k | 0 <= k < |ContinuationLines(rest)| ::
      var line := ContinuationLines(rest)[k]; 2 <= |line| <= 75 && line[0] == SP
    ensures |ContinuationLines(rest)| == 0 <==> rest == []
    decreases |rest|
  {
    if rest != [] {
      ContinuationShape(SliceFrom(rest, 74));
      var lines := ContinuationLines(rest);
      assert lines == [[SP] + Slice(rest, 0, 74)] + ContinuationLines(SliceFrom(rest, 74));
      forall k | 0 <= k < |lines| ensures 2 <= |lines[k]| <= 75 && lines[k][0] == SP {
        if k > 0 {
          assert lines[k] == ContinuationLines(SliceFrom(rest, 74))[k - 1];
        }
      }
    }
  }

  /**
   * Text of at most 75 units is one line, unchanged. Longer text has a first
   * line of exactly 75 units and continuation lines of a space plus 1 to 74
   * units, so no physical line exceeds 75 units.
   */
  lemma FoldLinesShape(text: JsString)
    ensures |text| <= 75 ==> FoldLines(text) == [text] && Folded(text) == text
    ensures |text| > 75 ==>
      |FoldLines(text)| >= 2 && FoldLines(text)[0] == text[..75] &&
      forall k | 1 <= k < |FoldLines(text)| ::
        var line := FoldLines(text)[k]; 2 <= |line| <= 75 && line[0] == SP
    ensures forall k | 0 <= k < |FoldLines(text)| :: |FoldLines(text)[k]| <= 75
  {
    if |text| > 75 {
      ContinuationShape(text[75..]);
      var lines := FoldLines(text);
      forall k | 1 <= k < |lines| ensures 2 <= |lines[k]| <= 75 && lines[k][0] == SP {
        assert lines[k] == ContinuationLines(text[75..])[k - 1];
      }
    }
  }

  /** No carriage return in `s` is followed by a line feed. */
  predicate NoCrLf(s: JsString) {
    forall k | 0 <= k < |s| - 1 :: !(s[k] == CR && s[k + 1] == LF)
  }

  /** Unfolding: delete every CR LF SP sequence, scanning from the left. */
  function Unfold(s: JsString): JsString
    decreases |s|
  {
    if |s| >= 3 && s[0] == CR && s[1] == LF && s[2] == SP then Unfold(s[3..])
    else if s == [] then []
    else [s[0]] + Unfold(s[1..])
  }

  /** Unfolding passes over a prefix with no CRLF, provided the prefix does not end in a CR that the rest continues with LF. */
  lemma {:induction false} UnfoldPrefix(a: JsString, b: JsString)
    requires NoCrLf(a)
    requires a != [] && a[|a| - 1] == CR ==> b == [] || b[0] != LF
    ensures Unfold(a + b) == a + Unfold(b)
    decreases |a|
  {
    if a != [] {
      PrefixStartsNoBreak(a, b);
      UnfoldStep(a + b);
      ConcatTail(a, b);
      NoCrLfTail(a);
      UnfoldPrefix(a[1..], b);
      ConsConcat(a, Unfold(b));
    } else {
      assert a + b == b;
    }
  }

  /** Text that does not start with CR LF SP unfolds to its first unit, then the unfolded rest. */
  lemma UnfoldStep(s: JsString)
    requires s != [] && !(|s| >= 3 && s[0] == CR && s[1] == LF && s[2] == SP)
    ensures Unfold(s) == [s[0]] + Unfold(s[1..])
  {}

  /** A non-empty prefix with no CRLF, not ending in a CR that the rest continues with LF, does not start a CRLF. */
  lemma PrefixStartsNoBreak(a: JsString, b: JsString)
    requires NoCrLf(a) && a != []
    requires a[|a| - 1] == CR ==> b == [] || b[0] != LF
    ensures var s := a + b; !(|s| >= 2 && s[0] == CR && s[1] == LF)
  {
    var s := a + b;
    if |a| >= 2 {
      assert s[0] == a[0] && s[1] == a[1];
    } else if b != [] {
      assert s[0] == a[0] && s[1] == b[0];
    }
  }

  lemma ConcatTail(a: JsString, b: JsString)
    requires a != []
    ensures (a + b)[1..] == a[1..] + b
  {}

  lemma ConsConcat(a: JsString, u: JsString)
    requires a != []
    ensures [a[0]] + (a[1..] + u) == a + u
  {
    assert [a[0]] + a[1..] == a;
  }

  /** Dropping the first unit keeps a text free of CRLF. */
  lemma NoCrLfTail(a: JsString)
    requires NoCrLf(a) && a != []
    ensures NoCrLf(a[1..])
  {
    NoCrLfSlice(a, 1, |a|);
    assert a[1..|a|] == a[1..];
  }

  lemma NoCrLfSlice(s: JsString, i: nat, j: nat)
    requires NoCrLf(s) && i <= j <= |s|
    ensures NoCrLf(s[i..j])
  {
    forall k | 0 <= k < j - i - 1 ensures !(s[i..j][k] == CR && s[i..j][k + 1] == LF) {
      assert s[i..j][k] == s[i + k] && s[i..j][k + 1] == s[i + k + 1];
    }
  }

  /** A line break followed by a space is deleted. */
  lemma UnfoldBreak(x: JsString)
    ensures Unfold(CRLF + [SP] + x) == Unfold(x)
  {
    var s := CRLF + [SP] + x;
    assert s[0] == CR && s[1] == LF && s[2] == SP;
    assert s[3..] == x;
  }

  /** A continuation line unfolds to its chunk, and unfolding carries on into what follows it. */
  lemma UnfoldContinuationLine(chunk: JsString, tail: JsString)
    requires NoCrLf(chunk)
    requires tail == [] || tail[0] != LF
    ensures Unfold(CRLF + [SP] + chunk + tail) == chunk + Unfold(tail)
  {
    assert CRLF + [SP] + chunk + tail == CRLF + [SP] + (chunk + tail);
    UnfoldBreak(chunk + tail);
    UnfoldPrefix(chunk, tail);
  }

  /** What follows the first continuation line of `rest`, up to and including `t`. */
  function AfterFirstContinuation(rest: JsString, t: JsString): JsString {
    var next := SliceFrom(rest, 74);
    if next == [] then t else CRLF + Join(ContinuationLines(next), CRLF) + t
  }

  /** The continuation lines of `rest` are its first chunk behind a space, then the rest. */
  lemma ContinuationsCons(rest: JsString, t: JsString)
    requires rest != []
    ensures CRLF + Join(ContinuationLines(rest), CRLF) + t
      == CRLF + [SP] + Slice(rest, 0, 74) + AfterFirstContinuation(rest, t)
  {
    var chunk := Slice(rest, 0, 74);
    var next := SliceFrom(rest, 74);
    var line := [SP] + chunk;
    FirstContinuation(rest);
    if next == [] {
      assert [line] + ContinuationLines(next) == [line];
      RegroupLastLine(CRLF, line, chunk, t);
    } else {
      FirstContinuation(next);
      JoinCons(line, ContinuationLines(next), CRLF);
      RegroupNextLine(CRLF, line, chunk, Join(ContinuationLines(next), CRLF), t);
    }
  }

  /** The first continuation line of `rest` is a space and its first 74 units. */
  lemma FirstContinuation(rest: JsString)
    requires rest != []
    ensures ContinuationLines(rest) == [[SP] + Slice(rest, 0, 74)] + ContinuationLines(SliceFrom(rest, 74))
  {}

  lemma RegroupLastLine(c: JsString, line: JsString, chunk: JsString, t: JsString)
    requires line == [SP] + chunk
    ensures c + line + t == c + [SP] + chunk + t
  {}

  lemma RegroupNextLine(c: JsString, line: JsString, chunk: JsString, j: JsString, t: JsString)
    requires line == [SP] + chunk
    ensures c + (line + c + j) + t == c + [SP] + chunk + (c + j + t)
  {}

  lemma Associate(a: JsString, b: JsString, c: JsString)
    ensures a + b + c == a + (b + c)
  {}

  /** Behind a CRLF, the continuation lines unfold to the text they came from, and unfolding carries on into what follows. */
  lemma {:induction false} UnfoldContinuations(rest: JsString, t: JsString)
    requires NoCrLf(rest) && rest != []
    requires t == [] || t[0] != LF
    ensures Unfold(CRLF + Join(ContinuationLines(rest), CRLF) + t) == rest + Unfold(t)
    decreases |rest|
  {
    var chunk := Slice(rest, 0, 74);
    var next := SliceFrom(rest, 74);
    var tail := AfterFirstContinuation(rest, t);
    SplitChunk(rest);
    if next != [] {
      UnfoldContinuations(next, t);
      assert tail[0] == CR;
    }
    ContinuationsCons(rest, t);
    UnfoldContinuationLine(chunk, tail);
    ChunkThenRest(chunk, next, rest, Unfold(t));
  }

  /** The first 74 units and what follows them make up `rest`, and neither has a CRLF when `rest` has none. */
  lemma SplitChunk(rest: JsString)
    requires NoCrLf(rest)
    ensures rest == Slice(rest, 0, 74) + SliceFrom(rest, 74)
    ensures NoCrLf(Slice(rest, 0, 74)) && NoCrLf(SliceFrom(rest, 74))
  {
    if |rest| > 74 {
      NoCrLfSlice(rest, 0, 74);
      NoCrLfSlice(rest, 74, |rest|);
      assert rest[74..|rest|] == rest[74..];
    } else {
      NoCrLfSlice(rest, 0, |rest|);
      assert rest[0..|rest|] == rest;
    }
  }

  lemma ChunkThenRest(chunk: JsString, next: JsString, rest: JsString, u: JsString)
    requires rest == chunk + next
    ensures chunk + (next + u) == rest + u
  {}

  /** A first line of 75 units, then continuation lines: both unfold, and unfolding carries on into what follows. */
  lemma UnfoldLongLine(head: JsString, rest: JsString, t: JsString)
    requires NoCrLf(head) && NoCrLf(rest) && rest != []
    requires t == [] || t[0] != LF
    ensures Unfold(head + (CRLF + Join(ContinuationLines(rest), CRLF) + t)) == head + rest + Unfold(t)
  {
    var b := CRLF + Join(ContinuationLines(rest), CRLF) + t;
    assert b[0] == CR;
    UnfoldPrefix(head, b);
    UnfoldContinuations(rest, t);
    Associate(head, rest, Unfold(t));
  }

  /** Unfolding folded text gives back the text and carries on into what follows, when the text has no CRLF of its own. */
  lemma UnfoldFoldedThen(text: JsString, t: JsString)
    requires NoCrLf(text)
    requires t == [] || t[0] != LF
    ensures Unfold(Folded(text) + t) == text + Unfold(t)
  {
    if |text| <= 75 {
      assert Folded(text) == text;
      UnfoldPrefix(text, t);
    } else {
      var head, rest := text[..75], text[75..];
      FoldedLong(text, t);
      NoCrLfSlice(text, 0, 75);
      NoCrLfSlice(text, 75, |text|);
      assert text[0..75] == head && text[75..|text|] == rest;
      UnfoldLongLine(head, rest, t);
      HeadRest(text, 75);
    }
  }

  /** Folded text longer than a line is its first line, then the continuation lines behind a CRLF. */
  lemma FoldedLong(text: JsString, t: JsString)
    requires |text| > 75
    ensures Folded(text) + t == text[..75] + (CRLF + Join(ContinuationLines(text[75..]), CRLF) + t)
  {
    var head, rest := text[..75], text[75..];
    FirstContinuation(rest);
    JoinCons(head, ContinuationLines(rest), CRLF);
    Associate(head + CRLF, Join(ContinuationLines(rest), CRLF), t);
    Associate(head, CRLF, Join(ContinuationLines(rest), CRLF) + t);
    Associate(CRLF, Join(ContinuationLines(rest), CRLF), t);
  }

  lemma HeadRest(text: JsString, n: nat)
    requires n <= |text|
    ensures text[..n] + text[n..] == text
  {}


  /** Unfolding folded text gives back the text, when the text has no CRLF of its own. */
  lemma UnfoldFolded(text: JsString)
    requires NoCrLf(text)
    ensures Unfold(Folded(text)) == text
  {
    UnfoldFoldedThen(text, []);
    assert Folded(text) + [] == Folded(text);
    assert text + [] == text;
  }

  /** Lines that unfolding reads back unchanged: no CRLF inside, and not starting with a space. */
  predicate LogicalLine(x: JsString) {
    NoCrLf(x) && (x == [] || x[0] != SP)
  }

  /** Each physical line is its logical line, written as it is or folded. */
  predicate FoldsTo(phys: seq<JsString>, logical: seq<JsString>) {
    |phys| == |logical| &&
    forall i | 0 <= i < |phys| :: LogicalLine(logical[i]) && (phys[i] == logical[i] || phys[i] == Folded(logical[i]))
  }

  /** Folded text begins where the text does. */
  lemma FoldedHead(x: JsString)
    requires x != []
    ensures Folded(x) != [] && Folded(x)[0] == x[0]
  {
    if |x| > 75 {
      ContinuationShape(x[75..]);
      JoinCons(x[..75], ContinuationLines(x[75..]), CRLF);
    }
  }

  /** A line break not followed by a space survives unfolding. */
  lemma UnfoldKeepsBreak(b: JsString)
    requires b == [] || b[0] != SP
    ensures Unfold(CRLF + b) == CRLF + Unfold(b)
  {
    var s := CRLF + b;
    assert s[1..] == [LF] + b;
    assert ([LF] + b)[1..] == b;
  }

  /** Joined physical lines are empty or begin with the first unit of a logical line. */
  lemma JoinHead(phys: seq<JsString>, logical: seq<JsString>)
    requires FoldsTo(phys, logical)
    ensures Join(phys, CRLF) == [] || Join(phys, CRLF)[0] != SP
  {
    if |phys| > 0 {
      if logical[0] != [] {
        if phys[0] == Folded(logical[0]) { FoldedHead(logical[0]); }
        if |phys| > 1 { JoinCons(phys[0], phys[1..], CRLF); }
      } else if |phys| > 1 {
        JoinCons(phys[0], phys[1..], CRLF);
      }
    }
  }

  /** One physical line unfolds to its logical line, and unfolding carries on into what follows. */
  lemma UnfoldOneLine(p: JsString, x: JsString, t: JsString)
    requires LogicalLine(x) && (p == x || p == Folded(x))
    requires t == [] || t[0] != LF
    ensures Unfold(p + t) == x + Unfold(t)
  {
    if p == x {
      UnfoldPrefix(x, t);
    } else {
      UnfoldFoldedThen(x, t);
    }
  }

  /** Unfolding a CRLF-joined list of physical lines gives the CRLF-joined logical lines. */
  lemma {:induction false} UnfoldLines(phys: seq<JsString>, logical: seq<JsString>)
    requires FoldsTo(phys, logical)
    ensures Unfold(Join(phys, CRLF)) == Join(logical, CRLF)
    decreases |phys|
  {
    if |phys| == 1 {
      UnfoldOneLine(phys[0], logical[0], []);
      assert phys[0] + [] == phys[0];
      assert logical[0] + [] == logical[0];
    } else if |phys| > 1 {
      var P, L := phys[1..], logical[1..];
      assert FoldsTo(P, L) by {
        forall i | 0 <= i < |P| ensures LogicalLine(L[i]) && (P[i] == L[i] || P[i] == Folded(L[i])) {
          assert P[i] == phys[i + 1] && L[i] == logical[i + 1];
        }
      }
      JoinCons(phys[0], P, CRLF);
      JoinCons(logical[0], L, CRLF);
      assert phys == [phys[0]] + P && logical == [logical[0]] + L;
      var j := Join(P, CRLF);
      UnfoldLines(P, L);
      JoinHead(P, L);
      UnfoldKeepsBreak(j);
      UnfoldOneLine(phys[0], logical[0], CRLF + j);
      Associate(phys[0], CRLF, j);
      Associate(logical[0], CRLF, Join(L, CRLF));
    }
  }

  // ---------------------------------------------------------------------
  // Events

  /** The event title: the glyph, a space and the name when the glyph is present and non-empty, else the name alone. */
  function Summary(p: CalendarPeriod): JsString {
    match p.emoji
    case Some(e) => if e != [] then e + [SP] + p.tideName else p.tideName
    case None => p.tideName
  }

  /** The title puts the glyph before the name exactly when the glyph is a non-empty string. */
  lemma SummaryCases(p: CalendarPeriod)
    ensures p.emoji.Some? && p.emoji.value != [] ==> Summary(p) == p.emoji.value + [SP] + p.tideName
    ensures !(p.emoji.Some? && p.emoji.value != []) ==> Summary(p) == p.tideName
    ensures |Summary(p)| >= |p.tideName|
  {}

  /** `Array#filter(Boolean)` on strings: drop the empty ones. */
  function FilterNonEmpty(lines: seq<JsString>): (r: seq<JsString>)
    ensures |r| <= |lines|
    ensures forall k | 0 <= k < |r| :: r[k] != []
  {
    if lines == [] then []
    else if lines[0] == [] then FilterNonEmpty(lines[1..])
    else [lines[0]] + FilterNonEmpty(lines[1..])
  }

  /** Filtering keeps a list of non-empty lines as it is. */
  lemma {:induction false} FilterKeepsNonEmpty(lines: seq<JsString>)
    requires forall k | 0 <= k < |lines| :: lines[k] != []
    ensures FilterNonEmpty(lines) == lines
  {
    if lines != [] {
      FilterKeepsNonEmpty(lines[1..]);
      assert lines == [lines[0]] + lines[1..];
    }
  }

  const BEGIN_VEVENT: JsString := Str("BEGIN:VEVENT")
  const END_VEVENT: JsString := Str("END:VEVENT")
  const UID_PREFIX: JsString := Str("UID:")
  const DTSTART_DATE: JsString := Str("DTSTART;VALUE=DATE:")
  const DTSTART_UTC: JsString := Str("DTSTART:")
  const DTEND_DATE: JsString := Str("DTEND;VALUE=DATE:")
  const DTEND_UTC: JsString := Str("DTEND:")
  const SUMMARY_PREFIX: JsString := Str("SUMMARY:")

  /** A DTSTART or DTEND line: a DATE value after `datePrefix` for whole-day events, a UTC DATE-TIME value after `utcPrefix` otherwise. */
  function DateLine(datePrefix: JsString, utcPrefix: JsString, t: int, wholeDay: bool): (r: JsString)
    ensures wholeDay ==> |r| >= |datePrefix| && r[..|datePrefix|] == datePrefix
    ensures !wholeDay ==> |r| >= |utcPrefix| && r[..|utcPrefix|] == utcPrefix
  {
    if wholeDay then datePrefix + FormatICSDate(t) else utcPrefix + FormatICSDateTime(t)
  }

  /** The six logical lines of an event, the summary not yet folded. */
  function EventFields(p: CalendarPeriod, uid: JsString, wholeDay: bool): (r: seq<JsString>)
    ensures |r| == 6
  {
    [BEGIN_VEVENT, UID_PREFIX + uid,
     DateLine(DTSTART_DATE, DTSTART_UTC, p.startDate, wholeDay),
     DateLine(DTEND_DATE, DTEND_UTC, p.endDate, wholeDay),
     SUMMARY_PREFIX + Summary(p), END_VEVENT]
  }

  /** The lines of an event as written: the summary folded. */
  function EventLines(p: CalendarPeriod, uid: JsString, wholeDay: bool): (r: seq<JsString>)
    ensures |r| == 6
  {
    var f := EventFields(p, uid, wholeDay);
    f[4 := Folded(f[4])]
  }

  /** `generateICSEvent`: the event's lines, filtered of empty ones and joined by CRLF. */
  function GenerateICSEvent(p: CalendarPeriod, uid: JsString, wholeDay: bool): JsString {
    Join(FilterNonEmpty(EventLines(p, uid, wholeDay)), CRLF)
  }

  /** The six logical lines of an event are non-empty. */
  lemma EventFieldsNonEmpty(p: CalendarPeriod, uid: JsString, wholeDay: bool)
    ensures var f := EventFields(p, uid, wholeDay);
      |f[0]| > 0 && |f[1]| > 0 && |f[2]| > 0 && |f[3]| > 0 && |f[4]| > 0 && |f[5]| > 0
  {
    var f := EventFields(p, uid, wholeDay);
    assert |f[0]| == 12 && |f[5]| == 10;
    assert |f[1]| >= 4 && |f[4]| >= 8;
    assert |f[2]| >= 8 && |f[3]| >= 6;
  }

  /** Filtering a list of non-empty lines, one of them then folded, keeps all six. */
  lemma FilterFoldedSix(f: seq<JsString>)
    requires |f| == 6
    requires |f[0]| > 0 && |f[1]| > 0 && |f[2]| > 0 && |f[3]| > 0 && |f[4]| > 0 && |f[5]| > 0
    ensures FilterNonEmpty(f[4 := Folded(f[4])]) == f[4 := Folded(f[4])]
  {
    FoldedHead(f[4]);
    FilterKeepsNonEmpty(f[4 := Folded(f[4])]);
  }

  /**
   * Every line of an event is non-empty, so the filter removes nothing and
   * the event is exactly its six lines joined by CRLF, from BEGIN:VEVENT to
   * END:VEVENT.
   */
  lemma EventIsSixLines(p: CalendarPeriod, uid: JsString, wholeDay: bool)
    ensures var lines := EventLines(p, uid, wholeDay);
      GenerateICSEvent(p, uid, wholeDay) == Join(lines, CRLF) &&
      lines[0] == BEGIN_VEVENT && lines[5] == END_VEVENT &&
      forall k | 0 <= k < 6 :: lines[k] != []
  {
    EventFieldsNonEmpty(p, uid, wholeDay);
    var f := EventFields(p, uid, wholeDay);
    FilterFoldedSix(f);
    FoldedHead(f[4]);
  }

  // ---------------------------------------------------------------------
  // UIDs

  const NAN_TEXT: JsString := Str("NaN")

  /**
   * `encodeUniqueId`: read year, month and day from the slices 0-4, 4-6 and
   * 6-8, take the UTC midnight of that date, and write its day number since
   * 1970-01-01 in base 36. A slice that does not parse makes the date NaN,
   * written "NaN".
   */
  function EncodeUniqueId(yyyymmdd: JsString): JsString {
    EncodeDate(ParseInt(Slice(yyyymmdd, 0, 4), 10), ParseInt(Slice(yyyymmdd, 4, 6), 10), ParseInt(Slice(yyyymmdd, 6, 8), 10))
  }

  /** The base-36 day number of the UTC midnight of a parsed date, "NaN" when a part is NaN. */
  function EncodeDate(year: Option<int>, month: Option<int>, day: Option<int>): JsString {
    if year.None? || month.None? || day.None? then NAN_TEXT
    else
      var epochMs := UtcTimeValue(year.value, month.value - 1, day.value, 0, 0, 0);
      IntToRadix(epochMs / MS_PER_DAY, 36)
  }

  /** The day number a UID stands for: its base-36 digits, after an optional minus sign. */
  function DecodeUniqueId(uid: JsString): Option<int> {
    if uid != [] && uid[0] == '-' as CodeUnit && |uid| > 1 && AllDigits(uid[1..], 36) then Some(0 - RadixValue(uid[1..], 36))
    else if uid != [] && AllDigits(uid, 36) then Some(RadixValue(uid, 36))
    else None
  }

  /** Decoding a day number written in base 36 gives the day number back. */
  lemma UniqueIdRoundTrip(days: int)
    ensures DecodeUniqueId(IntToRadix(days, 36)) == Some(days)
  {
    var uid := IntToRadix(days, 36);
    if days < 0 {
      RadixRoundTrip(-days, 36);
      assert uid[1..] == NatToRadix(-days, 36);
    } else {
      RadixRoundTrip(days, 36);
      assert DigitValue(uid[0]) < 36;
    }
  }

  /** Different day numbers give different UIDs. */
  lemma UniqueIdInjective(a: int, b: int)
    requires a != b
    ensures IntToRadix(a, 36) != IntToRadix(b, 36)
  {
    UniqueIdRoundTrip(a);
    UniqueIdRoundTrip(b);
  }

  /** A date string whose three slices parse is encoded through the UTC midnight of the date they give. */
  lemma EncodeParsed(s: JsString, year: int, month: int, day: int)
    requires |s| == 8
    requires ParseInt(s[0..4], 10) == Some(year) && ParseInt(s[4..6], 10) == Some(month) && ParseInt(s[6..8], 10) == Some(day)
    ensures EncodeUniqueId(s) == EncodeDate(Some(year), Some(month), Some(day))
  {
    assert Slice(s, 0, 4) == s[0..4] && Slice(s, 4, 6) == s[4..6] && Slice(s, 6, 8) == s[6..8];
  }

  /** `Date.UTC` at midnight of a date in a year from 1000 on is that date's day number times a day. */
  lemma UtcMidnightDay(year: int, monthIndex: int, day: int)
    requires 1000 <= year && 0 <= monthIndex <= 11
    ensures UtcTimeValue(year, monthIndex, day, 0, 0, 0) / MS_PER_DAY == DaysFromCivil(year, monthIndex + 1, day)
  {
    var days := MakeDay(year, monthIndex, day);
    assert UtcTimeValue(year, monthIndex, day, 0, 0, 0) == days * MS_PER_DAY;
    MakeDayInRange(year, monthIndex, day);
  }

  /** A written four-digit-year date is encoded through the date it was written from. */
  lemma EncodeDigits(year: int, month: nat, day: nat)
    requires 1000 <= year <= 9999 && month < 100 && day < 100
    ensures EncodeUniqueId(DateDigits(year, month, day)) == EncodeDate(Some(year), Some(month), Some(day))
  {
    DateDigitsParse(year, month, day);
    EncodeParsed(DateDigits(year, month, day), year, month, day);
  }

  /** A parsed date from the year 1000 on is encoded as its day number in base 36. */
  lemma EncodeDateDay(year: int, month: int, day: int)
    requires 1000 <= year && 1 <= month <= 12
    ensures EncodeDate(Some(year), Some(month), Some(day)) == IntToRadix(DaysFromCivil(year, month, day), 36)
  {
    UtcMidnightDay(year, month - 1, day);
  }

  /** The UID of a four-digit-year DATE value is the base-36 day number of that date. */
  lemma EncodeDateText(f: Fields)
    requires 1000 <= f.year <= 9999 && 0 <= f.monthIndex <= 11 && 1 <= f.day <= 31
    ensures EncodeUniqueId(DateText(f)) == IntToRadix(DaysFromCivil(f.year, f.monthIndex + 1, f.day), 36)
  {
    var s := DateText(f);
    assert s == DateDigits(f.year, f.monthIndex + 1, f.day);
    EncodeYmd(f.year, f.monthIndex + 1, f.day);
  }

  /** The UID of a written four-digit-year date is the base-36 day number of that date. */
  lemma EncodeYmd(year: int, month: int, day: int)
    requires 1000 <= year <= 9999 && 1 <= month <= 12 && 1 <= day <= 31
    ensures EncodeUniqueId(DateDigits(year, month, day)) == IntToRadix(DaysFromCivil(year, month, day), 36)
  {
    EncodeDigits(year, month, day);
    EncodeDateDay(year, month, day);
  }

  /** The UID of a four-digit-year DATE value is the base-36 local day number of the instant it was written from. */
  lemma EncodeFormattedDate(t: int)
    requires 1000 <= LocalFields(t).year <= 9999
    ensures EncodeUniqueId(FormatICSDate(t)) == IntToRadix(LocalDay(t), 36)
  {
    EncodeDateText(LocalFields(t));
    LocalDateIsLocalDay(t);
  }

  /** Whole-day events starting on different local days get different UIDs; on the same local day, the same UID. */
  lemma WholeDayUidsByDay(t: int, u: int)
    requires 1000 <= LocalFields(t).year <= 9999 && 1000 <= LocalFields(u).year <= 9999
    ensures EncodeUniqueId(FormatICSDate(t)) == EncodeUniqueId(FormatICSDate(u)) <==> LocalDay(t) == LocalDay(u)
  {
    EncodeFormattedDate(t);
    EncodeFormattedDate(u);
    if LocalDay(t) != LocalDay(u) {
      UniqueIdInjective(LocalDay(t), LocalDay(u));
    }
  }

  /** The local hour and minute, each written without padding. */
  function TimeSuffix(hours: int, minutes: int): JsString {
    IntToString(hours) + IntToString(minutes)
  }

  /** The UID of a timed event: the day's UID, a hyphen, and the local hour and minute written without padding. */
  function TimedUid(t: int): JsString {
    var f := LocalFields(t);
    EncodeUniqueId(FormatICSDate(t)) + Str("-") + TimeSuffix(f.hours, f.minutes)
  }

  /** The UID the calendar gives an event: the day's UID, with the start time appended for timed events. */
  function PeriodUid(p: CalendarPeriod, wholeDay: bool): JsString {
    if wholeDay then EncodeUniqueId(FormatICSDate(p.startDate)) else TimedUid(p.startDate)
  }

  /** 1:15 and 11:05 are both written "115". */
  lemma TimeSuffixAmbiguous()
    ensures TimeSuffix(1, 15) == TimeSuffix(11, 5)
  {
    assert NatToRadix(15, 10) == NatToRadix(1, 10) + [DigitUnit(5)];
    assert NatToRadix(11, 10) == NatToRadix(1, 10) + [DigitUnit(1)];
  }

  /** Hour and minute are written unpadded, so 01:15 and 11:05 on one day give the same timed UID. */
  lemma TimedUidCollision(t: int, u: int)
    requires LocalDay(t) == LocalDay(u)
    requires LocalFields(t).hours == 1 && LocalFields(t).minutes == 15
    requires LocalFields(u).hours == 11 && LocalFields(u).minutes == 5
    ensures t != u && TimedUid(t) == TimedUid(u)
  {
    SameLocalDaySameDate(t, u);
    var f, g := LocalFields(t), LocalFields(u);
    assert DateText(f) == DateText(g);
    TimeSuffixAmbiguous();
  }

  // ---------------------------------------------------------------------
  // The calendar document

  /** The calendar name used when the caller gives none. */
  const DEFAULT_CALENDAR_NAME: JsString := Str("潮まわりカレンダー")
  const BEGIN_VCALENDAR: JsString := Str("BEGIN:VCALENDAR")
  const END_VCALENDAR: JsString := Str("END:VCALENDAR")
  const CALNAME_PREFIX: JsString := Str("X-WR-CALNAME:")
  const CALDESC_PREFIX: JsString := Str("X-WR-CALDESC:")
  const VERSION_LINE: JsString := Str("VERSION:2.0")
  const PRODID_LINE: JsString := Str("PRODID:-//tide.ical//Tide Calendar//JA")
  const CALSCALE_LINE: JsString := Str("CALSCALE:GREGORIAN")
  const METHOD_LINE: JsString := Str("METHOD:PUBLISH")
  const TIMEZONE_LINE: JsString := Str("X-WR-TIMEZONE:Asia/Tokyo")

  /** The eight logical lines of the calendar header, the name not yet folded. */
  function HeaderFields(calendarName: JsString, caldesc: JsString): (r: seq<JsString>)
    ensures |r| == 8
  {
    [BEGIN_VCALENDAR, VERSION_LINE, PRODID_LINE, CALSCALE_LINE, METHOD_LINE, CALNAME_PREFIX + calendarName,
     TIMEZONE_LINE, CALDESC_PREFIX + caldesc]
  }

  /** The header lines as written: the name line folded, the description line not. */
  function HeaderLines(calendarName: JsString, caldesc: JsString): (r: seq<JsString>)
    ensures |r| == 8
  {
    var h := HeaderFields(calendarName, caldesc);
    h[5 := Folded(h[5])]
  }

  /** The written event of each period, with the UID its start gives it. */
  function EventTexts(periods: seq<CalendarPeriod>, wholeDay: bool): (r: seq<JsString>)
    ensures |r| == |periods|
  {
    seq(|periods|, k requires 0 <= k < |periods| => GenerateICSEvent(periods[k], PeriodUid(periods[k], wholeDay), wholeDay))
  }

  /**
   * `generateICSContent`: the header lines joined by CRLF, the events joined
   * by CRLF, and END:VCALENDAR, the three joined by CRLF.
   */
  function GenerateICSContent(periods: seq<CalendarPeriod>, calendarName: JsString, caldesc: JsString, wholeDay: bool): JsString {
    Join([Join(HeaderLines(calendarName, caldesc), CRLF), Join(EventTexts(periods, wholeDay), CRLF), END_VCALENDAR], CRLF)
  }

  /** A list of lists laid end to end. */
  function Flatten(ls: seq<seq<JsString>>): seq<JsString> {
    if ls == [] then [] else ls[0] + Flatten(ls[1..])
  }

  /** Joining the laid-out lines of several non-empty lists is joining the joins of the lists. */
  lemma {:induction false} JoinFlatten(ls: seq<seq<JsString>>, joined: seq<JsString>)
    requires ls != [] && forall k | 0 <= k < |ls| :: ls[k] != []
    requires |joined| == |ls| && forall k | 0 <= k < |ls| :: joined[k] == Join(ls[k], CRLF)
    ensures Join(Flatten(ls), CRLF) == Join(joined, CRLF)
  {
    if |ls| == 1 {
      assert Flatten(ls) == ls[0] + [];
      assert ls[0] + [] == ls[0];
    } else {
      JoinFlatten(ls[1..], joined[1..]);
      assert Flatten(ls[1..]) != [] by { assert ls[1] != []; assert Flatten(ls[1..]) == ls[1] + Flatten(ls[2..]); }
      JoinAppend(ls[0], Flatten(ls[1..]), CRLF);
      JoinCons(joined[0], joined[1..], CRLF);
      assert joined == [joined[0]] + joined[1..];
    }
  }

  /** Six-line lists laid end to end: list `k` occupies positions 6k to 6k+5. */
  lemma {:induction false} FlattenSix(ls: seq<seq<JsString>>)
    requires forall k | 0 <= k < |ls| :: |ls[k]| == 6
    ensures |Flatten(ls)| == 6 * |ls|
    ensures forall k, j | 0 <= k < |ls| && 0 <= j < 6 :: Flatten(ls)[6 * k + j] == ls[k][j]
  {
    if ls != [] {
      FlattenSix(ls[1..]);
      forall k, j | 0 <= k < |ls| && 0 <= j < 6 ensures Flatten(ls)[6 * k + j] == ls[k][j] {
        if k > 0 {
          assert Flatten(ls)[6 * k + j] == Flatten(ls[1..])[6 * (k - 1) + j];
          assert ls[1..][k - 1] == ls[k];
        }
      }
    }
  }

  /** Position-wise folding carries over to lists laid end to end. */
  lemma {:induction false} FlattenFolds(ps: seq<seq<JsString>>, ls: seq<seq<JsString>>)
    requires |ps| == |ls| && forall k | 0 <= k < |ls| :: FoldsTo(ps[k], ls[k])
    ensures FoldsTo(Flatten(ps), Flatten(ls))
  {
    if ls != [] {
      FlattenFolds(ps[1..], ls[1..]);
      FoldsAppend(ps[0], Flatten(ps[1..]), ls[0], Flatten(ls[1..]));
    }
  }

  lemma FoldsAppend(a: seq<JsString>, b: seq<JsString>, c: seq<JsString>, d: seq<JsString>)
    requires FoldsTo(a, c) && FoldsTo(b, d)
    ensures FoldsTo(a + b, c + d)
  {
    forall i | 0 <= i < |a + b|
      ensures LogicalLine((c + d)[i]) && ((a + b)[i] == (c + d)[i] || (a + b)[i] == Folded((c + d)[i]))
    {
      if i < |a| {
        assert (a + b)[i] == a[i] && (c + d)[i] == c[i];
      } else {
        assert (a + b)[i] == b[i - |a|] && (c + d)[i] == d[i - |a|];
      }
    }
  }

  /** The logical lines of each period's event, with the UID its start gives it. */
  function EventFieldLists(periods: seq<CalendarPeriod>, wholeDay: bool): (r: seq<seq<JsString>>)
    ensures |r| == |periods| && forall k | 0 <= k < |r| :: |r[k]| == 6
  {
    seq(|periods|, k requires 0 <= k < |periods| => EventFields(periods[k], PeriodUid(periods[k], wholeDay), wholeDay))
  }

  /** The written lines of each period's event. */
  function EventLineLists(periods: seq<CalendarPeriod>, wholeDay: bool): (r: seq<seq<JsString>>)
    ensures |r| == |periods| && forall k | 0 <= k < |r| :: |r[k]| == 6
  {
    seq(|periods|, k requires 0 <= k < |periods| => EventLines(periods[k], PeriodUid(periods[k], wholeDay), wholeDay))
  }

  /** The logical lines of every event, laid end to end; a single empty line when there are none. */
  function EventBlockFields(periods: seq<CalendarPeriod>, wholeDay: bool): seq<JsString> {
    if periods == [] then [[]]
    else Flatten(EventFieldLists(periods, wholeDay))
  }

  /** The written lines of every event, laid end to end; a single empty line when there are none. */
  function EventBlockLines(periods: seq<CalendarPeriod>, wholeDay: bool): seq<JsString> {
    if periods == [] then [[]]
    else Flatten(EventLineLists(periods, wholeDay))
  }

  /** The logical lines of the whole document. */
  function DocumentFields(periods: seq<CalendarPeriod>, calendarName: JsString, caldesc: JsString, wholeDay: bool): seq<JsString> {
    HeaderFields(calendarName, caldesc) + EventBlockFields(periods, wholeDay) + [END_VCALENDAR]
  }

  /** The written lines of the whole document. */
  function DocumentLines(periods: seq<CalendarPeriod>, calendarName: JsString, caldesc: JsString, wholeDay: bool): seq<JsString> {
    HeaderLines(calendarName, caldesc) + EventBlockLines(periods, wholeDay) + [END_VCALENDAR]
  }

  /** The events joined by CRLF are the events' written lines joined by CRLF. */
  lemma EventTextsAreLines(periods: seq<CalendarPeriod>, wholeDay: bool)
    requires periods != []
    ensures Join(EventTexts(periods, wholeDay), CRLF) == Join(EventBlockLines(periods, wholeDay), CRLF)
  {
    var ls := EventLineLists(periods, wholeDay);
    var texts := EventTexts(periods, wholeDay);
    forall k | 0 <= k < |periods| ensures ls[k] != [] && texts[k] == Join(ls[k], CRLF) {
      EventIsSixLines(periods[k], PeriodUid(periods[k], wholeDay), wholeDay);
    }
    JoinFlatten(ls, texts);
  }

  /** Joining three joined parts is joining all their lines. */
  lemma JoinParts(h: seq<JsString>, e: seq<JsString>, ej: JsString, f: JsString)
    requires h != [] && e != [] && Join(e, CRLF) == ej
    ensures Join([Join(h, CRLF), ej, f], CRLF) == Join(h + e + [f], CRLF)
  {
    JoinCons(ej, [f], CRLF);
    JoinCons(Join(h, CRLF), [ej, f], CRLF);
    assert [Join(h, CRLF), ej, f] == [Join(h, CRLF)] + [ej, f];
    assert [ej, f] == [ej] + [f];
    JoinAppend(e, [f], CRLF);
    JoinAppend(h, e + [f], CRLF);
    assert h + e + [f] == h + (e + [f]);
  }

  /** The document is its written lines joined by CRLF. */
  lemma ContentIsLines(periods: seq<CalendarPeriod>, calendarName: JsString, caldesc: JsString, wholeDay: bool)
    ensures GenerateICSContent(periods, calendarName, caldesc, wholeDay) == Join(DocumentLines(periods, calendarName, caldesc, wholeDay), CRLF)
  {
    var e := EventBlockLines(periods, wholeDay);
    var ej := Join(EventTexts(periods, wholeDay), CRLF);
    if periods == [] {
      assert ej == [] && e == [[]];
    } else {
      EventTextsAreLines(periods, wholeDay);
    }
    JoinParts(HeaderLines(calendarName, caldesc), e, ej, END_VCALENDAR);
  }

  // ---------------------------------------------------------------------
  // Unfolding the document

  /** No carriage return at all. */
  predicate NoCr(s: JsString) {
    CR !in s
  }

  lemma NoCrAppend(a: JsString, b: JsString)
    requires NoCr(a) && NoCr(b)
    ensures NoCr(a + b)
  {}

  /** Text with no carriage return that does not start with a space is a logical line. */
  lemma NoCrLogical(s: JsString)
    requires NoCr(s) && (s == [] || s[0] != SP)
    ensures LogicalLine(s)
  {}

  /** Digit strings carry no carriage return. */
  lemma DigitsNoCr(s: JsString, radix: nat)
    requires radix <= 36 && AllDigits(s, radix)
    ensures NoCr(s)
  {
    forall i | 0 <= i < |s| ensures s[i] != CR {
      assert DigitValue(s[i]) < 36;
    }
  }

  lemma IntToStringNoCr(n: int)
    ensures NoCr(IntToString(n))
  {
    var m: nat := if n < 0 then -n else n;
    assert AllDigits(NatToString(m), 10);
    DigitsNoCr(NatToString(m), 10);
  }

  lemma IntToRadixNoCr(n: int)
    ensures NoCr(IntToRadix(n, 36))
  {
    var m: nat := if n < 0 then -n else n;
    DigitsNoCr(NatToRadix(m, 36), 36);
  }

  lemma Pad2NoCr(n: int)
    ensures NoCr(Pad2(n))
  {
    IntToStringNoCr(n);
    var d := IntToString(n);
    var p := PadStart2(d);
    forall i | 0 <= i < |p| ensures p[i] != CR {
      if i >= |p| - |d| {
        assert p[i] == p[|p| - |d|..][i - (|p| - |d|)];
      }
    }
  }

  lemma DateDigitsNoCr(year: int, month: int, day: int)
    ensures NoCr(DateDigits(year, month, day))
  {
    IntToStringNoCr(year);
    Pad2NoCr(month);
    Pad2NoCr(day);
    NoCrAppend(IntToString(year), Pad2(month));
    NoCrAppend(IntToString(year) + Pad2(month), Pad2(day));
  }

  lemma DateTimePiecesNoCr(d: JsString, a: JsString, b: JsString, c: JsString)
    requires NoCr(d) && NoCr(a) && NoCr(b) && NoCr(c)
    ensures NoCr(d + ['T' as CodeUnit] + a + b + c + ['Z' as CodeUnit])
  {
    var T, Z := ['T' as CodeUnit], ['Z' as CodeUnit];
    NoCrAppend(d, T);
    NoCrAppend(d + T, a);
    NoCrAppend(d + T + a, b);
    NoCrAppend(d + T + a + b, c);
    NoCrAppend(d + T + a + b + c, Z);
  }

  lemma DateTextNoCr(f: Fields)
    ensures NoCr(DateText(f))
  {
    DateDigitsNoCr(f.year, f.monthIndex + 1, f.day);
  }

  lemma DateTimeTextNoCr(f: Fields)
    ensures NoCr(DateTimeText(f))
  {
    var d, a, b, c := DateDigits(f.year, f.monthIndex + 1, f.day), Pad2(f.hours), Pad2(f.minutes), Pad2(f.seconds);
    DateDigitsNoCr(f.year, f.monthIndex + 1, f.day);
    Pad2NoCr(f.hours);
    Pad2NoCr(f.minutes);
    Pad2NoCr(f.seconds);
    DateTimePiecesNoCr(d, a, b, c);
    assert DateTimeText(f) == d + ['T' as CodeUnit] + a + b + c + ['Z' as CodeUnit];
  }

  /** DTSTART and DTEND lines carry no carriage return when their prefixes carry none. */
  lemma DateLineNoCr(datePrefix: JsString, utcPrefix: JsString, t: int, wholeDay: bool)
    requires NoCr(datePrefix) && NoCr(utcPrefix)
    ensures NoCr(DateLine(datePrefix, utcPrefix, t, wholeDay))
  {
    if wholeDay {
      DateTextNoCr(LocalFields(t));
      NoCrAppend(datePrefix, FormatICSDate(t));
    } else {
      DateTimeTextNoCr(UtcFields(t));
      NoCrAppend(utcPrefix, FormatICSDateTime(t));
    }
  }

  /** A date line whose prefixes are lines of their own is a line unfolding reads back unchanged. */
  lemma DateLineLogical(datePrefix: JsString, utcPrefix: JsString, t: int, wholeDay: bool)
    requires NoCr(datePrefix) && NoCr(utcPrefix)
    requires datePrefix != [] && datePrefix[0] != SP && utcPrefix != [] && utcPrefix[0] != SP
    ensures LogicalLine(DateLine(datePrefix, utcPrefix, t, wholeDay))
  {
    var r := DateLine(datePrefix, utcPrefix, t, wholeDay);
    DateLineNoCr(datePrefix, utcPrefix, t, wholeDay);
    if wholeDay {
      assert r[0] == r[..|datePrefix|][0];
    } else {
      assert r[0] == r[..|utcPrefix|][0];
    }
    NoCrLogical(r);
  }

  lemma StartLineLogical(t: int, wholeDay: bool)
    ensures LogicalLine(DateLine(DTSTART_DATE, DTSTART_UTC, t, wholeDay))
  {
    DatePrefixesNoCr();
    DateLineLogical(DTSTART_DATE, DTSTART_UTC, t, wholeDay);
  }

  lemma EndLineLogical(t: int, wholeDay: bool)
    ensures LogicalLine(DateLine(DTEND_DATE, DTEND_UTC, t, wholeDay))
  {
    DatePrefixesNoCr();
    DateLineLogical(DTEND_DATE, DTEND_UTC, t, wholeDay);
  }

  /** A literal without a carriage return character has no carriage return code unit. */
  lemma StrNoCr(s: string)
    requires IsBmp(s)
    requires forall i | 0 <= i < |s| :: s[i] != '\r'
    ensures NoCr(Str(s))
  {
    var r := Str(s);
    forall i | 0 <= i < |r| ensures r[i] != CR {
      assert r[i] as int == s[i] as int;
    }
  }

  /** The four date-line prefixes have no carriage return and start with a letter. */
  lemma DatePrefixesNoCr()
    ensures NoCr(DTSTART_DATE) && NoCr(DTSTART_UTC) && NoCr(DTEND_DATE) && NoCr(DTEND_UTC)
    ensures DTSTART_DATE[0] == DTSTART_UTC[0] == DTEND_DATE[0] == DTEND_UTC[0] == 'D' as CodeUnit
  {
    StrNoCr("DTSTART;VALUE=DATE:");
    StrNoCr("DTSTART:");
    StrNoCr("DTEND;VALUE=DATE:");
    StrNoCr("DTEND:");
  }

  lemma EncodeNoCr(s: JsString)
    ensures NoCr(EncodeUniqueId(s))
  {
    var y, m, d := ParseInt(Slice(s, 0, 4), 10), ParseInt(Slice(s, 4, 6), 10), ParseInt(Slice(s, 6, 8), 10);
    EncodeDateNoCr(y, m, d);
  }

  lemma EncodeDateNoCr(y: Option<int>, m: Option<int>, d: Option<int>)
    ensures NoCr(EncodeDate(y, m, d))
  {
    if y.Some? && m.Some? && d.Some? {
      IntToRadixNoCr(UtcTimeValue(y.value, m.value - 1, d.value, 0, 0, 0) / MS_PER_DAY);
    }
  }

  lemma TimedUidNoCr(day: JsString, hours: int, minutes: int)
    requires NoCr(day)
    ensures NoCr(day + Str("-") + TimeSuffix(hours, minutes))
  {
    IntToStringNoCr(hours);
    IntToStringNoCr(minutes);
    NoCrAppend(IntToString(hours), IntToString(minutes));
    NoCrAppend(day, Str("-"));
    NoCrAppend(day + Str("-"), TimeSuffix(hours, minutes));
  }

  /** UIDs carry no carriage return. */
  lemma UidNoCr(p: CalendarPeriod, wholeDay: bool)
    ensures NoCr(PeriodUid(p, wholeDay))
  {
    var day := EncodeUniqueId(FormatICSDate(p.startDate));
    EncodeNoCr(FormatICSDate(p.startDate));
    if !wholeDay {
      var f := LocalFields(p.startDate);
      TimedUidNoCr(day, f.hours, f.minutes);
    }
  }

  /** Carriage-return-free input text. */
  predicate CleanPeriod(p: CalendarPeriod) {
    NoCr(p.tideName) && (p.emoji.Some? ==> NoCr(p.emoji.value))
  }

  lemma SummaryNoCr(p: CalendarPeriod)
    requires CleanPeriod(p)
    ensures NoCr(Summary(p))
  {
    if p.emoji.Some? && p.emoji.value != [] {
      NoCrAppend(p.emoji.value, [SP]);
      NoCrAppend(p.emoji.value + [SP], p.tideName);
    }
  }

  /** The logical lines of an event are lines unfolding reads back unchanged. */
  lemma EventFieldsLogical(p: CalendarPeriod, uid: JsString, wholeDay: bool)
    requires CleanPeriod(p) && NoCr(uid)
    ensures forall k | 0 <= k < 6 :: LogicalLine(EventFields(p, uid, wholeDay)[k])
  {
    var startLine := DateLine(DTSTART_DATE, DTSTART_UTC, p.startDate, wholeDay);
    var endLine := DateLine(DTEND_DATE, DTEND_UTC, p.endDate, wholeDay);
    StartLineLogical(p.startDate, wholeDay);
    EndLineLogical(p.endDate, wholeDay);
    EventLinesLogical(p, uid, startLine, endLine);
  }

  /** The event lines around two given date lines are logical lines. */
  lemma EventLinesLogical(p: CalendarPeriod, uid: JsString, startLine: JsString, endLine: JsString)
    requires CleanPeriod(p) && NoCr(uid) && LogicalLine(startLine) && LogicalLine(endLine)
    ensures forall k | 0 <= k < 6 ::
      LogicalLine([BEGIN_VEVENT, UID_PREFIX + uid, startLine, endLine, SUMMARY_PREFIX + Summary(p), END_VEVENT][k])
  {
    var f := [BEGIN_VEVENT, UID_PREFIX + uid, startLine, endLine, SUMMARY_PREFIX + Summary(p), END_VEVENT];
    assert LogicalLine(f[0]) by { EventConstantsNoCr(); NoCrLogical(BEGIN_VEVENT); }
    assert LogicalLine(f[1]) by { EventConstantsNoCr(); PrefixedLogical(UID_PREFIX, uid); }
    assert LogicalLine(f[4]) by { EventConstantsNoCr(); SummaryNoCr(p); PrefixedLogical(SUMMARY_PREFIX, Summary(p)); }
    assert LogicalLine(f[5]) by { EventConstantsNoCr(); NoCrLogical(END_VEVENT); }
    AllLogical(f);
  }

  /** Six logical lines, listed one by one, are all logical lines. */
  lemma AllLogical(f: seq<JsString>)
    requires |f| == 6
    requires LogicalLine(f[0]) && LogicalLine(f[1]) && LogicalLine(f[2])
    requires LogicalLine(f[3]) && LogicalLine(f[4]) && LogicalLine(f[5])
    ensures forall k | 0 <= k < 6 :: LogicalLine(f[k])
  {}

  /** A non-empty line head that does not start with a space, followed by anything without a carriage return, is a logical line. */
  lemma PrefixedLogical(prefix: JsString, v: JsString)
    requires NoCr(prefix) && NoCr(v) && prefix != [] && prefix[0] != SP
    ensures LogicalLine(prefix + v)
  {
    NoCrAppend(prefix, v);
    NoCrLogical(prefix + v);
  }

  /** The fixed event lines and prefixes have no carriage return and do not start with a space. */
  lemma EventConstantsNoCr()
    ensures NoCr(BEGIN_VEVENT) && NoCr(END_VEVENT) && NoCr(UID_PREFIX) && NoCr(SUMMARY_PREFIX)
    ensures BEGIN_VEVENT[0] != SP && END_VEVENT[0] != SP && UID_PREFIX[0] != SP && SUMMARY_PREFIX[0] != SP
  {
    StrNoCr("BEGIN:VEVENT");
    StrNoCr("END:VEVENT");
    StrNoCr("UID:");
    StrNoCr("SUMMARY:");
  }

  /** The logical lines of the header are lines unfolding reads back unchanged. */
  lemma HeaderFieldsLogical(calendarName: JsString, caldesc: JsString)
    requires NoCr(calendarName) && NoCr(caldesc)
    ensures forall k | 0 <= k < 8 :: LogicalLine(HeaderFields(calendarName, caldesc)[k])
  {
    var h := HeaderFields(calendarName, caldesc);
    HeaderConstantsLogical();
    HeaderPrefixesNoCr();
    PrefixedLogical(CALNAME_PREFIX, calendarName);
    PrefixedLogical(CALDESC_PREFIX, caldesc);
    EightLogical(h);
  }

  /** Eight logical lines, listed one by one, are all logical lines. */
  lemma EightLogical(h: seq<JsString>)
    requires |h| == 8
    requires LogicalLine(h[0]) && LogicalLine(h[1]) && LogicalLine(h[2]) && LogicalLine(h[3])
    requires LogicalLine(h[4]) && LogicalLine(h[5]) && LogicalLine(h[6]) && LogicalLine(h[7])
    ensures forall k | 0 <= k < 8 :: LogicalLine(h[k])
  {}

  /** The fixed header lines are logical lines. */
  lemma HeaderConstantsLogical()
    ensures LogicalLine(BEGIN_VCALENDAR) && LogicalLine(VERSION_LINE) && LogicalLine(PRODID_LINE)
    ensures LogicalLine(CALSCALE_LINE) && LogicalLine(METHOD_LINE) && LogicalLine(TIMEZONE_LINE)
  {
    BeginCalendarLogical();
    VersionLineLogical();
    ProdIdLineLogical();
    CalscaleLineLogical();
    MethodLineLogical();
    TimezoneLineLogical();
  }

  lemma BeginCalendarLogical() ensures LogicalLine(BEGIN_VCALENDAR) { FixedLineLogical("BEGIN:VCALENDAR"); }
  lemma VersionLineLogical() ensures LogicalLine(VERSION_LINE) { FixedLineLogical("VERSION:2.0"); }
  lemma ProdIdLineLogical() ensures LogicalLine(PRODID_LINE) { FixedLineLogical("PRODID:-//tide.ical//Tide Calendar//JA"); }
  lemma CalscaleLineLogical() ensures LogicalLine(CALSCALE_LINE) { FixedLineLogical("CALSCALE:GREGORIAN"); }
  lemma MethodLineLogical() ensures LogicalLine(METHOD_LINE) { FixedLineLogical("METHOD:PUBLISH"); }
  lemma TimezoneLineLogical() ensures LogicalLine(TIMEZONE_LINE) { FixedLineLogical("X-WR-TIMEZONE:Asia/Tokyo"); }

  /** A literal with no carriage return that starts with a letter is a logical line. */
  lemma FixedLineLogical(s: string)
    requires IsBmp(s) && s != [] && s[0] != ' '
    requires forall i | 0 <= i < |s| :: s[i] != '\r'
    ensures LogicalLine(Str(s))
  {
    StrNoCr(s);
    NoCrLogical(Str(s));
  }

  /** The two header prefixes have no carriage return and start with a letter. */
  lemma HeaderPrefixesNoCr()
    ensures NoCr(CALNAME_PREFIX) && NoCr(CALDESC_PREFIX) && CALNAME_PREFIX[0] != SP && CALDESC_PREFIX[0] != SP
  {
    StrNoCr("X-WR-CALNAME:");
    StrNoCr("X-WR-CALDESC:");
  }

  /** Folding one logical line of a list gives a list that folds to it. */
  lemma FoldOneLine(fields: seq<JsString>, i: nat)
    requires i < |fields| && forall k | 0 <= k < |fields| :: LogicalLine(fields[k])
    ensures FoldsTo(fields[i := Folded(fields[i])], fields)
  {}

  /** The written header folds to its logical lines. */
  lemma HeaderFolds(calendarName: JsString, caldesc: JsString)
    requires NoCr(calendarName) && NoCr(caldesc)
    ensures FoldsTo(HeaderLines(calendarName, caldesc), HeaderFields(calendarName, caldesc))
  {
    HeaderFieldsLogical(calendarName, caldesc);
    FoldOneLine(HeaderFields(calendarName, caldesc), 5);
  }

  /** A written event folds to its logical lines. */
  lemma EventFolds(p: CalendarPeriod, wholeDay: bool)
    requires CleanPeriod(p)
    ensures FoldsTo(EventLines(p, PeriodUid(p, wholeDay), wholeDay), EventFields(p, PeriodUid(p, wholeDay), wholeDay))
  {
    var uid := PeriodUid(p, wholeDay);
    UidNoCr(p, wholeDay);
    EventFieldsLogical(p, uid, wholeDay);
    FoldOneLine(EventFields(p, uid, wholeDay), 4);
  }

  /** The written events, laid end to end, fold to their logical lines. */
  lemma EventBlockFolds(periods: seq<CalendarPeriod>, wholeDay: bool)
    requires forall k | 0 <= k < |periods| :: CleanPeriod(periods[k])
    ensures FoldsTo(EventBlockLines(periods, wholeDay), EventBlockFields(periods, wholeDay))
  {
    if periods == [] {
      assert LogicalLine([]);
    } else {
      var ps := EventLineLists(periods, wholeDay);
      var ls := EventFieldLists(periods, wholeDay);
      forall k | 0 <= k < |periods| ensures FoldsTo(ps[k], ls[k]) {
        EventFolds(periods[k], wholeDay);
      }
      FlattenFolds(ps, ls);
    }
  }

  /** The closing line is a logical line. */
  lemma EndCalendarLogical()
    ensures LogicalLine(END_VCALENDAR)
  {
    StrNoCr("END:VCALENDAR");
    NoCrLogical(END_VCALENDAR);
  }

  /** The written document folds to its logical lines. */
  lemma DocumentFolds(periods: seq<CalendarPeriod>, calendarName: JsString, caldesc: JsString, wholeDay: bool)
    requires NoCr(calendarName) && NoCr(caldesc)
    requires forall k | 0 <= k < |periods| :: CleanPeriod(periods[k])
    ensures FoldsTo(DocumentLines(periods, calendarName, caldesc, wholeDay), DocumentFields(periods, calendarName, caldesc, wholeDay))
  {
    HeaderFolds(calendarName, caldesc);
    EventBlockFolds(periods, wholeDay);
    EndCalendarLogical();
    var h, hf := HeaderLines(calendarName, caldesc), HeaderFields(calendarName, caldesc);
    var e, ef := EventBlockLines(periods, wholeDay), EventBlockFields(periods, wholeDay);
    FoldsAppend(h, e, hf, ef);
    FoldsAppend(h + e, [END_VCALENDAR], hf + ef, [END_VCALENDAR]);
  }

  /**
   * Unfolding the calendar text (deleting every CRLF followed by a space)
   * gives its logical lines joined by CRLF, whenever the calendar name, the
   * description and the periods' names and glyphs carry no carriage return.
   */
  lemma UnfoldContent(periods: seq<CalendarPeriod>, calendarName: JsString, caldesc: JsString, wholeDay: bool)
    requires NoCr(calendarName) && NoCr(caldesc)
    requires forall k | 0 <= k < |periods| :: CleanPeriod(periods[k])
    ensures Unfold(GenerateICSContent(periods, calendarName, caldesc, wholeDay))
      == Join(DocumentFields(periods, calendarName, caldesc, wholeDay), CRLF)
  {
    ContentIsLines(periods, calendarName, caldesc, wholeDay);
    DocumentFolds(periods, calendarName, caldesc, wholeDay);
    UnfoldLines(DocumentLines(periods, calendarName, caldesc, wholeDay), DocumentFields(periods, calendarName, caldesc, wholeDay));
  }

  /**
   * The frame of the calendar's logical lines: the eight header lines, then
   * six lines per period (a single empty line when there is none), then
   * END:VCALENDAR.
   */
  lemma DocumentFrame(periods: seq<CalendarPeriod>, calendarName: JsString, caldesc: JsString, wholeDay: bool)
    ensures var d := DocumentFields(periods, calendarName, caldesc, wholeDay);
      |d| == 9 + (if periods == [] then 1 else 6 * |periods|) &&
      d[0] == BEGIN_VCALENDAR && d[|d| - 1] == END_VCALENDAR &&
      d[5] == CALNAME_PREFIX + calendarName && d[7] == CALDESC_PREFIX + caldesc &&
      (periods == [] ==> d[8] == [])
  {
    EventBlockSize(periods, wholeDay);
    FrameOf(HeaderFields(calendarName, caldesc), EventBlockFields(periods, wholeDay), END_VCALENDAR);
  }

  /** Six lines per period, or the single empty line when there is none. */
  lemma EventBlockSize(periods: seq<CalendarPeriod>, wholeDay: bool)
    ensures |EventBlockFields(periods, wholeDay)| == if periods == [] then 1 else 6 * |periods|
    ensures periods == [] ==> EventBlockFields(periods, wholeDay) == [[]]
  {
    if periods != [] {
      FlattenSixSize(EventFieldLists(periods, wholeDay));
    }
  }

  /** Where the header's lines, the block's and the closing line sit in the document. */
  lemma FrameOf(head: seq<JsString>, block: seq<JsString>, last: JsString)
    requires |head| == 8
    ensures var d := head + block + [last];
      |d| == 9 + |block| && d[0] == head[0] && d[5] == head[5] && d[7] == head[7] && d[|d| - 1] == last &&
      (block == [[]] ==> d[8] == [])
  {}

  /** Six-line lists laid end to end make six lines per list. */
  lemma {:induction false} FlattenSixSize(ls: seq<seq<JsString>>)
    requires forall k | 0 <= k < |ls| :: |ls[k]| == 6
    ensures |Flatten(ls)| == 6 * |ls|
  {
    if ls != [] {
      FlattenSixSize(ls[1..]);
    }
  }

  /** Line `j` of the event of period `k` is logical line 8 + 6k + j of the calendar. */
  lemma DocumentEvents(periods: seq<CalendarPeriod>, calendarName: JsString, caldesc: JsString, wholeDay: bool)
    ensures var d := DocumentFields(periods, calendarName, caldesc, wholeDay);
      forall k, j | 0 <= k < |periods| && 0 <= j < 6 ::
        8 + 6 * k + j < |d| && d[8 + 6 * k + j] == EventFieldLists(periods, wholeDay)[k][j]
  {
    if periods != [] {
      BlockPositions(EventFieldLists(periods, wholeDay), HeaderFields(calendarName, caldesc), [END_VCALENDAR]);
    }
  }

  /** Where the lines of six-line blocks sit after an eight-line head. */
  lemma BlockPositions(ls: seq<seq<JsString>>, head: seq<JsString>, tail: seq<JsString>)
    requires |head| == 8 && forall k | 0 <= k < |ls| :: |ls[k]| == 6
    ensures forall k, j | 0 <= k < |ls| && 0 <= j < 6 ::
      8 + 6 * k + j < |head + Flatten(ls) + tail| && (head + Flatten(ls) + tail)[8 + 6 * k + j] == ls[k][j]
  {
    FlattenSix(ls);
    forall k, j | 0 <= k < |ls| && 0 <= j < 6
      ensures 8 + 6 * k + j < |head + Flatten(ls) + tail| && (head + Flatten(ls) + tail)[8 + 6 * k + j] == ls[k][j]
    {
      assert (head + Flatten(ls) + tail)[8 + 6 * k + j] == Flatten(ls)[6 * k + j];
    }
  }

  /** Line `j` of the written event of period `k` is written line 8 + 6k + j of the calendar. */
  lemma DocumentLineEvents(periods: seq<CalendarPeriod>, calendarName: JsString, caldesc: JsString, wholeDay: bool)
    ensures var d := DocumentLines(periods, calendarName, caldesc, wholeDay);
      forall k, j | 0 <= k < |periods| && 0 <= j < 6 ::
        8 + 6 * k + j < |d| && d[8 + 6 * k + j] == EventLineLists(periods, wholeDay)[k][j]
  {
    if periods != [] {
      BlockPositions(EventLineLists(periods, wholeDay), HeaderLines(calendarName, caldesc), [END_VCALENDAR]);
    }
  }

  // ---------------------------------------------------------------------
  // Physical lines and their length

  /** The physical lines of the header: the folded lines of the name line in its place. */
  function HeaderPhysical(calendarName: JsString, caldesc: JsString): seq<JsString> {
    var h := HeaderFields(calendarName, caldesc);
    h[..5] + FoldLines(h[5]) + h[6..]
  }

  /** The physical lines of an event: the folded lines of the summary line in its place. */
  function EventPhysical(p: CalendarPeriod, uid: JsString, wholeDay: bool): seq<JsString> {
    var f := EventFields(p, uid, wholeDay);
    f[..4] + FoldLines(f[4]) + f[5..]
  }

  /** The physical lines of each period's event. */
  function EventPhysicalLists(periods: seq<CalendarPeriod>, wholeDay: bool): (r: seq<seq<JsString>>)
    ensures |r| == |periods|
  {
    seq(|periods|, k requires 0 <= k < |periods| => EventPhysical(periods[k], PeriodUid(periods[k], wholeDay), wholeDay))
  }

  /** The physical lines of every event, laid end to end; a single empty line when there are none. */
  function EventBlockPhysical(periods: seq<CalendarPeriod>, wholeDay: bool): seq<JsString> {
    if periods == [] then [[]]
    else Flatten(EventPhysicalLists(periods, wholeDay))
  }

  /**
   * The physical lines of the calendar: its written lines, with each folded
   * line replaced by the lines it was folded into.
   */
  function PhysicalLines(periods: seq<CalendarPeriod>, calendarName: JsString, caldesc: JsString, wholeDay: bool): seq<JsString> {
    HeaderPhysical(calendarName, caldesc) + EventBlockPhysical(periods, wholeDay) + [END_VCALENDAR]
  }

  /** Where the description line sits among the physical lines: after the header's fixed lines and the name's folded lines. */
  function DescriptionIndex(calendarName: JsString): nat {
    6 + |FoldLines(CALNAME_PREFIX + calendarName)|
  }

  /** Putting a line's folded lines in place of its folded text leaves the CRLF join unchanged. */
  lemma JoinFoldedInPlace(a: seq<JsString>, x: JsString, b: seq<JsString>)
    requires a != [] && b != []
    ensures Join(a + FoldLines(x) + b, CRLF) == Join(a + [Folded(x)] + b, CRLF)
  {
    var m, y := FoldLines(x), Folded(x);
    JoinThree(a, m, b, CRLF);
    JoinThree(a, [y], b, CRLF);
  }

  /** Joining three non-empty runs of lines is joining each and putting the separator between them. */
  lemma JoinThree(a: seq<JsString>, m: seq<JsString>, b: seq<JsString>, sep: JsString)
    requires a != [] && m != [] && b != []
    ensures Join(a + m + b, sep) == Join(a, sep) + sep + Join(m, sep) + sep + Join(b, sep)
  {
    JoinAppend(m, b, sep);
    JoinAppend(a, m + b, sep);
    assert a + m + b == a + (m + b);
  }

  /** The header's physical lines join to the header's written lines joined. */
  lemma HeaderPhysicalJoin(calendarName: JsString, caldesc: JsString)
    ensures Join(HeaderPhysical(calendarName, caldesc), CRLF) == Join(HeaderLines(calendarName, caldesc), CRLF)
  {
    var h := HeaderFields(calendarName, caldesc);
    Splice(h, 5, Folded(h[5]));
    JoinFoldedInPlace(h[..5], h[5], h[6..]);
  }

  /** An event's physical lines join to the event text. */
  lemma EventPhysicalJoin(p: CalendarPeriod, uid: JsString, wholeDay: bool)
    ensures EventPhysical(p, uid, wholeDay) != []
    ensures Join(EventPhysical(p, uid, wholeDay), CRLF) == GenerateICSEvent(p, uid, wholeDay)
  {
    var f := EventFields(p, uid, wholeDay);
    EventIsSixLines(p, uid, wholeDay);
    Splice(f, 4, Folded(f[4]));
    JoinFoldedInPlace(f[..4], f[4], f[5..]);
  }

  /** Replacing element `i` is splicing the new element in between the elements before and after it. */
  lemma Splice(f: seq<JsString>, i: nat, x: JsString)
    requires i < |f|
    ensures f[i := x] == f[..i] + [x] + f[i + 1..]
  {}

  /** The calendar text is its physical lines joined by CRLF. */
  lemma ContentIsPhysicalLines(periods: seq<CalendarPeriod>, calendarName: JsString, caldesc: JsString, wholeDay: bool)
    ensures GenerateICSContent(periods, calendarName, caldesc, wholeDay) == Join(PhysicalLines(periods, calendarName, caldesc, wholeDay), CRLF)
  {
    var e := EventBlockPhysical(periods, wholeDay);
    var ej := Join(EventTexts(periods, wholeDay), CRLF);
    if periods == [] {
      assert ej == [] && e == [[]];
    } else {
      EventBlockJoin(periods, wholeDay);
    }
    HeaderPhysicalJoin(calendarName, caldesc);
    JoinParts(HeaderPhysical(calendarName, caldesc), e, ej, END_VCALENDAR);
  }

  /** The events' physical lines, one run after another, join to the events' texts joined. */
  lemma EventBlockJoin(periods: seq<CalendarPeriod>, wholeDay: bool)
    requires periods != []
    ensures EventBlockPhysical(periods, wholeDay) != []
    ensures Join(EventBlockPhysical(periods, wholeDay), CRLF) == Join(EventTexts(periods, wholeDay), CRLF)
  {
    var ls, texts := EventPhysicalLists(periods, wholeDay), EventTexts(periods, wholeDay);
    forall k | 0 <= k < |periods| ensures ls[k] != [] && texts[k] == Join(ls[k], CRLF) {
      EventPhysicalJoin(periods[k], PeriodUid(periods[k], wholeDay), wholeDay);
    }
    JoinFlatten(ls, texts);
  }

  /** Lines of at most 75 units. */
  predicate Short(lines: seq<JsString>) {
    forall i | 0 <= i < |lines| :: |lines[i]| <= 75
  }

  /** The local and the UTC year of an instant both have four digits. */
  predicate FourDigitYears(t: int) {
    1000 <= LocalFields(t).year <= 9999 && 1000 <= UtcFields(t).year <= 9999
  }

  /** A date of a four-digit year lies within 36^4 days before 1970 and 36^5 days after. */
  lemma DayNumberBounds(year: int, month: int, day: int)
    requires 1000 <= year <= 9999 && 1 <= month <= 12 && 1 <= day <= 31
    ensures -1_679_616 < DaysFromCivil(year, month, day) < 60_466_176
  {
    var y := if month <= 2 then year - 1 else year;
    var era := y / 400;
    var yoe := y - era * 400;
    assert 2 <= era <= 24 && 0 <= yoe < 400;
    var mp := (month + 9) % 12;
    DaysFromCivilParts(year, month, day, era, yoe, mp);
  }

  /** A number below 36^k has at most k base-36 digits, for k from 1 to 5. */
  lemma Base36Length(n: nat)
    ensures n < 36 ==> |NatToRadix(n, 36)| == 1
    ensures n < 1_296 ==> |NatToRadix(n, 36)| <= 2
    ensures n < 46_656 ==> |NatToRadix(n, 36)| <= 3
    ensures n < 1_679_616 ==> |NatToRadix(n, 36)| <= 4
    ensures n < 60_466_176 ==> |NatToRadix(n, 36)| <= 5
    decreases n
  {
    if n >= 36 {
      DivDecreases(n, 36);
      Base36Length(n / 36);
    }
  }

  /** A day number within 36^4 days before 1970 and 36^5 days after has at most 5 base-36 units. */
  lemma SignedBase36Length(x: int)
    requires -1_679_616 < x < 60_466_176
    ensures |IntToRadix(x, 36)| <= 5
  {
    if x < 0 {
      Base36Length(-x);
    } else {
      Base36Length(x);
    }
  }

  /** The UID of a whole day of a four-digit local year has at most 5 units. */
  lemma DayUidLength(t: int)
    requires 1000 <= LocalFields(t).year <= 9999
    ensures |EncodeUniqueId(FormatICSDate(t))| <= 5
  {
    var f := LocalFields(t);
    EncodeFormattedDate(t);
    LocalDateIsLocalDay(t);
    DayNumberBounds(f.year, f.monthIndex + 1, f.day);
    SignedBase36Length(LocalDay(t));
  }

  /** An hour and a minute written without padding take at most 4 units. */
  lemma TimeSuffixLength(hours: int, minutes: int)
    requires 0 <= hours <= 23 && 0 <= minutes <= 59
    ensures |TimeSuffix(hours, minutes)| <= 4
  {
    NatToStringLength(hours);
    NatToStringLength(minutes);
  }

  /** The UID of a period starting in a four-digit local year has at most 10 units. */
  lemma UidLength(p: CalendarPeriod, wholeDay: bool)
    requires 1000 <= LocalFields(p.startDate).year <= 9999
    ensures |PeriodUid(p, wholeDay)| <= 10
  {
    var f := LocalFields(p.startDate);
    DayUidLength(p.startDate);
    TimeSuffixLength(f.hours, f.minutes);
  }

  /** A date line of an instant with four-digit years has at most 27 units. */
  lemma DateLineLength(datePrefix: JsString, utcPrefix: JsString, t: int, wholeDay: bool)
    requires |datePrefix| <= 19 && |utcPrefix| <= 11 && FourDigitYears(t)
    ensures |DateLine(datePrefix, utcPrefix, t, wholeDay)| <= 27
  {
    FormatICSDateFields(t);
    FormatICSDateTimeFields(t);
  }

  /** Every physical line of an event whose dates have four-digit years has at most 75 units. */
  lemma EventPhysicalShort(p: CalendarPeriod, wholeDay: bool)
    requires FourDigitYears(p.startDate) && FourDigitYears(p.endDate)
    ensures Short(EventPhysical(p, PeriodUid(p, wholeDay), wholeDay))
  {
    var uid := PeriodUid(p, wholeDay);
    var f := EventFields(p, uid, wholeDay);
    UidLength(p, wholeDay);
    DateLineLength(DTSTART_DATE, DTSTART_UTC, p.startDate, wholeDay);
    DateLineLength(DTEND_DATE, DTEND_UTC, p.endDate, wholeDay);
    assert |f[0]| <= 75 && |f[1]| <= 75 && |f[2]| <= 75 && |f[3]| <= 75 && |f[5]| <= 75;
    FoldLinesShape(f[4]);
    SpliceShort(f, FoldLines(f[4]));
  }

  /** Six lines whose other five are short, with the fifth replaced by short lines, are short lines. */
  lemma SpliceShort(f: seq<JsString>, m: seq<JsString>)
    requires |f| == 6 && |f[0]| <= 75 && |f[1]| <= 75 && |f[2]| <= 75 && |f[3]| <= 75 && |f[5]| <= 75
    requires Short(m)
    ensures Short(f[..4] + m + f[5..])
  {
    var d := f[..4] + m + f[5..];
    forall i | 0 <= i < |d| ensures |d[i]| <= 75 {
      if i < 4 {
        assert d[i] == f[i];
      } else if i < 4 + |m| {
        assert d[i] == m[i - 4];
      } else {
        assert d[i] == f[5];
      }
    }
  }

  /** Lists of short lines laid end to end are short lines. */
  lemma {:induction false} FlattenShort(ls: seq<seq<JsString>>)
    requires forall k | 0 <= k < |ls| :: Short(ls[k])
    ensures Short(Flatten(ls))
  {
    if ls != [] {
      FlattenShort(ls[1..]);
      assert Short(ls[0]);
    }
  }

  /** The header's physical lines are short lines, then the description line, which is last. */
  lemma HeaderPhysicalShape(calendarName: JsString, caldesc: JsString)
    ensures var hp := HeaderPhysical(calendarName, caldesc);
      |hp| == DescriptionIndex(calendarName) + 1 && hp[|hp| - 1] == CALDESC_PREFIX + caldesc &&
      Short(hp[..|hp| - 1])
  {
    var h := HeaderFields(calendarName, caldesc);
    FoldLinesShape(h[5]);
    var a := h[..5] + FoldLines(h[5]) + [h[6]];
    assert Short(h[..5]);
    assert HeaderPhysical(calendarName, caldesc) == a + [h[7]];
  }

  /**
   * No physical line of the calendar is longer than 75 units, except the
   * description line, which is written unfolded, provided every period's
   * dates have four-digit years.
   */
  lemma PhysicalLineLengths(periods: seq<CalendarPeriod>, calendarName: JsString, caldesc: JsString, wholeDay: bool)
    requires forall k | 0 <= k < |periods| :: FourDigitYears(periods[k].startDate) && FourDigitYears(periods[k].endDate)
    ensures var d, i := PhysicalLines(periods, calendarName, caldesc, wholeDay), DescriptionIndex(calendarName);
      i < |d| && d[i] == CALDESC_PREFIX + caldesc &&
      forall j | 0 <= j < |d| && j != i :: |d[j]| <= 75
  {
    var hp := HeaderPhysical(calendarName, caldesc);
    var e := EventBlockPhysical(periods, wholeDay);
    HeaderPhysicalShape(calendarName, caldesc);
    if periods != [] {
      var ls := EventPhysicalLists(periods, wholeDay);
      forall k | 0 <= k < |ls| ensures Short(ls[k]) {
        EventPhysicalShort(periods[k], wholeDay);
      }
      FlattenShort(ls);
    }
    assert Short(e);
    EndLineShort(hp, e);
  }

  /**
   * With a description of at most 62 units, every physical line of the
   * calendar has at most 75 units, provided every period's dates have
   * four-digit years.
   */
  lemma ShortDescriptionShortLines(periods: seq<CalendarPeriod>, calendarName: JsString, caldesc: JsString, wholeDay: bool)
    requires forall k | 0 <= k < |periods| :: FourDigitYears(periods[k].startDate) && FourDigitYears(periods[k].endDate)
    requires |caldesc| <= 62
    ensures var d, i := PhysicalLines(periods, calendarName, caldesc, wholeDay), DescriptionIndex(calendarName);
      i < |d| && d[i] == CALDESC_PREFIX + caldesc && |d[i]| == 13 + |caldesc| && Short(d)
  {
    PhysicalLineLengths(periods, calendarName, caldesc, wholeDay);
    var d, i := PhysicalLines(periods, calendarName, caldesc, wholeDay), DescriptionIndex(calendarName);
    forall j | 0 <= j < |d| ensures |d[j]| <= 75 {
      if j == i {
        assert |d[j]| == 13 + |caldesc|;
      }
    }
  }

  /** A header that is short up to its last line, then short event lines and the closing line. */
  lemma EndLineShort(hp: seq<JsString>, e: seq<JsString>)
    requires hp != [] && Short(hp[..|hp| - 1]) && Short(e)
    ensures var d := hp + e + [END_VCALENDAR];
      forall j | 0 <= j < |d| && j != |hp| - 1 :: |d[j]| <= 75
  {
    var d := hp + e + [END_VCALENDAR];
    forall j | 0 <= j < |d| && j != |hp| - 1 ensures |d[j]| <= 75 {
      if j < |hp| - 1 {
        assert d[j] == hp[..|hp| - 1][j];
      } else if j < |hp| + |e| {
        assert d[j] == e[j - |hp|];
      }
    }
  }

  /**
   * The description line is not folded: a description of 63 units or more
   * makes a physical line of more than 75 units, one the calendar text
   * contains whole when the description has no carriage return.
   */
  lemma LongDescriptionLine(periods: seq<CalendarPeriod>, calendarName: JsString, caldesc: JsString, wholeDay: bool)
    requires |caldesc| >= 63
    ensures var d, i := PhysicalLines(periods, calendarName, caldesc, wholeDay), DescriptionIndex(calendarName);
      i < |d| && d[i] == CALDESC_PREFIX + caldesc && |d[i]| == 13 + |caldesc| > 75 &&
      (NoCr(caldesc) ==> NoCr(d[i]))
  {
    HeaderPhysicalShape(calendarName, caldesc);
    HeaderPrefixesNoCr();
    if NoCr(caldesc) {
      NoCrAppend(CALDESC_PREFIX, caldesc);
    }
  }

  // ---------------------------------------------------------------------
  // Statistics

  /** The five class labels, the keys the per-class counts start with. */
  const TIDE_LABELS: seq<JsString> := [
    TideCalculator.TideName.Oshio.Label(), TideCalculator.TideName.Nakashio.Label(), TideCalculator.TideName.Koshio.Label(),
    TideCalculator.TideName.Nagashio.Label(), TideCalculator.TideName.Wakashio.Label()]

  /** The five labels are pairwise different. */
  lemma TideLabelsDistinct()
    ensures forall i, j | 0 <= i < j < 5 :: TIDE_LABELS[i] != TIDE_LABELS[j]
  {
    forall i, j | 0 <= i < j < 5 ensures TIDE_LABELS[i] != TIDE_LABELS[j] {
      assert TIDE_LABELS[i][0] != TIDE_LABELS[j][0];
    }
  }

  /** Every label counted zero times. */
  function ZeroCounts(): (m: map<JsString, Number>)
    ensures forall l :: l in m <==> l in TIDE_LABELS
    ensures forall l | l in m :: m[l] == Finite(0.0)
  {
    map l | l in TIDE_LABELS :: Finite(0.0)
  }

  /** JavaScript's `++` on a number. */
  function NumberIncrement(n: Number): (r: Number)
    ensures n.Finite? ==> r == Finite(n.value + 1.0)
    ensures !n.Finite? ==> r == n
  {
    match n
    case Finite(v) => Finite(v + 1.0)
    case _ => n
  }

  /** `tideCount[name]++`: a present count goes up by one; an absent key reads as undefined and becomes NaN. */
  function Incremented(count: map<JsString, Number>, name: JsString): (r: map<JsString, Number>)
    ensures r.Keys == count.Keys + {name}
    ensures forall l | l in count && l != name :: r[l] == count[l]
    ensures r[name] == if name in count then NumberIncrement(count[name]) else NaN
  {
    count[name := if name in count then NumberIncrement(count[name]) else NaN]
  }

  /** The counts after incrementing once for each name, in order, from all zeros. */
  function Tally(names: seq<JsString>): map<JsString, Number>
    decreases |names|
  {
    if names == [] then ZeroCounts()
    else Incremented(Tally(names[..|names| - 1]), names[|names| - 1])
  }

  /** The class labels of the periods, in order. */
  function Names(periods: seq<CalendarPeriod>): (r: seq<JsString>)
    ensures |r| == |periods| && forall k | 0 <= k < |r| :: r[k] == periods[k].tideName
  {
    if periods == [] then [] else [periods[0].tideName] + Names(periods[1..])
  }

  /** `generateTideStatistics`'s result: the count of periods, the per-label counts and the covered range. */
  datatype TideStatistics = TideStatistics(totalPeriods: nat, tideCount: map<JsString, Number>, rangeStart: int, rangeEnd: int)

  /**
   * `generateTideStatistics`: with no periods, zero counts and a range that
   * starts and ends at the current time (read twice, as `nowStart` and
   * `nowEnd`); otherwise the number of periods, the label counts, and the
   * range from the first period's start to the last period's end.
   */
  method GenerateTideStatistics(periods: seq<CalendarPeriod>, nowStart: int, nowEnd: int) returns (stats: TideStatistics)
    ensures periods == [] ==> stats == TideStatistics(0, ZeroCounts(), nowStart, nowEnd)
    ensures periods != [] ==> stats == TideStatistics(|periods|, Tally(Names(periods)), periods[0].startDate, periods[|periods| - 1].endDate)
  {
    if |periods| == 0 {
      return TideStatistics(0, ZeroCounts(), nowStart, nowEnd);
    }
    var tideCount := ZeroCounts();
    ghost var names := Names(periods);
    for i := 0 to |periods|
      invariant tideCount == Tally(names[..i])
    {
      var name := periods[i].tideName;
      if name in tideCount {
        tideCount := tideCount[name := NumberIncrement(tideCount[name])];
      } else {
        tideCount := tideCount[name := NaN];
      }
      assert names[..i + 1][..i] == names[..i];
    }
    assert names[..|periods|] == names;
    stats := TideStatistics(|periods|, tideCount, periods[0].startDate, periods[|periods| - 1].endDate);
  }

  /** When every name is a label, each label's count is the number of times it occurs. */
  lemma {:induction false} TallyOfLabels(names: seq<JsString>, l: JsString)
    requires forall k | 0 <= k < |names| :: names[k] in TIDE_LABELS
    requires l in TIDE_LABELS
    ensures l in Tally(names) && Tally(names)[l] == Finite(multiset(names)[l] as real)
    decreases |names|
  {
    if names != [] {
      var init, x := names[..|names| - 1], names[|names| - 1];
      TallyOfLabels(init, l);
      assert names == init + [x];
      assert multiset(names) == multiset(init) + multiset{x};
    }
  }

  /** The counts have exactly the five labels and the names as keys. */
  lemma {:induction false} TallyKeys(names: seq<JsString>)
    ensures forall l :: l in Tally(names) <==> l in TIDE_LABELS || l in names
    decreases |names|
  {
    if names != [] {
      var init := names[..|names| - 1];
      TallyKeys(init);
      assert names == init + [names[|names| - 1]];
    }
  }

  /** A name that is not a label counts as NaN. */
  lemma {:induction false} TallyUnknown(names: seq<JsString>, x: JsString)
    requires x in names && x !in TIDE_LABELS
    ensures x in Tally(names) && Tally(names)[x] == NaN
    decreases |names|
  {
    var init, last := names[..|names| - 1], names[|names| - 1];
    assert names == init + [last];
    if x in init {
      TallyUnknown(init, x);
    } else {
      TallyKeys(init);
    }
  }

  /** When every name is a label, the five counts add up to the number of names. */
  lemma {:induction false} LabelCountsSum(names: seq<JsString>)
    requires forall k | 0 <= k < |names| :: names[k] in TIDE_LABELS
    ensures var m := multiset(names);
      m[TIDE_LABELS[0]] + m[TIDE_LABELS[1]] + m[TIDE_LABELS[2]] + m[TIDE_LABELS[3]] + m[TIDE_LABELS[4]] == |names|
    decreases |names|
  {
    if names != [] {
      var init, x := names[..|names| - 1], names[|names| - 1];
      LabelCountsSum(init);
      assert names == init + [x];
      assert multiset(names) == multiset(init) + multiset{x};
      TideLabelsDistinct();
    }
  }

  /** For periods labelled with the five classes, the statistics count each class and the counts add up to the number of periods. */
  lemma StatisticsCountPeriods(periods: seq<CalendarPeriod>)
    requires forall k | 0 <= k < |periods| :: periods[k].tideName in TIDE_LABELS
    ensures var c, m := Tally(Names(periods)), multiset(Names(periods));
      forall i | 0 <= i < 5 :: TIDE_LABELS[i] in c && c[TIDE_LABELS[i]] == Finite(m[TIDE_LABELS[i]] as real)
    ensures Tally(Names(periods)).Keys == set l | l in TIDE_LABELS
    ensures var c := Tally(Names(periods));
      c[TIDE_LABELS[0]].value + c[TIDE_LABELS[1]].value + c[TIDE_LABELS[2]].value
        + c[TIDE_LABELS[3]].value + c[TIDE_LABELS[4]].value == |periods| as real
  {
    var names := Names(periods);
    NamesAreLabels(periods);
    LabelTally(names);
    LabelTallyKeys(names);
    LabelTallySum(names);
  }

  /** The names of periods labelled with the five classes are labels. */
  lemma NamesAreLabels(periods: seq<CalendarPeriod>)
    requires forall k | 0 <= k < |periods| :: periods[k].tideName in TIDE_LABELS
    ensures forall k | 0 <= k < |Names(periods)| :: Names(periods)[k] in TIDE_LABELS
  {}

  /** Each label's count is the number of times it occurs among names that are all labels. */
  lemma LabelTally(names: seq<JsString>)
    requires forall k | 0 <= k < |names| :: names[k] in TIDE_LABELS
    ensures var c, m := Tally(names), multiset(names);
      forall i | 0 <= i < 5 :: TIDE_LABELS[i] in c && c[TIDE_LABELS[i]] == Finite(m[TIDE_LABELS[i]] as real)
  {
    forall i | 0 <= i < 5 ensures TIDE_LABELS[i] in Tally(names) && Tally(names)[TIDE_LABELS[i]] == Finite(multiset(names)[TIDE_LABELS[i]] as real) {
      TallyOfLabels(names, TIDE_LABELS[i]);
    }
  }

  /** When every name is a label, the counts have exactly the five labels as keys. */
  lemma LabelTallyKeys(names: seq<JsString>)
    requires forall k | 0 <= k < |names| :: names[k] in TIDE_LABELS
    ensures Tally(names).Keys == set l | l in TIDE_LABELS
  {
    TallyKeys(names);
  }

  /** When every name is a label, the five counts add up to the number of names. */
  lemma LabelTallySum(names: seq<JsString>)
    requires forall k | 0 <= k < |names| :: names[k] in TIDE_LABELS
    ensures var c, m := Tally(names), multiset(names);
      forall i | 0 <= i < 5 :: TIDE_LABELS[i] in c && c[TIDE_LABELS[i]] == Finite(m[TIDE_LABELS[i]] as real)
    ensures var c := Tally(names);
      c[TIDE_LABELS[0]].value + c[TIDE_LABELS[1]].value + c[TIDE_LABELS[2]].value
        + c[TIDE_LABELS[3]].value + c[TIDE_LABELS[4]].value == |names| as real
  {
    LabelTally(names);
    LabelCountsSum(names);
  }
}
