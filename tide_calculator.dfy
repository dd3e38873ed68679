/**
 * The tide classes of the Japanese tide calendar (大潮 spring tide, 中潮
 * middle tide, 小潮 neap tide, 長潮 long tide, 若潮 young tide), read off the
 * moon's elongation from the sun, and the grouping of consecutive days of
 * the same class into periods.
 */
module TideCalculator {
  import opened Wrappers
  import opened JsText
  import opened JsNumber
  import opened MoonPhase

  /** The five tide classes. */
  datatype TideName = Oshio | Nakashio | Koshio | Nagashio | Wakashio
  {
    /** The class's name as the calendar writes it. */
    function Label(): (s: JsString)
      ensures |s| == 2
    {
      match this
      case Oshio => Str("大潮")
      case Nakashio => Str("中潮")
      case Koshio => Str("小潮")
      case Nagashio => Str("長潮")
      case Wakashio => Str("若潮")
    }
  }

  /** One row of the classification table: elongations in [start, end) degrees, wrapping past 360 when start > end. */
  datatype TideRule = TideRule(name: TideName, startLongitude: int, endLongitude: int, duration: nat)

  /** The classification table, searched in order. */
  const TIDE_RULES: seq<TideRule> := [
    TideRule(Oshio, 343, 31, 4),
    TideRule(Nakashio, 31, 67, 3),
    TideRule(Koshio, 67, 103, 3),
    TideRule(Nagashio, 103, 115, 1),
    TideRule(Wakashio, 115, 127, 1),
    TideRule(Nakashio, 127, 163, 3),
    TideRule(Oshio, 163, 211, 4),
    TideRule(Nakashio, 211, 247, 3),
    TideRule(Koshio, 247, 283, 3),
    TideRule(Nagashio, 283, 295, 1),
    TideRule(Wakashio, 295, 307, 1),
    TideRule(Nakashio, 307, 343, 3)
  ]

  /** `((x % 360) + 360) % 360` with the remainder of the `%` operator. */
  function NormalizeAngle(x: real): (a: real)
    ensures 0.0 <= a < 360.0
  {
    JsRemainder(JsRemainder(x, 360.0) + 360.0, 360.0)
  }

  /** The normalised angle is the floored modulus of the angle by 360. */
  lemma NormalizeIsFloorMod(x: real)
    ensures NormalizeAngle(x) == x - 360.0 * (x / 360.0).Floor as real
  {
    var q := x / 360.0;
    var k := Trunc(q);
    if q < 0.0 && (k as real) != q {
      assert q.Floor == k - 1;
    }
  }

  /** Angles a full turn apart normalise alike; angles already in [0, 360) are unchanged. */
  lemma NormalizePeriodic(x: real)
    ensures NormalizeAngle(x + 360.0) == NormalizeAngle(x)
    ensures 0.0 <= x < 360.0 ==> NormalizeAngle(x) == x
  {
    NormalizeIsFloorMod(x);
    NormalizeIsFloorMod(x + 360.0);
    var q := x / 360.0;
    assert (x + 360.0) / 360.0 == q + 1.0;
    assert (q + 1.0).Floor == q.Floor + 1;
    if 0.0 <= x < 360.0 {
      assert q.Floor == 0;
    }
  }

  /** `isInRange`: inside [start, end), or for a wrapping range, at or past start or before end. */
  predicate IsInRange(angle: real, start: int, end: int) {
    if start <= end then angle >= start as real && angle < end as real
    else angle >= start as real || angle < end as real
  }

  /** How far round the circle, counter-clockwise, angle `a` lies from `start` (both in [0, 360)). */
  function ArcOffset(a: real, start: real): (d: real)
    requires 0.0 <= a < 360.0 && 0.0 <= start < 360.0
    ensures 0.0 <= d < 360.0
  {
    if a >= start then a - start else a - start + 360.0
  }

  /** A range holds exactly the angles on the arc going counter-clockwise from its start to its end, whether or not it wraps past 0. */
  lemma IsInRangeIsArc(a: real, start: int, end: int)
    requires 0.0 <= a < 360.0 && 0 <= start < 360 && 0 <= end < 360 && start != end
    ensures IsInRange(a, start, end) <==> ArcOffset(a, start as real) < ArcOffset(end as real, start as real)
  {}

  /** The name of the first rule of `rules`, from index `from` on, whose range holds `angle`; None when no rule does. */
  function FirstMatch(rules: seq<TideRule>, angle: real, from: nat): Option<TideName>
    requires from <= |rules|
    decreases |rules| - from
  {
    if from == |rules| then None
    else if IsInRange(angle, rules[from].startLongitude, rules[from].endLongitude) then Some(rules[from].name)
    else FirstMatch(rules, angle, from + 1)
  }

  /** `determineTideName`: the first rule holding the normalised elongation; 大潮 when none does. */
  function DetermineTideName(longitudeDifference: real): TideName {
    match FirstMatch(TIDE_RULES, NormalizeAngle(longitudeDifference), 0)
    case Some(name) => name
    case None => Oshio
  }

  /** The tide class of a normalised elongation, read across the circle: the table as a step function. */
  function TideNameAt(a: real): TideName {
    if a < 31.0 then Oshio else if a < 67.0 then Nakashio else if a < 103.0 then Koshio
    else if a < 115.0 then Nagashio else if a < 127.0 then Wakashio else if a < 163.0 then Nakashio
    else if a < 211.0 then Oshio else if a < 247.0 then Nakashio else if a < 283.0 then Koshio
    else if a < 295.0 then Nagashio else if a < 307.0 then Wakashio else if a < 343.0 then Nakashio
    else Oshio
  }

  /** The index of the rule whose range holds a normalised elongation. */
  function RuleIndex(a: real): (i: nat)
    requires 0.0 <= a < 360.0
    ensures i < |TIDE_RULES|
    ensures IsInRange(a, TIDE_RULES[i].startLongitude, TIDE_RULES[i].endLongitude)
    ensures TIDE_RULES[i].name == TideNameAt(a)
  {
    if a < 31.0 || a >= 343.0 then 0 else if a < 67.0 then 1 else if a < 103.0 then 2
    else if a < 115.0 then 3 else if a < 127.0 then 4 else if a < 163.0 then 5
    else if a < 211.0 then 6 else if a < 247.0 then 7 else if a < 283.0 then 8
    else if a < 295.0 then 9 else if a < 307.0 then 10 else 11
  }

  /** The table's ranges cover [0, 360) without overlap: the angle lies in the range of its rule and of no other. */
  lemma RulesPartitionCircle(a: real)
    requires 0.0 <= a < 360.0
    ensures forall j | 0 <= j < |TIDE_RULES| ::
      IsInRange(a, TIDE_RULES[j].startLongitude, TIDE_RULES[j].endLongitude) <==> j == RuleIndex(a)
  {}

  /** Each range ends where the next begins, and the last wraps round to the first: the ranges tile the circle in table order. */
  lemma RulesAreContiguous()
    ensures forall i | 0 <= i < |TIDE_RULES| - 1 :: TIDE_RULES[i].endLongitude == TIDE_RULES[i + 1].startLongitude
    ensures TIDE_RULES[|TIDE_RULES| - 1].endLongitude == TIDE_RULES[0].startLongitude
  {}

  /** The search returns the first rule whose range holds the angle, and None only when no rule holds it. */
  lemma {:induction false} FirstMatchIsFirst(rules: seq<TideRule>, a: real, from: nat)
    requires from <= |rules|
    ensures forall i | from <= i < |rules| ::
      IsInRange(a, rules[i].startLongitude, rules[i].endLongitude) &&
      (forall j | from <= j < i :: !IsInRange(a, rules[j].startLongitude, rules[j].endLongitude))
      ==> FirstMatch(rules, a, from) == Some(rules[i].name)
    ensures FirstMatch(rules, a, from) == None <==>
      forall i | from <= i < |rules| :: !IsInRange(a, rules[i].startLongitude, rules[i].endLongitude)
    decreases |rules| - from
  {
    if from < |rules| {
      FirstMatchIsFirst(rules, a, from + 1);
    }
  }

  /** The fallback is never taken: the class is that of the one rule holding the normalised elongation, i.e. the step function. */
  lemma DetermineTideNameByRule(x: real)
    ensures var a := NormalizeAngle(x);
      DetermineTideName(x) == TIDE_RULES[RuleIndex(a)].name == TideNameAt(a)
  {
    var a := NormalizeAngle(x);
    RulesPartitionCircle(a);
    FirstMatchIsFirst(TIDE_RULES, a, 0);
  }

  /** The class at each range boundary and near the end of the circle. */
  lemma TideNameBoundaries()
    ensures DetermineTideName(0.0) == Oshio && DetermineTideName(31.0) == Nakashio
    ensures DetermineTideName(67.0) == Koshio && DetermineTideName(103.0) == Nagashio
    ensures DetermineTideName(115.0) == Wakashio && DetermineTideName(343.0) == Oshio
    ensures DetermineTideName(359.9) == Oshio && DetermineTideName(360.0) == Oshio
  {
    LowerBoundaries();
    UpperBoundaries();
  }

  /** The class at the first four range boundaries. */
  lemma LowerBoundaries()
    ensures DetermineTideName(0.0) == Oshio && DetermineTideName(31.0) == Nakashio
    ensures DetermineTideName(67.0) == Koshio && DetermineTideName(103.0) == Nagashio
  {
    NameOnCircle(0.0);
    NameOnCircle(31.0);
    NameOnCircle(67.0);
    NameOnCircle(103.0);
  }

  /** The class at the later boundaries, near the end of the circle and a full turn round. */
  lemma UpperBoundaries()
    ensures DetermineTideName(115.0) == Wakashio && DetermineTideName(343.0) == Oshio
    ensures DetermineTideName(359.9) == Oshio && DetermineTideName(360.0) == Oshio
  {
    NameOnCircle(115.0);
    NameOnCircle(343.0);
    NameOnCircle(359.9);
    FullTurn();
  }

  /** A full turn is new moon again. */
  lemma FullTurn()
    ensures DetermineTideName(360.0) == Oshio
  {
    NormalizePeriodic(0.0);
    DetermineTideNameByRule(360.0);
  }

  /** An elongation already in [0, 360) is classified by the step function directly. */
  lemma NameOnCircle(x: real)
    requires 0.0 <= x < 360.0
    ensures DetermineTideName(x) == TideNameAt(x)
  {
    NormalizePeriodic(x);
    DetermineTideNameByRule(x);
  }

  /** The classes repeat every half turn: the moon new or full, or at either quarter, gives the same tide. */
  lemma TideNameHalfTurnSymmetric(x: real)
    ensures DetermineTideName(x + 180.0) == DetermineTideName(x)
  {
    DetermineTideNameByRule(x);
    DetermineTideNameByRule(x + 180.0);
    var a := NormalizeAngle(x);
    var b := NormalizeAngle(x + 180.0);
    NormalizeIsFloorMod(x);
    NormalizeIsFloorMod(x + 180.0);
    var q := x / 360.0;
    assert (x + 180.0) / 360.0 == q + 0.5;
    if a < 180.0 {
      assert (q + 0.5).Floor == q.Floor;
      assert b == a + 180.0;
    } else {
      assert (q + 0.5).Floor == q.Floor + 1;
      assert b == a - 180.0;
    }
    StepFunctionHalfTurn(a, b);
  }

  lemma StepFunctionHalfTurn(a: real, b: real)
    requires 0.0 <= a < 360.0
    requires b == if a < 180.0 then a + 180.0 else a - 180.0
    ensures TideNameAt(b) == TideNameAt(a)
  {}

  /** `getTideDescription`: a short explanation of each class. */
  function GetTideDescription(tideName: TideName): (d: JsString)
    ensures d != []
  {
    match tideName
    case Oshio => Str("満潮と干潮の差が最も大きい時期")
    case Nakashio => Str("大潮と小潮の中間の潮汐")
    case Koshio => Str("満潮と干潮の差が最も小さい時期")
    case Nagashio => Str("小潮の終わりで潮の動きが緩やかな時期")
    case Wakashio => Str("小潮から大潮に向かう時期")
  }

  /** Different classes have different labels and different descriptions. */
  lemma LabelsAndDescriptionsDistinct(a: TideName, b: TideName)
    requires a != b
    ensures a.Label() != b.Label()
    ensures GetTideDescription(a) != GetTideDescription(b)
  {
    assert a.Label()[0] != b.Label()[0];
    var da, db := GetTideDescription(a), GetTideDescription(b);
    if |da| == |db| {
      // only 大潮 and 小潮 have descriptions of the same length; they differ at the tenth unit
      assert da[10] != db[10];
    }
  }

  // ---------------------------------------------------------------------
  // Periods of consecutive days of one class

  /** A run of consecutive days of one class: its first and last day and the first day's glyph. */
  datatype TidePeriod = TidePeriod(tideName: TideName, startDate: int, endDate: int, emoji: JsString)

  /** The class `classify` gives each row of the per-day table. */
  function NamesBy(phases: seq<MoonPhaseDay>, classify: real -> TideName): (names: seq<TideName>)
    ensures |names| == |phases|
    ensures forall k | 0 <= k < |phases| :: names[k] == classify(phases[k].longitudeDifference)
  {
    seq(|phases|, k requires 0 <= k < |phases| => classify(phases[k].longitudeDifference))
  }

  /** The tide class of each row. */
  function Names(phases: seq<MoonPhaseDay>): (names: seq<TideName>)
    ensures |names| == |phases|
    ensures forall k | 0 <= k < |phases| :: names[k] == DetermineTideName(phases[k].longitudeDifference)
  {
    NamesBy(phases, DetermineTideName)
  }

  /** The last index of the run of equal classes that starts at `i`. */
  function RunEnd(names: seq<TideName>, i: nat): (j: nat)
    requires i < |names|
    ensures i <= j < |names|
    ensures forall m | i <= m <= j :: names[m] == names[i]
    ensures j + 1 < |names| ==> names[j + 1] != names[i]
    decreases |names| - i
  {
    if i + 1 < |names| && names[i + 1] == names[i] then RunEnd(names, i + 1) else i
  }

  /** A run is determined by its start: any `j` with the run's two properties is the run's end. */
  lemma RunEndAt(names: seq<TideName>, i: nat, j: nat)
    requires i <= j < |names|
    requires forall m | i <= m <= j :: names[m] == names[i]
    requires j + 1 < |names| ==> names[j + 1] != names[i]
    ensures RunEnd(names, i) == j
  {}

  /** The periods of rows `i` onwards, given each row's class: one per maximal run of equal classes. */
  function PeriodsFrom(phases: seq<MoonPhaseDay>, names: seq<TideName>, i: nat): seq<TidePeriod>
    requires |names| == |phases| && i <= |phases|
    decreases |phases| - i
  {
    if i == |phases| then []
    else
      var j := RunEnd(names, i);
      [TidePeriod(names[i], phases[i].date, phases[j].date, phases[i].emoji)] + PeriodsFrom(phases, names, j + 1)
  }

  /** A run from `i` to `j` contributes one period from row `i`'s date to row `j`'s, then the periods after `j`. */
  lemma PeriodsFromRun(phases: seq<MoonPhaseDay>, names: seq<TideName>, i: nat, j: nat)
    requires |names| == |phases| && i <= j < |phases|
    requires forall m | i <= m <= j :: names[m] == names[i]
    requires j + 1 < |names| ==> names[j + 1] != names[i]
    ensures PeriodsFrom(phases, names, i) ==
      [TidePeriod(names[i], phases[i].date, phases[j].date, phases[i].emoji)] + PeriodsFrom(phases, names, j + 1)
  {
    RunEndAt(names, i, j);
  }

  /** The periods of a whole table. */
  function TidePeriods(phases: seq<MoonPhaseDay>): seq<TidePeriod> {
    PeriodsFrom(phases, Names(phases), 0)
  }

  /** `calculateTidePeriods`: the periods of the rows, classified by `determineTideName`. */
  method CalculateTidePeriods(moonPhases: seq<MoonPhaseDay>) returns (tidePeriods: seq<TidePeriod>)
    ensures tidePeriods == TidePeriods(moonPhases)
  {
    tidePeriods := GroupRuns(moonPhases, DetermineTideName);
  }

  /**
   * The loop of `calculateTidePeriods`, for any classification of the rows:
   * walk the rows, closing the current period on the previous row whenever
   * the class changes, and close the last period on the last row.
   */
  method GroupRuns(moonPhases: seq<MoonPhaseDay>, classify: real -> TideName) returns (tidePeriods: seq<TidePeriod>)
    ensures tidePeriods == PeriodsFrom(moonPhases, NamesBy(moonPhases, classify), 0)
  {
    if |moonPhases| == 0 {
      return [];
    }
    ghost var names := NamesBy(moonPhases, classify);
    tidePeriods := [];
    var currentTide := classify(moonPhases[0].longitudeDifference);
    var periodStart := moonPhases[0].date;
    var periodEmoji := moonPhases[0].emoji;
    ghost var s := 0;
    for i := 1 to |moonPhases|
      invariant 0 <= s < i
      invariant currentTide == names[s] && periodStart == moonPhases[s].date && periodEmoji == moonPhases[s].emoji
      invariant forall m | s <= m < i :: names[m] == names[s]
      invariant tidePeriods + PeriodsFrom(moonPhases, names, s) == PeriodsFrom(moonPhases, names, 0)
    {
      var newTide := classify(moonPhases[i].longitudeDifference);
      if newTide != currentTide {
        RunEndAt(names, s, i - 1);
        CloseRun(moonPhases, names, tidePeriods, PeriodsFrom(moonPhases, names, 0), s, i);
        tidePeriods := tidePeriods + [TidePeriod(currentTide, periodStart, moonPhases[i - 1].date, periodEmoji)];
        currentTide := newTide;
        periodStart := moonPhases[i].date;
        periodEmoji := moonPhases[i].emoji;
        s := i;
      }
    }
    RunEndAt(names, s, |moonPhases| - 1);
    CloseRun(moonPhases, names, tidePeriods, PeriodsFrom(moonPhases, names, 0), s, |moonPhases|);
    assert PeriodsFrom(moonPhases, names, |moonPhases|) == [];
    tidePeriods := tidePeriods + [TidePeriod(currentTide, periodStart, moonPhases[|moonPhases| - 1].date, periodEmoji)];
  }

  /** Closing the run from `s` to `i - 1` when row `i` changes class moves its period from the pending rows to the finished ones. */
  lemma CloseRun(phases: seq<MoonPhaseDay>, names: seq<TideName>, done: seq<TidePeriod>, all: seq<TidePeriod>, s: nat, i: nat)
    requires |names| == |phases| && s < i <= |phases|
    requires RunEnd(names, s) == i - 1
    requires done + PeriodsFrom(phases, names, s) == all
    ensures (done + [TidePeriod(names[s], phases[s].date, phases[i - 1].date, phases[s].emoji)]) + PeriodsFrom(phases, names, i) == all
  {
    var closed := TidePeriod(names[s], phases[s].date, phases[i - 1].date, phases[s].emoji);
    MoveFirst(done, closed, PeriodsFrom(phases, names, i), PeriodsFrom(phases, names, s), all);
  }

  /** Moving the first of the pending periods to the finished ones keeps their concatenation. */
  lemma MoveFirst(done: seq<TidePeriod>, p: TidePeriod, rest: seq<TidePeriod>, pending: seq<TidePeriod>, all: seq<TidePeriod>)
    requires pending == [p] + rest && done + pending == all
    ensures (done + [p]) + rest == all
  {
    assert (done + [p]) + rest == done + ([p] + rest);
  }

  /** The indices where the runs of equal classes from `i` on begin. */
  function RunStarts(names: seq<TideName>, i: nat): seq<nat>
    requires i <= |names|
    decreases |names| - i
  {
    if i == |names| then [] else [i] + RunStarts(names, RunEnd(names, i) + 1)
  }

  /**
   * Period `p`, the `k`-th, covers the rows from `starts[k]` up to the row
   * before the next start (the last row for the last period): it has their
   * common class, the first row's date and glyph and the last row's date,
   * and the row after it has another class.
   */
  ghost predicate CoversRun(phases: seq<MoonPhaseDay>, names: seq<TideName>, starts: seq<nat>, k: nat, p: TidePeriod)
    requires |names| == |phases| && k < |starts|
  {
    var last := if k + 1 < |starts| then starts[k + 1] - 1 else |phases| - 1;
    starts[k] <= last < |phases|
    && p == TidePeriod(names[starts[k]], phases[starts[k]].date, phases[last].date, phases[starts[k]].emoji)
    && (forall m | starts[k] <= m <= last :: names[m] == p.tideName)
    && (last + 1 < |phases| ==> names[last + 1] != p.tideName)
  }

  lemma {:induction false} PeriodsFromCoverRuns(phases: seq<MoonPhaseDay>, names: seq<TideName>, i: nat)
    requires |names| == |phases| && i <= |phases|
    ensures var starts, ps := RunStarts(names, i), PeriodsFrom(phases, names, i);
      |starts| == |ps| && (|starts| > 0 ==> starts[0] == i) &&
      forall k | 0 <= k < |starts| :: CoversRun(phases, names, starts, k, ps[k])
    decreases |phases| - i
  {
    if i < |phases| {
      var j := RunEnd(names, i);
      PeriodsFromCoverRuns(phases, names, j + 1);
      var rest, restPs := RunStarts(names, j + 1), PeriodsFrom(phases, names, j + 1);
      var starts, ps := RunStarts(names, i), PeriodsFrom(phases, names, i);
      var first := TidePeriod(names[i], phases[i].date, phases[j].date, phases[i].emoji);
      assert starts == [i] + rest;
      assert ps == [first] + restPs;
      CoversFirstRun(phases, names, i, rest);
      forall k | 0 <= k < |starts| ensures CoversRun(phases, names, starts, k, ps[k]) {
        if k > 0 {
          CoversRunCons(phases, names, i, rest, k - 1, restPs[k - 1]);
        }
      }
    }
  }

  /** The run starting at `i` is covered by its period, the next run starting after its end. */
  lemma CoversFirstRun(phases: seq<MoonPhaseDay>, names: seq<TideName>, i: nat, rest: seq<nat>)
    requires |names| == |phases| && i < |phases|
    requires rest == RunStarts(names, RunEnd(names, i) + 1)
    requires |rest| > 0 ==> rest[0] == RunEnd(names, i) + 1
    ensures var j := RunEnd(names, i);
      CoversRun(phases, names, [i] + rest, 0, TidePeriod(names[i], phases[i].date, phases[j].date, phases[i].emoji))
  {
    var j := RunEnd(names, i);
    assert rest == [] <==> j + 1 == |phases|;
  }

  /** A covered run stays covered, one place on, when a run start is put in front. */
  lemma CoversRunCons(phases: seq<MoonPhaseDay>, names: seq<TideName>, i: nat, rest: seq<nat>, k: nat, p: TidePeriod)
    requires |names| == |phases| && k < |rest|
    requires CoversRun(phases, names, rest, k, p)
    ensures CoversRun(phases, names, [i] + rest, k + 1, p)
  {
    var starts := [i] + rest;
    assert starts[k + 1] == rest[k];
    assert k + 2 < |starts| ==> starts[k + 2] == rest[k + 1];
  }

  /**
   * The periods split the rows into maximal runs of one class: there is a
   * period exactly when there is a row; the first starts on the first row;
   * each covers a run of rows as `CoversRun` says, the next starting on the
   * row after; and neighbouring periods have different classes.
   */
  lemma TidePeriodsAreMaximalRuns(phases: seq<MoonPhaseDay>)
    ensures var names, ps := Names(phases), TidePeriods(phases);
      var starts := RunStarts(names, 0);
      (ps == [] <==> phases == []) &&
      |starts| == |ps| && (ps != [] ==> starts[0] == 0) &&
      (forall k | 0 <= k < |ps| :: CoversRun(phases, names, starts, k, ps[k])) &&
      (forall k | 0 <= k < |ps| - 1 :: ps[k].tideName != ps[k + 1].tideName)
  {
    var names, ps := Names(phases), TidePeriods(phases);
    var starts := RunStarts(names, 0);
    PeriodsFromCoverRuns(phases, names, 0);
    forall k | 0 <= k < |ps| - 1 ensures ps[k].tideName != ps[k + 1].tideName {
      assert CoversRun(phases, names, starts, k, ps[k]);
      assert CoversRun(phases, names, starts, k + 1, ps[k + 1]);
    }
  }

  /** Rows that all have one class make one period, from the first row's date to the last row's. */
  lemma OneClassOnePeriod(phases: seq<MoonPhaseDay>)
    requires phases != []
    requires forall k | 0 <= k < |phases| ::
      DetermineTideName(phases[k].longitudeDifference) == DetermineTideName(phases[0].longitudeDifference)
    ensures TidePeriods(phases) ==
      [TidePeriod(DetermineTideName(phases[0].longitudeDifference), phases[0].date, phases[|phases| - 1].date, phases[0].emoji)]
  {
    var names := Names(phases);
    RunEndAt(names, 0, |phases| - 1);
    assert PeriodsFrom(phases, names, |phases|) == [];
  }

  /** When the class changes from every row to the next, each row is a period of its own. */
  lemma {:induction false} EveryChangeOnePeriodPerRow(phases: seq<MoonPhaseDay>, names: seq<TideName>, i: nat)
    requires |names| == |phases| && i <= |phases|
    requires forall k | 0 <= k < |names| - 1 :: names[k] != names[k + 1]
    ensures var ps := PeriodsFrom(phases, names, i);
      |ps| == |phases| - i &&
      forall k | 0 <= k < |ps| ::
        ps[k] == TidePeriod(names[i + k], phases[i + k].date, phases[i + k].date, phases[i + k].emoji)
    decreases |phases| - i
  {
    if i < |phases| {
      RunEndAt(names, i, i);
      EveryChangeOnePeriodPerRow(phases, names, i + 1);
      var ps := PeriodsFrom(phases, names, i);
      var rest := PeriodsFrom(phases, names, i + 1);
      assert ps == [TidePeriod(names[i], phases[i].date, phases[i].date, phases[i].emoji)] + rest;
      forall k | 0 <= k < |ps|
        ensures ps[k] == TidePeriod(names[i + k], phases[i + k].date, phases[i + k].date, phases[i + k].emoji)
      {
        if k > 0 {
          assert ps[k] == rest[k - 1];
        }
      }
    }
  }

  /** The number of rows in each run from `i` on. */
  function RunLengths(names: seq<TideName>, i: nat): seq<nat>
    requires i <= |names|
    decreases |names| - i
  {
    if i == |names| then [] else [RunEnd(names, i) - i + 1] + RunLengths(names, RunEnd(names, i) + 1)
  }

  function Sum(xs: seq<nat>): nat {
    if xs == [] then 0 else xs[0] + Sum(xs[1..])
  }

  /** Every period covers at least one row, and the periods' row counts add up to the number of rows. */
  lemma {:induction false} RunLengthsSum(phases: seq<MoonPhaseDay>, names: seq<TideName>, i: nat)
    requires |names| == |phases| && i <= |phases|
    ensures |RunLengths(names, i)| == |PeriodsFrom(phases, names, i)|
    ensures forall k | 0 <= k < |RunLengths(names, i)| :: RunLengths(names, i)[k] >= 1
    ensures Sum(RunLengths(names, i)) == |phases| - i
    decreases |phases| - i
  {
    if i < |phases| {
      var j := RunEnd(names, i);
      RunLengthsSum(phases, names, j + 1);
      var ls := RunLengths(names, i);
      assert ls == [j - i + 1] + RunLengths(names, j + 1);
      assert ls[1..] == RunLengths(names, j + 1);
    }
  }
}
