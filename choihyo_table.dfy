/**
 * The station table of the harmonic-constant pages (`download.ts`): the
 * header rows, whose cells span several columns and rows, are laid out on a
 * grid and flattened into one `/`-joined name per column; data rows whose
 * cell count differs from the number of names are skipped; latitude and
 * longitude cells written as degrees and minutes are read into numbers.
 */
module ChoihyoTable {
  import opened Wrappers
  import opened JsText
  import opened JsNumber

  // ---------------------------------------------------------------------
  // The header grid

  /** A `colspan` or `rowspan` as the page gives it: a positive count. */
  type Span = n: int | n >= 1 witness 1

  /** One `th` of a header row: its label and how many columns and rows it covers. */
  datatype HeaderCell = HeaderCell(abbr: JsString, colspan: Span, rowspan: Span)

  /** A row of the grid: a sparse array, `None` where nothing was written (`undefined`). */
  type Row = seq<Option<JsString>>

  /** The grid, one row per header row. */
  type Grid = seq<Row>

  /** `table[r][c]` is truthy: a string other than the empty string. */
  predicate Occupied(row: Row, c: nat) {
    c < |row| && row[c].Some? && row[c].value != []
  }

  /** `while (table[rowIndex][colIndex]) colIndex++`: the first column from `c` on that is not occupied. */
  function FirstFree(row: Row, c: nat): (r: nat)
    ensures c <= r && !Occupied(row, r)
    ensures forall k | c <= k < r :: Occupied(row, k)
    decreases |row| - c
  {
    if Occupied(row, c) then FirstFree(row, c + 1) else c
  }

  /** `row[k] = v` on a JavaScript array: past the end the array grows, with holes up to `k`. */
  function SetSlot(row: Row, k: nat, v: JsString): (r: Row)
    ensures |r| == if k < |row| then |row| else k + 1
    ensures r[k] == Some(v)
    ensures forall i | 0 <= i < |r| && i != k :: r[i] == if i < |row| then row[i] else None
  {
    if k < |row| then row[k := Some(v)] else row + seq(k - |row|, _ => None) + [Some(v)]
  }

  /** The length of `row` once columns `c` to `c + n - 1` are written. */
  function Reach(row: Row, c: nat, n: nat): nat {
    if n == 0 || c + n <= |row| then |row| else c + n
  }

  /** `row` with columns `c` to `c + n - 1` holding `v`; the other columns as they were, holes where the row grew. */
  function Filled(row: Row, c: nat, n: nat, v: JsString): (r: Row)
    ensures |r| == Reach(row, c, n) && |r| >= |row|
  {
    seq(Reach(row, c, n), k requires 0 <= k => if c <= k < c + n then Some(v) else if k < |row| then row[k] else None)
  }

  /** Writing one more column extends the written run by one. */
  lemma FilledStep(row: Row, c: nat, j: nat, v: JsString)
    ensures SetSlot(Filled(row, c, j, v), c + j, v) == Filled(row, c, j + 1, v)
  {
    var a := SetSlot(Filled(row, c, j, v), c + j, v);
    var b := Filled(row, c, j + 1, v);
    assert |a| == |b|;
    forall k | 0 <= k < |a|
      ensures a[k] == b[k]
    {
    }
  }

  /** Writing no column leaves the row as it was. */
  lemma FilledNone(row: Row, c: nat, v: JsString)
    ensures Filled(row, c, 0, v) == row
  {
  }

  /**
   * The grid after `cell` is written into rows `r` to `r + rowspan - 1`,
   * columns `col` to `col + colspan - 1`; `None` when a row below the grid is
   * reached (`table[rowIndex + i]` is `undefined` and the write throws).
   */
  function Place(g: Grid, r: nat, col: nat, cell: HeaderCell): (res: Option<Grid>)
    requires r < |g|
    ensures res.None? <==> r + cell.rowspan > |g|
    ensures res.Some? ==> |res.value| == |g|
  {
    if r + cell.rowspan > |g| then None
    else Some(seq(|g|, k requires 0 <= k < |g| =>
      if r <= k < r + cell.rowspan then Filled(g[k], col, cell.colspan, cell.abbr) else g[k]))
  }

  /**
   * A placed cell holds every slot of its rectangle; every other row is
   * unchanged, and in its own rows every other slot that existed keeps its
   * value.
   */
  lemma PlaceWrites(g: Grid, r: nat, col: nat, cell: HeaderCell)
    requires r + cell.rowspan <= |g|
    ensures var h := Place(g, r, col, cell).value;
      && (forall k, c | r <= k < r + cell.rowspan && col <= c < col + cell.colspan :: c < |h[k]| && h[k][c] == Some(cell.abbr))
      && (forall k | 0 <= k < |g| && !(r <= k < r + cell.rowspan) :: h[k] == g[k])
      && (forall k, c | r <= k < r + cell.rowspan && 0 <= c < |g[k]| && !(col <= c < col + cell.colspan) :: c < |h[k]| && h[k][c] == g[k][c])
  {
  }

  /**
   * The cells of header row `r`, from the first on, placed one after the
   * other: each at the first free column from where the previous one ended.
   */
  function PlaceRow(g: Grid, r: nat, cells: seq<HeaderCell>, c: nat): (res: Option<Grid>)
    requires r < |g|
    ensures res.Some? ==> |res.value| == |g|
    ensures res.Some? ==> forall k | 0 <= k < r :: res.value[k] == g[k]
    decreases |cells|
  {
    if cells == [] then Some(g)
    else
      var col := FirstFree(g[r], c);
      match Place(g, r, col, cells[0])
      case None => None
      case Some(g') => PlaceRow(g', r, cells[1..], col + cells[0].colspan)
  }

  /** The header rows from row `r` on placed into `g`. */
  function PlaceRows(rows: seq<seq<HeaderCell>>, g: Grid, r: nat): (res: Option<Grid>)
    requires |g| == |rows| && r <= |rows|
    ensures res.Some? ==> |res.value| == |rows|
    decreases |rows| - r
  {
    if r == |rows| then Some(g)
    else
      match PlaceRow(g, r, rows[r], 0)
      case None => None
      case Some(g') => PlaceRows(rows, g', r + 1)
  }

  /** The grid of the header rows, starting from one empty row per header row. */
  function HeaderGrid(rows: seq<seq<HeaderCell>>): (res: Option<Grid>)
    ensures res.Some? ==> |res.value| == |rows|
  {
    PlaceRows(rows, seq(|rows|, _ => []), 0)
  }

  /** `for (let j = 0; j < colspan; j++) table[r][col + j] = abbr` on one row. */
  method FillSlots(row: Row, col: nat, colspan: Span, abbr: JsString) returns (filled: Row)
    ensures filled == Filled(row, col, colspan, abbr)
  {
    filled := row;
    FilledNone(row, col, abbr);
    var j := 0;
    while j < colspan
      invariant 0 <= j <= colspan
      invariant filled == Filled(row, col, j, abbr)
    {
      FilledStep(row, col, j, abbr);
      filled := SetSlot(filled, col + j, abbr);
      j := j + 1;
    }
  }

  /** The loops over `rowspan` and `colspan` for one cell; `ok` is false where the write throws. */
  method FillCell(table: Grid, rowIndex: nat, colIndex: nat, cell: HeaderCell) returns (result: Grid, ok: bool)
    requires rowIndex < |table|
    ensures ok <==> Place(table, rowIndex, colIndex, cell).Some?
    ensures ok ==> result == Place(table, rowIndex, colIndex, cell).value
  {
    result := table;
    var i := 0;
    while i < cell.rowspan
      invariant 0 <= i <= cell.rowspan && |result| == |table| && rowIndex + i <= |table|
      invariant forall k | 0 <= k < |table| :: (result[k] ==
        if rowIndex <= k < rowIndex + i then Filled(table[k], colIndex, cell.colspan, cell.abbr) else table[k])
    {
      if rowIndex + i >= |result| {
        return result, false;
      }
      var filled := FillSlots(result[rowIndex + i], colIndex, cell.colspan, cell.abbr);
      result := result[rowIndex + i := filled];
      i := i + 1;
    }
    ok := true;
    var placed := Place(table, rowIndex, colIndex, cell).value;
    assert forall k | 0 <= k < |table| :: result[k] == placed[k];
  }

  /** The cells of one header row placed in turn (`row.forEach` with its `colIndex`). */
  method FillRow(table: Grid, rowIndex: nat, row: seq<HeaderCell>) returns (result: Grid, ok: bool)
    requires rowIndex < |table|
    ensures ok <==> PlaceRow(table, rowIndex, row, 0).Some?
    ensures ok ==> result == PlaceRow(table, rowIndex, row, 0).value
  {
    result := table;
    var colIndex: nat := 0;
    var n := 0;
    while n < |row|
      invariant 0 <= n <= |row| && |result| == |table|
      invariant PlaceRow(table, rowIndex, row, 0) == PlaceRow(result, rowIndex, row[n..], colIndex)
    {
      var cell := row[n];
      ghost var col := FirstFree(result[rowIndex], colIndex);
      while Occupied(result[rowIndex], colIndex)
        invariant FirstFree(result[rowIndex], colIndex) == col
        decreases |result[rowIndex]| - colIndex
      {
        colIndex := colIndex + 1;
      }
      assert row[n..][0] == cell && row[n..][1..] == row[n + 1..];
      var placed;
      placed, ok := FillCell(result, rowIndex, colIndex, cell);
      if !ok {
        return;
      }
      result := placed;
      colIndex := colIndex + cell.colspan;
      n := n + 1;
    }
    ok := true;
  }

  /**
   * The header grid of `download.ts`: one empty row per header row, then for
   * each row and each of its cells, the first free column from the end of
   * the previous cell, and the cell's label written over all the slots it
   * spans. `ok` is false where a cell spans rows below the grid (the write
   * throws a `TypeError`).
   */
  method FillHeaderGrid(rows: seq<seq<HeaderCell>>) returns (table: Grid, ok: bool)
    ensures ok <==> HeaderGrid(rows).Some?
    ensures ok ==> table == HeaderGrid(rows).value
  {
    table := seq(|rows|, _ => []);
    var rowIndex := 0;
    while rowIndex < |rows|
      invariant 0 <= rowIndex <= |rows| && |table| == |rows|
      invariant HeaderGrid(rows) == PlaceRows(rows, table, rowIndex)
    {
      var filled;
      filled, ok := FillRow(table, rowIndex, rows[rowIndex]);
      if !ok {
        return;
      }
      table := filled;
      rowIndex := rowIndex + 1;
    }
    ok := true;
  }
  /** A cell of header row `r` that reaches below a grid of `height` rows. */
  predicate TooTall(cell: HeaderCell, r: nat, height: nat) {
    r + cell.rowspan > height
  }

  /** Some cell of a header row reaches below a grid of `height` rows. */
  predicate SomeTooTall(cells: seq<HeaderCell>, r: nat, height: nat) {
    exists k | 0 <= k < |cells| :: TooTall(cells[k], r, height)
  }

  /** Placing a row fails exactly when one of its cells reaches below the grid, wherever the cells land. */
  lemma {:induction false} PlaceRowFails(g: Grid, r: nat, cells: seq<HeaderCell>, c: nat)
    requires r < |g|
    ensures PlaceRow(g, r, cells, c).None? <==> SomeTooTall(cells, r, |g|)
    decreases |cells|
  {
    if cells == [] {
      assert PlaceRow(g, r, cells, c) == Some(g);
    } else {
      var col := FirstFree(g[r], c);
      var placed := Place(g, r, col, cells[0]);
      if placed.None? {
        assert PlaceRow(g, r, cells, c) == None;
        assert TooTall(cells[0], r, |g|);
        assert SomeTooTall(cells, r, |g|);
      } else {
        assert PlaceRow(g, r, cells, c) == PlaceRow(placed.value, r, cells[1..], col + cells[0].colspan);
        PlaceRowFails(placed.value, r, cells[1..], col + cells[0].colspan);
        TallInTail(cells, r, |g|);
      }
    }
  }

  /** When the first cell fits, a cell that does not is one of the others. */
  lemma TallInTail(cells: seq<HeaderCell>, r: nat, height: nat)
    requires cells != [] && !TooTall(cells[0], r, height)
    ensures SomeTooTall(cells, r, height) <==> SomeTooTall(cells[1..], r, height)
  {
    if SomeTooTall(cells, r, height) {
      var k :| 0 <= k < |cells| && TooTall(cells[k], r, height);
      assert k > 0 && TooTall(cells[1..][k - 1], r, height);
    }
    if SomeTooTall(cells[1..], r, height) {
      var k :| 0 <= k < |cells| - 1 && TooTall(cells[1..][k], r, height);
      assert TooTall(cells[k + 1], r, height);
    }
  }

  /** The cell in column `k` of header row `r` reaches below the grid of the header rows. */
  predicate Overflows(rows: seq<seq<HeaderCell>>, r: nat, k: nat) {
    r < |rows| && k < |rows[r]| && TooTall(rows[r][k], r, |rows|)
  }

  /** Placing the rows from `r` on fails exactly when a cell of one of them reaches below the grid. */
  lemma {:induction false} PlaceRowsFails(rows: seq<seq<HeaderCell>>, g: Grid, r: nat)
    requires |g| == |rows| && r <= |rows|
    ensures PlaceRows(rows, g, r).None? <==> exists i: nat, k: nat | r <= i :: Overflows(rows, i, k)
    decreases |rows| - r
  {
    if r < |rows| {
      PlaceRowFails(g, r, rows[r], 0);
      match PlaceRow(g, r, rows[r], 0)
      case None =>
        var k :| 0 <= k < |rows[r]| && TooTall(rows[r][k], r, |g|);
        assert Overflows(rows, r, k);
      case Some(g') =>
        PlaceRowsFails(rows, g', r + 1);
        if exists i: nat, k: nat | r <= i :: Overflows(rows, i, k) {
          var i: nat, k: nat :| r <= i && Overflows(rows, i, k);
          assert i != r;
          assert r + 1 <= i && Overflows(rows, i, k);
        }
    } else {
      assert forall i: nat, k: nat | r <= i :: !Overflows(rows, i, k);
    }
  }

  /**
   * The header table cannot be laid out (the page script throws) exactly
   * when some cell's `rowspan` reaches below the last header row.
   */
  lemma HeaderGridFails(rows: seq<seq<HeaderCell>>)
    ensures HeaderGrid(rows).None? <==> exists r: nat, k: nat :: Overflows(rows, r, k)
  {
    PlaceRowsFails(rows, seq(|rows|, _ => []), 0);
  }

  /** `colspan` copies of a label. */
  function Copies(abbr: JsString, n: nat): (r: Row)
    ensures |r| == n && forall k | 0 <= k < n :: r[k] == Some(abbr)
  {
    seq(n, _ => Some(abbr))
  }

  /** A row of cells one row high, laid out side by side: each label repeated over its columns, in order. */
  function Expand(cells: seq<HeaderCell>): Row
    decreases |cells|
  {
    if cells == [] then [] else Copies(cells[0].abbr, cells[0].colspan) + Expand(cells[1..])
  }

  /** Whether every cell is one row high. */
  predicate OneRowHigh(cells: seq<HeaderCell>) {
    forall k | 0 <= k < |cells| :: cells[k].rowspan == 1
  }

  /** Cells one row high, placed after the end of their row, extend the row by their expansion. */
  lemma {:induction false} PlaceFlatRow(g: Grid, r: nat, cells: seq<HeaderCell>)
    requires r < |g| && OneRowHigh(cells)
    ensures PlaceRow(g, r, cells, |g[r]|).Some?
    ensures PlaceRow(g, r, cells, |g[r]|).value == g[r := g[r] + Expand(cells)]
    decreases |cells|
  {
    if cells == [] {
      assert g[r] + [] == g[r];
    } else {
      var cell := cells[0];
      var g' := g[r := g[r] + Copies(cell.abbr, cell.colspan)];
      PlaceFlatCell(g, r, cell);
      assert FirstFree(g[r], |g[r]|) == |g[r]|;
      assert PlaceRow(g, r, cells, |g[r]|) == PlaceRow(g', r, cells[1..], |g'[r]|);
      assert OneRowHigh(cells[1..]);
      PlaceFlatRow(g', r, cells[1..]);
      assert g'[r] + Expand(cells[1..]) == g[r] + Expand(cells);
      assert g'[r := g'[r] + Expand(cells[1..])] == g[r := g[r] + Expand(cells)];
    }
  }

  /** A cell one row high placed after the end of its row extends the row by its copies. */
  lemma PlaceFlatCell(g: Grid, r: nat, cell: HeaderCell)
    requires r < |g| && cell.rowspan == 1
    ensures Place(g, r, |g[r]|, cell) == Some(g[r := g[r] + Copies(cell.abbr, cell.colspan)])
  {
    FilledAtEnd(g[r], cell.colspan, cell.abbr);
    var h := Place(g, r, |g[r]|, cell).value;
    assert h == g[r := g[r] + Copies(cell.abbr, cell.colspan)];
  }

  /** Writing columns from the end of a row on appends that many copies. */
  lemma FilledAtEnd(row: Row, n: nat, v: JsString)
    ensures Filled(row, |row|, n, v) == row + Copies(v, n)
  {
    assert |Filled(row, |row|, n, v)| == |row| + n;
  }

  /** A single header row whose cells are one row high becomes each label repeated over its `colspan`, side by side. */
  lemma SingleHeaderRow(cells: seq<HeaderCell>)
    requires OneRowHigh(cells)
    ensures HeaderGrid([cells]).Some? && HeaderGrid([cells]).value == [Expand(cells)]
  {
    var g: Grid := [[]];
    assert seq(|[cells]|, _ => []) == g by {
      assert forall i | 0 <= i < 1 :: seq(|[cells]|, _ => [])[i] == g[i];
    }
    PlaceFlatRow(g, 0, cells);
    assert g[0] + Expand(cells) == Expand(cells);
    var h := g[0 := Expand(cells)];
    assert h == [Expand(cells)];
    assert PlaceRow(g, 0, cells, 0) == Some(h);
    assert PlaceRows([cells], h, 1) == Some(h);
  }
  // ---------------------------------------------------------------------
  // Flattening the grid into column names

  /** The separator of the parts of a column name. */
  const SLASH: JsString := ['/' as CodeUnit]

  /** `table[row][col]`: `undefined` past the end of the row or in a hole. */
  function Slot(g: Grid, row: nat, col: nat): Option<JsString>
    requires row < |g|
  {
    if col < |g[row]| then g[row][col] else None
  }

  /** The values of column `col`, top row first. */
  function Column(g: Grid, col: nat): (vals: seq<Option<JsString>>)
    ensures |vals| == |g| && forall row | 0 <= row < |g| :: vals[row] == Slot(g, row, col)
  {
    seq(|g|, row requires 0 <= row < |g| => Slot(g, row, col))
  }

  /** A value JavaScript treats as true: a string other than the empty string. */
  predicate Truthy(v: Option<JsString>) {
    v.Some? && v.value != []
  }

  /**
   * The labels pushed for a column, top to bottom: a truthy value is pushed
   * unless it equals the last label pushed.
   */
  function Parts(vals: seq<Option<JsString>>): (parts: seq<JsString>)
    ensures |parts| <= |vals|
    ensures forall k | 0 <= k < |parts| :: parts[k] != []
    ensures forall k | 0 <= k < |parts| - 1 :: parts[k] != parts[k + 1]
    decreases |vals|
  {
    if vals == [] then []
    else
      var parts := Parts(vals[..|vals| - 1]);
      var v := vals[|vals| - 1];
      if Truthy(v) && (parts == [] || parts[|parts| - 1] != v.value) then parts + [v.value] else parts
  }

  /** A label is among the parts of a column exactly when some row of the column holds it and it is not empty. */
  lemma {:induction false} PartsMembers(vals: seq<Option<JsString>>, x: JsString)
    ensures x in Parts(vals) <==> Some(x) in vals && x != []
    decreases |vals|
  {
    if vals != [] {
      var init := vals[..|vals| - 1];
      PartsMembers(init, x);
      assert vals == init + [vals[|vals| - 1]];
    }
  }

  /** A label written down a whole column (a cell spanning every header row) is one part, not one per row. */
  lemma {:induction false} SpannedLabel(n: nat, x: JsString)
    requires n >= 1 && x != []
    ensures Parts(seq(n, _ => Some(x))) == [x]
    decreases n
  {
    if n > 1 {
      assert seq(n, _ => Some(x))[..n - 1] == seq(n - 1, _ => Some(x));
      SpannedLabel(n - 1, x);
    } else {
      assert seq(n, _ => Some(x))[..n - 1] == [];
    }
  }

  /** The name of every column of the first grid row: its parts joined with `/`. */
  function Headers(g: Grid): (headers: seq<JsString>)
    requires g != []
    ensures |headers| == |g[0]|
  {
    seq(|g[0]|, col requires 0 <= col < |g[0]| => Join(Parts(Column(g, col)), SLASH))
  }

  /**
   * The flattening loops of `download.ts`: as many names as the first grid
   * row has columns, each the `/`-joined parts of its column. `ok` is false
   * for an empty grid, where `table[0]` is `undefined` and reading its length
   * throws.
   */
  method FlattenHeaders(table: Grid) returns (headers: seq<JsString>, ok: bool)
    ensures ok <==> table != []
    ensures ok ==> headers == Headers(table)
  {
    if |table| == 0 {
      return [], false;
    }
    var colCount := |table[0]|;
    headers := [];
    for col := 0 to colCount
      invariant |headers| == col
      invariant forall c | 0 <= c < col :: headers[c] == Join(Parts(Column(table, c)), SLASH)
    {
      var parts: seq<JsString> := [];
      for row := 0 to |table|
        invariant parts == Parts(Column(table, col)[..row])
      {
        var val := if col < |table[row]| then table[row][col] else None;
        assert Column(table, col)[..row + 1] == Column(table, col)[..row] + [val];
        if Truthy(val) && (|parts| == 0 || parts[|parts| - 1] != val.value) {
          parts := parts + [val.value];
        }
      }
      assert Column(table, col)[..|table|] == Column(table, col);
      headers := headers + [Join(parts, SLASH)];
    }
    ok := true;
  }

  // ---------------------------------------------------------------------
  // Data rows

  /** The rows whose cell count is `width`, in order. */
  function SameWidth(rows: seq<seq<JsString>>, width: nat): (kept: seq<seq<JsString>>)
    ensures |kept| <= |rows|
    ensures forall k | 0 <= k < |kept| :: |kept[k]| == width
    decreases |rows|
  {
    if rows == [] then []
    else
      var last := rows[|rows| - 1];
      SameWidth(rows[..|rows| - 1], width) + (if |last| == width then [last] else [])
  }

  /** `if (tds.length !== headers.length) return;` over the data rows: the rows of the wrong width are skipped. */
  method KeepDataRows(rows: seq<seq<JsString>>, width: nat) returns (kept: seq<seq<JsString>>)
    ensures kept == SameWidth(rows, width)
  {
    kept := [];
    for i := 0 to |rows|
      invariant kept == SameWidth(rows[..i], width)
    {
      assert rows[..i + 1][..i] == rows[..i];
      if |rows[i]| == width {
        kept := kept + [rows[i]];
      }
    }
    assert rows[..|rows|] == rows;
  }

  /** A row is kept exactly when it is one of the rows and has one cell per column name. */
  lemma {:induction false} SameWidthMembers(rows: seq<seq<JsString>>, width: nat, x: seq<JsString>)
    ensures x in SameWidth(rows, width) <==> x in rows && |x| == width
    decreases |rows|
  {
    if rows != [] {
      var init := rows[..|rows| - 1];
      SameWidthMembers(init, width, x);
      assert rows == init + [rows[|rows| - 1]];
    }
  }

  /** The filter keeps the order of the page: filtering two runs of rows is filtering each in turn. */
  lemma {:induction false} SameWidthAppend(a: seq<seq<JsString>>, b: seq<seq<JsString>>, width: nat)
    ensures SameWidth(a + b, width) == SameWidth(a, width) + SameWidth(b, width)
    decreases |b|
  {
    if b == [] {
      assert a + b == a;
    } else {
      var init := b[..|b| - 1];
      SameWidthAppend(a, init, width);
      assert (a + b)[..|a + b| - 1] == a + init;
      assert (a + b)[|a + b| - 1] == b[|b| - 1];
    }
  }

  // ---------------------------------------------------------------------
  // Cell values

  /** `゜`, the mark after the degrees. */
  const DEGREE_MARK: CodeUnit := 0x309C
  /** `'`, the mark after the minutes. */
  const MINUTE_MARK: CodeUnit := 0x27

  /** A latitude or longitude cell: `{ degree, minute }`, or 0 when the text is not of that form. */
  datatype Coordinate = DegreeMinute(degree: nat, minute: nat) | Zero

  /** A run of `\d`: one or more ASCII digits. */
  predicate Digits(s: JsString) {
    s != [] && AllDigits(s, 10)
  }

  /** `s` matches `^(\d+)゜(\d+)'$` with the degree mark at `i`. */
  predicate DegreeMinuteAt(s: JsString, i: nat) {
    0 < i < |s| - 1 && s[i] == DEGREE_MARK && s[|s| - 1] == MINUTE_MARK
      && Digits(s[..i]) && Digits(s[i + 1..|s| - 1])
  }

  /**
   * The `degreeAndMinute` case: when the text is digits, `゜`, digits and
   * `'`, the two runs of digits read in decimal; otherwise 0.
   */
  function ParseDegreeMinute(s: JsString): (r: Coordinate)
  {
    if DEGREE_MARK !in s then Zero
    else
      var i := IndexOf(s, DEGREE_MARK);
      if DegreeMinuteAt(s, i) then DegreeMinute(RadixValue(s[..i], 10), RadixValue(s[i + 1..|s| - 1], 10))
      else Zero
  }

  /** The degree mark of a matching text is its first one: digits hold none. */
  lemma MarkIsFirst(s: JsString, i: nat)
    requires DegreeMinuteAt(s, i)
    ensures DEGREE_MARK in s && IndexOf(s, DEGREE_MARK) == i
  {
    assert DEGREE_MARK !in s[..i] by {
      assert forall k | 0 <= k < i :: DigitValue(s[..i][k]) < 10;
    }
  }

  /** A text is read as degrees and minutes exactly when it matches the pattern, and then as the decimal values of its two runs of digits, which is what `parseInt(_, 10)` gives. */
  lemma DegreeMinuteMatches(s: JsString)
    ensures ParseDegreeMinute(s).DegreeMinute? <==> exists i: nat :: DegreeMinuteAt(s, i)
    ensures forall i: nat | DegreeMinuteAt(s, i) ::
      && ParseDegreeMinute(s) == DegreeMinute(RadixValue(s[..i], 10), RadixValue(s[i + 1..|s| - 1], 10))
      && ParseInt(s[..i], 10) == Some(ParseDegreeMinute(s).degree)
      && ParseInt(s[i + 1..|s| - 1], 10) == Some(ParseDegreeMinute(s).minute)
  {
    forall i: nat | DegreeMinuteAt(s, i)
      ensures && ParseDegreeMinute(s) == DegreeMinute(RadixValue(s[..i], 10), RadixValue(s[i + 1..|s| - 1], 10))
        && ParseInt(s[..i], 10) == Some(ParseDegreeMinute(s).degree)
        && ParseInt(s[i + 1..|s| - 1], 10) == Some(ParseDegreeMinute(s).minute)
    {
      MarkIsFirst(s, i);
      ParseDigits(s[..i], 10);
      ParseDigits(s[i + 1..|s| - 1], 10);
    }
  }

  /** `<d>゜<m>'` reads back as `d` degrees and `m` minutes. */
  lemma DegreeMinuteRoundTrip(d: nat, m: nat)
    ensures ParseDegreeMinute(NatToString(d) + [DEGREE_MARK] + NatToString(m) + [MINUTE_MARK]) == DegreeMinute(d, m)
  {
    var ds, ms := NatToString(d), NatToString(m);
    var s := ds + [DEGREE_MARK] + ms + [MINUTE_MARK];
    var i := |ds|;
    assert s[..i] == ds && s[i + 1..|s| - 1] == ms;
    assert AllDigits(ds, 10) && AllDigits(ms, 10);
    assert DegreeMinuteAt(s, i);
    MarkIsFirst(s, i);
    RadixRoundTrip(d, 10);
    RadixRoundTrip(m, 10);
  }

  /** The `number` case, `parseFloat(value) || 0`: what `parseFloat` reads, with NaN as 0. */
  function NumberCell(value: JsString): (r: Number)
    ensures r != NaN
    ensures ParseFloat(value) != NaN ==> r == ParseFloat(value)
  {
    if ParseFloat(value).NaN? then Finite(0.0) else ParseFloat(value)
  }

  /** A cell holding an integer reads as that integer. */
  lemma NumberCellOfInt(n: int)
    ensures NumberCell(IntToString(n)) == Finite(n as real)
  {
    ParseFloatOfInt(n);
  }
}
