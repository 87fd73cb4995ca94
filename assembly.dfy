/**
 * The grid logic of `create_excel_with_persian_headers`: the collected rows
 * are padded to the widest row, their columns are reversed so that the first
 * column appears on the right, the first row becomes the header row, and the
 * worksheet's cells, column widths, row heights, frozen panes and
 * right-to-left flag are set in place.
 *
 * The spreadsheet library is not modelled: a `Worksheet` records the values
 * and styles the code asks for, and the library's own failures (a title it
 * rejects, a value it cannot store, a save that fails) are the parameter
 * `libraryAccepts`.
 */
module Assembly {
  import opened Wrappers
  import opened Text

  /** Excel's limit on the length of a sheet name. */
  const MaxTitleLength := 31
  /** The title of a new worksheet. */
  const DefaultTitle := "Sheet"
  const HeaderFontSize := 12
  const BodyFontSize := 11
  const HeaderRowHeight := 25
  const BodyRowHeight := 20
  const WidthPerCharacter: real := 1.3
  const MinColumnWidth: real := 12.0
  const MaxColumnWidth: real := 50.0
  /** Freezing at A2 keeps the header row in view. */
  const FrozenPanes := "A2"

  datatype Font = Font(name: string, size: int, bold: bool)

  datatype HorizontalAlignment = Center | Right

  datatype Alignment = Alignment(horizontal: HorizontalAlignment, verticalCenter: bool, wrapText: bool)

  /** A written cell: its value, font, alignment, and whether it has a thin border on all four sides. */
  datatype Cell = Cell(value: string, font: Font, alignment: Alignment, thinBorder: bool)

  function HeaderFont(fontName: string): Font {
    Font(fontName, HeaderFontSize, true)
  }

  function BodyFont(fontName: string): Font {
    Font(fontName, BodyFontSize, false)
  }

  const CenterAlignment := Alignment(Center, true, true)
  const RightAlignment := Alignment(Right, true, true)

  /**
   * A body value shown centred: non-empty and, once stripped, made only of
   * digits, Extended Arabic-Indic digits and `, : / - .`.
   */
  predicate IsNumericCell(value: string) {
    value != "" && IsNumericToken(Strip(value))
  }

  /** A worksheet as the code fills it in: cells and dimensions are keyed by 1-based row and column numbers. */
  class Worksheet {
    var title: string
    var cells: map<(int, int), Cell>
    var columnWidths: map<int, real>
    var rowHeights: map<int, int>
    var freezePanes: Option<string>
    var rightToLeft: bool

    constructor ()
      ensures title == DefaultTitle && cells == map[] && columnWidths == map[] && rowHeights == map[]
      ensures freezePanes == None && !rightToLeft
    {
      title := DefaultTitle;
      cells := map[];
      columnWidths := map[];
      rowHeights := map[];
      freezePanes := None;
      rightToLeft := false;
    }
  }

  /** `sheet_name[:31]`. */
  function SheetTitle(name: string): (t: string)
    ensures |t| <= MaxTitleLength && |t| <= |name|
    ensures t == name[..|t|]
    ensures |name| <= MaxTitleLength ==> t == name
    ensures |name| > MaxTitleLength ==> |t| == MaxTitleLength
  {
    if |name| <= MaxTitleLength then name else name[..MaxTitleLength]
  }

  /** `max(len(row) for row in data_rows)`: the width of the widest row. */
  function MaxColumns(rows: seq<seq<string>>): (m: nat)
    requires rows != []
    ensures FitsIn(rows, m)
    ensures exists i :: 0 <= i < |rows| && |rows[i]| == m
  {
    WidestOf(rows, |rows|)
  }

  /** The length of the widest of the first `n` rows. */
  function WidestOf(rows: seq<seq<string>>, n: nat): (m: nat)
    requires 1 <= n <= |rows|
    ensures forall i :: 0 <= i < n ==> |rows[i]| <= m
    ensures exists i :: 0 <= i < n && |rows[i]| == m
  {
    if n == 1 then |rows[0]|
    else
      var m := WidestOf(rows, n - 1);
      if |rows[n - 1]| > m then |rows[n - 1]| else m
  }

  function Blanks(n: nat): (b: seq<string>)
    ensures |b| == n
    ensures forall k :: 0 <= k < n ==> b[k] == ""
  {
    seq(n, _ => "")
  }

  /**
   * `(row + [''] * (max_cols - len(row)))[:max_cols]`: exactly `maxCols`
   * cells, the row's own cells first and `""` after them.
   */
  function PadRow(row: seq<string>, maxCols: nat): (r: seq<string>)
    ensures |r| == maxCols
    ensures forall k :: 0 <= k < maxCols ==> r[k] == if k < |row| then row[k] else ""
  {
    var fill := if |row| <= maxCols then Blanks(maxCols - |row|) else [];
    var padded := row + fill;
    if |padded| <= maxCols then padded else padded[..maxCols]
  }

  /** No row of `rows` is longer than `width`. */
  predicate FitsIn(rows: seq<seq<string>>, width: nat) {
    forall i :: 0 <= i < |rows| ==> |rows[i]| <= width
  }

  /** Every row of `grid` has exactly `width` cells. */
  predicate IsRectangular(grid: seq<seq<string>>, width: nat) {
    forall i :: 0 <= i < |grid| ==> |grid[i]| == width
  }

  /**
   * One row as the sheet shows it, `maxCols` cells wide: 0-based column `c`
   * holds the row's cell `maxCols - 1 - c`, or `""` where the row has none.
   */
  function RtlRow(row: seq<string>, maxCols: nat): (r: seq<string>)
    ensures |r| == maxCols
  {
    seq(maxCols, c requires 0 <= c < maxCols => if maxCols - 1 - c < |row| then row[maxCols - 1 - c] else "")
  }

  /** Padding a row and then reversing its columns, as the code does, gives the row as the sheet shows it. */
  lemma PadThenReverse(row: seq<string>, maxCols: nat)
    ensures Reversed(PadRow(row, maxCols)) == RtlRow(row, maxCols)
  {
    var padded := PadRow(row, maxCols);
    var reversed := Reversed(padded);
    var shown := RtlRow(row, maxCols);
    forall c | 0 <= c < maxCols ensures reversed[c] == shown[c] {
      assert reversed[c] == padded[maxCols - 1 - c];
    }
  }

  /** Cell `k` of a row at most `maxCols` wide sits at 0-based column `maxCols - 1 - k`. */
  lemma RtlRowPlacement(row: seq<string>, maxCols: nat, k: int)
    requires |row| <= maxCols && 0 <= k < |row|
    ensures RtlRow(row, maxCols)[maxCols - 1 - k] == row[k]
  {
    var c := maxCols - 1 - k;
    assert RtlRow(row, maxCols)[c] == if maxCols - 1 - c < |row| then row[maxCols - 1 - c] else "";
  }

  /** The rows as the sheet shows them. */
  function RtlGrid(rows: seq<seq<string>>, maxCols: nat): (grid: seq<seq<string>>)
    ensures |grid| == |rows|
    ensures forall i :: 0 <= i < |rows| ==> grid[i] == RtlRow(rows[i], maxCols)
  {
    seq(|rows|, i requires 0 <= i < |rows| => RtlRow(rows[i], maxCols))
  }

  /**
   * With every row fitting in `maxCols` columns (as with the widest row's
   * length), input cell `k` of row `i` sits at 0-based column
   * `maxCols - 1 - k` and the columns before the row's reversed cells hold
   * `""`: no cell is cut off or lost.
   */
  lemma RtlGridPlacement(rows: seq<seq<string>>, maxCols: nat, i: int)
    requires FitsIn(rows, maxCols) && 0 <= i < |rows|
    ensures |RtlGrid(rows, maxCols)[i]| == maxCols
    ensures forall k :: 0 <= k < |rows[i]| ==> RtlGrid(rows, maxCols)[i][maxCols - 1 - k] == rows[i][k]
    ensures forall c :: 0 <= c < maxCols - |rows[i]| ==> RtlGrid(rows, maxCols)[i][c] == ""
  {
    var row := RtlGrid(rows, maxCols)[i];
    forall k | 0 <= k < |rows[i]| ensures row[maxCols - 1 - k] == rows[i][k] {
      RtlRowPlacement(rows[i], maxCols, k);
    }
  }

  /** The padding loop: every row padded to `maxCols` cells, in order. */
  method PadRows(rows: seq<seq<string>>, maxCols: nat) returns (padded: seq<seq<string>>)
    ensures |padded| == |rows|
    ensures forall i :: 0 <= i < |rows| ==> padded[i] == PadRow(rows[i], maxCols)
  {
    padded := [];
    for i := 0 to |rows|
      invariant |padded| == i
      invariant forall j :: 0 <= j < i ==> padded[j] == PadRow(rows[j], maxCols)
    {
      padded := padded + [PadRow(rows[i], maxCols)];
    }
  }

  /** The reversal loop: every row with its columns in reverse order, so that the first column appears on the right. */
  method ReverseColumns(padded: seq<seq<string>>) returns (reversed: seq<seq<string>>)
    ensures |reversed| == |padded|
    ensures forall i :: 0 <= i < |padded| ==> reversed[i] == Reversed(padded[i])
  {
    reversed := [];
    for i := 0 to |padded|
      invariant |reversed| == i
      invariant forall j :: 0 <= j < i ==> reversed[j] == Reversed(padded[j])
    {
      reversed := reversed + [Reversed(padded[i])];
    }
  }

  /**
   * The cell at 1-based (row, column) of a sheet built from `grid`: the first
   * row is the header, bold, in the larger font and centred; a body cell is
   * centred when its value is numeric and right-aligned otherwise; every
   * cell has a thin border.
   */
  function ExpectedCell(grid: seq<seq<string>>, fontName: string, row: int, column: int): Cell
    requires 1 <= row <= |grid| && 1 <= column <= |grid[row - 1]|
  {
    var value := grid[row - 1][column - 1];
    if row == 1 then Cell(value, HeaderFont(fontName), CenterAlignment, true)
    else Cell(value, BodyFont(fontName), if IsNumericCell(value) then CenterAlignment else RightAlignment, true)
  }

  /**
   * Exactly the cells of the rows before `row`, and those of `row` before
   * `column`, are written, each as `ExpectedCell` says.
   */
  ghost predicate WrittenUpTo(cells: map<(int, int), Cell>, grid: seq<seq<string>>, maxCols: nat, fontName: string,
                        row: int, column: int)
    requires IsRectangular(grid, maxCols)
  {
    && (forall key {:trigger key in cells} :: key in cells <==> (1 <= key.0 < row && 1 <= key.1 <= maxCols) || (key.0 == row && 1 <= key.1 < column))
    && (forall key {:trigger key in cells} :: key in cells ==>
          && 1 <= key.0 <= |grid| && 1 <= key.1 <= maxCols
          && cells[key] == ExpectedCell(grid, fontName, key.0, key.1))
  }

  /** The whole grid is written: rows 1 to `|grid|`, columns 1 to `maxCols`, and nothing else. */
  ghost predicate SheetHoldsGrid(cells: map<(int, int), Cell>, grid: seq<seq<string>>, maxCols: nat, fontName: string)
    requires IsRectangular(grid, maxCols)
  {
    WrittenUpTo(cells, grid, maxCols, fontName, |grid| + 1, 1)
  }

  lemma WriteNextCell(cells: map<(int, int), Cell>, grid: seq<seq<string>>, maxCols: nat, fontName: string,
                      row: int, column: int)
    requires IsRectangular(grid, maxCols)
    requires 1 <= row <= |grid| && 1 <= column <= maxCols
    requires WrittenUpTo(cells, grid, maxCols, fontName, row, column)
    ensures WrittenUpTo(cells[(row, column) := ExpectedCell(grid, fontName, row, column)], grid, maxCols, fontName,
                        row, column + 1)
  {
  }

  lemma FinishRow(cells: map<(int, int), Cell>, grid: seq<seq<string>>, maxCols: nat, fontName: string, row: int)
    requires IsRectangular(grid, maxCols)
    requires WrittenUpTo(cells, grid, maxCols, fontName, row, maxCols + 1)
    ensures WrittenUpTo(cells, grid, maxCols, fontName, row + 1, 1)
  {
  }

  /** Every cell of the grid is present with the grid's value; styles are not looked at. */
  ghost predicate HoldsValues(cells: map<(int, int), Cell>, grid: seq<seq<string>>, maxCols: nat)
    requires IsRectangular(grid, maxCols)
  {
    forall key: (int, int) {:trigger key in cells} :: 1 <= key.0 <= |grid| && 1 <= key.1 <= maxCols ==>
      key in cells && cells[key].value == grid[key.0 - 1][key.1 - 1]
  }

  lemma SheetHoldsValues(cells: map<(int, int), Cell>, grid: seq<seq<string>>, maxCols: nat, fontName: string)
    requires IsRectangular(grid, maxCols)
    requires SheetHoldsGrid(cells, grid, maxCols, fontName)
    ensures HoldsValues(cells, grid, maxCols)
  {
    forall key: (int, int) | 1 <= key.0 <= |grid| && 1 <= key.1 <= maxCols
      ensures key in cells && cells[key].value == grid[key.0 - 1][key.1 - 1]
    {
      assert key in cells;
    }
  }

  /** The header loop and the body loops: every cell of the grid is written with its value and style. */
  method WriteCells(ws: Worksheet, grid: seq<seq<string>>, maxCols: nat, fontName: string)
    requires grid != [] && IsRectangular(grid, maxCols)
    requires ws.cells == map[]
    modifies ws`cells
    ensures SheetHoldsGrid(ws.cells, grid, maxCols, fontName)
  {
    var header := grid[0];
    for column := 1 to maxCols + 1
      invariant WrittenUpTo(ws.cells, grid, maxCols, fontName, 1, column)
    {
      WriteNextCell(ws.cells, grid, maxCols, fontName, 1, column);
      ws.cells := ws.cells[(1, column) := Cell(header[column - 1], HeaderFont(fontName), CenterAlignment, true)];
    }
    FinishRow(ws.cells, grid, maxCols, fontName, 1);
    for row := 2 to |grid| + 1
      invariant WrittenUpTo(ws.cells, grid, maxCols, fontName, row, 1)
    {
      var rowData := grid[row - 1];
      for column := 1 to maxCols + 1
        invariant WrittenUpTo(ws.cells, grid, maxCols, fontName, row, column)
      {
        var value := rowData[column - 1];
        var alignment := if IsNumericCell(value) then CenterAlignment else RightAlignment;
        WriteNextCell(ws.cells, grid, maxCols, fontName, row, column);
        ws.cells := ws.cells[(row, column) := Cell(value, BodyFont(fontName), alignment, true)];
      }
      FinishRow(ws.cells, grid, maxCols, fontName, row);
    }
  }

  /** `min(max(max_length * 1.3, 12), 50)`: a column width, always between 12 and 50. */
  function ColumnWidth(longest: nat): (w: real)
    ensures MinColumnWidth <= w <= MaxColumnWidth
  {
    var scaled := WidthPerCharacter * longest as real;
    var atLeast := if scaled >= MinColumnWidth then scaled else MinColumnWidth;
    if atLeast <= MaxColumnWidth then atLeast else MaxColumnWidth
  }

  /**
   * Up to 9 characters give the minimum width 12, from 39 characters on the
   * maximum 50, and in between 1.3 per character; longer text never gives a
   * narrower column.
   */
  lemma ColumnWidthValues(longest: nat, longer: nat)
    requires longest <= longer
    ensures longest <= 9 ==> ColumnWidth(longest) == MinColumnWidth
    ensures 10 <= longest <= 38 ==> ColumnWidth(longest) == WidthPerCharacter * longest as real
    ensures longest >= 39 ==> ColumnWidth(longest) == MaxColumnWidth
    ensures ColumnWidth(longest) <= ColumnWidth(longer)
  {
  }

  /** The length of the longest value among the first `n` cells of column `j`. */
  function ColumnLongest(grid: seq<seq<string>>, j: nat, n: nat): (longest: nat)
    requires n <= |grid|
    requires forall i :: 0 <= i < |grid| ==> j < |grid[i]|
    ensures forall i :: 0 <= i < n ==> |grid[i][j]| <= longest
    ensures longest == 0 || exists i :: 0 <= i < n && |grid[i][j]| == longest
  {
    if n == 0 then 0
    else
      var previous := ColumnLongest(grid, j, n - 1);
      if |grid[n - 1][j]| > previous then |grid[n - 1][j]| else previous
  }

  /**
   * The widths of columns 1 to `n`: each from the length of the longest
   * value in that column, header included.
   */
  function ColumnWidths(grid: seq<seq<string>>, maxCols: nat, n: nat): (widths: map<int, real>)
    requires n <= maxCols && IsRectangular(grid, maxCols)
    ensures forall c :: c in widths <==> 1 <= c <= n
    ensures forall c :: 1 <= c <= n ==> widths[c] == ColumnWidth(ColumnLongest(grid, c - 1, |grid|))
  {
    if n == 0 then map[]
    else ColumnWidths(grid, maxCols, n - 1)[n := ColumnWidth(ColumnLongest(grid, n - 1, |grid|))]
  }

  lemma ColumnWidthsStep(grid: seq<seq<string>>, maxCols: nat, n: nat)
    requires 1 <= n <= maxCols && IsRectangular(grid, maxCols)
    ensures ColumnWidths(grid, maxCols, n) == ColumnWidths(grid, maxCols, n - 1)[n := ColumnWidth(ColumnLongest(grid, n - 1, |grid|))]
  {
  }

  /**
   * The width loop: for every column, the longest non-empty value in it,
   * header included, sets the width by `ColumnWidth`.
   */
  method AdjustColumnWidths(ws: Worksheet, grid: seq<seq<string>>, maxCols: nat)
    requires IsRectangular(grid, maxCols)
    requires HoldsValues(ws.cells, grid, maxCols)
    requires ws.columnWidths == map[]
    modifies ws`columnWidths
    ensures ws.columnWidths == ColumnWidths(grid, maxCols, maxCols)
  {
    for column := 1 to maxCols + 1
      invariant ws.columnWidths == ColumnWidths(grid, maxCols, column - 1)
    {
      var maxLength := LongestInColumn(ws, grid, maxCols, column);
      ColumnWidthsStep(grid, maxCols, column);
      ws.columnWidths := ws.columnWidths[column := ColumnWidth(maxLength)];
    }
  }

  /** The inner loop of the width loop: the running maximum of the lengths of the non-empty values in a column. */
  method LongestInColumn(ws: Worksheet, grid: seq<seq<string>>, maxCols: nat, column: int) returns (maxLength: nat)
    requires IsRectangular(grid, maxCols) && 1 <= column <= maxCols
    requires HoldsValues(ws.cells, grid, maxCols)
    ensures maxLength == ColumnLongest(grid, column - 1, |grid|)
  {
    maxLength := 0;
    for row := 1 to |grid| + 1
      invariant maxLength == ColumnLongest(grid, column - 1, row - 1)
    {
      assert (row, column) in ws.cells;
      var value := ws.cells[(row, column)].value;
      if value != "" {
        var cellLength := |value|;
        if cellLength > maxLength {
          maxLength := cellLength;
        }
      }
    }
  }

  /** Row 1 is 25 high, rows 2 to `rowCount + 1` are 20 high, and no other row has a height. */
  ghost predicate RowHeightsSet(heights: map<int, int>, rowCount: nat) {
    && (forall r :: r in heights <==> 1 <= r <= rowCount + 1)
    && heights[1] == HeaderRowHeight
    && (forall r :: 2 <= r <= rowCount + 1 ==> heights[r] == BodyRowHeight)
  }

  /** The row-height loop. */
  method SetRowHeights(ws: Worksheet, rowCount: nat)
    requires ws.rowHeights == map[]
    modifies ws`rowHeights
    ensures RowHeightsSet(ws.rowHeights, rowCount)
  {
    ws.rowHeights := ws.rowHeights[1 := HeaderRowHeight];
    for row := 2 to rowCount + 2
      invariant forall r :: r in ws.rowHeights <==> 1 <= r < row
      invariant ws.rowHeights[1] == HeaderRowHeight
      invariant forall r :: 2 <= r < row ==> ws.rowHeights[r] == BodyRowHeight
    {
      ws.rowHeights := ws.rowHeights[row := BodyRowHeight];
    }
  }

  /**
   * Everything the sheet-filling code sets on `ws` for the shown rows
   * `grid`, `maxCols` wide: the title, the cells, the column widths, the
   * row heights, the frozen header row and the right-to-left view.
   */
  ghost predicate SheetFrom(ws: Worksheet, grid: seq<seq<string>>, maxCols: nat, sheetName: string, fontName: string)
    reads ws
    requires IsRectangular(grid, maxCols)
  {
    && ws.title == SheetTitle(sheetName)
    && SheetHoldsGrid(ws.cells, grid, maxCols, fontName)
    && ws.columnWidths == ColumnWidths(grid, maxCols, maxCols)
    && RowHeightsSet(ws.rowHeights, |grid|)
    && ws.freezePanes == Some(FrozenPanes)
    && ws.rightToLeft
  }

  /** Everything `create_excel_with_persian_headers` sets on the sheet for non-empty `dataRows`. */
  ghost predicate SheetBuilt(ws: Worksheet, dataRows: seq<seq<string>>, sheetName: string, fontName: string)
    reads ws
    requires dataRows != []
  {
    var m := MaxColumns(dataRows);
    RtlGridIsRectangular(dataRows, m);
    SheetFrom(ws, RtlGrid(dataRows, m), m, sheetName, fontName)
  }

  lemma RtlGridIsRectangular(rows: seq<seq<string>>, maxCols: nat)
    ensures IsRectangular(RtlGrid(rows, maxCols), maxCols)
  {
  }

  lemma LoopsBuildRtlGrid(rows: seq<seq<string>>, maxCols: nat, padded: seq<seq<string>>, reversed: seq<seq<string>>)
    requires |padded| == |rows| && forall i :: 0 <= i < |rows| ==> padded[i] == PadRow(rows[i], maxCols)
    requires |reversed| == |padded| && forall i :: 0 <= i < |padded| ==> reversed[i] == Reversed(padded[i])
    ensures reversed == RtlGrid(rows, maxCols)
    ensures IsRectangular(reversed, maxCols)
  {
    forall i | 0 <= i < |rows| ensures reversed[i] == RtlGrid(rows, maxCols)[i] {
      PadThenReverse(rows[i], maxCols);
    }
  }

  /**
   * `create_excel_with_persian_headers`: no rows gives `false` and no sheet;
   * otherwise the sheet is built as `SheetBuilt` says and the result is
   * whether the spreadsheet library accepted it and saved it.
   */
  method CreateExcelWithPersianHeaders(dataRows: seq<seq<string>>, sheetName: string, fontName: string,
                                       libraryAccepts: bool)
    returns (ok: bool, ws: Worksheet?)
    ensures dataRows == [] ==> !ok && ws == null
    ensures dataRows != [] ==> ok == libraryAccepts && ws != null && fresh(ws)
                               && SheetBuilt(ws, dataRows, sheetName, fontName)
  {
    if dataRows == [] {
      return false, null;
    }
    var maxCols := MaxColumns(dataRows);
    var padded := PadRows(dataRows, maxCols);
    var grid := ReverseColumns(padded);
    LoopsBuildRtlGrid(dataRows, maxCols, padded, grid);
    ws := new Worksheet();
    FillSheet(ws, grid, maxCols, sheetName, fontName);
    ok := libraryAccepts;
  }

  /** The sheet-filling part: title, cells, widths, heights, frozen header and right-to-left view. */
  method FillSheet(ws: Worksheet, grid: seq<seq<string>>, maxCols: nat, sheetName: string, fontName: string)
    requires grid != [] && IsRectangular(grid, maxCols)
    requires ws.cells == map[] && ws.columnWidths == map[] && ws.rowHeights == map[]
    modifies ws
    ensures SheetFrom(ws, grid, maxCols, sheetName, fontName)
  {
    ws.title := SheetTitle(sheetName);
    WriteCells(ws, grid, maxCols, fontName);
    SheetHoldsValues(ws.cells, grid, maxCols, fontName);
    AdjustColumnWidths(ws, grid, maxCols);
    SetRowHeights(ws, |grid|);
    ws.freezePanes := Some(FrozenPanes);
    ws.rightToLeft := true;
  }

  /** A grid cell held by the sheet, looked up by its 1-based coordinates. */
  lemma HeldValue(cells: map<(int, int), Cell>, grid: seq<seq<string>>, maxCols: nat, row: int, column: int)
    requires IsRectangular(grid, maxCols) && HoldsValues(cells, grid, maxCols)
    requires 1 <= row <= |grid| && 1 <= column <= maxCols
    ensures (row, column) in cells && cells[(row, column)].value == grid[row - 1][column - 1]
  {
    assert (row, column) in cells;
  }

  /** Where the sheet holds a grid whose row `i` is `row` shown right to left, cell `k` of `row` is at (`i + 1`, `maxCols - k`). */
  lemma PlacedIn(cells: map<(int, int), Cell>, grid: seq<seq<string>>, maxCols: nat, row: seq<string>, i: int, k: int)
    requires IsRectangular(grid, maxCols) && HoldsValues(cells, grid, maxCols)
    requires 0 <= i < |grid| && grid[i] == RtlRow(row, maxCols) && |row| <= maxCols && 0 <= k < |row|
    ensures (i + 1, maxCols - k) in cells && cells[(i + 1, maxCols - k)].value == row[k]
  {
    RtlRowPlacement(row, maxCols, k);
    HeldValue(cells, grid, maxCols, i + 1, maxCols - k);
  }

  /**
   * In a sheet holding the rows shown right to left, `maxCols` wide (the
   * widest row's length, or any width every row fits in), input cell `k` of
   * row `i` is at sheet row `i + 1`, column `maxCols - k`.
   */
  lemma CellPlacement(cells: map<(int, int), Cell>, dataRows: seq<seq<string>>, maxCols: nat, i: int, k: int)
    requires FitsIn(dataRows, maxCols) && 0 <= i < |dataRows| && 0 <= k < |dataRows[i]|
    requires IsRectangular(RtlGrid(dataRows, maxCols), maxCols)
    requires HoldsValues(cells, RtlGrid(dataRows, maxCols), maxCols)
    ensures (i + 1, maxCols - k) in cells && cells[(i + 1, maxCols - k)].value == dataRows[i][k]
  {
    PlacedIn(cells, RtlGrid(dataRows, maxCols), maxCols, dataRows[i], i, k);
  }

  /** In the same sheet, the columns left of a row's cells hold `""`. */
  lemma BlankPlacement(cells: map<(int, int), Cell>, dataRows: seq<seq<string>>, maxCols: nat, i: int, c: int)
    requires FitsIn(dataRows, maxCols) && 0 <= i < |dataRows| && 1 <= c <= maxCols - |dataRows[i]|
    requires IsRectangular(RtlGrid(dataRows, maxCols), maxCols)
    requires HoldsValues(cells, RtlGrid(dataRows, maxCols), maxCols)
    ensures (i + 1, c) in cells && cells[(i + 1, c)].value == ""
  {
    var grid := RtlGrid(dataRows, maxCols);
    assert grid[i][c - 1] == "";
    HeldValue(cells, grid, maxCols, i + 1, c);
  }

  /**
   * Header cells are bold, size 12 and centred; a body cell is centred
   * exactly when its value is numeric and right-aligned otherwise, in the
   * size 11 font; every cell has a thin border, a vertically centred,
   * wrapping alignment and the chosen font name.
   */
  lemma CellStyle(cells: map<(int, int), Cell>, grid: seq<seq<string>>, maxCols: nat, fontName: string, key: (int, int))
    requires IsRectangular(grid, maxCols)
    requires SheetHoldsGrid(cells, grid, maxCols, fontName)
    requires key in cells
    ensures var cell := cells[key];
            && cell.thinBorder && cell.font.name == fontName
            && cell.alignment.verticalCenter && cell.alignment.wrapText
            && (key.0 == 1 ==> cell.font == Font(fontName, HeaderFontSize, true) && cell.alignment.horizontal == Center)
            && (key.0 > 1 ==> cell.font == Font(fontName, BodyFontSize, false)
                              && (cell.alignment.horizontal == Center <==> IsNumericCell(cell.value)))
  {
  }

  /** Heights are set for one row more than the sheet holds: row `|dataRows| + 1` has a height and no cell. */
  lemma HeightsReachPastLastRow(ws: Worksheet, dataRows: seq<seq<string>>, sheetName: string, fontName: string)
    requires dataRows != [] && SheetBuilt(ws, dataRows, sheetName, fontName)
    ensures |dataRows| + 1 in ws.rowHeights
    ensures forall key :: key in ws.cells ==> key.0 <= |dataRows|
  {
    var m := MaxColumns(dataRows);
    assert IsRectangular(RtlGrid(dataRows, m), m);
  }
}
