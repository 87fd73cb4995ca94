/**
 * The row collector `extract_tables_from_pdf`: it walks the tables that the
 * PDF library found on every page, drops small tables and short rows, cleans
 * every cell, drops rows left blank, and returns the rows in the order it met
 * them. Any failure of the PDF library discards everything collected so far.
 *
 * The PDF library is not modelled: its output is the input `Document`.
 */
module Extraction {
  import opened Wrappers
  import opened Text
  import opened Bidi

  /** A raw cell as the PDF library gives it: a string, or `None` for an empty cell. */
  type RawCell = Option<string>

  /** A raw table row; the library may give `None` for a whole row. */
  type RawRow = Option<seq<RawCell>>

  type RawTable = seq<RawRow>

  type Row = seq<string>

  /** What `page.extract_tables()` gives for one page: its tables, or an exception. */
  datatype Page = Page(tables: seq<RawTable>) | PageError

  /** What opening the PDF gives: its pages, or an exception. */
  datatype Document = Document(pages: seq<Page>) | OpenError

  /** A raw cell that is falsy in Python (`None` or `""`) or holds only whitespace. */
  predicate IsBlankCell(cell: RawCell) {
    cell.None? || forall i :: 0 <= i < |cell.value| ==> IsSpace(cell.value[i])
  }

  /**
   * The text of a non-empty cell, cleaned: stripped, its whitespace runs
   * collapsed to single spaces, and then passed through `FixPersianText`.
   */
  function CleanText(s: string): string
  {
    FixPersianText(Join(Words(Strip(s))))
  }

  /** One cleaned cell: `""` for a falsy cell, otherwise its text cleaned. */
  function CleanCell(cell: RawCell): string
  {
    match cell
    case None => ""
    case Some(s) => if s == "" then "" else CleanText(s)
  }

  /** A cell cleans to `""` exactly when it is blank, and a cleaned cell is collapsed. */
  lemma CleanCellSpec(cell: RawCell)
    ensures CleanCell(cell) == "" <==> IsBlankCell(cell)
    ensures IsCollapsed(CleanCell(cell))
  {
    if cell.Some? && cell.value != "" {
      var s := cell.value;
      WordsOfStrip(s);
      WordsEmpty(s);
      JoinEmpty(Words(s));
      JoinIsCollapsed(Words(s));
      FixPersianTextCollapsed(Join(Words(Strip(s))));
    }
  }

  /** Stripping is redundant before splitting: a cell is cleaned from its tokens alone. */
  lemma CleanCellOfTokens(s: string)
    requires s != ""
    ensures CleanCell(Some(s)) == FixPersianText(Join(Words(s)))
  {
    WordsOfStrip(s);
  }

  /** `CleanCell` applied to every cell of a row, in order. */
  function CleanRow(cells: seq<RawCell>): (row: Row)
    ensures |row| == |cells|
    ensures forall j :: 0 <= j < |cells| ==> row[j] == CleanCell(cells[j])
  {
    seq(|cells|, j requires 0 <= j < |cells| => CleanCell(cells[j]))
  }

  /** `any(clean_row)`: some cell is not the empty string. */
  predicate HasContent(row: Row) {
    exists j :: 0 <= j < |row| && row[j] != ""
  }

  /** A cleaned row has content exactly when some raw cell is not blank, and all its cells are collapsed. */
  lemma CleanRowSpec(cells: seq<RawCell>)
    ensures HasContent(CleanRow(cells)) <==> exists j :: 0 <= j < |cells| && !IsBlankCell(cells[j])
    ensures forall j :: 0 <= j < |cells| ==> IsCollapsed(CleanRow(cells)[j])
  {
    forall j | 0 <= j < |cells| {
      CleanCellSpec(cells[j]);
    }
    var row := CleanRow(cells);
    if HasContent(row) {
      var j :| 0 <= j < |row| && row[j] != "";
      assert !IsBlankCell(cells[j]);
    }
    if j :| 0 <= j < |cells| && !IsBlankCell(cells[j]) {
      assert row[j] != "";
    }
  }

  /** `row and len(row) >= min_columns`: a present, non-empty row with enough columns. */
  predicate IsDataRow(raw: RawRow, minColumns: int) {
    raw.Some? && |raw.value| > 0 && |raw.value| >= minColumns
  }

  /** What one raw row adds to the output: its cleaned form, unless it is not a data row or is left blank. */
  function RowContribution(raw: RawRow, minColumns: int): seq<Row>
  {
    if IsDataRow(raw, minColumns) && HasContent(CleanRow(raw.value)) then [CleanRow(raw.value)] else []
  }

  /** The rows one table contributes, in table order. */
  function TableRows(table: RawTable, minColumns: int): seq<Row>
  {
    if table == [] then []
    else TableRows(table[..|table| - 1], minColumns) + RowContribution(table[|table| - 1], minColumns)
  }

  /** What one table adds: nothing when it has fewer than `minTableRows` rows. */
  function TableContribution(table: RawTable, minTableRows: int, minColumns: int): seq<Row>
  {
    if |table| < minTableRows then [] else TableRows(table, minColumns)
  }

  /** The rows the tables of one page contribute, in the order the tables were found. */
  function PageRows(tables: seq<RawTable>, minTableRows: int, minColumns: int): seq<Row>
  {
    if tables == [] then []
    else PageRows(tables[..|tables| - 1], minTableRows, minColumns)
         + TableContribution(tables[|tables| - 1], minTableRows, minColumns)
  }

  /** What one page adds. */
  function PageContribution(page: Page, minTableRows: int, minColumns: int): seq<Row>
  {
    match page
    case Page(tables) => PageRows(tables, minTableRows, minColumns)
    case PageError => []
  }

  /** The rows of a sequence of pages, in page order. */
  function PagesRows(pages: seq<Page>, minTableRows: int, minColumns: int): seq<Row>
  {
    if pages == [] then []
    else PagesRows(pages[..|pages| - 1], minTableRows, minColumns)
         + PageContribution(pages[|pages| - 1], minTableRows, minColumns)
  }

  /** Opening the document or reading one of its pages raised an exception. */
  predicate ExtractionFails(doc: Document) {
    doc.OpenError? || exists i :: 0 <= i < |doc.pages| && doc.pages[i].PageError?
  }

  /** The result of `extract_tables_from_pdf`: all collected rows, or none at all after a failure. */
  function Extracted(doc: Document, minTableRows: int, minColumns: int): seq<Row>
  {
    if ExtractionFails(doc) then [] else PagesRows(doc.pages, minTableRows, minColumns)
  }

  /**
   * `extract_tables_from_pdf`: the nested page, table, row and cell loops of
   * the source, appending each kept cleaned row to `allData`; the table, row
   * and cell loops are `CollectPageRows`, `CollectTableRows` and `CleanCells`.
   */
  method ExtractTablesFromPdf(doc: Document, minTableRows: int, minColumns: int) returns (allData: seq<Row>)
    ensures allData == Extracted(doc, minTableRows, minColumns)
    ensures ExtractionFails(doc) ==> allData == []
  {
    if doc.OpenError? {
      return [];
    }
    allData := [];
    var pages := doc.pages;
    for p := 0 to |pages|
      invariant allData == PagesRows(pages[..p], minTableRows, minColumns)
      invariant forall q :: 0 <= q < p ==> pages[q].Page?
    {
      if pages[p].PageError? {
        return [];
      }
      assert forall q :: 0 <= q < p + 1 ==> pages[q].Page?;
      var pageRows := CollectPageRows(pages[p].tables, minTableRows, minColumns);
      allData := allData + pageRows;
      PagesRowsSnoc(pages, p, minTableRows, minColumns);
    }
    assert pages[..|pages|] == pages;
  }

  lemma TableRowsSnoc(table: RawTable, k: nat, minColumns: int)
    requires k < |table|
    ensures TableRows(table[..k + 1], minColumns) == TableRows(table[..k], minColumns) + RowContribution(table[k], minColumns)
  {
    assert table[..k + 1][..k] == table[..k];
  }

  lemma PageRowsSnoc(tables: seq<RawTable>, t: nat, minTableRows: int, minColumns: int)
    requires t < |tables|
    ensures PageRows(tables[..t + 1], minTableRows, minColumns)
            == PageRows(tables[..t], minTableRows, minColumns) + TableContribution(tables[t], minTableRows, minColumns)
  {
    assert tables[..t + 1][..t] == tables[..t];
  }

  lemma PagesRowsSnoc(pages: seq<Page>, p: nat, minTableRows: int, minColumns: int)
    requires p < |pages|
    ensures PagesRows(pages[..p + 1], minTableRows, minColumns)
            == PagesRows(pages[..p], minTableRows, minColumns) + PageContribution(pages[p], minTableRows, minColumns)
  {
    assert pages[..p + 1][..p] == pages[..p];
  }

  /** The table loop of `extract_tables_from_pdf` over the tables of one page. */
  method CollectPageRows(tables: seq<RawTable>, minTableRows: int, minColumns: int) returns (rows: seq<Row>)
    ensures rows == PageRows(tables, minTableRows, minColumns)
  {
    rows := [];
    for t := 0 to |tables|
      invariant rows == PageRows(tables[..t], minTableRows, minColumns)
    {
      var table := tables[t];
      PageRowsSnoc(tables, t, minTableRows, minColumns);
      if |table| < minTableRows {
        continue;
      }
      var tableRows := CollectTableRows(table, minColumns);
      rows := rows + tableRows;
    }
    assert tables[..|tables|] == tables;
  }

  /** The row loop of `extract_tables_from_pdf` over one table that is large enough. */
  method CollectTableRows(table: RawTable, minColumns: int) returns (rows: seq<Row>)
    ensures rows == TableRows(table, minColumns)
  {
    rows := [];
    for k := 0 to |table|
      invariant rows == TableRows(table[..k], minColumns)
    {
      var row := table[k];
      TableRowsSnoc(table, k, minColumns);
      if row.Some? && |row.value| > 0 && |row.value| >= minColumns {
        var cleanRow := CleanCells(row.value);
        if HasContent(cleanRow) {
          rows := rows + [cleanRow];
        }
      }
    }
    assert table[..|table|] == table;
  }

  /** The cell loop of `extract_tables_from_pdf`: clean every cell of a row, in order. */
  method CleanCells(cells: seq<RawCell>) returns (cleanRow: Row)
    ensures cleanRow == CleanRow(cells)
  {
    cleanRow := [];
    for j := 0 to |cells|
      invariant |cleanRow| == j
      invariant forall i :: 0 <= i < j ==> cleanRow[i] == CleanCell(cells[i])
    {
      cleanRow := cleanRow + [CleanCell(cells[j])];
    }
    CleanRowPointwise(cells, cleanRow);
  }

  lemma CleanRowPointwise(cells: seq<RawCell>, row: Row)
    requires |row| == |cells|
    requires forall i :: 0 <= i < |cells| ==> row[i] == CleanCell(cells[i])
    ensures row == CleanRow(cells)
  {
  }

  lemma AppendDropLast<T>(a: seq<T>, b: seq<T>)
    requires b != []
    ensures (a + b)[..|a + b| - 1] == a + b[..|b| - 1]
    ensures (a + b)[|a + b| - 1] == b[|b| - 1]
  {
  }

  lemma {:induction false} TableRowsAppend(a: RawTable, b: RawTable, minColumns: int)
    ensures TableRows(a + b, minColumns) == TableRows(a, minColumns) + TableRows(b, minColumns)
    decreases |b|
  {
    if b == [] {
      assert a + b == a;
    } else {
      var b' := b[..|b| - 1];
      AppendDropLast(a, b);
      TableRowsAppend(a, b', minColumns);
    }
  }

  lemma {:induction false} PageRowsAppend(a: seq<RawTable>, b: seq<RawTable>, minTableRows: int, minColumns: int)
    ensures PageRows(a + b, minTableRows, minColumns)
            == PageRows(a, minTableRows, minColumns) + PageRows(b, minTableRows, minColumns)
    decreases |b|
  {
    if b == [] {
      assert a + b == a;
    } else {
      var b' := b[..|b| - 1];
      AppendDropLast(a, b);
      PageRowsAppend(a, b', minTableRows, minColumns);
    }
  }

  /** Rows come out in page order: the rows of earlier pages precede those of later ones. */
  lemma {:induction false} PagesRowsAppend(a: seq<Page>, b: seq<Page>, minTableRows: int, minColumns: int)
    ensures PagesRows(a + b, minTableRows, minColumns)
            == PagesRows(a, minTableRows, minColumns) + PagesRows(b, minTableRows, minColumns)
    decreases |b|
  {
    if b == [] {
      assert a + b == a;
    } else {
      var b' := b[..|b| - 1];
      AppendDropLast(a, b);
      PagesRowsAppend(a, b', minTableRows, minColumns);
    }
  }

  /** A table with fewer than `minTableRows` rows contributes no rows, wherever it stands on the page. */
  lemma SmallTableContributesNothing(before: seq<RawTable>, table: RawTable, after: seq<RawTable>,
                                     minTableRows: int, minColumns: int)
    requires |table| < minTableRows
    ensures PageRows(before + [table] + after, minTableRows, minColumns)
            == PageRows(before + after, minTableRows, minColumns)
  {
    PageRowsAppend(before + [table], after, minTableRows, minColumns);
    PageRowsAppend(before, after, minTableRows, minColumns);
    assert (before + [table])[..|before|] == before;
  }

  /** An exception on any page leaves no rows at all, whatever the other pages hold. */
  lemma PageErrorDiscardsEverything(before: seq<Page>, after: seq<Page>, minTableRows: int, minColumns: int)
    ensures Extracted(Document(before + [PageError] + after), minTableRows, minColumns) == []
  {
    var pages := before + [PageError] + after;
    assert pages[|before|].PageError?;
  }

  /** When nothing fails, the rows of a document are those of its first pages followed by those of the rest. */
  lemma ExtractedInPageOrder(a: seq<Page>, b: seq<Page>, minTableRows: int, minColumns: int)
    requires !ExtractionFails(Document(a + b))
    ensures !ExtractionFails(Document(a)) && !ExtractionFails(Document(b))
    ensures Extracted(Document(a + b), minTableRows, minColumns)
            == Extracted(Document(a), minTableRows, minColumns) + Extracted(Document(b), minTableRows, minColumns)
  {
    PagesRowsAppend(a, b, minTableRows, minColumns);
    forall i | 0 <= i < |a| ensures a[i].Page? {
      assert (a + b)[i] == a[i];
    }
    forall i | 0 <= i < |b| ensures b[i].Page? {
      assert (a + b)[|a| + i] == b[i];
    }
  }

  /**
   * A raw row is kept exactly when it is a data row and some cell in it is
   * neither falsy nor whitespace only; a kept row has its source row's length
   * and every cell is that source cell cleaned.
   */
  lemma RowContributionSpec(raw: RawRow, minColumns: int)
    ensures RowContribution(raw, minColumns) != []
            <==> IsDataRow(raw, minColumns) && exists j :: 0 <= j < |raw.value| && !IsBlankCell(raw.value[j])
    ensures RowContribution(raw, minColumns) != [] ==>
              && RowContribution(raw, minColumns) == [CleanRow(raw.value)]
              && |CleanRow(raw.value)| == |raw.value|
              && forall j :: 0 <= j < |raw.value| ==> CleanRow(raw.value)[j] == CleanCell(raw.value[j])
  {
    if IsDataRow(raw, minColumns) {
      CleanRowSpec(raw.value);
    }
  }

  /** Every collected row is wide enough, not blank, and made of collapsed cells. */
  predicate IsCollectedRow(row: Row, minColumns: int) {
    && |row| > 0
    && |row| >= minColumns
    && HasContent(row)
    && forall j :: 0 <= j < |row| ==> IsCollapsed(row[j])
  }

  lemma {:induction false} TableRowsShape(table: RawTable, minColumns: int)
    ensures forall i :: 0 <= i < |TableRows(table, minColumns)| ==> IsCollectedRow(TableRows(table, minColumns)[i], minColumns)
    decreases |table|
  {
    if table != [] {
      TableRowsShape(table[..|table| - 1], minColumns);
      var last := table[|table| - 1];
      if last.Some? {
        CleanRowSpec(last.value);
      }
    }
  }

  lemma {:induction false} PageRowsShape(tables: seq<RawTable>, minTableRows: int, minColumns: int)
    ensures forall i :: 0 <= i < |PageRows(tables, minTableRows, minColumns)| ==>
              IsCollectedRow(PageRows(tables, minTableRows, minColumns)[i], minColumns)
    decreases |tables|
  {
    if tables != [] {
      PageRowsShape(tables[..|tables| - 1], minTableRows, minColumns);
      TableRowsShape(tables[|tables| - 1], minColumns);
    }
  }

  lemma {:induction false} PagesRowsShape(pages: seq<Page>, minTableRows: int, minColumns: int)
    ensures forall i :: 0 <= i < |PagesRows(pages, minTableRows, minColumns)| ==>
              IsCollectedRow(PagesRows(pages, minTableRows, minColumns)[i], minColumns)
    decreases |pages|
  {
    if pages != [] {
      PagesRowsShape(pages[..|pages| - 1], minTableRows, minColumns);
      if pages[|pages| - 1].Page? {
        PageRowsShape(pages[|pages| - 1].tables, minTableRows, minColumns);
      }
    }
  }

  /**
   * Every row of the result has at least `minColumns` cells (and at least
   * one), is not blank, and holds only cleaned, whitespace-collapsed cells.
   */
  lemma ExtractedRowsShape(doc: Document, minTableRows: int, minColumns: int)
    ensures forall i :: 0 <= i < |Extracted(doc, minTableRows, minColumns)| ==>
              IsCollectedRow(Extracted(doc, minTableRows, minColumns)[i], minColumns)
  {
    if !ExtractionFails(doc) {
      PagesRowsShape(doc.pages, minTableRows, minColumns);
    }
  }

  /** Every row a table contributes is the cleaned form of one of its data rows, in table order. */
  lemma {:induction false} TableRowsFromSource(table: RawTable, minColumns: int, i: nat)
    requires i < |TableRows(table, minColumns)|
    ensures exists k :: 0 <= k < |table| && IsDataRow(table[k], minColumns)
                        && TableRows(table, minColumns)[i] == CleanRow(table[k].value)
    decreases |table|
  {
    var prefix := table[..|table| - 1];
    var k := |table| - 1;
    var rows := TableRows(table, minColumns);
    assert rows == TableRows(prefix, minColumns) + RowContribution(table[k], minColumns);
    if i < |TableRows(prefix, minColumns)| {
      assert rows[i] == TableRows(prefix, minColumns)[i];
      TableRowsFromSource(prefix, minColumns, i);
      var k' :| 0 <= k' < |prefix| && IsDataRow(prefix[k'], minColumns)
                && TableRows(prefix, minColumns)[i] == CleanRow(prefix[k'].value);
      assert table[k'] == prefix[k'];
    } else {
      assert rows[i] == CleanRow(table[k].value);
    }
  }
}
