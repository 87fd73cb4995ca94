# Persian PDF to Excel converter: a Dafny model

The converter reads the tables of a Persian (or Arabic) PDF and writes them to
a right-to-left Excel sheet. `pdf_to_excel_improved.py` and
`persian_pdf_to_excel.py` are the same script line for line. This project
models the logic that sits between the PDF library and the spreadsheet
library, and proves what that logic does:

- `Text` (`text.dfy`) covers the Python string operations the script relies
  on: `str.isspace`, `strip()`, `split()`, `' '.join`, `[::-1]`, and the
  character classes of its regular expressions.
- `Bidi` (`bidi.dfy`) is `fix_persian_text`. Text with Arabic script in it has
  each word that is not a number or a date reversed, and the word order
  reversed too. Empty, numeric and non-Arabic text come back unchanged.
- `Extraction` (`extraction.dfy`) is the row collector of
  `extract_tables_from_pdf`. It skips small tables and short rows, cleans
  every cell, drops blank rows, and keeps the page, table and row order. An
  exception anywhere gives no rows at all. The PDF library's output is the
  input `Document`: pages of tables of rows of optional strings, where an
  exception on opening the file or reading a page is a value of its own.
- `Assembly` (`assembly.dfy`) is `create_excel_with_persian_headers`.
  - It pads every row to the widest row's length and reverses the columns.
  - The first row becomes the header.
  - It writes each cell with its font, alignment and border.
  - It sets column widths from the longest value in each column, clamped to
    12..50.
  - It sets row heights, freezes the header row and switches the sheet to
    right-to-left.

  The worksheet is a `Worksheet` object whose fields the methods update in
  place. Everything the spreadsheet library itself may refuse is one boolean
  parameter: a title it rejects, a value it cannot store, a save that fails.
- `Cli` (`cli.dfy`) is the output-path rule of `main`, with
  `os.path.splitext` on POSIX paths.

## Model

| member | source | states |
|---|---|---|
| Text.ArabicScriptCount | pdf_to_excel_improved.py:47-49 | the count of Arabic-script characters is positive exactly when the text holds one |
| Text.IsNumericToken | pdf_to_excel_improved.py:56 | defines the token test of `^[\d۰-۹,:/\-\.]+$`: non-empty, digits and `,:/-.` only |
| Text.IsNumericText | pdf_to_excel_improved.py:42 | defines the whole-text test of `^[\d۰-۹,:/\-\.\s]+$`: non-empty, digits, `,:/-.` and whitespace only |
| Text.Reversed | pdf_to_excel_improved.py:61 | `s[::-1]` has the same length and holds `s[n-1-i]` at position `i` |
| Text.ReversedReversed | pdf_to_excel_improved.py:61 | reversing twice gives the original back |
| Text.ReversedMultiset | pdf_to_excel_improved.py:61 | reversal keeps every character, with multiplicity |
| Text.Strip | pdf_to_excel_improved.py:105 | `strip()` result is no longer than its input and has no whitespace at either end |
| Text.StripCutsOnlyEnds | pdf_to_excel_improved.py:105 | `strip()` gives the slice of its input that starts where `lstrip()` stops; everything before and after that slice is whitespace |
| Text.WordLength | pdf_to_excel_improved.py:51 | the first word of a string ends at its first whitespace character |
| Text.Words | pdf_to_excel_improved.py:51 | defines `split()`: the maximal runs of non-whitespace characters, left to right; every one is a non-empty word without whitespace |
| Text.Join | pdf_to_excel_improved.py:64 | defines `' '.join`: the words with one space between neighbours and none at the ends |
| Text.WordsOfJoin | pdf_to_excel_improved.py:106 | splitting words joined by single spaces gives the same words back |
| Text.JoinIsCollapsed | pdf_to_excel_improved.py:106 | `' '.join(s.split())` has no leading, trailing or repeated whitespace |
| Text.JoinEmpty | pdf_to_excel_improved.py:64 | joining words gives `""` exactly when there are no words |
| Text.WordsEmpty | pdf_to_excel_improved.py:51 | `split()` gives no words exactly when the text is all whitespace |
| Text.WordsOfStrip | pdf_to_excel_improved.py:105-106 | stripping before splitting does not change the words |
| Text.StripKeepsNonSpaces | pdf_to_excel_improved.py:105 | stripping removes only whitespace |
| Text.FlattenWords | pdf_to_excel_improved.py:51 | the words of a text, concatenated, are its non-whitespace characters in order |
| Text.NonSpacesOfJoin | pdf_to_excel_improved.py:64 | joining words with spaces adds only whitespace |
| Bidi.FixToken | pdf_to_excel_improved.py:56-61 | a fixed token has the token's length and stays a word |
| Bidi.FixTokenKeepsCharacters | pdf_to_excel_improved.py:56-61 | a fixed token has the same characters, so it is numeric exactly when the token was |
| Bidi.FixTokenTwice | pdf_to_excel_improved.py:56-61 | fixing a token twice gives it back |
| Bidi.FixTokens | pdf_to_excel_improved.py:54-62 | the token loop fixes every token in place, in order |
| Bidi.FixPersianText | pdf_to_excel_improved.py:36-66 | empty, purely numeric/date and non-Arabic text is returned unchanged; the result is empty exactly when the input is |
| Bidi.FixPersianTextTokens | pdf_to_excel_improved.py:51-64 | otherwise output token i is input token n-1-i, verbatim if numeric and reversed if not; token count and lengths are kept |
| Bidi.RearrangedWords | pdf_to_excel_improved.py:51-64 | the output is the fixed tokens in reverse order joined by single spaces, and splitting it recovers exactly those tokens |
| Bidi.FixPersianTextKeepsCharacters | pdf_to_excel_improved.py:47-64 | the output has the same non-whitespace characters as the input, with multiplicity |
| Bidi.FixPersianTextStillReorders | pdf_to_excel_improved.py:42-49 | rearranged output still holds Arabic script and is still not purely numeric |
| Bidi.FixPersianTextTwice | pdf_to_excel_improved.py:36-66 | applying the function twice gives the whitespace-collapsed input for rearranged text, and the input itself otherwise |
| Bidi.FixTokensTwice | pdf_to_excel_improved.py:54-62 | fixing every token twice gives the tokens back |
| Bidi.FixTokensCommutesWithReversed | pdf_to_excel_improved.py:54-64 | fixing tokens and reversing their order can be done in either order |
| Bidi.FixTokensReversedTwice | pdf_to_excel_improved.py:54-64 | fixing and reversing the token list twice gives it back |
| Bidi.FixPersianTextInvolution | pdf_to_excel_improved.py:36-66 | on whitespace-collapsed text the function is its own inverse |
| Bidi.FixPersianTextCollapsed | pdf_to_excel_improved.py:51-64 | rearranged output, and any output of collapsed input, is whitespace-collapsed |
| Extraction.CleanCellSpec | pdf_to_excel_improved.py:102-111 | a cleaned cell is `""` exactly when the raw cell is `None`, empty or all whitespace; it is always whitespace-collapsed |
| Extraction.CleanText | pdf_to_excel_improved.py:105-108 | defines the cleaning of a cell's text: stripped, whitespace runs collapsed to single spaces, then passed through `fix_persian_text` |
| Extraction.CleanCell | pdf_to_excel_improved.py:103-111 | defines one cleaned cell: `""` for `None` or `""`, otherwise its text cleaned |
| Extraction.CleanCellOfTokens | pdf_to_excel_improved.py:103-108 | a non-empty cell becomes `fix_persian_text` of its words joined by single spaces |
| Extraction.CleanRow | pdf_to_excel_improved.py:101-111 | the cleaned row has the raw row's length and holds each raw cell cleaned |
| Extraction.CleanRowSpec | pdf_to_excel_improved.py:101-115 | `any(clean_row)` holds exactly when some raw cell is not blank; every cleaned cell is collapsed |
| Extraction.CleanCells | pdf_to_excel_improved.py:101-111 | the cell loop builds exactly the cleaned row |
| Extraction.CollectTableRows | pdf_to_excel_improved.py:98-115 | the row loop collects exactly the table's contribution, in row order |
| Extraction.CollectPageRows | pdf_to_excel_improved.py:91-115 | the table loop collects exactly the page's contribution, skipping small tables |
| Extraction.ExtractTablesFromPdf | pdf_to_excel_improved.py:80-123 | the page loop returns exactly the specified rows, and `[]` when opening the file or reading any page fails |
| Extraction.Extracted | pdf_to_excel_improved.py:86-123 | defines the result: no rows when opening the file or reading any page raises, otherwise the rows of every page in order |
| Extraction.RowContributionSpec | pdf_to_excel_improved.py:99-115 | a raw row is kept exactly when it is a data row with a non-blank cell; a kept row has its source row's length and cleaned cells |
| Extraction.SmallTableContributesNothing | pdf_to_excel_improved.py:94-95 | a table with fewer than `min_table_rows` rows adds no row wherever it stands |
| Extraction.PageErrorDiscardsEverything | pdf_to_excel_improved.py:117-121 | a failing page discards every row, including those of earlier pages |
| Extraction.ExtractedInPageOrder | pdf_to_excel_improved.py:86-115 | the rows of a document are those of its first pages followed by those of the rest |
| Extraction.TableRowsAppend | pdf_to_excel_improved.py:98-115 | the rows of a table are those of its first rows followed by those of the rest |
| Extraction.PageRowsAppend | pdf_to_excel_improved.py:92-115 | the rows of a page's tables are those of its first tables followed by those of the rest |
| Extraction.PagesRowsAppend | pdf_to_excel_improved.py:86-115 | the rows of a page sequence are those of its first pages followed by those of the rest |
| Extraction.ExtractedRowsShape | pdf_to_excel_improved.py:99-115 | every collected row has at least `min_columns` cells, is not blank and holds collapsed cells only |
| Extraction.TableRowsFromSource | pdf_to_excel_improved.py:98-115 | every collected row is the cleaned form of some data row of its table |
| Assembly.Worksheet.constructor | persian_pdf_to_excel.py:162-163 | a new sheet is titled `Sheet` and has no cells, widths, heights or frozen panes |
| Assembly.SheetTitle | persian_pdf_to_excel.py:164 | the title is the first 31 characters of the name, the whole name when it is shorter |
| Assembly.MaxColumns | persian_pdf_to_excel.py:144 | `max_cols` is at least every row's length and equal to some row's length |
| Assembly.PadRow | persian_pdf_to_excel.py:149-150 | a padded row has exactly `max_cols` cells, the row's own cells first and `""` after them |
| Assembly.PadRows | persian_pdf_to_excel.py:147-150 | the padding loop pads every row, in order |
| Assembly.ReverseColumns | persian_pdf_to_excel.py:153-156 | the reversal loop reverses every row, in order |
| Assembly.PadThenReverse | persian_pdf_to_excel.py:147-156 | padding then reversing a row gives the row as shown right to left |
| Assembly.LoopsBuildRtlGrid | persian_pdf_to_excel.py:147-156 | the two loops together give every row shown right to left, `max_cols` wide |
| Assembly.RtlGridPlacement | persian_pdf_to_excel.py:144-156 | cell k of a row lands at 0-based column `max_cols-1-k`, and the columns before it hold `""`: nothing is cut off |
| Assembly.WriteCells | persian_pdf_to_excel.py:179-200 | exactly the grid's cells are written: the first row as a bold, size-12, centred header; body cells centred iff numeric, right-aligned otherwise; all with thin borders |
| Assembly.SheetHoldsValues | persian_pdf_to_excel.py:184-193 | every cell of the grid is on the sheet with its value |
| Assembly.CellPlacement | persian_pdf_to_excel.py:144-193 | input cell `data_rows[i][k]` is at sheet row i+1, column `max_cols-k` |
| Assembly.BlankPlacement | persian_pdf_to_excel.py:144-193 | columns 1 to `max_cols-len(row)` of a row's sheet row hold `""` |
| Assembly.IsNumericCell | persian_pdf_to_excel.py:196 | defines the centring test: a non-empty value whose stripped text matches the numeric-token pattern |
| Assembly.CellStyle | persian_pdf_to_excel.py:167-200 | header cells are bold size 12 and centred; a body cell is centred iff its value is numeric; all use the chosen font, wrap and a thin border |
| Assembly.ColumnWidth | persian_pdf_to_excel.py:217 | a column width always lies in 12..50 |
| Assembly.ColumnWidthValues | persian_pdf_to_excel.py:217 | widths are 12 up to 9 characters, 1.3 per character from 10 to 38, 50 from 39 on, and never shrink for longer text |
| Assembly.ColumnLongest | persian_pdf_to_excel.py:205-212 | the longest length in a column bounds every value in it and is 0 or attained |
| Assembly.ColumnWidths | persian_pdf_to_excel.py:203-218 | columns 1 to `max_cols` have widths, each from its own longest value, header included |
| Assembly.LongestInColumn | persian_pdf_to_excel.py:205-214 | the running-maximum loop over a column's cells finds its longest value's length |
| Assembly.AdjustColumnWidths | persian_pdf_to_excel.py:203-218 | the width loop sets exactly the widths `ColumnWidths` specifies |
| Assembly.SetRowHeights | persian_pdf_to_excel.py:221-223 | row 1 is 25 high, rows 2 to `len(rows)+1` are 20 high, no other row has a height |
| Assembly.HeightsReachPastLastRow | persian_pdf_to_excel.py:221-223 | a height is set for row `len(rows)+1`, a row that holds no cell |
| Assembly.FillSheet | persian_pdf_to_excel.py:162-229 | the sheet gets its title, cells, widths, heights, the frozen header row at A2 and the right-to-left view |
| Assembly.CreateExcelWithPersianHeaders | persian_pdf_to_excel.py:138-241 | no rows gives False and no sheet; otherwise the sheet is built and the result is whether the library accepted and saved it |
| Cli.LastIndexOf | persian_pdf_to_excel.py:274 | `rfind` gives the last index of the character, or -1 when there is none |
| Cli.SplitExtRoot | persian_pdf_to_excel.py:274 | `splitext(p)[0]` is a prefix of p; when it is shorter, p has an extension right after it: a last dot with no `/` after it and a non-dot character of the file name before it |
| Cli.SplitExtRemoves | persian_pdf_to_excel.py:274 | conversely, a path with such an extension at index d gives exactly `p[:d]`; so `.pdf` and `..` keep their name |
| Cli.OutputPath | persian_pdf_to_excel.py:267-275 | `-o` if given, else the positional output if given, else the input's root plus `_converted.xlsx`; empty values count as not given |
| Cli.DefaultOutputPath | persian_pdf_to_excel.py:272-275 | for `name.pdf` the generated output is `name_converted.xlsx` |
| Cli.HiddenFileKeepsItsName | persian_pdf_to_excel.py:274 | `.pdf` has no extension, so its output is `.pdf_converted.xlsx` |
| Cli.DefaultOutputDiffersFromInput | persian_pdf_to_excel.py:272-275 | the generated output path is never the input path |

## Left out

- The PDF library (`pdfplumber.open`, `page.extract_tables`) is not modelled. Its output, or its exception, is the input `Document`. The page-count and progress messages are left out.
- The spreadsheet library is left out: `Workbook`, the style objects, `get_column_letter` and `wb.save`. A `Worksheet` records the values and styles written, the widths and heights set, the frozen panes and the right-to-left flag. Columns are numbered from 1 rather than lettered.
- CreateExcelWithPersianHeaders: its result is the parameter `libraryAccepts` whenever there are rows. That parameter stands for every failure of the spreadsheet library: an invalid title (for example one containing `/`), a value with characters a worksheet cannot hold, or a save that fails. The sheet is modelled as built in either case. A rejected title would stop the source before any cell is written, but the sheet is never saved then, so only the False result is observable.
- `print`, `traceback`, the import guard, argparse, `os.path.exists`, the `.pdf` suffix check, `sys.exit` and the usage banner are console and environment plumbing. They are not modelled.
- Text.IsDigit: `\d` is modelled as ASCII, Arabic-Indic and Extended Arabic-Indic digits only. Python also matches the decimal digits of every other script.
- Assembly.ColumnWidth: `max_length * 1.3` is computed exactly as a real number. Python computes it in floating point, which can differ in the last bit; the thresholds 9/10 and 38/39 are not affected.
- Cli.SplitExtRoot: only POSIX paths are modelled. Windows' `\` and drive letters are not.
- The `isinstance(text, str)` test of `fix_persian_text` is not modelled, because every caller passes a string.
- The width loop's `try`/`except` around each cell's length is not modelled, because `len(str(value))` cannot fail on a string.
