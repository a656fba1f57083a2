# Invoice row reconstruction: a Dafny model

This project models the extraction core of the PDF-to-Excel invoice converter in `app.py`.
For one invoice PDF, the converter does four things:

- It reads header fields (invoice number, date, customer name, address, paid amount,
  balance) from the document text. Each field is found by a literal Arabic label.
- It computes an ASCII-only file name, `bill_<stem>.pdf`, for a copy of the PDF.
- It walks every table of every page. Rows with no numeric cell are continuation rows:
  the first cell of the most recent one is put in front of the first cell of the next data
  row. Data rows are emitted in order.
- It turns each table that has merged rows into a frame. The frame's column names are a
  prefix of a fixed six-name vocabulary. Every row is stamped with the header fields and
  the source file name.

The modules follow those steps:

- `Chars` holds the character classes: Python whitespace, digits, ASCII.
- `RowClassifier` models `is_data_row`.
- `FieldFinder` models `find_field`.
- `Naming` models the address expression and the safe file name.
- `TableMerge` models the per-table merge loop.
- `Invoice` models header reading, frame construction, stamping and the page/table loop
  of `process_pdf`.
- `Wrappers` holds `Option` and `Result`.

The merge loop and the page/table loop are methods with loops (`TableMerge.MergeTable`,
`Invoice.ProcessPdf`). Each is proved equal to a recursive specification function, and the
properties are proved about those functions.

Behaviour that the proofs make explicit:

- `find_field` returns `""` when the label is absent. It also returns `""` when only `:`
  and whitespace follow the label's first occurrence up to the end of the text
  (`FieldFinder.FieldEmptyIff`). The separator run crosses line breaks. So a label whose
  own line is empty takes its value from the next line that holds a character other than
  `:` and whitespace, with any leading `:` and whitespace skipped
  (`FieldFinder.ColonOnlyLineSkipped`).
- A continuation row prefixes the next data row only when it comes right before it. A data
  row in between clears the buffer, and a later continuation row overwrites it. A
  continuation row with no cells is an empty list in Python, so it prefixes nothing
  (`TableMerge.MergeIsIndexed`).
- A cell containing a decimal point is never numeric. This holds for `.` and for the
  Arabic separators U+066B and U+066C, because both are turned into `.` before the digit
  test.
- A frame can only be built when every merged row fits the column names. That means the
  first data row has at most six cells and no data row is wider than the first one.
  Otherwise frame construction raises an exception. The exception ends the document's
  processing, and the frames built before it are returned (`Invoice.RunTablesFailsIff`,
  `Invoice.RunTablesGrows`).

## Model

| member | source | states |
|---|---|---|
| `Chars.IsSpace` | app.py:22-24 | Python's whitespace (`str.isspace`), which `\s` matches and `str.strip()` removes: tab to carriage return, U+001C-U+001F, space, U+0085, U+00A0, U+1680, U+2000-U+200A, U+2028, U+2029, U+202F, U+205F and U+3000 |
| `Chars.IsDigit` | app.py:19 | the digits `str.isdigit` accepts here: ASCII, Arabic-Indic and Extended Arabic-Indic digits |
| `Chars.IsAscii` | app.py:41 | a character that `encode('ascii', errors='ignore')` keeps: a code point below 128 |
| `RowClassifier.IsDropped` | app.py:19 | the characters that `.replace(",", "")` and `.replace(" ", "")` remove: the comma and the space |
| `RowClassifier.Clean` | app.py:19 | the cleaned cell text never contains `,`, a space or an Arabic separator, and is no longer than the cell |
| `RowClassifier.IsDigitString` | app.py:19 | `str.isdigit`: the text is non-empty and every character is a digit |
| `RowClassifier.IsNumericCell` | app.py:19 | a numeric cell holds at least one digit |
| `RowClassifier.IsDataRow` | app.py:18-19 | a data row has at least one cell, and some cell of it holds a digit |
| `RowClassifier.CleanEmptyIff` | app.py:19 | the cleaned text is empty iff every character is a comma or a space |
| `RowClassifier.CleanAllDigitsIff` | app.py:19 | the cleaned text is all digits iff every character of the cell is a digit, a comma or a space |
| `RowClassifier.NumericCellIff` | app.py:19 | a cell is numeric iff it has at least one digit and only digits, commas and spaces |
| `RowClassifier.BlankRowIsNotData` | app.py:19 | a row with no cells, or only empty cells, is not a data row |
| `RowClassifier.ThousandsSeparatorsAccepted` | app.py:19 | `"1,153"` and `"12 000"` are numeric; a row holding `"1,153"` is a data row |
| `RowClassifier.DecimalPointRejected` | app.py:19 | a cell containing `.`, U+066B or U+066C is not numeric |
| `FieldFinder.OccursAt` | app.py:22-23 | the label matches literally at the given index and fits in the text |
| `FieldFinder.FindFrom` | app.py:23 | finds the leftmost occurrence of the label at or after a position; None iff there is none |
| `FieldFinder.FindFirst` | app.py:23 | the search returns the first occurrence of the label in the text, or None iff the label occurs nowhere |
| `FieldFinder.FindFirstIsFirstOccurrence` | app.py:23 | the first occurrence is unique and is what the search returns |
| `FieldFinder.IsSeparator` | app.py:22 | the class `[:\s]`: a colon or whitespace, line breaks included |
| `FieldFinder.SkipSeparators` | app.py:22 | `[:\s]*` is greedy: everything skipped is `:` or whitespace, and the next character is neither |
| `FieldFinder.SkipSeparatorsUnique` | app.py:22 | the end of the separator run is unique |
| `FieldFinder.LineEnd` | app.py:22 | `[^\n]*` stops at the next line break or at the end of the text |
| `FieldFinder.LineEndUnique` | app.py:22 | the end of the line is unique |
| `FieldFinder.TrimStart` | app.py:24 | the result is no longer than the input and does not start with whitespace |
| `FieldFinder.TrimEnd` | app.py:24 | the result is no longer than the input and does not end with whitespace |
| `FieldFinder.TrimStartIsSuffix` | app.py:24 | left-strip keeps a suffix and removes only whitespace |
| `FieldFinder.TrimEndIsPrefix` | app.py:24 | right-strip keeps a prefix and removes only whitespace |
| `FieldFinder.Strip` | app.py:24 | the stripped text has no whitespace at either end |
| `FieldFinder.StripIsInfix` | app.py:24 | the stripped text is the text with a whitespace prefix and a whitespace suffix removed |
| `FieldFinder.StripKeepsPrefix` | app.py:24 | stripping text that starts with a non-space keeps a non-empty prefix and drops only trailing whitespace |
| `FieldFinder.ValueAfter` | app.py:22-24 | the value after a label is one line with no whitespace at either end |
| `FieldFinder.FindField` | app.py:21-24 | the field has no line break and no whitespace at either end; it is `""` when the label is absent |
| `FieldFinder.AbsentKeywordGivesEmpty` | app.py:24 | a label that occurs nowhere gives `""` |
| `FieldFinder.StrippedLine` | app.py:22-24 | the stripped rest of the line is a prefix of the line followed only by whitespace; it is empty only at the end of the text |
| `FieldFinder.FieldIsValueAfter` | app.py:22-24 | the field is the value read right after the occurrence of the label that the search finds |
| `FieldFinder.ValueAfterIsStrippedLine` | app.py:22-24 | once the separator run and the line end are fixed, the value after the label is the stripped text between them |
| `FieldFinder.FieldIsStrippedLine` | app.py:22-24 | the field is the stripped text between the end of the separator run after the first occurrence and the line end |
| `FieldFinder.StrippedLineValue` | app.py:22-24 | proof helper: `StrippedLine` read for a named value — the stripped text between the end of a separator run and the line end is a prefix of that line followed only by whitespace, and is empty only at the end of the text |
| `FieldFinder.FieldOfStrippedLine` | app.py:21-24 | proof helper: a field equal to that stripped text has the same four properties |
| `FieldFinder.FieldValueAfterFirstOccurrence` | app.py:21-24 | the field, stated without the scanning functions: a prefix of the line reached after the separator run that follows the first occurrence, followed only by whitespace up to the line end; empty only when that run reaches the end of the text |
| `FieldFinder.FieldEmptyIff` | app.py:21-24 | the field is `""` iff the label is absent, or only `:`/whitespace follows its first occurrence |
| `FieldFinder.StripUnpadded` | app.py:24 | text with no whitespace at either end is unchanged by `strip()` |
| `FieldFinder.ColonOnlyLineLayout` | app.py:22-23 | in `"kw\n:\nval"` the label is found at 0, the `[:\s]*` run after it ends at 5, and `[^\n]*` then captures `val` |
| `FieldFinder.ColonOnlyLineSkipped` | app.py:21-24 | a label whose next line holds only `:` takes its value from the line after that: `find_field("kw\n:\nval", "kw")` is `"val"` |
| `Naming.Address` | app.py:37 | the address is `""` iff both parts are empty; otherwise it is part1, one space, then part2 |
| `Naming.AsciiOnly` | app.py:41 | the result has only ASCII characters, each taken from the stem, and is no longer than the stem |
| `Naming.AsciiOnlyConcat` | app.py:41 | dropping non-ASCII characters commutes with concatenation |
| `Naming.AsciiOnlySingle` | app.py:41 | a single character is kept iff it is ASCII; with the previous lemma this makes the function an order-preserving filter |
| `Naming.AsciiOnlyKeepsAscii` | app.py:41 | an all-ASCII stem is kept unchanged |
| `Naming.AsciiOnlyAllDropped` | app.py:41 | a stem with no ASCII character leaves nothing |
| `Naming.SafeName` | app.py:41 | the name starts with `bill_` and ends with `.pdf`, is all ASCII, and holds the ASCII part of the stem between them |
| `Naming.SafeNameIgnoresNonAscii` | app.py:41 | removing a non-ASCII character from the stem leaves the safe name unchanged |
| `Naming.SafeNameNotInjective` | app.py:41 | an all-Arabic stem and the empty stem share the name `bill_.pdf` |
| `TableMerge.CellText` | app.py:53 | a missing or empty cell reads as `""`; any other cell reads as its text |
| `TableMerge.RowValues` | app.py:53 | the row keeps its length, and each cell is converted as above |
| `TableMerge.TableRows` | app.py:53 | one converted row per table row, of the same length; each cell is its text, or `""` when missing or empty |
| `TableMerge.Combine` | app.py:56-61 | the emitted row has the data row's length and cells after the first; its first cell is prefixed by the buffer's first cell and a space iff the buffer is non-empty |
| `TableMerge.MergeFrom` | app.py:52-63 | the merge from a buffered row emits at most one row per input row, and no emitted row is empty |
| `TableMerge.Merge` | app.py:49-63 | a table's merge, starting with an empty buffer, emits at most one row per table row, and no emitted row is empty |
| `TableMerge.MergeFromStep` | app.py:52-63 | one iteration: a data row emits its combined row and clears the buffer; any other row replaces the buffer |
| `TableMerge.MergeTable` | app.py:49-63 | the loop's output equals the merge specification for the converted rows, starting with an empty buffer |
| `TableMerge.BufferBefore` | app.py:50-63 | what `temp_row` holds when row i is reached: nothing for the first row or after a data row, otherwise the previous row |
| `TableMerge.MergedRowAt` | app.py:56-63 | the row emitted for a data row has the data row's length and cells after the first |
| `TableMerge.DataIndices` | app.py:55 | lists exactly the data-row indices, in increasing order |
| `TableMerge.RowsAt` | app.py:52-63 | one emitted row per listed data row |
| `TableMerge.RowsAtIndexed` | app.py:52-63 | the k-th of those rows is the row emitted for the k-th listed data row |
| `TableMerge.MergeFromIndexed` | app.py:52-63 | from any row on, the sequential merge emits the index-based rows of the data rows from there on |
| `TableMerge.DataRowStep` | app.py:55-61 | a data row contributes its emitted row in front of the rows of the data rows after it |
| `TableMerge.MergeIsIndexed` | app.py:52-63 | one row per data row, in order; the k-th is data row j, prefixed only by the row just before j when that row is a non-data row with cells |
| `TableMerge.NoDataRowsEmitNothing` | app.py:52-63 | continuation rows alone emit nothing, whatever is buffered |
| `TableMerge.MergeEmptyIff` | app.py:52-65 | a table emits no rows iff it has no data row |
| `TableMerge.TrailingContinuationsDropped` | app.py:62-63 | continuation rows after the last data row do not change the output |
| `Invoice.ReadHeader` | app.py:32-39 | the invoice number, date, customer name, paid amount and balance are each the field found after their own label, one stripped line each; the address is `""` iff both address parts are; otherwise it is part1, a space, then part2 |
| `Invoice.StampValues` | app.py:68-74 | one value per stamped column, in column order: invoice number, invoice date, customer name, address, paid, balance, then the source file name |
| `Invoice.ColumnNames` | app.py:66-67 | the column names are the first min(6, width of the first merged row) names of the vocabulary |
| `Invoice.Width` | app.py:67 | the width of the widest row: no row is wider, and some row has it |
| `Invoice.Pad` | app.py:67 | a row widened to n cells keeps its cells and adds missing cells |
| `Invoice.NewFrame` | app.py:67 | frame construction succeeds iff the column names match the widest row; rows are padded |
| `Invoice.Stamp` | app.py:68-74 | every row gets the header fields and the source name after its own cells |
| `Invoice.FitsColumns` | app.py:66-67 | the condition under which `pd.DataFrame` does not raise: the first merged row has at most six cells and no merged row is wider than it |
| `Invoice.BuildFrame` | app.py:65-74 | a built frame has the first merged row's column names followed by the stamped columns, and one row per merged row |
| `Invoice.BuildFrameOkIff` | app.py:65-67 | a table's frame is built iff its merged rows fit the column names |
| `Invoice.BuildFrameRows` | app.py:67-74 | a built frame has one row per merged row: its cells padded with missing cells to the line-item columns, then the stamped values |
| `Invoice.BuildFrameSpec` | app.py:65-74 | a table's frame is built iff its merged rows fit; it then has the first merged row's column names followed by the stamped columns, one row per merged row, padded cells and the same stamped values on every row |
| `Invoice.MergedRowWidths` | app.py:57-61 | every merged row is as wide as its data row and has at least one cell |
| `Invoice.FitsColumnsIff` | app.py:66-67 | the merged rows fit iff the first data row has at most six cells and no data row is wider than it |
| `Invoice.TablesWithData` | app.py:65 | counts the tables that have a data row; never more than the number of tables |
| `Invoice.TableFails` | app.py:65-77 | only a table with a data row can make the loop fail |
| `Invoice.TableStep` | app.py:65-77 | after a failure a table changes nothing; a table adds at most one frame |
| `Invoice.TableStepFails` | app.py:65-77 | one table step fails iff the loop had failed or the table does not fit |
| `Invoice.TableStepAdds` | app.py:65-75 | a step that does not fail adds one frame iff the table has a data row; that frame is the table's built frame and is stamped |
| `Invoice.TableStepSpec` | app.py:65-77 | one table step fails iff the loop had failed or the table does not fit; otherwise it adds the table's built, stamped frame iff the table has a data row; it never removes a frame |
| `Invoice.RunTables` | app.py:46-78 | the document loop yields at most one frame per table |
| `Invoice.SomeTableFailsLast` | app.py:48 | some table fails iff one before the last does or the last one does |
| `Invoice.RunTablesFailsIff` | app.py:46-77 | the document loop fails iff some table does not fit; otherwise it yields one frame per table with a data row |
| `Invoice.RunTablesStamped` | app.py:65-75 | every frame carries the vocabulary-prefix columns and the same header fields and source name on every row |
| `Invoice.RunTablesGrows` | app.py:75-78 | frames are only appended, so the frames built before an exception are returned |
| `Invoice.GrowsSnoc` | app.py:75 | one more table keeps the frames built so far |
| `Invoice.TableWithoutDataAddsNothing` | app.py:65 | a table without data rows contributes nothing |
| `Invoice.RunTablesSnoc` | app.py:46-48 | one more table means one more table step |
| `Invoice.FailedSnoc` | app.py:76-78 | a table after a failure changes nothing |
| `Invoice.FailureIsFinal` | app.py:76-78 | after a failure, later tables change nothing |
| `Invoice.AllTables` | app.py:46-48 | the document's tables are as many as all pages hold together |
| `Invoice.AllTablesHasEveryTable` | app.py:46-48 | every table of every page is among the document's tables |
| `Invoice.AllTablesSnoc` | app.py:46-48 | one more page adds its tables at the end |
| `Invoice.AllTablesConcatStep` | app.py:46-48 | one more page after the second group adds its tables at the end of both sides |
| `Invoice.AllTablesConcat` | app.py:46-48 | the tables of two groups of pages are those of the first group, then those of the second |
| `Invoice.AllTablesAround` | app.py:46-48 | the document's tables split after any table into those up to it, then the rest of its page and the later pages |
| `Invoice.FailureEndsDocument` | app.py:76-78 | a failure at some table is the outcome of the whole document |
| `Invoice.NextTable` | app.py:48 | processing one more table of a page extends the outcome by one table step |
| `Invoice.NextPage` | app.py:46-48 | the tables of one more page come after those of the earlier pages |
| `Invoice.AddTable` | app.py:48-75 | the loop body's result equals one table step applied to the frames so far |
| `Invoice.ProcessPdf` | app.py:26-78 | the frames and the failure flag equal the document loop's specification over all tables of all pages, with the header read from the text |

## Left out

- The PDF text is an input. Extracting it with PyMuPDF and joining the pages (app.py:29-30) is foreign-library I/O.
- The tables are an input, as rows of optional cell texts. Table extraction with pdfplumber (app.py:45-47) is foreign-library I/O.
- Copying the PDF to the safe folder (app.py:42-43) is file I/O. Only the name computation of line 41 is modelled, as `Naming.SafeName`. `Invoice.ProcessPdf` does not compute that name, because nothing it returns depends on it.
- Failures of the I/O steps are not modelled. `Invoice.ProcessPdf` reports only the frame-construction exception: `failed` stands for the error message at app.py:76-77, and the frames built so far are returned.
- The streamlit UI, temporary folders, zip handling and Excel export are not part of this model.
- pandas `DataFrame` internals: a frame is modelled as column names plus rows of optional cells. Construction fails iff the number of names differs from the widest row, and shorter rows are padded with missing cells. Column dtypes and the index are not modelled.
- `Chars.IsDigit`: Python's `str.isdigit` accepts every Unicode digit, including superscripts and the digits of other scripts. Here it is restricted to ASCII, Arabic-Indic (U+0660-U+0669) and Extended Arabic-Indic (U+06F0-U+06F9) digits.
- `RowClassifier.IsDigitString`: restricted to the digits of `Chars.IsDigit` (see the line above), so it accepts fewer strings than `str.isdigit`.
- `Chars.IsSpace` lists the Unicode whitespace of Python's `str.isspace`, which `\s` and `str.strip()` both use. Characters are Unicode scalar values, with no normalisation.
