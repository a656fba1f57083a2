/** Reassembly of one extracted table: continuation rows (rows with no numeric cell) are held
    in a one-row buffer and their first cell is prefixed to the first cell of the next data
    row; data rows are emitted in order. */
module TableMerge {
  import opened Wrappers
  import opened RowClassifier

  /** A row as the table extractor delivers it: a cell is text or missing. */
  type RawRow = seq<Option<string>>

  /** A row after missing cells have been replaced by "". */
  type Row = seq<string>

  /** `cell if cell else ""`: a missing or empty cell reads as "", any other cell as its text. */
  function CellText(cell: Option<string>): (r: string)
    ensures r == "" <==> cell == None || cell == Some("")
    ensures cell.Some? ==> r == cell.value
  {
    match cell
    case None => ""
    case Some(s) => s
  }

  /** The cell texts of one raw row, cell by cell. */
  function RowValues(row: RawRow): (r: Row)
    ensures |r| == |row|
    ensures forall k :: 0 <= k < |row| ==> (r[k] == "" <==> row[k] == None || row[k] == Some(""))
    ensures forall k :: 0 <= k < |row| && row[k].Some? ==> r[k] == row[k].value
  {
    seq(|row|, k requires 0 <= k < |row| => CellText(row[k]))
  }

  /** All rows of a raw table, converted one by one: same rows, same cells, a missing cell
      read as "" and a text cell as its text. */
  function TableRows(table: seq<RawRow>): (rows: seq<Row>)
    ensures |rows| == |table|
    ensures forall i :: 0 <= i < |table| ==> |rows[i]| == |table[i]|
    ensures forall i, k :: 0 <= i < |table| && 0 <= k < |table[i]| ==>
      rows[i][k] == if table[i][k].Some? then table[i][k].value else ""
  {
    seq(|table|, i requires 0 <= i < |table| => RowValues(table[i]))
  }

  /** The row a data row is emitted as when `buf` is buffered: with a non-empty buffer its first
      cell becomes the buffer's first cell, a space and its own first cell; its other cells and
      its length are unchanged. With an empty buffer it is emitted as it is. */
  function Combine(buf: Row, row: Row): (r: Row)
    requires row != []
    ensures |r| == |row| && r[1..] == row[1..]
    ensures r[0] == if buf != [] then buf[0] + " " + row[0] else row[0]
  {
    if buf != [] then [buf[0] + " " + row[0]] + row[1..] else row
  }

  /** The rows emitted for `rows` when `buf` is in the buffer on entry: a data row is emitted
      (combined with the buffer) and empties the buffer; any other row replaces the buffer.
      At most one row is emitted per input row, and every emitted row has a cell. */
  function MergeFrom(rows: seq<Row>, buf: Row): (r: seq<Row>)
    ensures |r| <= |rows|
    ensures forall k :: 0 <= k < |r| ==> r[k] != []
  {
    if rows == [] then []
    else if IsDataRow(rows[0]) then [Combine(buf, rows[0])] + MergeFrom(rows[1..], [])
    else MergeFrom(rows[1..], rows[0])
  }

  /** The merge of one table; the buffer starts empty for every table. */
  function Merge(rows: seq<Row>): (r: seq<Row>)
    ensures |r| <= |rows|
    ensures forall k :: 0 <= k < |r| ==> r[k] != []
  {
    MergeFrom(rows, [])
  }

  /** One step of the merge from row `i` on, after the rows `done` were emitted. */
  lemma MergeFromStep(rows: seq<Row>, i: nat, done: seq<Row>, buf: Row)
    requires i < |rows|
    ensures done + MergeFrom(rows[i..], buf)
        == if IsDataRow(rows[i]) then (done + [Combine(buf, rows[i])]) + MergeFrom(rows[i + 1..], [])
           else done + MergeFrom(rows[i + 1..], rows[i])
  {
    assert rows[i..][0] == rows[i] && rows[i..][1..] == rows[i + 1..];
  }

  /** The per-table loop: converts every cell, keeps the most recent continuation row in
      `tempRow`, and appends each data row, combined with the buffered row, to `merged`. */
  method MergeTable(table: seq<RawRow>) returns (merged: seq<Row>)
    ensures merged == Merge(TableRows(table))
  {
    ghost var rows := TableRows(table);
    merged := [];
    var tempRow: Row := [];
    for i := 0 to |table|
      invariant Merge(rows) == merged + MergeFrom(rows[i..], tempRow)
    {
      var rowValues := RowValues(table[i]);
      assert rowValues == rows[i];
      MergeFromStep(rows, i, merged, tempRow);
      if IsDataRow(rowValues) {
        if tempRow != [] {
          var combined := [tempRow[0] + " " + rowValues[0]] + rowValues[1..];
          assert combined == Combine(tempRow, rowValues);
          merged := merged + [combined];
          tempRow := [];
        } else {
          merged := merged + [rowValues];
        }
      } else {
        tempRow := rowValues;
      }
    }
  }

  // ---------------------------------------------------------------------------------------
  // An index-based description of the merge, and the properties read off it.

  /** What is in the buffer when row `i` is reached: nothing for the first row, otherwise
      the previous row when that row is not a data row. Older continuation rows are lost. */
  function BufferBefore(rows: seq<Row>, i: nat): Row
    requires i <= |rows|
  {
    if i == 0 || IsDataRow(rows[i - 1]) then [] else rows[i - 1]
  }

  /** The row emitted for data row `j`. */
  function MergedRowAt(rows: seq<Row>, j: nat): (r: Row)
    requires j < |rows| && rows[j] != []
    ensures |r| == |rows[j]| && r[1..] == rows[j][1..]
  {
    Combine(BufferBefore(rows, j), rows[j])
  }

  /** The indices of the data rows from `i` on, in increasing order. */
  function DataIndices(rows: seq<Row>, i: nat): (idx: seq<nat>)
    requires i <= |rows|
    ensures forall k :: 0 <= k < |idx| ==> i <= idx[k] < |rows| && IsDataRow(rows[idx[k]])
    ensures forall k, l :: 0 <= k < l < |idx| ==> idx[k] < idx[l]
    ensures forall j :: i <= j < |rows| && IsDataRow(rows[j]) ==> j in idx
    decreases |rows| - i
  {
    if i == |rows| then []
    else if IsDataRow(rows[i]) then [i] + DataIndices(rows, i + 1)
    else DataIndices(rows, i + 1)
  }

  /** The rows emitted for the data rows listed in `idx`, in that order. */
  function RowsAt(rows: seq<Row>, idx: seq<nat>): (r: seq<Row>)
    requires forall k :: 0 <= k < |idx| ==> idx[k] < |rows| && rows[idx[k]] != []
    ensures |r| == |idx|
  {
    if idx == [] then [] else [MergedRowAt(rows, idx[0])] + RowsAt(rows, idx[1..])
  }

  /** The k-th row of `RowsAt` is the row emitted for the k-th listed data row. */
  lemma {:induction false} RowsAtIndexed(rows: seq<Row>, idx: seq<nat>, k: nat)
    requires forall k :: 0 <= k < |idx| ==> idx[k] < |rows| && rows[idx[k]] != []
    requires k < |idx|
    ensures RowsAt(rows, idx)[k] == MergedRowAt(rows, idx[k])
  {
    if k > 0 {
      RowsAtIndexed(rows, idx[1..], k - 1);
    }
  }

  /** The sequential merge from row `i` on, entered with the buffer it has at row `i`, emits
      exactly the rows `MergedRowAt` gives for the data rows from `i` on. */
  lemma {:induction false} MergeFromIndexed(rows: seq<Row>, i: nat)
    requires i <= |rows|
    ensures MergeFrom(rows[i..], BufferBefore(rows, i)) == RowsAt(rows, DataIndices(rows, i))
    decreases |rows| - i
  {
    if i < |rows| {
      MergeFromIndexed(rows, i + 1);
      assert rows[i..][0] == rows[i] && rows[i..][1..] == rows[i + 1..];
      if IsDataRow(rows[i]) {
        DataRowStep(rows, i);
      } else {
        assert DataIndices(rows, i) == DataIndices(rows, i + 1);
      }
    }
  }

  /** At a data row, the merge emits the row `MergedRowAt` gives and continues with an empty
      buffer, and the index list starts with that row. */
  lemma DataRowStep(rows: seq<Row>, i: nat)
    requires i < |rows| && IsDataRow(rows[i])
    ensures RowsAt(rows, DataIndices(rows, i))
        == [MergedRowAt(rows, i)] + RowsAt(rows, DataIndices(rows, i + 1))
  {
    var idx := DataIndices(rows, i);
    assert idx == [i] + DataIndices(rows, i + 1);
    assert idx[1..] == DataIndices(rows, i + 1);
  }

  /** The merge of a table, described without the buffer: one row per data row, in order;
      the k-th emitted row is data row `j` (the k-th data row), with the first cell of row
      `j - 1` and a space prefixed when row `j - 1` exists, is not a data row and has cells. */
  lemma MergeIsIndexed(rows: seq<Row>)
    ensures var idx := DataIndices(rows, 0);
      && |Merge(rows)| == |idx|
      && forall k :: 0 <= k < |idx| ==> Merge(rows)[k] == MergedRowAt(rows, idx[k])
  {
    MergeFromIndexed(rows, 0);
    var idx := DataIndices(rows, 0);
    forall k | 0 <= k < |idx|
      ensures Merge(rows)[k] == MergedRowAt(rows, idx[k])
    {
      RowsAtIndexed(rows, idx, k);
    }
    assert rows[0..] == rows;
  }

  /** A table whose rows are all continuation rows emits nothing, whatever is buffered. */
  lemma {:induction false} NoDataRowsEmitNothing(rows: seq<Row>, buf: Row)
    requires forall i :: 0 <= i < |rows| ==> !IsDataRow(rows[i])
    ensures MergeFrom(rows, buf) == []
  {
    if rows != [] {
      NoDataRowsEmitNothing(rows[1..], rows[0]);
    }
  }

  /** A table emits nothing exactly when it has no data row. */
  lemma MergeEmptyIff(rows: seq<Row>)
    ensures Merge(rows) == [] <==> forall i :: 0 <= i < |rows| ==> !IsDataRow(rows[i])
  {
    MergeIsIndexed(rows);
    if exists i :: 0 <= i < |rows| && IsDataRow(rows[i]) {
      var i :| 0 <= i < |rows| && IsDataRow(rows[i]);
      assert i in DataIndices(rows, 0);
    } else {
      NoDataRowsEmitNothing(rows, []);
    }
  }

  /** Continuation rows after the last data row are dropped. */
  lemma {:induction false} TrailingContinuationsDropped(rows: seq<Row>, tail: seq<Row>, buf: Row)
    requires forall i :: 0 <= i < |tail| ==> !IsDataRow(tail[i])
    ensures MergeFrom(rows + tail, buf) == MergeFrom(rows, buf)
  {
    if rows == [] {
      assert rows + tail == tail;
      NoDataRowsEmitNothing(tail, buf);
    } else {
      assert (rows + tail)[0] == rows[0] && (rows + tail)[1..] == rows[1..] + tail;
      if IsDataRow(rows[0]) {
        TrailingContinuationsDropped(rows[1..], tail, []);
      } else {
        TrailingContinuationsDropped(rows[1..], tail, rows[0]);
      }
    }
  }
}
