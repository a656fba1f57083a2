/** One PDF's records: the header fields read from the page text, and one frame per table
    that yields at least one merged row, with column names from a fixed vocabulary and the
    header fields and source file name stamped on every row. */
module Invoice {
  import opened Wrappers
  import opened Chars
  import opened FieldFinder
  import opened Naming
  import opened RowClassifier
  import opened TableMerge

  const InvoiceNumberLabel: string := "رقم الفاتورة"
  const InvoiceDateLabel: string := "تاريخ الفاتورة"
  const CustomerNameLabel: string := "فاتورة ضريبية"
  const AddressLabel: string := "العنوان"
  const RegistrationLabel: string := "رقم السجل"
  const PaidLabel: string := "مدفوع"
  const BalanceLabel: string := "الرصيد المستحق"

  /** The header fields of one invoice. */
  datatype Header = Header(
    invoiceNumber: string,
    invoiceDate: string,
    customerName: string,
    address: string,
    paid: string,
    balance: string)

  /** A value `find_field` can return: one line, with no whitespace at either end. */
  predicate IsFieldValue(s: string) {
    '\n' !in s && (s != [] ==> !IsSpace(s[0]) && !IsSpace(s[|s| - 1]))
  }

  /** The header fields of the document whose text is `text`: each field but the address is
      the field found after its own label; the address joins the field after the
      registration label and the field after the address label. */
  function ReadHeader(text: string): (h: Header)
    ensures h.invoiceNumber == FindField(text, InvoiceNumberLabel)
    ensures h.invoiceDate == FindField(text, InvoiceDateLabel)
    ensures h.customerName == FindField(text, CustomerNameLabel)
    ensures h.paid == FindField(text, PaidLabel)
    ensures h.balance == FindField(text, BalanceLabel)
    ensures IsFieldValue(h.invoiceNumber) && IsFieldValue(h.invoiceDate)
    ensures IsFieldValue(h.customerName) && IsFieldValue(h.paid) && IsFieldValue(h.balance)
    ensures h.address == "" <==> FindField(text, RegistrationLabel) == "" && FindField(text, AddressLabel) == ""
    ensures h.address != "" ==>
      h.address == FindField(text, RegistrationLabel) + " " + FindField(text, AddressLabel)
    ensures '\n' !in h.address
  {
    var part2 := FindField(text, AddressLabel);
    var part1 := FindField(text, RegistrationLabel);
    Header(
      FindField(text, InvoiceNumberLabel),
      FindField(text, InvoiceDateLabel),
      FindField(text, CustomerNameLabel),
      Address(part1, part2),
      FindField(text, PaidLabel),
      FindField(text, BalanceLabel))
  }

  /** The column names for the line items, in this order. */
  const Vocabulary: seq<string> := ["المجموع", "الكمية", "سعر الوحدة", "العدد", "الوصف", "البند"]

  /** The columns added to every frame after the line-item columns, in this order. */
  const StampColumns: seq<string> :=
    ["Invoice Number", "Invoice Date", "Customer Name", "Address", "Paid", "Balance", "Source File"]

  /** The values of the stamped columns: the value under each column of `StampColumns` is
      the header field of that name, and the source file name under "Source File". */
  function StampValues(h: Header, sourceFile: string): (v: seq<Option<string>>)
    ensures |v| == |StampColumns|
    ensures v[0] == Some(h.invoiceNumber)
    ensures v[1] == Some(h.invoiceDate)
    ensures v[2] == Some(h.customerName)
    ensures v[3] == Some(h.address)
    ensures v[4] == Some(h.paid)
    ensures v[5] == Some(h.balance)
    ensures v[6] == Some(sourceFile)
  {
    [Some(h.invoiceNumber), Some(h.invoiceDate), Some(h.customerName), Some(h.address),
     Some(h.paid), Some(h.balance), Some(sourceFile)]
  }

  /** A table of named columns; a cell the data did not supply is None. */
  datatype Frame = Frame(columns: seq<string>, rows: seq<seq<Option<string>>>)

  /** Frame construction rejected the data: `passed` names were given for `width` columns. */
  datatype FrameError = ColumnCountMismatch(passed: nat, width: nat)

  /** The column names of a table whose first merged row is `first`: the first
      min(6, |first|) names of the vocabulary. */
  function ColumnNames(first: Row): (cols: seq<string>)
    ensures |cols| == if |first| < |Vocabulary| then |first| else |Vocabulary|
    ensures cols == Vocabulary[..|cols|]
  {
    Vocabulary[..if |first| < |Vocabulary| then |first| else |Vocabulary|]
  }

  /** The number of cells of the widest row. */
  function Width(rows: seq<Row>): (w: nat)
    ensures forall k :: 0 <= k < |rows| ==> |rows[k]| <= w
    ensures rows != [] ==> exists k :: 0 <= k < |rows| && |rows[k]| == w
    ensures rows == [] ==> w == 0
  {
    if rows == [] then 0
    else
      var w := Width(rows[1..]);
      if |rows[0]| >= w then |rows[0]| else w
  }

  /** One row widened to `n` cells; the added cells are missing. */
  function Pad(row: Row, n: nat): (r: seq<Option<string>>)
    requires |row| <= n
    ensures |r| == n
    ensures forall k :: 0 <= k < |row| ==> r[k] == Some(row[k])
    ensures forall k :: |row| <= k < n ==> r[k] == None
  {
    seq(n, k requires 0 <= k < n => if k < |row| then Some(row[k]) else None)
  }

  /** Building a frame from rows and column names: the names must cover exactly the widest
      row; shorter rows are padded with missing cells. */
  function NewFrame(rows: seq<Row>, columns: seq<string>): (r: Result<Frame, FrameError>)
    ensures r.Ok? <==> rows == [] || Width(rows) == |columns|
    ensures r.Ok? ==> r.value.columns == columns && |r.value.rows| == |rows|
    ensures r.Ok? ==> forall k :: 0 <= k < |rows| ==>
      |rows[k]| <= |columns| && r.value.rows[k] == Pad(rows[k], |columns|)
  {
    if rows != [] && Width(rows) != |columns| then Err(ColumnCountMismatch(|columns|, Width(rows)))
    else Ok(Frame(columns, seq(|rows|, k requires 0 <= k < |rows| => Pad(rows[k], |columns|))))
  }

  /** Every row of `f` gets the header fields and the source file name as extra columns. */
  function Stamp(f: Frame, h: Header, sourceFile: string): (g: Frame)
    ensures g.columns == f.columns + StampColumns && |g.rows| == |f.rows|
    ensures forall k :: 0 <= k < |f.rows| ==> g.rows[k] == f.rows[k] + StampValues(h, sourceFile)
  {
    Frame(f.columns + StampColumns,
          seq(|f.rows|, k requires 0 <= k < |f.rows| => f.rows[k] + StampValues(h, sourceFile)))
  }

  /** The frame of one table with at least one merged row: the first row's column names and
      then the stamped columns, one frame row per merged row. */
  function BuildFrame(merged: seq<Row>, h: Header, sourceFile: string): (r: Result<Frame, FrameError>)
    requires merged != []
    ensures r.Ok? ==> r.value.columns == ColumnNames(merged[0]) + StampColumns
    ensures r.Ok? ==> |r.value.rows| == |merged|
  {
    match NewFrame(merged, ColumnNames(merged[0]))
    case Err(e) => Err(e)
    case Ok(f) => Ok(Stamp(f, h, sourceFile))
  }

  /** The merged rows fit the column names: the first has at most six cells and none is wider
      than the first. */
  predicate FitsColumns(merged: seq<Row>)
    requires merged != []
  {
    |merged[0]| <= |Vocabulary| && forall k :: 0 <= k < |merged| ==> |merged[k]| <= |merged[0]|
  }

  /** A frame the way every table's frame is laid out: n line-item columns named by the
      vocabulary, then the stamped columns; every row has a cell per column and ends with the
      same stamped values. */
  predicate IsStampedFrame(f: Frame, h: Header, sourceFile: string) {
    var n := |f.columns| - |StampColumns|;
    && 1 <= n <= |Vocabulary|
    && f.columns == Vocabulary[..n] + StampColumns
    && forall k :: 0 <= k < |f.rows| ==>
         |f.rows[k]| == |f.columns| && f.rows[k][n..] == StampValues(h, sourceFile)
  }

  /** Proof helper: the two parts of a concatenation are its prefix and its suffix. */
  lemma SliceConcat<T>(a: seq<T>, b: seq<T>)
    ensures (a + b)[..|a|] == a && (a + b)[|a|..] == b
  {
  }

  /** A table's frame is built exactly when its merged rows fit the column names. */
  lemma BuildFrameOkIff(merged: seq<Row>, h: Header, sourceFile: string)
    requires merged != []
    ensures BuildFrame(merged, h, sourceFile).Ok? <==> FitsColumns(merged)
  {
    var cols := ColumnNames(merged[0]);
    var w := Width(merged);
    if FitsColumns(merged) {
      assert w == |merged[0]|;
    } else if |merged[0]| > |Vocabulary| {
      assert w >= |merged[0]| > |cols|;
    } else {
      var k :| 0 <= k < |merged| && |merged[k]| > |merged[0]|;
      assert w > |cols|;
    }
  }

  /** A built frame has one row per merged row; each row is that merged row's cells, padded
      with missing cells to the line-item columns, followed by the stamped values. */
  lemma BuildFrameRows(merged: seq<Row>, h: Header, sourceFile: string)
    requires merged != [] && BuildFrame(merged, h, sourceFile).Ok?
    ensures var f, n := BuildFrame(merged, h, sourceFile).value, |ColumnNames(merged[0])|;
      && |f.rows| == |merged|
      && forall k :: 0 <= k < |merged| ==>
           && |f.rows[k]| == |f.columns|
           && f.rows[k][..n] == Pad(merged[k], n)
           && f.rows[k][n..] == StampValues(h, sourceFile)
  {
    var cols := ColumnNames(merged[0]);
    var f0 := NewFrame(merged, cols).value;
    var f := BuildFrame(merged, h, sourceFile).value;
    assert f == Stamp(f0, h, sourceFile);
    forall k | 0 <= k < |merged|
      ensures |f.rows[k]| == |f.columns|
      ensures f.rows[k][..|cols|] == Pad(merged[k], |cols|)
      ensures f.rows[k][|cols|..] == StampValues(h, sourceFile)
    {
      assert f.rows[k] == Pad(merged[k], |cols|) + StampValues(h, sourceFile);
      SliceConcat(Pad(merged[k], |cols|), StampValues(h, sourceFile));
    }
  }

  /** A table's frame is built exactly when its merged rows fit the column names; it then has
      the first merged row's column names and the stamped columns, one row per merged row,
      laid out as `IsStampedFrame` says, and the line-item cells of each row are that merged
      row's cells, padded with missing cells. */
  lemma BuildFrameSpec(merged: seq<Row>, h: Header, sourceFile: string)
    requires merged != [] && |merged[0]| > 0
    ensures BuildFrame(merged, h, sourceFile).Ok? <==> FitsColumns(merged)
    ensures BuildFrame(merged, h, sourceFile).Ok? ==>
      var f := BuildFrame(merged, h, sourceFile).value;
      var n := |ColumnNames(merged[0])|;
      && IsStampedFrame(f, h, sourceFile)
      && f.columns == ColumnNames(merged[0]) + StampColumns
      && |f.rows| == |merged|
      && forall k :: 0 <= k < |merged| ==> f.rows[k][..n] == Pad(merged[k], n)
  {
    BuildFrameOkIff(merged, h, sourceFile);
    if BuildFrame(merged, h, sourceFile).Ok? {
      BuildFrameRows(merged, h, sourceFile);
    }
  }

  /** One extracted table: rows of optional cell texts. */
  type Table = seq<RawRow>

  /** What the document loop has produced so far: the frames, and whether an exception
      ended it (reported, with the frames produced before it kept). */
  datatype Outcome = Outcome(frames: seq<Frame>, failed: bool)

  /** One table's effect on the outcome: after a failure nothing more happens; a table with
      no merged row adds nothing; otherwise its frame is added, or the loop fails. */
  function TableStep(acc: Outcome, table: Table, h: Header, sourceFile: string): (next: Outcome)
    ensures acc.failed ==> next == acc
    ensures |next.frames| <= |acc.frames| + 1
  {
    if acc.failed then acc
    else
      var merged := Merge(TableRows(table));
      if merged == [] then acc
      else
        match BuildFrame(merged, h, sourceFile)
        case Err(_) => Outcome(acc.frames, true)
        case Ok(f) => Outcome(acc.frames + [f], false)
  }

  /** The outcome after the tables `tables`, taken in order: at most one frame per table. */
  function RunTables(tables: seq<Table>, h: Header, sourceFile: string): (r: Outcome)
    ensures |r.frames| <= |tables|
  {
    if tables == [] then Outcome([], false)
    else TableStep(RunTables(tables[..|tables| - 1], h, sourceFile), tables[|tables| - 1], h, sourceFile)
  }

  /** Proof helper: the number of tables on the pages, which states the length of
      `AllTables`. */
  function TableCount(pages: seq<seq<Table>>): nat {
    if pages == [] then 0 else TableCount(pages[..|pages| - 1]) + |pages[|pages| - 1]|
  }

  /** The tables of all pages, page after page: as many as the pages hold together. */
  function AllTables(pages: seq<seq<Table>>): (tables: seq<Table>)
    ensures |tables| == TableCount(pages)
  {
    if pages == [] then [] else AllTables(pages[..|pages| - 1]) + pages[|pages| - 1]
  }

  /** Every table of every page is among the tables of the document. */
  lemma {:induction false} AllTablesHasEveryTable(pages: seq<seq<Table>>, p: nat, t: nat)
    requires p < |pages| && t < |pages[p]|
    ensures pages[p][t] in AllTables(pages)
    decreases |pages|
  {
    var last := |pages| - 1;
    if p < last {
      AllTablesHasEveryTable(pages[..last], p, t);
    } else {
      assert AllTables(pages)[|AllTables(pages[..last])| + t] == pages[p][t];
    }
  }

  // Proof helpers: sequence identities stated once, so that the inductive steps below use
  // them as plain rewrites instead of proving sequence equalities element by element.

  /** Proof helper: concatenation is associative. */
  lemma Assoc<T>(a: seq<T>, b: seq<T>, c: seq<T>)
    ensures (a + b) + c == a + (b + c)
  {
  }

  /** Proof helper: a non-empty sequence is its prefix followed by its last element. */
  lemma SplitLast<T>(s: seq<T>)
    requires s != []
    ensures s == s[..|s| - 1] + [s[|s| - 1]]
  {
  }

  /** Proof helper: a sequence is what comes before index `i`, the element at `i`, and what
      comes after it. */
  lemma SplitAround<T>(s: seq<T>, i: nat)
    requires i < |s|
    ensures s == (s[..i] + [s[i]]) + s[i + 1..]
  {
  }

  /** Proof helper: a sequence is its prefix up to `i` followed by the rest. */
  lemma SplitAt<T>(s: seq<T>, i: nat)
    requires i <= |s|
    ensures s == s[..i] + s[i..]
  {
  }

  lemma RunTablesSnoc(tables: seq<Table>, t: Table, h: Header, sourceFile: string)
    ensures RunTables(tables + [t], h, sourceFile) == TableStep(RunTables(tables, h, sourceFile), t, h, sourceFile)
  {
    assert (tables + [t])[..|tables|] == tables;
  }

  /** A table after a failure changes nothing. */
  lemma FailedSnoc(tables: seq<Table>, t: Table, h: Header, sourceFile: string)
    requires RunTables(tables, h, sourceFile).failed
    ensures RunTables(tables + [t], h, sourceFile) == RunTables(tables, h, sourceFile)
  {
    RunTablesSnoc(tables, t, h, sourceFile);
  }

  /** Once the loop has failed, later tables change nothing. */
  lemma {:induction false} FailureIsFinal(xs: seq<Table>, ys: seq<Table>, h: Header, sourceFile: string)
    requires RunTables(xs, h, sourceFile).failed
    ensures RunTables(xs + ys, h, sourceFile) == RunTables(xs, h, sourceFile)
    decreases |ys|
  {
    if ys != [] {
      var ys', last := ys[..|ys| - 1], ys[|ys| - 1];
      FailureIsFinal(xs, ys', h, sourceFile);
      FailedSnoc(xs + ys', last, h, sourceFile);
      SplitLast(ys);
      Assoc(xs, ys', [last]);
    } else {
      assert xs + ys == xs;
    }
  }

  /** One more page adds its tables at the end. */
  lemma AllTablesSnoc(ps: seq<seq<Table>>, q: seq<Table>)
    ensures AllTables(ps + [q]) == AllTables(ps) + q
  {
    assert (ps + [q])[..|ps|] == ps;
  }

  /** The tables of two groups of pages are those of the first group, then those of the
      second. */
  lemma {:induction false} AllTablesConcat(ps: seq<seq<Table>>, qs: seq<seq<Table>>)
    ensures AllTables(ps + qs) == AllTables(ps) + AllTables(qs)
    decreases |qs|
  {
    if qs == [] {
      assert ps + qs == ps;
      assert AllTables(qs) == [];
    } else {
      var qs', last := qs[..|qs| - 1], qs[|qs| - 1];
      AllTablesConcat(ps, qs');
      SplitLast(qs);
      AllTablesConcatStep(ps, qs', last);
    }
  }

  /** One more page after the second group adds its tables at the end of both sides. */
  lemma AllTablesConcatStep(ps: seq<seq<Table>>, qs: seq<seq<Table>>, q: seq<Table>)
    requires AllTables(ps + qs) == AllTables(ps) + AllTables(qs)
    ensures AllTables(ps + (qs + [q])) == AllTables(ps) + AllTables(qs + [q])
  {
    Assoc(ps, qs, [q]);
    AllTablesSnoc(ps + qs, q);
    AllTablesSnoc(qs, q);
    Assoc(AllTables(ps), AllTables(qs), q);
  }

  /** The tables of the document split after table `t` of page `p`: those up to it, then
      the rest of page `p` and the later pages. */
  lemma AllTablesAround(pages: seq<seq<Table>>, p: nat, t: nat)
    requires p < |pages| && t < |pages[p]|
    ensures AllTables(pages)
         == (AllTables(pages[..p]) + pages[p][..t + 1]) + (pages[p][t + 1..] + AllTables(pages[p + 1..]))
  {
    var before, page, after := pages[..p], pages[p], pages[p + 1..];
    var done, rest := page[..t + 1], page[t + 1..];
    SplitAround(pages, p);
    AllTablesConcat(before + [page], after);
    AllTablesSnoc(before, page);
    SplitAt(page, t + 1);
    Assoc(AllTables(before), done, rest);
    Assoc(AllTables(before) + done, rest, AllTables(after));
  }

  /** A failure at table `t` of page `p` is the outcome of the whole document. */
  lemma FailureEndsDocument(pages: seq<seq<Table>>, p: nat, t: nat, h: Header, sourceFile: string)
    requires p < |pages| && t < |pages[p]|
    requires RunTables(AllTables(pages[..p]) + pages[p][..t + 1], h, sourceFile).failed
    ensures RunTables(AllTables(pages), h, sourceFile)
         == RunTables(AllTables(pages[..p]) + pages[p][..t + 1], h, sourceFile)
  {
    AllTablesAround(pages, p, t);
    FailureIsFinal(AllTables(pages[..p]) + pages[p][..t + 1], pages[p][t + 1..] + AllTables(pages[p + 1..]), h, sourceFile);
  }

  /** Every merged row is as wide as the data row it comes from, so it has a cell. */
  lemma MergedRowWidths(rows: seq<Row>)
    ensures var idx := DataIndices(rows, 0);
      && |Merge(rows)| == |idx|
      && forall k :: 0 <= k < |idx| ==> |Merge(rows)[k]| == |rows[idx[k]]| > 0
  {
    MergeIsIndexed(rows);
  }

  /** The merged rows of a table fit its column names exactly when its first data row has at
      most six cells and no data row is wider than the first one. */
  lemma FitsColumnsIff(rows: seq<Row>)
    requires Merge(rows) != []
    ensures var idx := DataIndices(rows, 0);
      && idx != []
      && (FitsColumns(Merge(rows)) <==>
            |rows[idx[0]]| <= |Vocabulary|
            && forall j :: 0 <= j < |rows| && IsDataRow(rows[j]) ==> |rows[j]| <= |rows[idx[0]]|)
  {
    var idx := DataIndices(rows, 0);
    MergeIsIndexed(rows);
    MergedRowWidths(rows);
    forall j | 0 <= j < |rows| && IsDataRow(rows[j])
      ensures exists k :: 0 <= k < |idx| && idx[k] == j
    {
      assert j in idx;
    }
  }

  /** The table makes the document loop fail: it has merged rows that do not fit. Only a
      table with a data row can fail. */
  predicate TableFails(table: Table)
    ensures TableFails(table) ==> exists i :: 0 <= i < |table| && IsDataRow(TableRows(table)[i])
  {
    var merged := Merge(TableRows(table));
    MergeEmptyIff(TableRows(table));
    merged != [] && !FitsColumns(merged)
  }

  /** The number of tables that have at least one data row. */
  function TablesWithData(tables: seq<Table>): (n: nat)
    ensures n <= |tables|
  {
    if tables == [] then 0
    else TablesWithData(tables[..|tables| - 1]) + (if Merge(TableRows(tables[|tables| - 1])) != [] then 1 else 0)
  }

  /** One table step fails exactly when the loop had failed or the table fails. */
  lemma TableStepFails(acc: Outcome, table: Table, h: Header, sourceFile: string)
    ensures TableStep(acc, table, h, sourceFile).failed <==> acc.failed || TableFails(table)
  {
    var merged := Merge(TableRows(table));
    if !acc.failed && merged != [] {
      MergedRowWidths(TableRows(table));
      BuildFrameSpec(merged, h, sourceFile);
    }
  }

  /** A step that does not fail adds one frame exactly when the table has a data row: the
      table's stamped frame. */
  lemma TableStepAdds(acc: Outcome, table: Table, h: Header, sourceFile: string)
    ensures var next := TableStep(acc, table, h, sourceFile);
      var merged := Merge(TableRows(table));
      !next.failed ==>
        && |next.frames| == |acc.frames| + (if merged != [] then 1 else 0)
        && (merged != [] ==>
              && next.frames[|acc.frames|] == BuildFrame(merged, h, sourceFile).value
              && IsStampedFrame(next.frames[|acc.frames|], h, sourceFile))
  {
    var merged := Merge(TableRows(table));
    if !acc.failed && merged != [] {
      MergedRowWidths(TableRows(table));
      BuildFrameSpec(merged, h, sourceFile);
    }
  }

  /** One table step fails exactly when the loop had failed or the table fails; otherwise
      it adds a frame exactly when the table has a data row, and that frame is the table's
      stamped frame. Frames are never removed. */
  lemma TableStepSpec(acc: Outcome, table: Table, h: Header, sourceFile: string)
    ensures var next := TableStep(acc, table, h, sourceFile);
      var merged := Merge(TableRows(table));
      && (next.failed <==> acc.failed || TableFails(table))
      && acc.frames <= next.frames
      && (!next.failed ==> |next.frames| == |acc.frames| + if merged != [] then 1 else 0)
      && (!next.failed && merged != [] ==>
            && next.frames[|acc.frames|] == BuildFrame(merged, h, sourceFile).value
            && IsStampedFrame(next.frames[|acc.frames|], h, sourceFile))
  {
    TableStepFails(acc, table, h, sourceFile);
    TableStepAdds(acc, table, h, sourceFile);
  }

  /** Proof helper: some element satisfies `p` exactly when one before the last does or the
      last one does. */
  lemma ExistsLast<T>(s: seq<T>, p: T -> bool)
    requires s != []
    ensures var init := s[..|s| - 1];
      (exists k :: 0 <= k < |s| && p(s[k])) <==> (exists k :: 0 <= k < |init| && p(init[k])) || p(s[|s| - 1])
  {
    var init := s[..|s| - 1];
    if exists k :: 0 <= k < |s| && p(s[k]) {
      var k :| 0 <= k < |s| && p(s[k]);
      if k < |init| {
        assert init[k] == s[k];
      }
    }
    if exists k :: 0 <= k < |init| && p(init[k]) {
      var k :| 0 <= k < |init| && p(init[k]);
      assert init[k] == s[k];
    }
  }

  /** Some table fails exactly when one before the last does or the last one does. */
  lemma SomeTableFailsLast(tables: seq<Table>)
    requires tables != []
    ensures var init := tables[..|tables| - 1];
      (exists k :: 0 <= k < |tables| && TableFails(tables[k]))
        <==> (exists k :: 0 <= k < |init| && TableFails(init[k])) || TableFails(tables[|tables| - 1])
  {
    ExistsLast(tables, TableFails);
  }

  /** The loop fails exactly when some table fails; otherwise it yields one frame per table
      that has a data row. */
  lemma {:induction false} RunTablesFailsIff(tables: seq<Table>, h: Header, sourceFile: string)
    ensures RunTables(tables, h, sourceFile).failed <==> exists k :: 0 <= k < |tables| && TableFails(tables[k])
    ensures !RunTables(tables, h, sourceFile).failed ==> |RunTables(tables, h, sourceFile).frames| == TablesWithData(tables)
  {
    if tables != [] {
      var init := tables[..|tables| - 1];
      var last := tables[|tables| - 1];
      RunTablesFailsIff(init, h, sourceFile);
      TableStepFails(RunTables(init, h, sourceFile), last, h, sourceFile);
      TableStepAdds(RunTables(init, h, sourceFile), last, h, sourceFile);
      SomeTableFailsLast(tables);
    }
  }

  /** Every frame the loop yields is laid out as `IsStampedFrame` says: the same header
      fields and source file name on every row. */
  lemma {:induction false} RunTablesStamped(tables: seq<Table>, h: Header, sourceFile: string)
    ensures forall f :: f in RunTables(tables, h, sourceFile).frames ==> IsStampedFrame(f, h, sourceFile)
  {
    if tables != [] {
      var init := tables[..|tables| - 1];
      RunTablesStamped(init, h, sourceFile);
      TableStepSpec(RunTables(init, h, sourceFile), tables[|tables| - 1], h, sourceFile);
    }
  }

  /** Frames are only ever added at the end: the frames after some tables are a prefix of the
      frames after more tables, so a later failure keeps what was built before it. */
  lemma {:induction false} RunTablesGrows(xs: seq<Table>, ys: seq<Table>, h: Header, sourceFile: string)
    ensures RunTables(xs, h, sourceFile).frames <= RunTables(xs + ys, h, sourceFile).frames
    decreases |ys|
  {
    if ys == [] {
      assert xs + ys == xs;
    } else {
      var ys', last := ys[..|ys| - 1], ys[|ys| - 1];
      RunTablesGrows(xs, ys', h, sourceFile);
      GrowsSnoc(xs + ys', last, h, sourceFile);
      SplitLast(ys);
      Assoc(xs, ys', [last]);
      PrefixTransitive(RunTables(xs, h, sourceFile).frames, RunTables(xs + ys', h, sourceFile).frames,
                       RunTables(xs + ys, h, sourceFile).frames);
    }
  }

  /** One more table keeps the frames built so far. */
  lemma GrowsSnoc(tables: seq<Table>, t: Table, h: Header, sourceFile: string)
    ensures RunTables(tables, h, sourceFile).frames <= RunTables(tables + [t], h, sourceFile).frames
  {
    RunTablesSnoc(tables, t, h, sourceFile);
    TableStepSpec(RunTables(tables, h, sourceFile), t, h, sourceFile);
  }

  /** Proof helper: being a prefix is transitive. */
  lemma PrefixTransitive(a: seq<Frame>, b: seq<Frame>, c: seq<Frame>)
    requires a <= b && b <= c
    ensures a <= c
  {
    assert a == b[..|a|] && b == c[..|b|];
    assert c[..|b|][..|a|] == c[..|a|];
  }

  /** A table without data rows contributes nothing. */
  lemma TableWithoutDataAddsNothing(tables: seq<Table>, t: Table, h: Header, sourceFile: string)
    requires forall i :: 0 <= i < |t| ==> !IsDataRow(RowValues(t[i]))
    ensures RunTables(tables + [t], h, sourceFile) == RunTables(tables, h, sourceFile)
  {
    RunTablesSnoc(tables, t, h, sourceFile);
    MergeEmptyIff(TableRows(t));
  }

  /** Processing table `t` of page `p` extends the outcome of the tables before it. */
  lemma NextTable(pages: seq<seq<Table>>, p: nat, t: nat, h: Header, sourceFile: string)
    requires p < |pages| && t < |pages[p]|
    ensures RunTables(AllTables(pages[..p]) + pages[p][..t + 1], h, sourceFile)
         == TableStep(RunTables(AllTables(pages[..p]) + pages[p][..t], h, sourceFile), pages[p][t], h, sourceFile)
  {
    var done := AllTables(pages[..p]) + pages[p][..t];
    assert done + [pages[p][t]] == AllTables(pages[..p]) + pages[p][..t + 1];
    RunTablesSnoc(done, pages[p][t], h, sourceFile);
  }

  /** The tables of the first `p + 1` pages are those of the first `p`, then page `p`'s. The
      second ensures is a proof helper: it lets the inner loop of `ProcessPdf` start from an
      empty prefix of page `p`. */
  lemma NextPage(pages: seq<seq<Table>>, p: nat)
    requires p < |pages|
    ensures AllTables(pages[..p + 1]) == AllTables(pages[..p]) + pages[p][..|pages[p]|]
    ensures AllTables(pages[..p]) + pages[p][..0] == AllTables(pages[..p])
  {
    assert pages[..p + 1][..p] == pages[..p];
    assert pages[p][..|pages[p]|] == pages[p];
  }

  /** The body of the table loop: merge the table and, when it has merged rows, build its
      frame and add it to the frames so far, or fail. */
  method AddTable(frames: seq<Frame>, table: Table, h: Header, sourceFile: string)
    returns (frames': seq<Frame>, failed: bool)
    ensures Outcome(frames', failed) == TableStep(Outcome(frames, false), table, h, sourceFile)
  {
    frames', failed := frames, false;
    var mergedRows := MergeTable(table);
    if mergedRows != [] {
      var frame := BuildFrame(mergedRows, h, sourceFile);
      if frame.Err? {
        failed := true;
      } else {
        frames' := frames + [frame.value];
      }
    }
  }

  /** `process_pdf` after the text and the tables have been extracted: reads the header
      fields, then merges and stamps every table of every page in order. An exception while
      building a frame ends the loops; the frames built before it are returned and `failed`
      reports the error. */
  method ProcessPdf(fullText: string, sourceFile: string, pages: seq<seq<Table>>)
    returns (allRows: seq<Frame>, failed: bool)
    ensures Outcome(allRows, failed) == RunTables(AllTables(pages), ReadHeader(fullText), sourceFile)
  {
    var h := ReadHeader(fullText);
    allRows, failed := [], false;
    for p := 0 to |pages|
      invariant !failed
      invariant Outcome(allRows, failed) == RunTables(AllTables(pages[..p]), h, sourceFile)
    {
      NextPage(pages, p);
      for t := 0 to |pages[p]|
        invariant !failed
        invariant Outcome(allRows, failed) == RunTables(AllTables(pages[..p]) + pages[p][..t], h, sourceFile)
      {
        NextTable(pages, p, t, h, sourceFile);
        allRows, failed := AddTable(allRows, pages[p][t], h, sourceFile);
        if failed {
          FailureEndsDocument(pages, p, t, h, sourceFile);
          return;
        }
      }
    }
    assert pages[..|pages|] == pages;
  }
}
