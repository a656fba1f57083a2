/** Data-row classification of extracted table rows (`is_data_row`). */
module RowClassifier {
  import opened Chars

  /** ARABIC DECIMAL SEPARATOR and ARABIC THOUSANDS SEPARATOR; both are turned into '.'. */
  const ArabicDecimalSep: char := '\U{066B}'
  const ArabicThousandsSep: char := '\U{066C}'

  /** A character that the clean-up removes outright. */
  predicate IsDropped(c: char) {
    c == ',' || c == ' '
  }

  /** The cell text after the clean-up of `is_data_row`: ',' and ' ' are removed and the two
      Arabic separators become '.'; every other character is kept in place. */
  function Clean(s: string): (r: string)
    ensures |r| <= |s|
    ensures forall c :: c in r ==> !IsDropped(c) && c != ArabicDecimalSep && c != ArabicThousandsSep
  {
    if s == [] then []
    else
      var head :=
        if IsDropped(s[0]) then []
        else if s[0] == ArabicDecimalSep || s[0] == ArabicThousandsSep then ['.']
        else [s[0]];
      head + Clean(s[1..])
  }

  /** `str.isdigit`: non-empty and made of digits only. */
  predicate IsDigitString(s: string) {
    |s| > 0 && forall i :: 0 <= i < |s| ==> IsDigit(s[i])
  }

  /** One cell counts as numeric when its cleaned text is a digit string; such a cell holds
      a digit. */
  predicate IsNumericCell(cell: string)
    ensures IsNumericCell(cell) ==> exists i :: 0 <= i < |cell| && IsDigit(cell[i])
  {
    CleanEmptyIff(cell);
    CleanAllDigitsIff(cell);
    IsDigitString(Clean(cell))
  }

  /** `is_data_row`: some cell of the row is numeric (`any` over the cells). A data row
      therefore has a cell, and a digit in one of its cells. */
  predicate IsDataRow(row: seq<string>)
    ensures IsDataRow(row) ==> |row| > 0
    ensures IsDataRow(row) ==> exists k, i :: 0 <= k < |row| && 0 <= i < |row[k]| && IsDigit(row[k][i])
  {
    exists k :: 0 <= k < |row| && IsNumericCell(row[k])
  }

  /** The cleaned text is empty exactly when every character is one the clean-up removes. */
  lemma {:induction false} CleanEmptyIff(s: string)
    ensures Clean(s) == [] <==> forall i :: 0 <= i < |s| ==> IsDropped(s[i])
  {
    if s != [] {
      CleanEmptyIff(s[1..]);
      assert forall i :: 1 <= i < |s| ==> s[i] == s[1..][i - 1];
    }
  }

  /** The cleaned text is all digits exactly when every character is a digit or removed. */
  lemma {:induction false} CleanAllDigitsIff(s: string)
    ensures (forall i :: 0 <= i < |Clean(s)| ==> IsDigit(Clean(s)[i]))
        <==> (forall i :: 0 <= i < |s| ==> IsDigit(s[i]) || IsDropped(s[i]))
  {
    if s != [] {
      CleanAllDigitsIff(s[1..]);
      assert forall i :: 1 <= i < |s| ==> s[i] == s[1..][i - 1];
      var head :=
        if IsDropped(s[0]) then []
        else if s[0] == ArabicDecimalSep || s[0] == ArabicThousandsSep then ['.']
        else [s[0]];
      assert Clean(s) == head + Clean(s[1..]);
      if IsDropped(s[0]) {
        assert head == [];
      } else if s[0] == ArabicDecimalSep || s[0] == ArabicThousandsSep {
        assert head == ['.'] && !IsDigit('.') && !IsDigit(s[0]);
        assert !IsDigit(head[0]);
      } else {
        assert head == [s[0]];
        assert IsDigit(s[0]) <==> IsDigit(head[0]);
      }
      assert forall i :: 0 <= i < |Clean(s[1..])| ==> Clean(s)[|head| + i] == Clean(s[1..])[i];
      assert forall i :: 0 <= i < |head| ==> Clean(s)[i] == head[i];
    }
  }

  /** A cell is numeric exactly when it holds at least one digit and nothing but digits,
      commas and spaces. So "1,153" and "12 000" are numeric, while any decimal point
      ('.', U+066B or U+066C) makes the cell non-numeric. */
  lemma NumericCellIff(cell: string)
    ensures IsNumericCell(cell)
        <==> (exists i :: 0 <= i < |cell| && IsDigit(cell[i]))
             && (forall i :: 0 <= i < |cell| ==> IsDigit(cell[i]) || IsDropped(cell[i]))
  {
    CleanEmptyIff(cell);
    CleanAllDigitsIff(cell);
    if IsNumericCell(cell) {
      var i :| 0 <= i < |cell| && !IsDropped(cell[i]);
      assert IsDigit(cell[i]);
    } else if (forall i :: 0 <= i < |cell| ==> IsDigit(cell[i]) || IsDropped(cell[i])) {
      assert Clean(cell) == [];
      assert forall i :: 0 <= i < |cell| ==> !IsDigit(cell[i]);
    }
  }

  /** A row with no cells, or whose cells are all empty, is never a data row. */
  lemma BlankRowIsNotData(row: seq<string>)
    requires forall k :: 0 <= k < |row| ==> row[k] == ""
    ensures !IsDataRow(row)
  {
    forall k | 0 <= k < |row| ensures !IsNumericCell(row[k]) {
      NumericCellIff(row[k]);
    }
  }

  /** Thousands separators, written with a comma or a space, are accepted. */
  lemma ThousandsSeparatorsAccepted()
    ensures IsNumericCell("1,153") && IsNumericCell("12 000")
    ensures IsDataRow(["", "1,153"])
  {
    var a, b := "1,153", "12 000";
    NumericCellIff(a);
    assert IsDigit(a[0]);
    forall i | 0 <= i < |a| ensures IsDigit(a[i]) || IsDropped(a[i]) {
      assert a[i] in "0123456789, ";
    }
    NumericCellIff(b);
    assert IsDigit(b[0]);
    forall i | 0 <= i < |b| ensures IsDigit(b[i]) || IsDropped(b[i]) {
      assert b[i] in "0123456789, ";
    }
    assert ["", a][1] == a;
  }

  /** A decimal point in any of its three spellings makes a cell non-numeric. */
  lemma DecimalPointRejected(cell: string, i: nat)
    requires i < |cell| && cell[i] in {'.', ArabicDecimalSep, ArabicThousandsSep}
    ensures !IsNumericCell(cell)
  {
    NumericCellIff(cell);
  }
}
