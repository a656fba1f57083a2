/** Header-field lookup in the page text (`find_field`): the first occurrence of a literal
    label, then any run of ':' and whitespace (line breaks included), then the rest of that
    line with surrounding whitespace stripped; "" when the label does not occur. */
module FieldFinder {
  import opened Chars
  import opened Wrappers

  /** `keyword` occurs in `text` starting at index `i`. */
  predicate OccursAt(text: string, keyword: string, i: nat) {
    i + |keyword| <= |text| && text[i..i + |keyword|] == keyword
  }

  /** The leftmost occurrence of `keyword` at or after `from`, as a regular-expression
      search for a literal label finds it. */
  function FindFrom(text: string, keyword: string, from: nat): (r: Option<nat>)
    requires from <= |text|
    ensures r.Some? ==> from <= r.value && OccursAt(text, keyword, r.value)
    ensures r.Some? ==> forall m :: from <= m < r.value ==> !OccursAt(text, keyword, m)
    ensures r.None? ==> forall m :: from <= m ==> !OccursAt(text, keyword, m)
    decreases |text| - from
  {
    if OccursAt(text, keyword, from) then Some(from)
    else if from == |text| then None
    else FindFrom(text, keyword, from + 1)
  }

  /** The index where the first occurrence of `keyword` starts, if any. */
  function FindFirst(text: string, keyword: string): (r: Option<nat>)
    ensures r.Some? ==> IsFirstOccurrence(text, keyword, r.value)
    ensures r.None? ==> forall m :: !OccursAt(text, keyword, m)
  {
    FindFrom(text, keyword, 0)
  }

  /** The characters of the class `[:\s]` that follow the label. */
  predicate IsSeparator(c: char) {
    c == ':' || IsSpace(c)
  }

  /** The greedy `[:\s]*`: the first index at or after `i` that holds no separator. */
  function SkipSeparators(text: string, i: nat): (j: nat)
    requires i <= |text|
    ensures i <= j <= |text|
    ensures forall m :: i <= m < j ==> IsSeparator(text[m])
    ensures j < |text| ==> !IsSeparator(text[j])
    decreases |text| - i
  {
    if i == |text| || !IsSeparator(text[i]) then i else SkipSeparators(text, i + 1)
  }

  /** The greedy `[^\n]*`: the index of the next line break at or after `j`, or the end. */
  function LineEnd(text: string, j: nat): (e: nat)
    requires j <= |text|
    ensures j <= e <= |text|
    ensures forall m :: j <= m < e ==> text[m] != '\n'
    ensures e < |text| ==> text[e] == '\n'
    decreases |text| - j
  {
    if j == |text| || text[j] == '\n' then j else LineEnd(text, j + 1)
  }

  /** `str.lstrip()`: drops the leading whitespace. */
  function TrimStart(s: string): (r: string)
    ensures |r| <= |s|
    ensures r != [] ==> !IsSpace(r[0])
  {
    if s != [] && IsSpace(s[0]) then TrimStart(s[1..]) else s
  }

  /** `str.rstrip()`: drops the trailing whitespace. */
  function TrimEnd(s: string): (r: string)
    ensures |r| <= |s|
    ensures r != [] ==> !IsSpace(r[|r| - 1])
  {
    if s != [] && IsSpace(s[|s| - 1]) then TrimEnd(s[..|s| - 1]) else s
  }

  /** What `TrimStart` removes is a whitespace prefix; what it keeps is the rest. */
  lemma {:induction false} TrimStartIsSuffix(s: string)
    ensures TrimStart(s) == s[|s| - |TrimStart(s)|..]
    ensures forall i :: 0 <= i < |s| - |TrimStart(s)| ==> IsSpace(s[i])
  {
    if s != [] && IsSpace(s[0]) {
      TrimStartIsSuffix(s[1..]);
      assert forall i :: 1 <= i < |s| ==> s[i] == s[1..][i - 1];
    }
  }

  /** What `TrimEnd` removes is a whitespace suffix; what it keeps is the rest. */
  lemma {:induction false} TrimEndIsPrefix(s: string)
    ensures TrimEnd(s) == s[..|TrimEnd(s)|]
    ensures forall i :: |TrimEnd(s)| <= i < |s| ==> IsSpace(s[i])
  {
    if s != [] && IsSpace(s[|s| - 1]) {
      TrimEndIsPrefix(s[..|s| - 1]);
      assert forall i :: 0 <= i < |s| - 1 ==> s[i] == s[..|s| - 1][i];
    }
  }

  /** `str.strip()`: drops whitespace at both ends. */
  function Strip(s: string): (r: string)
    ensures r != [] ==> !IsSpace(r[0]) && !IsSpace(r[|r| - 1])
  {
    var t := TrimStart(s);
    TrimEndIsPrefix(t);
    TrimEnd(t)
  }

  /** What `Strip` keeps is the slice of `s` that starts after the leading whitespace, and
      only whitespace follows it; with the ensures of `Strip` (no whitespace at either end of
      the result), this pins the result down. */
  lemma StripIsInfix(s: string)
    ensures var a, r := |s| - |TrimStart(s)|, Strip(s);
      && a + |r| <= |s|
      && r == s[a..a + |r|]
      && (forall i :: 0 <= i < a ==> IsSpace(s[i]))
      && (forall i :: a + |r| <= i < |s| ==> IsSpace(s[i]))
  {
    var t := TrimStart(s);
    TrimStartIsSuffix(s);
    TrimEndIsPrefix(t);
    SpacePaddedSlice(s, |s| - |t|, Strip(s));
  }

  /** A prefix `r` of `s[a..]` that only whitespace follows is the slice `s[a..a + |r|]`, and
      only whitespace follows it in `s`. */
  lemma SpacePaddedSlice(s: string, a: nat, r: string)
    requires a <= |s| && |r| <= |s| - a && r == s[a..][..|r|]
    requires forall i :: |r| <= i < |s| - a ==> IsSpace(s[a..][i])
    ensures r == s[a..a + |r|]
    ensures forall i :: a + |r| <= i < |s| ==> IsSpace(s[i])
  {
    forall i | a + |r| <= i < |s| ensures IsSpace(s[i]) {
      assert s[i] == s[a..][i - a];
    }
  }

  /** The value read after a label whose occurrence ends at `after`: skip the run of
      separators, take the rest of that line and strip it. */
  function ValueAfter(text: string, after: nat): (r: string)
    requires after <= |text|
    ensures r != [] ==> !IsSpace(r[0]) && !IsSpace(r[|r| - 1])
    ensures '\n' !in r
  {
    var j := SkipSeparators(text, after);
    var e := LineEnd(text, j);
    var line := text[j..e];
    TrimStartIsSuffix(line);
    TrimEndIsPrefix(TrimStart(line));
    Strip(line)
  }

  /** `find_field(text, keyword)`: the stripped rest of the line reached from the first
      occurrence of the label, or "" when there is none. */
  function FindField(text: string, keyword: string): (r: string)
    ensures r != [] ==> !IsSpace(r[0]) && !IsSpace(r[|r| - 1])
    ensures '\n' !in r
    ensures FindFirst(text, keyword).None? ==> r == ""
  {
    match FindFirst(text, keyword)
    case None => ""
    case Some(i) => ValueAfter(text, i + |keyword|)
  }

  /** `i` is where the first occurrence of `keyword` starts. */
  predicate IsFirstOccurrence(text: string, keyword: string, i: nat) {
    OccursAt(text, keyword, i) && forall m :: 0 <= m < i ==> !OccursAt(text, keyword, m)
  }

  /** The first occurrence is unique, and it is the one the search finds. */
  lemma FindFirstIsFirstOccurrence(text: string, keyword: string, i: nat)
    requires IsFirstOccurrence(text, keyword, i)
    ensures FindFirst(text, keyword) == Some(i)
  {
    var r := FindFirst(text, keyword);
    assert r.Some?;
  }

  /** The end of a run of separators is unique. */
  lemma SkipSeparatorsUnique(text: string, i: nat, j: nat)
    requires i <= j <= |text|
    requires forall m :: i <= m < j ==> IsSeparator(text[m])
    requires j < |text| ==> !IsSeparator(text[j])
    ensures SkipSeparators(text, i) == j
  {
    var j' := SkipSeparators(text, i);
  }

  /** The end of a line is unique. */
  lemma LineEndUnique(text: string, j: nat, e: nat)
    requires j <= e <= |text|
    requires forall m :: j <= m < e ==> text[m] != '\n'
    requires e < |text| ==> text[e] == '\n'
    ensures LineEnd(text, j) == e
  {
    var e' := LineEnd(text, j);
  }

  /** Stripping a string that starts with a non-space keeps a prefix of it, and what it
      drops is whitespace. */
  lemma StripKeepsPrefix(s: string)
    requires s != [] && !IsSpace(s[0])
    ensures Strip(s) != [] && Strip(s) == s[..|Strip(s)|]
    ensures forall m :: |Strip(s)| <= m < |s| ==> IsSpace(s[m])
  {
    var t := TrimStart(s);
    TrimStartIsSuffix(s);
    TrimEndIsPrefix(t);
    assert t == s;
  }

  /** When `keyword` does not occur in `text`, the field is empty. */
  lemma AbsentKeywordGivesEmpty(text: string, keyword: string)
    requires forall m :: !OccursAt(text, keyword, m)
    ensures FindField(text, keyword) == ""
  {
    assert FindFirst(text, keyword).None?;
  }

  /** Stripping the line that starts right after the run of separators: the result is a
      prefix of that line followed only by whitespace, and it is empty only when the line
      starts at the end of the text. */
  lemma StrippedLine(text: string, j: nat, e: nat)
    requires j <= e <= |text|
    requires j < |text| ==> !IsSeparator(text[j])
    requires forall m :: j <= m < e ==> text[m] != '\n'
    requires e < |text| ==> text[e] == '\n'
    ensures j + |Strip(text[j..e])| <= e
    ensures Strip(text[j..e]) == text[j..j + |Strip(text[j..e])|]
    ensures forall m :: j + |Strip(text[j..e])| <= m < e ==> IsSpace(text[m])
    ensures Strip(text[j..e]) == "" <==> j == |text|
  {
    var line := text[j..e];
    if j < |text| {
      assert IsSpace('\n');
      assert line != [] && line[0] == text[j];
      StripKeepsPrefix(line);
      var r := Strip(line);
      assert forall m :: j + |r| <= m < e ==> text[m] == line[m - j];
    }
  }

  /** `j` ends the run of separators that starts at `after`, and `e` ends the line that
      starts at `j`. */
  predicate LineAfter(text: string, after: nat, j: nat, e: nat) {
    && after <= j <= e <= |text|
    && (forall m :: after <= m < j ==> IsSeparator(text[m]))
    && (j < |text| ==> !IsSeparator(text[j]))
    && (forall m :: j <= m < e ==> text[m] != '\n')
    && (e < |text| ==> text[e] == '\n')
  }

  /** The field is the value read right after the occurrence the search finds. */
  lemma FieldIsValueAfter(text: string, keyword: string, i: nat, after: nat)
    requires FindFirst(text, keyword) == Some(i) && after == i + |keyword| && after <= |text|
    ensures FindField(text, keyword) == ValueAfter(text, after)
  {
  }

  /** The value read from `after` is the stripped line that `LineAfter` describes. */
  lemma ValueAfterIsStrippedLine(text: string, after: nat, j: nat, e: nat)
    requires LineAfter(text, after, j, e)
    ensures ValueAfter(text, after) == Strip(text[j..e])
  {
    SkipSeparatorsUnique(text, after, j);
    LineEndUnique(text, j, e);
  }

  /** The field is the stripped line reached from the occurrence the search finds. */
  lemma FieldIsStrippedLine(text: string, keyword: string, i: nat, after: nat, j: nat, e: nat)
    requires FindFirst(text, keyword) == Some(i) && after == i + |keyword|
    requires LineAfter(text, after, j, e)
    ensures FindField(text, keyword) == Strip(text[j..e])
  {
    FieldIsValueAfter(text, keyword, i, after);
    ValueAfterIsStrippedLine(text, after, j, e);
  }

  /** Proof helper: `StrippedLine`, read for any `r` that equals the stripped line. */
  lemma StrippedLineValue(text: string, j: nat, e: nat, r: string)
    requires j <= e <= |text|
    requires j < |text| ==> !IsSeparator(text[j])
    requires forall m :: j <= m < e ==> text[m] != '\n'
    requires e < |text| ==> text[e] == '\n'
    requires r == Strip(text[j..e])
    ensures j + |r| <= e
    ensures r == text[j..j + |r|]
    ensures forall m :: j + |r| <= m < e ==> IsSpace(text[m])
    ensures r == "" <==> j == |text|
  {
    StrippedLine(text, j, e);
  }

  /** Proof helper: `StrippedLine`, read for a field that equals the stripped line. */
  lemma FieldOfStrippedLine(text: string, keyword: string, j: nat, e: nat)
    requires j <= e <= |text|
    requires j < |text| ==> !IsSeparator(text[j])
    requires forall m :: j <= m < e ==> text[m] != '\n'
    requires e < |text| ==> text[e] == '\n'
    requires FindField(text, keyword) == Strip(text[j..e])
    ensures var r := FindField(text, keyword);
      && j + |r| <= e
      && r == text[j..j + |r|]
      && (forall m :: j + |r| <= m < e ==> IsSpace(text[m]))
      && (r == "" <==> j == |text|)
  {
    StrippedLineValue(text, j, e, FindField(text, keyword));
  }

  /** The value found after the first occurrence `i` of the label, characterised without the
      scanning functions: `j` is where the run of ':' and whitespace after the label ends and
      `e` is the end of the line that starts at `j`. The field is a prefix of `text[j..e]`
      followed only by whitespace up to `e`, and it is empty only when the run reaches the
      end of the text. */
  lemma FieldValueAfterFirstOccurrence(text: string, keyword: string, i: nat, j: nat, e: nat)
    requires IsFirstOccurrence(text, keyword, i)
    requires LineAfter(text, i + |keyword|, j, e)
    ensures var r := FindField(text, keyword);
      && j + |r| <= e
      && r == text[j..j + |r|]
      && (forall m :: j + |r| <= m < e ==> IsSpace(text[m]))
      && (r == "" <==> j == |text|)
  {
    FindFirstIsFirstOccurrence(text, keyword, i);
    FieldIsStrippedLine(text, keyword, i, i + |keyword|, j, e);
    FieldOfStrippedLine(text, keyword, j, e);
  }

  /** The field is empty exactly when the label is absent, or when nothing but ':' and
      whitespace follows its first occurrence up to the end of the text. */
  lemma FieldEmptyIff(text: string, keyword: string)
    ensures FindField(text, keyword) == ""
        <==> (forall m :: !OccursAt(text, keyword, m))
             || (exists i: nat :: IsFirstOccurrence(text, keyword, i)
                   && forall m :: i + |keyword| <= m < |text| ==> IsSeparator(text[m]))
  {
    match FindFirst(text, keyword)
    case None =>
    case Some(i) =>
      var j := SkipSeparators(text, i + |keyword|);
      FieldValueAfterFirstOccurrence(text, keyword, i, j, LineEnd(text, j));
      forall i' | IsFirstOccurrence(text, keyword, i') ensures i' == i {
        FindFirstIsFirstOccurrence(text, keyword, i');
      }
  }

  /** Text with no whitespace at either end is left as it is by `Strip`. */
  lemma StripUnpadded(s: string)
    requires s != [] && !IsSpace(s[0]) && !IsSpace(s[|s| - 1])
    ensures Strip(s) == s
  {
    assert TrimStart(s) == s;
  }

  /** In `"kw\n:\nval"` the label occurs first at 0, the separator run after it ends at 5
      and the line from there ends at 8. */
  lemma ColonOnlyLineLayout(text: string)
    requires text == "kw\n:\nval"
    ensures FindFirst(text, "kw") == Some(0) && LineAfter(text, 2, 5, 8) && text[5..8] == "val"
  {
    assert OccursAt(text, "kw", 0);
  }

  /** A label followed by a line holding only ':' takes its value from the line after it:
      the separator run skips the line break, the ':' and the next line break. */
  lemma ColonOnlyLineSkipped()
    ensures FindField("kw\n:\nval", "kw") == "val"
  {
    var text := "kw\n:\nval";
    ColonOnlyLineLayout(text);
    FieldIsStrippedLine(text, "kw", 0, 2, 5, 8);
    StripUnpadded(text[5..8]);
  }
}
