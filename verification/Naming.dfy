/** The two small string computations of `process_pdf`: the address built from two header
    fields, and the ASCII-only file name under which the PDF is copied. */
module Naming {
  import opened Chars

  /** The address: the registration-number field and the address field joined by one space,
      or "" when both are empty. When only one part is empty the space is still there. */
  function Address(part1: string, part2: string): (r: string)
    ensures r == "" <==> part1 == "" && part2 == ""
    ensures r != "" ==> |r| == |part1| + 1 + |part2|
    ensures r != "" ==> r[..|part1|] == part1 && r[|part1|] == ' ' && r[|part1| + 1..] == part2
  {
    if part1 != "" || part2 != "" then part1 + " " + part2 else ""
  }

  /** `encode('ascii', errors='ignore').decode()`: the characters outside ASCII are dropped,
      the others are kept in order. */
  function AsciiOnly(s: string): (r: string)
    ensures |r| <= |s|
    ensures forall c :: c in r ==> IsAscii(c) && c in s
  {
    if s == [] then []
    else (if IsAscii(s[0]) then [s[0]] else []) + AsciiOnly(s[1..])
  }

  const SafePrefix: string := "bill_"
  const SafeSuffix: string := ".pdf"

  /** The file name the PDF is copied to: "bill_" + the ASCII part of the stem + ".pdf". */
  function SafeName(stem: string): (r: string)
    ensures |r| == |SafePrefix| + |AsciiOnly(stem)| + |SafeSuffix|
    ensures r[..|SafePrefix|] == SafePrefix && r[|r| - |SafeSuffix|..] == SafeSuffix
    ensures r[|SafePrefix|..|r| - |SafeSuffix|] == AsciiOnly(stem)
    ensures forall c :: c in r ==> IsAscii(c)
  {
    var r := SafePrefix + AsciiOnly(stem) + SafeSuffix;
    assert forall c :: c in SafePrefix + SafeSuffix ==> IsAscii(c);
    r
  }

  /** Dropping non-ASCII characters commutes with concatenation; with `AsciiOnlySingle`
      this pins the function down as an order-preserving filter. */
  lemma {:induction false} AsciiOnlyConcat(a: string, b: string)
    ensures AsciiOnly(a + b) == AsciiOnly(a) + AsciiOnly(b)
  {
    if a == [] {
      assert a + b == b;
    } else {
      assert (a + b)[1..] == a[1..] + b;
      AsciiOnlyConcat(a[1..], b);
    }
  }

  /** One character is kept exactly when it is ASCII. */
  lemma AsciiOnlySingle(c: char)
    ensures AsciiOnly([c]) == if IsAscii(c) then [c] else []
  {
    assert [c][1..] == [];
  }

  /** A stem that is all ASCII is kept unchanged, so the filter is idempotent. */
  lemma {:induction false} AsciiOnlyKeepsAscii(s: string)
    requires forall c :: c in s ==> IsAscii(c)
    ensures AsciiOnly(s) == s
  {
    if s != [] {
      assert forall c :: c in s[1..] ==> c in s;
      AsciiOnlyKeepsAscii(s[1..]);
    }
  }

  /** Removing a non-ASCII character anywhere in the stem does not change the safe name. */
  lemma SafeNameIgnoresNonAscii(a: string, c: char, b: string)
    requires !IsAscii(c)
    ensures SafeName(a + [c] + b) == SafeName(a + b)
  {
    calc {
      AsciiOnly(a + [c] + b);
      { AsciiOnlyConcat(a + [c], b); }
      AsciiOnly(a + [c]) + AsciiOnly(b);
      { AsciiOnlyConcat(a, [c]); AsciiOnlySingle(c); }
      AsciiOnly(a) + AsciiOnly(b);
      { AsciiOnlyConcat(a, b); }
      AsciiOnly(a + b);
    }
  }

  /** Different stems can share one safe name: an all-Arabic stem and the empty stem both
      give "bill_.pdf". */
  lemma SafeNameNotInjective()
    ensures SafeName("فاتورة") == SafeName("") == "bill_.pdf"
  {
    var s := "فاتورة";
    forall c | c in s ensures !IsAscii(c) {
    }
    assert AsciiOnly(s) == [] by {
      AsciiOnlyAllDropped(s);
    }
  }

  /** A stem with no ASCII character leaves nothing. */
  lemma {:induction false} AsciiOnlyAllDropped(s: string)
    requires forall c :: c in s ==> !IsAscii(c)
    ensures AsciiOnly(s) == []
  {
    if s != [] {
      assert forall c :: c in s[1..] ==> c in s;
      AsciiOnlyAllDropped(s[1..]);
    }
  }
}
