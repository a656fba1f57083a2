/** Character classes the extractor relies on, written out for the code points they cover. */
module Chars {

  /** Python's notion of whitespace (`str.isspace`), which is also what `\s` matches in a
      `str` regular expression and what `str.strip()` removes with no argument. */
  predicate IsSpace(c: char) {
    ('\t' <= c <= '\r') || ('\U{1C}' <= c <= '\U{1F}') || c == ' '
    || c == '\U{85}' || c == '\U{A0}' || c == '\U{1680}'
    || ('\U{2000}' <= c <= '\U{200A}') || c == '\U{2028}' || c == '\U{2029}'
    || c == '\U{202F}' || c == '\U{205F}' || c == '\U{3000}'
  }

  /** The digits `str.isdigit` accepts, restricted to ASCII, Arabic-Indic (U+0660..U+0669)
      and Extended Arabic-Indic (U+06F0..U+06F9) digits. */
  predicate IsDigit(c: char) {
    ('0' <= c <= '9') || ('\U{0660}' <= c <= '\U{0669}') || ('\U{06F0}' <= c <= '\U{06F9}')
  }

  /** A character that survives `encode('ascii', errors='ignore')`. */
  predicate IsAscii(c: char) {
    c < '\U{80}'
  }
}
