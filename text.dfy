/** `String.prototype.trim`, which the catalog handlers use to reject blank
    names and to clean the names they store. */
module Text {

  /** The characters `trim` strips: ECMAScript's WhiteSpace (tab, vertical
      tab, form feed, byte order mark and every space separator, category Zs)
      and LineTerminator (line feed, carriage return, U+2028, U+2029). */
  const JsWhitespace: seq<char> := [
    '\t', '\n', '\U{000B}', '\U{000C}', '\r', ' ', '\U{00A0}', '\U{1680}',
    '\U{2000}', '\U{2001}', '\U{2002}', '\U{2003}', '\U{2004}', '\U{2005}',
    '\U{2006}', '\U{2007}', '\U{2008}', '\U{2009}', '\U{200A}',
    '\U{2028}', '\U{2029}', '\U{202F}', '\U{205F}', '\U{3000}', '\U{FEFF}'
  ]

  /** The same set as `JsWhitespace`, decided by code point ranges. */
  predicate IsJsWhitespace(c: char)
  {
    var n := c as int;
    || 0x09 <= n <= 0x0D || n == 0x20 || n == 0xA0 || n == 0x1680
    || 0x2000 <= n <= 0x200A || n == 0x2028 || n == 0x2029 || n == 0x202F
    || n == 0x205F || n == 0x3000 || n == 0xFEFF
  }

  /** The code point ranges are exactly the characters of the table. */
  lemma WhitespaceIsTable(c: char)
    ensures IsJsWhitespace(c) <==> c in JsWhitespace
  {
  }

  /** Every character of `s` at a position in `[lo, hi)` is whitespace. */
  predicate BlankBetween(s: string, lo: int, hi: int)
  {
    forall i :: lo <= i < hi && 0 <= i < |s| ==> IsJsWhitespace(s[i])
  }

  /** Every character of `s` is whitespace (also true of the empty string). */
  predicate IsBlank(s: string)
  {
    BlankBetween(s, 0, |s|)
  }

  /** The first position at or after `i` that does not hold whitespace,
      or `|s|` if there is none. */
  function SkipBlanksForward(s: string, i: int): (r: int)
    requires 0 <= i <= |s|
    ensures i <= r <= |s|
    ensures BlankBetween(s, i, r)
    ensures r < |s| ==> !IsJsWhitespace(s[r])
    decreases |s| - i
  {
    if i < |s| && IsJsWhitespace(s[i]) then SkipBlanksForward(s, i + 1) else i
  }

  /** The position just after the last character before `j` and not before
      `lo` that is not whitespace, or `lo` if there is none. */
  function SkipBlanksBackward(s: string, lo: int, j: int): (r: int)
    requires 0 <= lo <= j <= |s|
    ensures lo <= r <= j
    ensures BlankBetween(s, r, j)
    ensures r > lo ==> !IsJsWhitespace(s[r - 1])
    decreases j - lo
  {
    if j > lo && IsJsWhitespace(s[j - 1]) then SkipBlanksBackward(s, lo, j - 1) else j
  }

  /** `s.trim()`: the slice of `s` that starts at its first and ends at its
      last non-whitespace character, everything cut off being whitespace;
      empty exactly when `s` is blank. */
  function Trim(s: string): (r: string)
    ensures r == [] <==> IsBlank(s)
    ensures r != [] ==> !IsJsWhitespace(r[0]) && !IsJsWhitespace(r[|r| - 1])
    ensures var lo := SkipBlanksForward(s, 0);
      && lo + |r| <= |s|
      && r == s[lo..lo + |r|]
      && BlankBetween(s, 0, lo)
      && BlankBetween(s, lo + |r|, |s|)
  {
    var lo := SkipBlanksForward(s, 0);
    var hi := SkipBlanksBackward(s, lo, |s|);
    assert lo == |s| ==> hi == lo;
    assert lo < |s| ==> hi > lo;
    s[lo..hi]
  }

  /** Trimming twice is trimming once. */
  lemma TrimIdempotent(s: string)
    ensures Trim(Trim(s)) == Trim(s)
  {
    var r := Trim(s);
    if r != [] {
      assert SkipBlanksForward(r, 0) == 0;
      assert SkipBlanksBackward(r, 0, |r|) == |r|;
    }
  }
}
