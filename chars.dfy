/**
 Character classes used by the keyword pipeline and by `str.strip`/`str.split`.

 `IsSpace` is the whitespace set of Python's `str.isspace`, which is also what
 `str.split()`, `str.strip()` and the `\s` class of a `re` pattern on `str` use.
 `IsWordChar` and `Lower` are `\w` and `str.lower` on the Basic Latin and
 Latin-1 blocks, plus the CJK Unified Ideographs block for `\w` (which holds
 the Chinese sentinel titles of unknown entries).
 */
module Chars {

  /** The Unicode whitespace code points Python treats as whitespace. */
  predicate IsSpace(c: char)
  {
    var n := c as int;
    (9 <= n <= 13) || (28 <= n <= 32) || n == 0x85 || n == 0xA0 || n == 0x1680
    || (0x2000 <= n <= 0x200A) || n == 0x2028 || n == 0x2029 || n == 0x202F
    || n == 0x205F || n == 0x3000
  }

  /** A capital letter of Basic Latin or Latin-1, which `str.lower` maps 32 code points up. */
  predicate IsCapital(c: char)
  {
    var n := c as int;
    (0x41 <= n <= 0x5A) || (0xC0 <= n <= 0xD6) || (0xD8 <= n <= 0xDE)
  }

  /**
   The `\w` class (`str.isalnum()` or `_`) on Basic Latin, Latin-1 and the
   CJK Unified Ideographs: ASCII letters, digits and underscore; the Latin-1
   letters ª µ º À–Ö Ø–ö ø–ÿ; the Latin-1 digits and numerals ² ³ ¹ ¼ ½ ¾;
   and every ideograph U+4E00–U+9FFF.
   */
  predicate IsWordChar(c: char)
  {
    var n := c as int;
    (0x30 <= n <= 0x39) || (0x41 <= n <= 0x5A) || n == 0x5F || (0x61 <= n <= 0x7A)
    || n == 0xAA || n == 0xB2 || n == 0xB3 || n == 0xB5 || n == 0xB9 || n == 0xBA
    || (0xBC <= n <= 0xBE) || (0xC0 <= n <= 0xD6) || (0xD8 <= n <= 0xF6) || (0xF8 <= n <= 0xFF)
    || (0x4E00 <= n <= 0x9FFF)
  }

  /** `str.lower` on one character of Basic Latin or Latin-1; every other character is kept. */
  function Lower(c: char): (d: char)
    ensures IsWordChar(d) == IsWordChar(c)
    ensures IsSpace(d) == IsSpace(c)
    ensures !IsCapital(d)
    ensures d != c <==> IsCapital(c)
    ensures d != c ==> d as int == c as int + 32
  {
    if IsCapital(c) then (c as int + 32) as char else c
  }

  /** Lowering is idempotent: a lowered character is already lower case. */
  lemma LowerIdempotent(c: char)
    ensures Lower(Lower(c)) == Lower(c)
  {
  }

  /** No character is both a word character and whitespace. */
  lemma WordCharIsNotSpace(c: char)
    ensures IsWordChar(c) ==> !IsSpace(c)
  {
  }

}
