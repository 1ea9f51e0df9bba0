/**
 * Character classes used throughout the system.
 *
 * One whitespace predicate stands for Python's `str.isspace`, for the `\s`
 * class of Python's `re` on `str` (the same set), and for Java's `trim` and
 * `\s+`. Letter, digit and case tests are ASCII plus the CJK ideograph
 * blocks; other scripts are outside the model.
 */
module Chars {

  /** The characters Python's `str.isspace` accepts. */
  predicate IsSpace(c: char)
  {
    c == ' ' || ('\t' <= c <= '\r') || ('\U{1c}' <= c <= '\U{1f}')
    || c == '\U{85}' || c == '\U{a0}' || c == '\U{1680}'
    || ('\U{2000}' <= c <= '\U{200a}') || c == '\U{2028}' || c == '\U{2029}'
    || c == '\U{202f}' || c == '\U{205f}' || c == '\U{3000}'
  }

  /** The line boundaries of Python's `str.splitlines`. */
  predicate IsLineBreak(c: char)
  {
    ('\n' <= c <= '\r') || ('\U{1c}' <= c <= '\U{1e}')
    || c == '\U{85}' || c == '\U{2028}' || c == '\U{2029}'
  }

  /** The three ideograph ranges the segment merger treats as CJK:
      the Unified block, Extension A and Extension B. */
  predicate IsCjk(c: char)
  {
    (0x4E00 <= c as int <= 0x9FFF)
    || (0x3400 <= c as int <= 0x4DBF)
    || (0x20000 <= c as int <= 0x2A6DF)
  }

  /** The narrower test the filename scorer uses: the Unified block only. */
  predicate IsUnifiedIdeograph(c: char)
  {
    '\U{4e00}' <= c <= '\U{9fff}'
  }

  predicate IsAsciiLower(c: char) { 'a' <= c <= 'z' }

  predicate IsAsciiUpper(c: char) { 'A' <= c <= 'Z' }

  predicate IsAsciiLetter(c: char) { IsAsciiLower(c) || IsAsciiUpper(c) }

  predicate IsDigit(c: char) { '0' <= c <= '9' }

  /** Python's `isalpha`, restricted to ASCII letters and CJK ideographs. */
  predicate IsAlpha(c: char) { IsAsciiLetter(c) || IsCjk(c) }

  /** Python's `isalnum` (the complement of the regular-expression class `\W`
      without `_`), restricted as `IsAlpha` is. */
  predicate IsAlnum(c: char) { IsAlpha(c) || IsDigit(c) }

  /** `lower` on one character, ASCII only. */
  function Lower(c: char): (r: char)
    ensures IsAsciiUpper(c) ==> IsAsciiLower(r) && r as int == c as int + 32
    ensures !IsAsciiUpper(c) ==> r == c
  {
    if IsAsciiUpper(c) then (c as int + 32) as char else c
  }

  /**
   * Python's test `'a' <= ch.lower() <= 'z'` on a single character. Besides
   * the ASCII letters of both cases it holds for two more characters:
   * U+0130, whose lower case is the two-character string "i" + U+0307, and
   * the Kelvin sign U+212A, whose lower case is "k".
   */
  predicate LowerIsAsciiLetter(c: char)
  {
    IsAsciiLetter(c) || c == '\U{130}' || c == '\U{212a}'
  }
}
