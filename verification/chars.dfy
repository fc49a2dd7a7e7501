/**
 Character classes used by the normalizer's regular expressions.

 `\d` and `str.isdigit` are restricted to the ASCII digits. `\w` is exact on
 U+0000..U+00FF (ASCII letters and digits, '_' and the Latin-1 alphanumerics,
 which covers Portuguese diacritics); characters above U+00FF count as
 non-word. `\s`, `str.isspace` and `str.strip` share Python's full whitespace set.
 */
module Chars {

  predicate IsDigit(c: char) {
    '0' <= c <= '9'
  }

  function DigitValue(c: char): (v: nat)
    requires IsDigit(c)
    ensures v < 10
  {
    (c as int) - ('0' as int)
  }

  /** The digit character whose value is `v`. */
  function DigitChar(v: nat): (c: char)
    requires v < 10
    ensures IsDigit(c) && DigitValue(c) == v
  {
    (('0' as int) + v) as char
  }

  predicate IsAsciiLetter(c: char) {
    'a' <= c <= 'z' || 'A' <= c <= 'Z'
  }

  predicate IsAsciiAlnum(c: char) {
    IsAsciiLetter(c) || IsDigit(c)
  }

  /** Latin-1 characters that Python's `str.isalnum` accepts beyond ASCII. */
  predicate IsLatin1Alnum(c: char) {
    var n := c as int;
    n == 0xAA || n == 0xB2 || n == 0xB3 || n == 0xB5 || n == 0xB9 || n == 0xBA
    || (0xBC <= n <= 0xBE) || (0xC0 <= n <= 0xD6) || (0xD8 <= n <= 0xF6) || (0xF8 <= n <= 0xFF)
  }

  /** The class `\w`. */
  predicate IsWordChar(c: char) {
    IsAsciiAlnum(c) || c == '_' || IsLatin1Alnum(c)
  }

  /** The class `\s`, which is also what `str.isspace` accepts. */
  predicate IsSpace(c: char) {
    var n := c as int;
    (9 <= n <= 13) || (28 <= n <= 32) || n == 0x85 || n == 0xA0 || n == 0x1680
    || (0x2000 <= n <= 0x200A) || n == 0x2028 || n == 0x2029 || n == 0x202F
    || n == 0x205F || n == 0x3000
  }

  /** ASCII lower-casing, as `str.lower` acts on the ASCII text it is applied to. */
  function LowerChar(c: char): (r: char)
    ensures 'A' <= c <= 'Z' ==> 'a' <= r <= 'z'
    ensures !('A' <= c <= 'Z') ==> r == c
  {
    if 'A' <= c <= 'Z' then ((c as int) + 32) as char else c
  }

  lemma DigitsAreWordChars(c: char)
    requires IsDigit(c)
    ensures IsWordChar(c) && !IsSpace(c)
  {
  }

}
