/** The ASCII character predicates of Rust's `char` that the engine relies on.
    Every other character is opaque. */
module Ascii {

  /** `char::is_ascii_digit`: '0' ..= '9'. */
  predicate IsDigit(c: char) {
    '0' <= c <= '9'
  }

  /** `char::is_ascii_alphanumeric`: digits and the 52 ASCII letters. */
  predicate IsAlphanumeric(c: char) {
    'a' <= c <= 'z' || 'A' <= c <= 'Z' || IsDigit(c)
  }

  /** `char::is_ascii_punctuation`: the four punctuation ranges of ASCII,
      from '!' to '/', ':' to '@', '[' to '`' and '{' to '~'. */
  predicate IsPunctuation(c: char) {
    '!' <= c <= '/' || ':' <= c <= '@' || '[' <= c <= '`' || '{' <= c <= '~'
  }

  /** The numeric value of a decimal digit. */
  function DigitValue(c: char): (d: nat)
    requires IsDigit(c)
    ensures d < 10
    ensures c == '0' + d as char
  {
    (c - '0') as nat
  }
}
