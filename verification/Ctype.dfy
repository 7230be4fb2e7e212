/** The character classes of C that the shell tests, for bytes and for signed characters. */
module Ctype {

  predicate IsSpace(c: int) {
    c == 32 || 9 <= c <= 13
  }

  predicate IsDigit(c: int) {
    48 <= c <= 57
  }
}
