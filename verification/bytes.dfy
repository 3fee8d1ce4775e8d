/** Bytes, and strings as the program sees them in memory. */
module Bytes {

  type Byte = x: int | 0 <= x < 256

  /** Memory that starts at the string and in which a NUL is found at the latest at the end. */
  predicate Terminated(s: seq<Byte>) {
    |s| > 0 && s[|s| - 1] == 0
  }

  /** The code of an ASCII character. */
  function Code(c: char): int {
    c as int
  }

  predicate IsDigit(c: int) {
    Code('0') <= c <= Code('9')
  }

  /** ISSPACE of ctype.c. */
  predicate IsSpace(c: int) {
    c == 32 || 9 <= c <= 13
  }

  /** ISSPACE of libc.c. */
  predicate IsPlainSpace(c: int) {
    c == 32 || c == 9 || c == 13 || c == 10
  }

  /** ISSPACE of ctype.c also knows \v and \f, ISSPACE of libc.c does not. */
  lemma SpacesAre(c: int)
    ensures IsSpace(c) <==> IsPlainSpace(c) || c == 11 || c == 12
    ensures IsPlainSpace(c) <==> c == Code(' ') || c == Code('\t') || c == Code('\r') || c == Code('\n')
  {
  }
}
