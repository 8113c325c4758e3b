/** Bytes and the character tests of lib.c. */
module Chars {

  type byte = x: int | 0 <= x < 256

  const NUL: byte := 0
  const BS: byte := 8
  const LF: byte := 10
  const CR: byte := 13
  const ESC: byte := 27
  const SPACE: byte := 32
  const SEMI: byte := 59
  const BRACKET: byte := 91

  predicate IsAlpha(ch: byte) {
    ('a' as int <= ch <= 'z' as int) || ('A' as int <= ch <= 'Z' as int)
  }

  predicate IsNum(ch: byte) {
    '0' as int <= ch <= '9' as int
  }

  predicate IsAlnum(ch: byte) {
    IsAlpha(ch) || IsNum(ch)
  }
}
