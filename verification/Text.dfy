/** Byte strings. */
module Text {
  type Ch = c: int | 0 <= c < 256

  type Str = seq<Ch>

  const NUL: Ch := 0

  predicate NulFree(s: Str) {
    NUL !in s
  }
}
