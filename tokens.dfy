/**
 * Values of the glyph-name map written by the font converter and read back by
 * the previewer: a glyph name maps to a printable character or, outside the
 * printable ASCII range, to its integer code. Preprocessed strings are
 * sequences of the same values.
 */
module Tokens {

  datatype Token = Char(c: char) | Code(n: int)

  /** `ord(char) if isinstance(char, str) else char`. */
  function Ord(t: Token): int
  {
    match t
    case Char(c) => c as int
    case Code(n) => n
  }
}
