/** Text as bytes, and the characters the text parsers share. */
module Ascii {
  import opened Bytes

  type Text = seq<Byte>

  const PLUS: Byte := 0x2B
  const DOT: Byte := 0x2E
  const ZERO: Byte := 0x30
  const COLON: Byte := 0x3A

  predicate IsBlank(c: Byte) {
    c == 0x20 || c == 0x09 || c == 0x0A || c == 0x0D
  }

  predicate IsDigit(c: Byte) {
    0x30 <= c <= 0x39
  }

  predicate AllDigits(t: Text) {
    forall i | 0 <= i < |t| :: IsDigit(t[i])
  }
}
