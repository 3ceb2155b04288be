/** Byte values and the character classes the firmware's stream code tests for. */
module Bytes {

  /** One octet read from or written to a serial stream (C `unsigned char` / `char`). */
  newtype byte = b: int | 0 <= b < 256

  const NUL: byte := 0x00
  const BS: byte := 0x08
  const LF: byte := 0x0A
  const CR: byte := 0x0D
  const SP: byte := 0x20
  const DEL: byte := 0x7F

  /** `isprint` in the C locale: space through tilde. */
  predicate IsPrint(c: byte) {
    SP <= c <= 0x7E
  }

  /** The two bytes the line editor treats as "erase the previous character". */
  predicate IsErase(c: byte) {
    c == DEL || c == BS
  }

  /** The two bytes that end a line. */
  predicate IsLineEnd(c: byte) {
    c == LF || c == CR
  }

  /** A byte the line editor neither stores nor echoes and that does not end the line. */
  predicate IsIgnored(c: byte) {
    !IsErase(c) && !IsLineEnd(c) && !IsPrint(c)
  }

  /** True iff every byte of `s` is printable. */
  predicate AllPrintable(s: seq<byte>) {
    forall i :: 0 <= i < |s| ==> IsPrint(s[i])
  }
}
