/** Bytes and the control characters the runtime gives meaning to. */
module Bytes {
  type byte = b: int | 0 <= b < 256

  const TAB: byte := 9
  const LF: byte := 10
  const CR: byte := 13
  const SPACE: byte := 32

  predicate IsMarker(c: int) { c == LF || c == CR }

  predicate IsBlank(c: int) { c == SPACE || c == TAB }
}
