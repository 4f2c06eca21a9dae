/** Octets and the two control characters the line scanner cares about. */
module Bytes {

  type byte = x: int | 0 <= x < 256

  const Newline: byte := 10
  const CarriageReturn: byte := 13
}
