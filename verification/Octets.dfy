/** Bytes. */
module Octets {
  type byte = b: int | 0 <= b < 256

  const SLASH: byte := 0x2F
}
