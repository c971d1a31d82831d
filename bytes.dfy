/** Octets, as Python's `bytes` holds them. */
module Bytes {

  newtype byte = x: int | 0 <= x < 256
}
