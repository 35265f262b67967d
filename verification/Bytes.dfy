/** The bytes of sectors, buffers and headers. */
module Bytes {
  type byte = x: int | 0 <= x < 256
}
