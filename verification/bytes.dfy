/** Octets, shared by the byte-level encodings. */
module Bytes {
  /** One octet, as an integer from 0 to 255. */
  type byte = x: int | 0 <= x < 256
}
