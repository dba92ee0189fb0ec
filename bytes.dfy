/** The `unsigned char` of the C implementation. */
module Bytes {

  type byte = x: int | 0 <= x < 256
}
