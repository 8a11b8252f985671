/**
 Bytes as the programs store and send them.
 */
module Bytes {
  type Byte = b: int | 0 <= b < 256
}
