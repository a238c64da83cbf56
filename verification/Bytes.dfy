/** The bytes that files, pipes and message buffers hold. */
module Bytes {

  newtype Byte = x: int | 0 <= x < 256
}
