/**
  Bytes of files and tapes.
*/
module Bytes {

  type byte = x: int | 0 <= x < 256
}
