/** Octets, as captured frames and file contents are made of. */
module Bytes {
  /** One octet of a frame or of a file. */
  newtype byte = x: int | 0 <= x < 256
}
