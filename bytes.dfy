/** Octets, as held by a Node.js `Buffer`. */
module Bytes {

  type byte = b: int | 0 <= b < 256
}
