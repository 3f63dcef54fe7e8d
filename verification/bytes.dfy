/** Octets as they appear in a Java `byte[]`, taken unsigned. */
module Bytes {

  type byte = x: int | 0 <= x < 0x100
}
