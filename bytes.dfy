/** Binary data as the plugin handles it: file contents and encoded text. */
module Bytes {
  /** An octet, as held by a `Uint8Array` or an `ArrayBuffer`. */
  newtype byte = b: int | 0 <= b < 256
}
