/** Bytes as the application handles them: audio bodies from the provider and the contents of
    WAV files. */
module Octets {

  /** One byte; the value a Uint8Array element holds. */
  newtype Byte = b: int | 0 <= b < 256

  type Bytes = seq<Byte>
}
