/** Bytes as Node's `Buffer` and CryptoJS's `WordArray` hold them. */
module Octets {

  type byte = b: int | 0 <= b < 256

  type Bytes = seq<byte>

  /** A 16-byte value: an AES block-sized IV, or a GCM authentication tag. */
  type Block = b: Bytes | |b| == 16 witness seq(16, _ => 0)

  /** A 32-byte value: an AES-256 key. */
  type Key256 = b: Bytes | |b| == 32 witness seq(32, _ => 0)
}
