/**
 Byte-level vocabulary of the native crypto library: bytes, the fixed
 32-byte key buffers, fixed-length digests, and the hash primitives.

 SHA-256 and SHA-512 are not modelled internally. They enter the model as
 the two fields of a `HashSuite` value, and every operation that hashes
 takes the suite as a parameter. Their only known property is the length of
 their output, which the digest types carry.
 */
module Bytes {

  /** An unsigned 8-bit value (Rust `u8`). */
  type byte = x: nat | x < 256

  /** Size of every key buffer crossing the library boundary (`KEY_SIZE`). */
  const KeySize: nat := 32

  /** A 32-byte key: private spend/view keys, public keys and key images. */
  type Key = s: seq<byte> | |s| == KeySize witness seq(KeySize, _ => 0)

  /** A SHA-256 digest. */
  type Digest256 = s: seq<byte> | |s| == 32 witness seq(32, _ => 0)

  /** A SHA-512 digest. */
  type Digest512 = s: seq<byte> | |s| == 64 witness seq(64, _ => 0)

  /** The hash primitives of FIPS 180-4 the library calls, kept opaque. */
  datatype HashSuite = HashSuite(
    sha256: seq<byte> -> Digest256,
    sha512: seq<byte> -> Digest512
  )
}
