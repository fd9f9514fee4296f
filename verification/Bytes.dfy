/** Byte strings, the SHA-256 digest type and explicit hash collisions. */
module Bytes {
  type Byte = b: int | 0 <= b < 256

  type Bytes = seq<Byte>

  const DIGEST_LENGTH := 32

  /** The 32 zero bytes used both as GENESIS_HASH and as the root of an empty Merkle tree. */
  const ZERO_BYTES: Bytes :=
    [0, 0, 0, 0, 0, 0, 0, 0, 0, 0, 0, 0, 0, 0, 0, 0,
     0, 0, 0, 0, 0, 0, 0, 0, 0, 0, 0, 0, 0, 0, 0, 0]

  type Digest = b: Bytes | |b| == DIGEST_LENGTH witness ZERO_BYTES

  const ZERO_DIGEST: Digest := ZERO_BYTES

  /** SHA-256 is an arbitrary function from byte strings to 32 bytes. */
  type Hasher = Bytes -> Digest

  datatype Collision = Collision(left: Bytes, right: Bytes)

  /** Two different byte strings with the same digest. */
  predicate IsCollision(sha: Hasher, c: Collision) {
    c.left != c.right && sha(c.left) == sha(c.right)
  }

  datatype Option<+T> = None | Some(value: T)

  datatype Result<+T, +E> = Ok(value: T) | Err(error: E)
}
