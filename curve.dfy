/**
 * The curve25519 / Ristretto backend that the key sets are built on.
 *
 * The group itself (points, scalars, scalar multiplication, the basepoint
 * and hash-to-point) is foreign code, so the model keeps it abstract:
 * `Point` and `Scalar` are type parameters of the key-set datatypes and the
 * primitives are passed in as function values. The only fact fixed here is
 * the one every caller relies on: a compressed point is exactly 32 bytes.
 */
module Curve {

  newtype byte = x: int | 0 <= x < 256

  /** Length in bytes of a canonical compressed Ristretto point. */
  const ENCODING_LENGTH: nat := 32

  /** A `CompressedRistretto`: a fixed-width 32-byte encoding of a point. */
  type Encoding = s: seq<byte> | |s| == ENCODING_LENGTH witness seq(32, _ => 0)
}
