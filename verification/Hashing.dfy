/** Fixed-width digests and what is asked of a hash function.

    No function into 32 bytes is injective on pairs of 32-byte values, so the theorems of
    this project never ask for an injective hash. They ask that it does not collide on a
    finite set: the inputs that the computations at hand really feed to it. */
module Hashing {
  const TWO_256: nat := 0x1_0000000000000000_0000000000000000_0000000000000000_0000000000000000

  /** A 32-byte value read as a big-endian integer, so `<=` is the byte-wise order. */
  type Bytes32 = n: nat | n < TWO_256

  const ZERO_HASH: Bytes32 := 0

  type Pair = (Bytes32, Bytes32)
  type PairHash = (Bytes32, Bytes32) -> Bytes32

  /** `h` maps different pairs of `pairs` to different digests. */
  ghost predicate CollisionFreeOn(h: PairHash, pairs: set<Pair>) {
    forall p, q | p in pairs && q in pairs && h(p.0, p.1) == h(q.0, q.1) :: p == q
  }
}
