/** SHA-256 as an unknown function into 32 bytes. Nothing is assumed about it: a result that needs
    hashes to tell things apart says among which inputs no two collide. */
module Hashing {
  import opened Bytes

  type Hash = h: bytes | |h| == 32 witness seq(32, _ => 0)

  const Sha256: bytes -> Hash

  /** `EMPTY_HASH`, the digest of the empty string. */
  function EmptyHash(): Hash {
    Sha256([])
  }

  ghost predicate CollisionFree(inputs: set<bytes>) {
    forall x, y :: x in inputs && y in inputs && Sha256(x) == Sha256(y) ==> x == y
  }
}
