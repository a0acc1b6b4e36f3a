/** The cryptographic operations, taken as arbitrary functions. */
module Crypto {
  import opened Primitives
  import opened MerkleSpec
  import Responses
  import ResponseFrames

  /** SHA-512 cut to 32 bytes, and Ed25519 with seeds as private keys. */
  datatype Suite = Suite(
    digest: Bytes -> Bytes32,
    publicKey: Bytes32 -> Bytes32,
    sign: (Bytes32, Bytes) -> Bytes64,
    verify: (Bytes32, Bytes, Bytes64) -> bool)
  {
    function Hasher(): Hasher { TreeHasher(digest) }

    /** All that is asked of signatures: what was signed verifies under the matching public key. */
    ghost predicate Ideal() {
      forall seed, message {:trigger sign(seed, message)} :: verify(publicKey(seed), message, sign(seed, message))
    }
  }

  /** H(prior response frame || rand). */
  function ChainedNonce(suite: Suite, prior: Responses.Response, rand: Bytes32): Bytes32
    requires prior.Sized()
  {
    suite.digest(ResponseFrames.ToFrame(prior) + rand)
  }

  /** H(0xff || long-term public key). */
  function SrvCommitment(suite: Suite, key: Bytes32): Bytes32 {
    suite.digest([0xff] + key)
  }
}
