/** The cryptographic digests the caches use. Their algorithms are not
    modelled: each is an arbitrary total function whose result type fixes the
    digest length, and a proof about the caches holds for every choice. */
module Digests {
  import opened Bytes

  type Digest32 = b: bytes | |b| == 32 witness seq(32, _ => 0)
  type Digest64 = b: bytes | |b| == 64 witness seq(64, _ => 0)

  /** SHA-256 (the repository key), SHA-512 (ray-tracing content hash) and
      BLAKE3 (compute-kernel content hash). */
  datatype HashSuite = HashSuite(
    sha256: bytes -> Digest32,
    sha512: bytes -> Digest64,
    blake3: bytes -> Digest32)

  /** An incremental hasher (`Sha256::new`, `blake3::Hasher::new`): every
      `update` appends to the message, and finalising digests the whole
      message, so the digest depends only on the concatenation of updates. */
  datatype Hasher = Hasher(fed: bytes) {
    function Update(data: bytes): (h: Hasher)
      ensures |h.fed| == |fed| + |data|
      ensures h.fed[..|fed|] == fed && h.fed[|fed|..] == data
    {
      Hasher(fed + data)
    }
  }

  const NewHasher: Hasher := Hasher([])
}
