/**
 * The hash chain that seals every version: the first block's digest seeds
 * the version hash, and every later block folds its own digest into it.
 * SHA-256 itself is not modelled: it is a parameter, an arbitrary function
 * from bytes to digests.
 */
module HashChain {
  import opened Types

  /** How a server variant digests one block and chains two digests. */
  datatype Scheme<!H> = Scheme(leaf: Bytes -> H, chain: (H, H) -> H)

  /**
   * The current server: `sha256FromBuffer` is the raw digest of the block,
   * `sha256FromHashes` the digest of the previous (decoded) version hash
   * followed by the block digest.
   */
  function CommonScheme(sha256: Bytes -> Bytes): Scheme<Bytes>
  {
    Scheme(sha256, (h1: Bytes, h2: Bytes) => sha256(h1 + h2))
  }

  /**
   * The legacy server: digests are hex strings, and chaining hashes the
   * UTF-8 text of the previous hex digest followed by that of the block's.
   */
  function LegacyScheme(sha256: Bytes -> Bytes, hex: Bytes -> string, utf8: string -> Bytes): Scheme<string>
  {
    Scheme((b: Bytes) => hex(sha256(b)), (h1: string, h2: string) => hex(sha256(utf8(h1) + utf8(h2))))
  }

  /** The version hash after the blocks `blocks[0], blocks[1], ...` were appended in order. */
  function ChainHash<H>(s: Scheme<H>, blocks: seq<Bytes>): H
    requires |blocks| >= 1
  {
    if |blocks| == 1 then s.leaf(blocks[0])
    else s.chain(ChainHash(s, blocks[..|blocks| - 1]), s.leaf(blocks[|blocks| - 1]))
  }

  /** Appending one block folds its digest into the running hash, and nothing else. */
  lemma ChainExtend<H>(s: Scheme<H>, blocks: seq<Bytes>, b: Bytes)
    requires |blocks| >= 1
    ensures ChainHash(s, blocks + [b]) == s.chain(ChainHash(s, blocks), s.leaf(b))
  {
    assert (blocks + [b])[..|blocks|] == blocks;
  }

  /**
   * With the current server's digests the chain is the one
   * src/common/server/api.ts:31-37 computes: seed SHA-256(b0), then
   * SHA-256(previous ++ SHA-256(b)).
   */
  lemma CommonChain(sha256: Bytes -> Bytes, blocks: seq<Bytes>, b: Bytes)
    requires |blocks| >= 1
    ensures ChainHash(CommonScheme(sha256), [b]) == sha256(b)
    ensures ChainHash(CommonScheme(sha256), blocks + [b]) ==
              sha256(ChainHash(CommonScheme(sha256), blocks) + sha256(b))
  {
    ChainExtend(CommonScheme(sha256), blocks, b);
  }
}
