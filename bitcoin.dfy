/**
 * The parts of the bitcoin library that the header store consumes. The
 * header is a plain record; hashing, consensus encoding, the proof-of-work
 * check and the genesis constants are not reimplemented: they are the
 * functions of a `Consensus` value, and `Lawful` states the one law the store
 * relies on.
 */
module Bitcoin {
  import opened Wrappers
  import opened LittleEndian

  /** A 32-byte double-SHA-256 digest. */
  type Hash256 = s: seq<Byte> | |s| == 32 witness seq(32, i => 0)

  type BlockHash = Hash256

  /** `i32`. */
  type I32 = n: int | -0x8000_0000 <= n < 0x8000_0000

  /** `bitcoin::block::Header`. Only `prevBlockhash` is read by the store. */
  datatype Header = Header(
    version: I32,
    prevBlockhash: BlockHash,
    merkleRoot: Hash256,
    time: U32,
    bits: U32,   // the compact encoding of the proof-of-work target
    nonce: U32)

  /** `bitcoin::Network`. */
  datatype Network = Bitcoin | Testnet | Signet | Regtest

  /**
   * The library functions the store calls:
   *   serialize       consensus::encode::serialize(header)
   *   deserialize     consensus::encode::deserialize::<Header>(bytes), None on failure
   *   blockHash       header.block_hash()
   *   validatePow     header.validate_pow(header.target()).is_ok()
   *   genesisHash     genesis_block(network).block_hash()
   */
  datatype Consensus = Consensus(
    serialize: Header -> seq<Byte>,
    deserialize: seq<Byte> -> Option<Header>,
    blockHash: Header -> BlockHash,
    validatePow: Header -> bool,
    genesisHash: Network -> BlockHash)

  /**
   * What the store relies on: an encoded header fits a `u32` length prefix,
   * and decoding an encoded header gives the header back.
   */
  ghost predicate Lawful(c: Consensus)
  {
    forall h: Header ::
      |c.serialize(h)| < U32_LIMIT && c.deserialize(c.serialize(h)) == Some(h)
  }
}
