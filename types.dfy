/** The values shared by proof-of-work, block construction and the chain store. */
module Types {
  import opened Bytes
  import opened Wrappers

  /** Go's int64, and its int on the 64-bit platforms the program runs on. */
  newtype Int64 = x: int | -0x8000_0000_0000_0000 <= x < 0x8000_0000_0000_0000

  const MaxInt64: Int64 := 0x7fff_ffff_ffff_ffff

  /** A SHA-256 digest. */
  type Digest = s: seq<byte> | |s| == 32 witness seq(32, _ => 0)

  /** A mined block. Payload is the block's content: a transaction list in the
      chain, opaque data in the older variant of block.go. */
  datatype Block<P> = Block(Hash: seq<byte>, Payload: P, PrevHash: seq<byte>, Nonce: Int64)

  /** The functions the core calls but does not define: crypto/sha256.Sum256,
      the payload digest (Block.HashTransactions), and gob's encoding and
      decoding of a payload. */
  datatype Primitives<!P> = Primitives(
    Sha256: seq<byte> -> Digest,
    PayloadDigest: P -> seq<byte>,
    EncodePayload: P -> seq<byte>,
    DecodePayload: seq<byte> -> Option<P>)
}
