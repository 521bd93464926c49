/** Block construction: mining a new block, the genesis block, and the
    block's byte encoding for the store. */
module Blocks {
  import opened Bytes
  import opened Wrappers
  import opened Types
  import opened Proof

  /** Handle aborts the operation on an error and lets it go on otherwise. */
  function Handle(err: Option<Error>): (o: Outcome)
    ensures o.Pass? <==> err.None?
    ensures err.Some? ==> o == Fail(err.value)
  {
    match err
    case None => Pass
    case Some(e) => Fail(e)
  }

  /** What mining guarantees of a block: its Nonce is the first one whose
      digest meets the target, and its Hash is that digest. When the search
      ran out (Nonce == MaxInt64) the Hash is the digest of the last nonce tried. */
  predicate Mined<P>(b: Block<P>, prim: Primitives<P>)
  {
    && |b.Hash| == 32
    && 0 <= b.Nonce
    && (forall m: Int64 :: 0 <= m < b.Nonce ==> !MeetsTarget(NewProof(b), m, prim))
    && (b.Nonce < MaxInt64 ==> MeetsTarget(NewProof(b), b.Nonce, prim) && b.Hash == HeaderDigest(NewProof(b), b.Nonce, prim))
    && (b.Nonce == MaxInt64 ==> b.Hash == HeaderDigest(NewProof(b), MaxInt64 - 1, prim))
  }

  /** A mined block whose search succeeded passes Validate. */
  lemma MinedBlockValidates<P>(b: Block<P>, prim: Primitives<P>)
    requires Mined(b, prim) && b.Nonce < MaxInt64
    ensures Validate(NewProof(b), prim)
    ensures b.Hash == HeaderDigest(NewProof(b), b.Nonce, prim)
  {
  }

  /** Builds a block with an empty hash and a zero nonce, mines it, and fills
      in the nonce and hash that Run found. Data and previous hash are kept;
      mining reads neither the initial Hash nor the initial Nonce. */
  method CreateBlock<P>(data: P, preHash: seq<byte>, prim: Primitives<P>) returns (block: Block<P>)
    ensures block.Payload == data && block.PrevHash == preHash
    ensures Mined(block, prim)
    ensures block.Nonce < MaxInt64 ==> Validate(NewProof(block), prim)
  {
    block := Block([], data, preHash, 0);
    var pow := NewProof(block);
    var nonce, hash := Run(pow, prim);
    block := block.(Hash := hash, Nonce := nonce);
    forall m: Int64
      ensures HeaderDigest(NewProof(block), m, prim) == HeaderDigest(pow, m, prim)
      ensures MeetsTarget(NewProof(block), m, prim) == MeetsTarget(pow, m, prim)
    {
      InitDataReadsHeaderOnly(block, pow.Block, m, prim);
    }
    assert Mined(block, prim);
  }

  /** The first block: the given payload on an empty previous hash. */
  method Genesis<P>(data: P, prim: Primitives<P>) returns (block: Block<P>)
    ensures block.Payload == data && block.PrevHash == []
    ensures Mined(block, prim)
  {
    block := CreateBlock(data, [], prim);
  }

  /** A field with its length in front, as 8 big-endian bytes. */
  function Frame(field: seq<byte>): seq<byte>
  {
    BigEndian(|field|, 8) + field
  }

  /** Splits one length-prefixed field off the front of data. */
  function ReadFrame(data: seq<byte>): (r: Option<(seq<byte>, seq<byte>)>)
    ensures r.Some? ==> Frame(r.value.0) + r.value.1 == data
  {
    if |data| < 8 then None
    else
      var n := BeValue(data[..8]);
      if |data| - 8 < n then None
      else
        BigEndianOfBeValue(data[..8]);
        assert data == data[..8] + data[8..8 + n] + data[8 + n..];
        Some((data[8..8 + n], data[8 + n..]))
  }

  lemma ReadFrameOfFrame(field: seq<byte>, rest: seq<byte>)
    requires |field| < Pow2(64)
    ensures ReadFrame(Frame(field) + rest) == Some((field, rest))
  {
    Pow2Constants();
    BeValueOfBigEndian(|field|, 8);
    var data := Frame(field) + rest;
    assert data[..8] == BigEndian(|field|, 8);
    assert data[8..8 + |field|] == field;
    assert data[8 + |field|..] == rest;
  }

  /** Every field's length fits the 8-byte length prefix. */
  predicate Encodable<P>(b: Block<P>, prim: Primitives<P>)
  {
    && |b.Hash| < Pow2(64)
    && |prim.EncodePayload(b.Payload)| < Pow2(64)
    && |b.PrevHash| < Pow2(64)
  }

  /** The block's bytes: Hash, encoded payload and PrevHash as length-prefixed
      fields, then the nonce as 8 big-endian bytes. */
  function Serialize<P>(b: Block<P>, prim: Primitives<P>): (r: Result<seq<byte>>)
    ensures r.Ok? <==> Encodable(b, prim)
  {
    match Handle(if Encodable(b, prim) then None else Some(EncodingError))
    case Fail(e) => Err(e)
    case Pass => Ok(Frame(b.Hash) + Frame(prim.EncodePayload(b.Payload)) + Frame(b.PrevHash) + ToHex(b.Nonce))
  }

  /** Reads a block back from its bytes; fails on bytes Serialize cannot have written. */
  function DecodeBlock<P>(data: seq<byte>, prim: Primitives<P>): Option<Block<P>>
  {
    match ReadFrame(data)
    case None => None
    case Some((hash, rest1)) =>
      match ReadFrame(rest1)
      case None => None
      case Some((payload, rest2)) =>
        match ReadFrame(rest2)
        case None => None
        case Some((prevHash, rest3)) =>
          if |rest3| != 8 then None
          else
            match prim.DecodePayload(payload)
            case None => None
            case Some(p) => Some(Block(hash, p, prevHash, FromHex(rest3)))
  }

  function Deserialize<P>(data: seq<byte>, prim: Primitives<P>): (r: Result<Block<P>>)
    ensures r.Err? ==> r.error == EncodingError
  {
    var decoded := DecodeBlock(data, prim);
    match Handle(if decoded.None? then Some(EncodingError) else None)
    case Fail(e) => Err(e)
    case Pass => Ok(decoded.value)
  }

  /** Decoding what Serialize wrote gives back the block, field for field,
      provided the payload encoding round-trips. */
  lemma SerializeRoundTrip<P>(b: Block<P>, prim: Primitives<P>)
    requires prim.DecodePayload(prim.EncodePayload(b.Payload)) == Some(b.Payload)
    requires Serialize(b, prim).Ok?
    ensures Deserialize(Serialize(b, prim).value, prim) == Ok(b)
  {
    var payload := prim.EncodePayload(b.Payload);
    var nonce := ToHex(b.Nonce);
    var tail3 := Frame(b.PrevHash) + nonce;
    var tail2 := Frame(payload) + tail3;
    var data := Frame(b.Hash) + tail2;
    assert Serialize(b, prim).value == data;
    ReadFrameOfFrame(b.Hash, tail2);
    ReadFrameOfFrame(payload, tail3);
    ReadFrameOfFrame(b.PrevHash, nonce);
    ToHexRoundTrip(b.Nonce);
  }
}
