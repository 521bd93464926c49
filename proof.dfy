/** Proof of work: the difficulty target, the header bytes that are hashed,
    the nonce search and its re-check. */
module Proof {
  import opened Bytes
  import opened Types

  /** The number of leading zero bits a block's digest must have. */
  const Difficulty: nat := 18

  /** big.Int's Lsh: x shifted left by k bits. */
  function ShiftLeft(x: nat, k: nat): nat
  {
    x * Pow2(k)
  }

  /** The target 1 << (256 - Difficulty) over the 256-bit digest space. */
  function Target(): (t: nat)
    ensures t == Pow2(238)
  {
    ShiftLeft(1, 256 - Difficulty)
  }

  /** A block together with the target its digest has to stay below. */
  datatype ProofOfWork<P> = ProofOfWork(Block: Block<P>, Target: nat)

  function NewProof<P>(b: Block<P>): (pow: ProofOfWork<P>)
    ensures pow.Block == b && pow.Target == Pow2(256 - Difficulty)
  {
    ProofOfWork(b, Target())
  }

  /** num as an unsigned 64-bit pattern (two's complement). */
  function Unsigned64(num: Int64): (u: nat)
    ensures u < 0x1_0000_0000_0000_0000
  {
    if num < 0 then num as int + 0x1_0000_0000_0000_0000 else num as int
  }

  /** The 8-byte big-endian encoding of num, as binary.Write writes it. */
  function ToHex(num: Int64): (r: seq<byte>)
    ensures |r| == 8
  {
    BigEndian(Unsigned64(num), 8)
  }

  lemma ToHexValue(num: Int64)
    ensures BeValue(ToHex(num)) == Unsigned64(num)
    ensures 0 <= num ==> BeValue(ToHex(num)) == num as int
  {
    Pow2Constants();
    BeValueOfBigEndian(Unsigned64(num), 8);
  }

  /** Reads back an 8-byte big-endian signed 64-bit integer. */
  function FromHex(s: seq<byte>): Int64
    requires |s| == 8
  {
    Pow2Constants();
    var v := BeValue(s);
    if v < 0x8000_0000_0000_0000 then v as Int64 else (v - 0x1_0000_0000_0000_0000) as Int64
  }

  /** Every 64-bit integer is recovered from its encoding. */
  lemma ToHexRoundTrip(num: Int64)
    ensures FromHex(ToHex(num)) == num
  {
    Pow2Constants();
    ToHexValue(num);
  }

  /** Every 8-byte string is the encoding of the integer read back from it. */
  lemma FromHexRoundTrip(s: seq<byte>)
    requires |s| == 8
    ensures ToHex(FromHex(s)) == s
  {
    Pow2Constants();
    BigEndianOfBeValue(s);
  }

  /** The header bytes hashed for a nonce: the previous hash, the payload
      digest, the nonce and the difficulty, joined without separators. */
  function InitData<P>(pow: ProofOfWork<P>, nonce: Int64, prim: Primitives<P>): seq<byte>
  {
    pow.Block.PrevHash + prim.PayloadDigest(pow.Block.Payload) + ToHex(nonce) + ToHex(Difficulty as Int64)
  }

  /** Each part of the header can be read back from its place: the previous
      hash first, the payload digest next, then the nonce and the difficulty
      as 8 bytes each. */
  lemma InitDataLayout<P>(pow: ProofOfWork<P>, nonce: Int64, prim: Primitives<P>)
    ensures var data, prev, digest := InitData(pow, nonce, prim), pow.Block.PrevHash, prim.PayloadDigest(pow.Block.Payload);
      && |data| == |prev| + |digest| + 16
      && data[..|prev|] == prev
      && data[|prev|..|prev| + |digest|] == digest
      && FromHex(data[|data| - 16..|data| - 8]) == nonce
      && FromHex(data[|data| - 8..]) == Difficulty as Int64
  {
    var data := InitData(pow, nonce, prim);
    assert data[|data| - 16..|data| - 8] == ToHex(nonce);
    assert data[|data| - 8..] == ToHex(Difficulty as Int64);
    ToHexRoundTrip(nonce);
    ToHexRoundTrip(Difficulty as Int64);
  }

  /** Distinct nonces give distinct headers. */
  lemma InitDataInjective<P>(pow: ProofOfWork<P>, n1: Int64, n2: Int64, prim: Primitives<P>)
    requires InitData(pow, n1, prim) == InitData(pow, n2, prim)
    ensures n1 == n2
  {
    InitDataLayout(pow, n1, prim);
    InitDataLayout(pow, n2, prim);
  }

  /** The header reads nothing of the block but its previous hash and its
      payload digest: neither the Hash nor the Nonce field. */
  lemma InitDataReadsHeaderOnly<P>(b1: Block<P>, b2: Block<P>, nonce: Int64, prim: Primitives<P>)
    requires b1.PrevHash == b2.PrevHash
    requires prim.PayloadDigest(b1.Payload) == prim.PayloadDigest(b2.Payload)
    ensures InitData(NewProof(b1), nonce, prim) == InitData(NewProof(b2), nonce, prim)
  {
  }

  /** The digest of the header for a nonce. */
  function HeaderDigest<P>(pow: ProofOfWork<P>, nonce: Int64, prim: Primitives<P>): Digest
  {
    prim.Sha256(InitData(pow, nonce, prim))
  }

  /** The digest for this nonce, read as a big-endian number, is below the target. */
  predicate MeetsTarget<P>(pow: ProofOfWork<P>, nonce: Int64, prim: Primitives<P>)
  {
    BeValue(HeaderDigest(pow, nonce, prim)) < pow.Target
  }

  /** The first k bits of the digest are zero. */
  predicate LeadingZeros(d: Digest, k: nat)
    requires k <= 256
  {
    forall i :: 0 <= i < k ==> Bits(d)[i] == 0
  }

  /** A digest is below the target exactly when its first Difficulty bits are zero. */
  lemma TargetMeansLeadingZeros(d: Digest)
    ensures BeValue(d) < Target() <==> LeadingZeros(d, Difficulty)
  {
    BitsValueOfBits(d);
    LeadingZeroBits(Bits(d), Difficulty);
  }

  /** The same in bytes: the first two bytes are zero and the third is below 64. */
  lemma TargetInBytes(d: Digest)
    ensures BeValue(d) < Target() <==> d[0] == 0 && d[1] == 0 && d[2] < 64
  {
    var hi, lo := d[..3], d[3..];
    assert d == hi + lo;
    BeValueAppend(hi, lo);
    assert hi[..2][..1] == [d[0]] && hi[..2] == [d[0], d[1]];
    assert BeValue([d[0]]) == d[0] as nat;
    var top := BeValue(hi);
    assert top == (d[0] as nat * 256 + d[1] as nat) * 256 + d[2] as nat;
    assert top < 64 <==> d[0] == 0 && d[1] == 0 && d[2] < 64;
    Pow2Add(6, 232);
    assert Pow2(6) == 64 by {
      assert Pow2(3) == 8;
    }
    AtMostShifted(top, 64, Pow2(232), BeValue(lo));
  }

  lemma AtMostShifted(x: nat, c: nat, p: nat, y: nat)
    requires y < p
    ensures x * p + y < c * p <==> x < c
  {
    if x < c {
      assert x * p + y < (x + 1) * p <= c * p;
    } else {
      assert x * p >= c * p;
    }
  }

  /** Validate re-checks the block's stored nonce; with the target NewProof
      sets, it holds exactly when the digest has Difficulty leading zero bits. */
  function Validate<P>(pow: ProofOfWork<P>, prim: Primitives<P>): (ok: bool)
    ensures ok <==> BeValue(HeaderDigest(pow, pow.Block.Nonce, prim)) < pow.Target
    ensures pow.Target == Target() ==>
      (ok <==> LeadingZeros(HeaderDigest(pow, pow.Block.Nonce, prim), Difficulty))
  {
    var hash := prim.Sha256(InitData(pow, pow.Block.Nonce, prim));
    TargetMeansLeadingZeros(hash);
    BeValue(hash) < pow.Target
  }

  /** Validate never looks at the block's Hash field. */
  lemma ValidateIgnoresHash<P>(pow: ProofOfWork<P>, hash: seq<byte>, prim: Primitives<P>)
    ensures Validate(pow.(Block := pow.Block.(Hash := hash)), prim) == Validate(pow, prim)
  {
  }

  /** The nonce search. It tries 0, 1, 2, ... and stops at the first nonce
      whose digest is below the target, returning that nonce and digest. If
      no nonce below MaxInt64 works it returns MaxInt64 with the digest of
      the last nonce tried. */
  method Run<P>(pow: ProofOfWork<P>, prim: Primitives<P>) returns (nonce: Int64, hash: Digest)
    ensures 0 <= nonce
    ensures forall m: Int64 :: 0 <= m < nonce ==> !MeetsTarget(pow, m, prim)
    ensures nonce < MaxInt64 ==> MeetsTarget(pow, nonce, prim) && hash == HeaderDigest(pow, nonce, prim)
    ensures nonce == MaxInt64 ==> hash == HeaderDigest(pow, MaxInt64 - 1, prim)
  {
    hash := seq(32, _ => 0);
    nonce := 0;
    while nonce < MaxInt64
      invariant 0 <= nonce <= MaxInt64
      invariant forall m: Int64 :: 0 <= m < nonce ==> !MeetsTarget(pow, m, prim)
      invariant 0 < nonce ==> hash == HeaderDigest(pow, nonce - 1, prim)
    {
      var data := InitData(pow, nonce, prim);
      hash := prim.Sha256(data);
      if BeValue(hash) < pow.Target {
        break;
      } else {
        nonce := nonce + 1;
      }
    }
  }
}
