/** Byte strings read as big-endian unsigned numbers, the fixed-width
    big-endian encoding, and the bits of a byte string. These stand for
    math/big's SetBytes and encoding/binary's BigEndian writer. */
module Bytes {

  newtype byte = x: int | 0 <= x < 256

  type Bit = x: nat | x < 2

  function Pow2(n: nat): (r: nat)
    ensures r > 0
  {
    if n == 0 then 1 else 2 * Pow2(n - 1)
  }

  lemma {:induction false} Pow2Add(a: nat, b: nat)
    ensures Pow2(a + b) == Pow2(a) * Pow2(b)
  {
    if a > 0 {
      Pow2Add(a - 1, b);
      assert Pow2(a + b) == 2 * Pow2(a - 1 + b);
    }
  }

  lemma {:induction false} Pow2Monotone(a: nat, b: nat)
    requires a <= b
    ensures Pow2(a) <= Pow2(b)
  {
    if a < b {
      Pow2Monotone(a, b - 1);
    }
  }

  lemma Pow2Eight()
    ensures Pow2(8) == 256
  {
    assert Pow2(1) == 2;
    assert Pow2(2) == 4;
    assert Pow2(3) == 8;
    assert Pow2(4) == 16;
    assert Pow2(5) == 32;
    assert Pow2(6) == 64;
    assert Pow2(7) == 128;
  }

  lemma Pow2Double(n: nat, v: nat)
    requires Pow2(n) == v
    ensures Pow2(n + n) == v * v
  {
    Pow2Add(n, n);
  }

  /** The powers of two that the 64-bit integer types and bytes are built on. */
  lemma Pow2Constants()
    ensures Pow2(8) == 256
    ensures Pow2(63) == 0x8000_0000_0000_0000
    ensures Pow2(64) == 0x1_0000_0000_0000_0000
  {
    Pow2Eight();
    Pow2Double(8, 256);
    Pow2Double(16, 0x1_0000);
    Pow2Double(32, 0x1_0000_0000);
    assert Pow2(64) == 2 * Pow2(63);
  }

  lemma Pow2Byte(w: nat)
    requires w > 0
    ensures Pow2(8 * w) == Pow2(8 * (w - 1)) * 256
  {
    Pow2Add(8 * (w - 1), 8);
    Pow2Eight();
  }

  /** The value of a byte string read as a big-endian unsigned integer. */
  function BeValue(s: seq<byte>): (v: nat)
    ensures v < Pow2(8 * |s|)
  {
    if s == [] then 0
    else
      var p := BeValue(s[..|s| - 1]);
      Pow2Byte(|s|);
      assert p * 256 + s[|s| - 1] as nat < (p + 1) * 256;
      assert (p + 1) * 256 <= Pow2(8 * (|s| - 1)) * 256;
      p * 256 + s[|s| - 1] as nat
  }

  /** The w-byte big-endian encoding of u, keeping u's w low-order bytes. */
  function BigEndian(u: nat, w: nat): (s: seq<byte>)
    ensures |s| == w
  {
    if w == 0 then [] else BigEndian(u / 256, w - 1) + [(u % 256) as byte]
  }

  /** Decoding a big-endian encoding wide enough for u gives back u. */
  lemma {:induction false} BeValueOfBigEndian(u: nat, w: nat)
    requires u < Pow2(8 * w)
    ensures BeValue(BigEndian(u, w)) == u
  {
    if w > 0 {
      var s := BigEndian(u, w);
      assert s[..w - 1] == BigEndian(u / 256, w - 1);
      Pow2Byte(w);
      assert u / 256 < Pow2(8 * (w - 1));
      BeValueOfBigEndian(u / 256, w - 1);
    }
  }

  /** Encoding the value of a byte string at its own width gives back the string. */
  lemma {:induction false} BigEndianOfBeValue(s: seq<byte>)
    ensures BigEndian(BeValue(s), |s|) == s
  {
    if s != [] {
      var p := s[..|s| - 1];
      var v := BeValue(s);
      assert v == BeValue(p) * 256 + s[|s| - 1] as nat;
      assert v / 256 == BeValue(p) && v % 256 == s[|s| - 1] as nat;
      BigEndianOfBeValue(p);
      assert s == p + [s[|s| - 1]];
    }
  }

  lemma Regroup(x: nat, p: nat, y: nat, m: nat, c: nat)
    ensures (x * p + y) * m + c == x * (p * m) + (y * m + c)
  {
  }

  /** The value of a concatenation: the first part is shifted by the second's width. */
  lemma {:induction false} BeValueAppend(a: seq<byte>, b: seq<byte>)
    ensures BeValue(a + b) == BeValue(a) * Pow2(8 * |b|) + BeValue(b)
  {
    if b == [] {
      assert a + b == a;
    } else {
      var b' := b[..|b| - 1];
      assert (a + b)[..|a + b| - 1] == a + b';
      BeValueAppend(a, b');
      Pow2Byte(|b|);
      assert BeValue(a + b) == BeValue(a + b') * 256 + b[|b| - 1] as nat;
      Regroup(BeValue(a), Pow2(8 * |b'|), BeValue(b'), 256, b[|b| - 1] as nat);
    }
  }

  /** The w low-order binary digits of x, most significant first. */
  function NatBits(x: nat, w: nat): (bs: seq<Bit>)
    ensures |bs| == w
  {
    if w == 0 then [] else NatBits(x / 2, w - 1) + [x % 2]
  }

  /** The bits of a byte string: the most significant bit of the first byte comes first. */
  function Bits(s: seq<byte>): (bs: seq<Bit>)
    ensures |bs| == 8 * |s|
  {
    if s == [] then [] else Bits(s[..|s| - 1]) + NatBits(s[|s| - 1] as nat, 8)
  }

  /** The value of a bit string, most significant bit first. */
  function BitsValue(bs: seq<Bit>): nat
  {
    if bs == [] then 0 else BitsValue(bs[..|bs| - 1]) * 2 + bs[|bs| - 1]
  }

  lemma {:induction false} BitsValueBound(bs: seq<Bit>)
    ensures BitsValue(bs) < Pow2(|bs|)
  {
    if bs != [] {
      BitsValueBound(bs[..|bs| - 1]);
    }
  }

  lemma {:induction false} BitsValueAppend(a: seq<Bit>, b: seq<Bit>)
    ensures BitsValue(a + b) == BitsValue(a) * Pow2(|b|) + BitsValue(b)
  {
    if b == [] {
      assert a + b == a;
    } else {
      var b' := b[..|b| - 1];
      assert (a + b)[..|a + b| - 1] == a + b';
      BitsValueAppend(a, b');
      assert BitsValue(a + b) == BitsValue(a + b') * 2 + b[|b| - 1];
      Regroup(BitsValue(a), Pow2(|b'|), BitsValue(b'), 2, b[|b| - 1]);
    }
  }

  lemma {:induction false} NatBitsValue(x: nat, w: nat)
    requires x < Pow2(w)
    ensures BitsValue(NatBits(x, w)) == x
  {
    if w > 0 {
      var bs := NatBits(x, w);
      assert bs[..w - 1] == NatBits(x / 2, w - 1);
      assert Pow2(w) == 2 * Pow2(w - 1);
      assert x / 2 < Pow2(w - 1);
      NatBitsValue(x / 2, w - 1);
      assert BitsValue(bs) == BitsValue(NatBits(x / 2, w - 1)) * 2 + x % 2;
    }
  }

  /** Reading the bits of a byte string gives the same number as reading its bytes. */
  lemma {:induction false} BitsValueOfBits(s: seq<byte>)
    ensures BitsValue(Bits(s)) == BeValue(s)
  {
    if s != [] {
      var p := s[..|s| - 1];
      var last := s[|s| - 1] as nat;
      BitsValueOfBits(p);
      BitsValueAppend(Bits(p), NatBits(last, 8));
      Pow2Constants();
      NatBitsValue(last, 8);
    }
  }

  /** A bit string is worth zero exactly when every bit is zero. */
  lemma {:induction false} BitsValueZero(bs: seq<Bit>)
    ensures BitsValue(bs) == 0 <==> forall i :: 0 <= i < |bs| ==> bs[i] == 0
  {
    if bs != [] {
      var p := bs[..|bs| - 1];
      BitsValueZero(p);
      assert forall i :: 0 <= i < |p| ==> p[i] == bs[i];
    }
  }

  lemma AtLeastOneShift(x: nat, p: nat, y: nat)
    requires y < p
    ensures x * p + y < p <==> x == 0
  {
    if x > 0 {
      assert x * p >= p;
    }
  }

  /** A bit string of length n is below 2^(n-k) exactly when its first k bits are zero. */
  lemma LeadingZeroBits(bs: seq<Bit>, k: nat)
    requires k <= |bs|
    ensures BitsValue(bs) < Pow2(|bs| - k) <==> forall i :: 0 <= i < k ==> bs[i] == 0
  {
    var hi, lo := bs[..k], bs[k..];
    assert bs == hi + lo;
    BitsValueAppend(hi, lo);
    BitsValueBound(lo);
    BitsValueZero(hi);
    assert forall i :: 0 <= i < k ==> hi[i] == bs[i];
    AtLeastOneShift(BitsValue(hi), Pow2(|bs| - k), BitsValue(lo));
  }
}
