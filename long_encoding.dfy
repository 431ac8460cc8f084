/**
 * The byte form of a 64-bit `Long`: `toBytes()` gives the eight bytes of the
 * two's-complement representation, most significant byte first.
 */
module LongEncoding {

  type byte = b: int | 0 <= b < 256

  const TwoTo63: int := 0x8000_0000_0000_0000
  const TwoTo64: int := 0x1_0000_0000_0000_0000

  /** The values a signed 64-bit `Long` can hold. */
  predicate InLongRange(n: int) {
    -TwoTo63 <= n < TwoTo63
  }

  function Pow256(k: nat): (p: nat)
    ensures p >= 1
  {
    if k == 0 then 1 else 256 * Pow256(k - 1)
  }

  /** The low `k` base-256 digits of `u`, most significant first. */
  function BigEndian(u: nat, k: nat): (b: seq<byte>)
    ensures |b| == k
  {
    if k == 0 then [] else BigEndian(u / 256, k - 1) + [u % 256]
  }

  /** The unsigned value of a big-endian byte string. */
  function FromBigEndian(b: seq<byte>): (u: nat)
    ensures u < Pow256(|b|)
  {
    if b == [] then 0 else FromBigEndian(b[..|b| - 1]) * 256 + b[|b| - 1]
  }

  lemma DivBelow(u: nat, p: nat)
    requires u < 256 * p
    ensures u / 256 < p
  {
  }

  lemma {:induction false} BigEndianRoundTrip(u: nat, k: nat)
    requires u < Pow256(k)
    ensures FromBigEndian(BigEndian(u, k)) == u
  {
    if k > 0 {
      var q, r := u / 256, u % 256;
      var b := BigEndian(u, k);
      assert b == BigEndian(q, k - 1) + [r];
      assert b[..k - 1] == BigEndian(q, k - 1);
      DivBelow(u, Pow256(k - 1));
      BigEndianRoundTrip(q, k - 1);
      assert FromBigEndian(b) == q * 256 + r;
    }
  }

  lemma {:induction false} FromBigEndianRoundTrip(b: seq<byte>)
    ensures BigEndian(FromBigEndian(b), |b|) == b
  {
    if b != [] {
      var p := b[..|b| - 1];
      var u := FromBigEndian(b);
      assert u / 256 == FromBigEndian(p) && u % 256 == b[|b| - 1];
      FromBigEndianRoundTrip(p);
      assert b == p + [b[|b| - 1]];
    }
  }

  lemma PowEight()
    ensures Pow256(8) == TwoTo64
  {
  }

  /** `Long.toBytes()`: eight bytes, big-endian, two's complement. */
  function ToBytes(n: int): (b: seq<byte>)
    requires InLongRange(n)
    ensures |b| == 8
  {
    BigEndian(n % TwoTo64, 8)
  }

  /** Reads eight big-endian bytes back as a signed 64-bit value. */
  function FromBytes(b: seq<byte>): (n: int)
    requires |b| == 8
    ensures InLongRange(n)
  {
    PowEight();
    var u := FromBigEndian(b);
    if u >= TwoTo63 then u - TwoTo64 else u
  }

  /** Decoding the eight bytes gives back every signed 64-bit value. */
  lemma ToBytesRoundTrip(n: int)
    requires InLongRange(n)
    ensures FromBytes(ToBytes(n)) == n
  {
    PowEight();
    BigEndianRoundTrip(n % TwoTo64, 8);
  }

  /** Every eight-byte string is the encoding of exactly one value. */
  lemma FromBytesRoundTrip(b: seq<byte>)
    requires |b| == 8
    ensures ToBytes(FromBytes(b)) == b
  {
    PowEight();
    FromBigEndianRoundTrip(b);
    var u := FromBigEndian(b);
    assert FromBytes(b) % TwoTo64 == u;
  }

  /** For a non-negative value the bytes are its plain unsigned base-256 digits, with the sign bit clear. */
  lemma NaturalEncoding(n: int)
    requires 0 <= n < TwoTo63
    ensures FromBigEndian(ToBytes(n)) == n
    ensures ToBytes(n)[0] < 128
  {
    PowEight();
    var b := ToBytes(n);
    assert n % TwoTo64 == n;
    BigEndianRoundTrip(n, 8);
    LeadingByteBound(b);
    assert b[0] as int * 0x100_0000_0000_0000 < 128 * 0x100_0000_0000_0000;
  }

  /** A leading byte of at least 128 puts an eight-byte value at or above 2^63. */
  lemma LeadingByteBound(b: seq<byte>)
    requires |b| == 8
    ensures FromBigEndian(b) >= b[0] as int * 0x100_0000_0000_0000
  {
    assert b[..7][..6] == b[..6];
    assert b[..6][..5] == b[..5];
    assert b[..5][..4] == b[..4];
    assert b[..4][..3] == b[..3];
    assert b[..3][..2] == b[..2];
    assert b[..2][..1] == b[..1];
    assert b[..1][..0] == [];
  }
}
