/** Bytes and UTF-16 code units as bounded integers, and fixed-width big-endian integers. */
module Bytes {
  type Byte = b: int | 0 <= b < 256
  type CodeUnit = c: int | 0 <= c < 0x1_0000

  function Pow256(n: nat): (p: nat)
    ensures p > 0
  {
    if n == 0 then 1 else 256 * Pow256(n - 1)
  }

  /** The unsigned value of a big-endian byte string. */
  function BigEndian(bytes: seq<Byte>): (n: nat)
    ensures n < Pow256(|bytes|)
  {
    if bytes == [] then 0
    else
      var k := |bytes| - 1;
      BigEndian(bytes[..k]) * 256 + bytes[k]
  }

  /** The lowest `width` bytes of `n`, most significant first. */
  function ToBigEndian(n: nat, width: nat): (bytes: seq<Byte>)
    ensures |bytes| == width
  {
    if width == 0 then [] else ToBigEndian(n / 256, width - 1) + [n % 256]
  }

  lemma {:induction false} BigEndianRoundTrip(n: nat, width: nat)
    requires n < Pow256(width)
    ensures BigEndian(ToBigEndian(n, width)) == n
  {
    if width > 0 {
      BigEndianRoundTrip(n / 256, width - 1);
      var bytes := ToBigEndian(n, width);
      assert bytes[..width - 1] == ToBigEndian(n / 256, width - 1);
    }
  }

  /** Two's complement: the signed reading of `width` bytes, and the unsigned form of a signed value. */
  function Signed(n: nat, width: nat): int {
    if 2 * n >= Pow256(width) then n - Pow256(width) else n
  }

  function Unsigned(n: int, width: nat): int {
    if n < 0 then n + Pow256(width) else n
  }

  predicate Fits(n: int, width: nat) {
    -(Pow256(width) as int) <= 2 * n < Pow256(width)
  }

  function SignedBytes(n: int, width: nat): (bytes: seq<Byte>)
    requires Fits(n, width)
    ensures |bytes| == width
  {
    ToBigEndian(Unsigned(n, width), width)
  }

  lemma SignedRoundTrip(n: int, width: nat)
    requires Fits(n, width)
    ensures Signed(BigEndian(SignedBytes(n, width)), width) == n
  {
    BigEndianRoundTrip(Unsigned(n, width), width);
  }

  lemma SmallPowers()
    ensures Pow256(1) == 0x100
    ensures Pow256(2) == 0x1_0000
    ensures Pow256(4) == 0x1_0000_0000
  {
    assert Pow256(1) == 256 * Pow256(0);
    assert Pow256(2) == 256 * Pow256(1);
    assert Pow256(3) == 256 * Pow256(2);
    assert Pow256(4) == 256 * Pow256(3);
  }
}
