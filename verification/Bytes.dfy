/** Machine integers, bytes and the little-endian images that memcpy leaves of them. */
module Bytes {
  const TWO32: int := 0x1_0000_0000
  const TWO63: int := 0x8000_0000_0000_0000
  const TWO64: int := 0x1_0000_0000_0000_0000

  type byte = b: int | 0 <= b < 256
  type uint64 = n: int | 0 <= n < TWO64
  type int64 = n: int | -TWO63 <= n < TWO63

  // The conversion of any integer to uint64_t.
  function Wrap(n: int): uint64 {
    n % TWO64
  }

  // The conversion of a uint64_t to int64_t on a two's complement host.
  function Signed(n: uint64): int64 {
    if n < TWO63 then n else n - TWO64
  }

  function Zeros(n: nat): (s: seq<byte>)
    ensures |s| == n
  {
    seq(n, _ => 0)
  }

  // The low `width` bytes of n, least significant first.
  function LittleEndian(n: nat, width: nat): (s: seq<byte>)
    ensures |s| == width
  {
    if width == 0 then [] else [n % 256] + LittleEndian(n / 256, width - 1)
  }

  function FromLittleEndian(s: seq<byte>): nat {
    if s == [] then 0 else s[0] + 256 * FromLittleEndian(s[1..])
  }

  function Power256(k: nat): (p: nat)
    ensures p > 0
  {
    if k == 0 then 1 else 256 * Power256(k - 1)
  }

  lemma {:induction false} LittleEndianRoundTrip(n: nat, width: nat)
    requires n < Power256(width)
    ensures FromLittleEndian(LittleEndian(n, width)) == n
  {
    if width > 0 {
      LittleEndianRoundTrip(n / 256, width - 1);
      assert LittleEndian(n, width)[1..] == LittleEndian(n / 256, width - 1);
    }
  }

  lemma LittleEndian32RoundTrip(n: nat)
    requires n < TWO32
    ensures FromLittleEndian(LittleEndian(n, 4)) == n
  {
    assert Power256(2) == 65536;
    assert Power256(4) == 256 * (256 * Power256(2));
    LittleEndianRoundTrip(n, 4);
  }

  lemma LittleEndian64RoundTrip(n: uint64)
    ensures FromLittleEndian(LittleEndian(n, 8)) == n
  {
    Power256Of8();
    LittleEndianRoundTrip(n, 8);
  }

  lemma SignedWrap(n: int64)
    ensures Signed(Wrap(n)) == n
  {
    if n < 0 {
      assert Wrap(n) == n + TWO64;
    }
  }

  lemma {:induction false} WrapSigned(n: uint64)
    ensures Wrap(Signed(n)) == n
  {
    WrapUnique(Signed(n), if n < TWO63 then 0 else -1, n);
  }

  lemma WrapUnique(n: int, q: int, r: uint64)
    requires n == q * TWO64 + r
    ensures Wrap(n) == r
  {
  }

  // uint64_t sums may be reduced at any point.
  lemma WrapAdd(a: int, b: int)
    ensures Wrap(Wrap(a) + b) == Wrap(a + b)
  {
    var s := Wrap(a) + b;
    WrapUnique(a + b, a / TWO64 + s / TWO64, s % TWO64);
  }

  lemma {:induction false} WrapSum(a: int, b: int)
    ensures Wrap(Wrap(a) + Wrap(b)) == Wrap(a + b)
  {
    WrapAdd(a, Wrap(b));
    WrapAdd(b, a);
  }

  lemma {:induction false} FromLittleEndianBound(s: seq<byte>)
    ensures FromLittleEndian(s) < Power256(|s|)
  {
    if s != [] {
      FromLittleEndianBound(s[1..]);
    }
  }

  lemma {:induction false} LittleEndianOf(s: seq<byte>)
    ensures LittleEndian(FromLittleEndian(s), |s|) == s
  {
    if s != [] {
      LittleEndianOf(s[1..]);
      assert FromLittleEndian(s) / 256 == FromLittleEndian(s[1..]) && FromLittleEndian(s) % 256 == s[0];
    }
  }

  lemma {:induction false} Power256Of8()
    ensures Power256(8) == TWO64
  {
    assert Power256(2) == 65536;
    assert Power256(4) == 256 * (256 * Power256(2));
    assert Power256(6) == 256 * (256 * Power256(4));
    assert Power256(8) == 256 * (256 * Power256(6));
  }
}
