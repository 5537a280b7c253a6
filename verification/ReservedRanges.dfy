/** Reserved address ranges (apps/worker/src/security/network.ts). */
module ReservedRanges {
  import opened Common
  import opened Addresses

  function ByteAt(s: Bytes, i: nat): (b: int)
    ensures 0 <= b < 256
  {
    if i < |s| then s[i] else 0
  }

  /** Bit j of a byte, from the most significant one on. */
  function ByteBit(b: int, j: nat): int
    requires j < 8
  {
    b / Pow2(7 - j) % 2
  }

  /** Bit k of a byte string; bytes past its end count as zero. */
  function Bit(s: Bytes, k: nat): int { ByteBit(ByteAt(s, k / 8), k % 8) }

  /** CIDR membership: the first n bits of the address are those of the prefix. */
  ghost predicate InRange(bytes: Bytes, prefix: Bytes, n: nat) {
    forall k :: 0 <= k < n ==> Bit(bytes, k) == Bit(prefix, k)
  }

  /** `hasPrefix`.  Masking off the low 8 - r bits and comparing is comparing quotients; a byte missing
      from the prefix differs from every byte in the loop and counts as zero in the mask. */
  predicate HasPrefix(bytes: Bytes, prefix: Bytes, prefixBits: nat) {
    && prefixBits / 8 <= |bytes| && prefixBits / 8 <= |prefix|
    && (forall i :: 0 <= i < prefixBits / 8 ==> bytes[i] == prefix[i])
    && (prefixBits % 8 == 0 ||
        ByteAt(bytes, prefixBits / 8) / Pow2(8 - prefixBits % 8) == ByteAt(prefix, prefixBits / 8) / Pow2(8 - prefixBits % 8))
  }

  method CheckPrefix(bytes: Bytes, prefix: Bytes, prefixBits: nat) returns (r: bool)
    requires prefixBits / 8 <= |bytes|
    ensures r == HasPrefix(bytes, prefix, prefixBits)
  {
    var fullBytes := prefixBits / 8;
    for index := 0 to fullBytes
      invariant index <= |prefix| && forall i :: 0 <= i < index ==> bytes[i] == prefix[i]
    {
      if index >= |prefix| || bytes[index] != prefix[index] { return false; }
    }
    var remaining := prefixBits % 8;
    if remaining == 0 { return true; }
    return ByteAt(bytes, fullBytes) / Pow2(8 - remaining) == ByteAt(prefix, fullBytes) / Pow2(8 - remaining);
  }

  lemma HalfOfQuotient(x: nat, p: nat)
    requires p > 0
    ensures x / (2 * p) == x / p / 2 && x / p >= 0
  {
    var q, r := x / p, x % p;
    assert x == p * q + r;
    AtLeast(p, -q);
    var h, b := q / 2, q % 2;
    assert p * q == p * (2 * h) + p * b;
    assert x == (2 * p) * h + (p * b + r);
    assert b == 0 || b == 1;
    assert 0 <= p * b + r < 2 * p;
    QuotientUnique(x, 2 * p, h, p * b + r);
  }

  ghost predicate SameTop(x: int, y: int, r: nat)
    requires r <= 8
  {
    forall j :: 0 <= j < r ==> ByteBit(x, j) == ByteBit(y, j)
  }

  /** Two bytes agree on their top r bits exactly when their quotients agree. */
  lemma {:induction false} TopBits(x: nat, y: nat, r: nat)
    requires x < 256 && y < 256 && r <= 8
    ensures SameTop(x, y, r) <==> x / Pow2(8 - r) == y / Pow2(8 - r)
  {
    if r == 0 {
      assert Pow2(8) == 256;
    } else {
      TopBits(x, y, r - 1);
      var p := Pow2(8 - r);
      assert Pow2(8 - (r - 1)) == 2 * p && ByteBit(x, r - 1) == x / p % 2 && ByteBit(y, r - 1) == y / p % 2;
      OneMoreBit(x, y, p);
      hide ByteBit;
      assert SameTop(x, y, r) <==> SameTop(x, y, r - 1) && ByteBit(x, r - 1) == ByteBit(y, r - 1);
    }
  }

  lemma OneMoreBit(x: nat, y: nat, p: nat)
    requires p > 0
    ensures x / p == y / p <==> x / (2 * p) == y / (2 * p) && x / p % 2 == y / p % 2
  {
    HalfOfQuotient(x, p);
    HalfOfQuotient(y, p);
    SameHalf(x / p, y / p);
  }

  lemma SameHalf(a: int, b: int)
    ensures a == b <==> a / 2 == b / 2 && a % 2 == b % 2
  {
  }

  /** The first r bits of byte i agree exactly when the quotients of the byte do. */
  lemma ByteAgrees(bytes: Bytes, prefix: Bytes, i: nat, r: nat)
    requires r <= 8
    ensures (forall k :: 8 * i <= k < 8 * i + r ==> Bit(bytes, k) == Bit(prefix, k)) <==>
            ByteAt(bytes, i) / Pow2(8 - r) == ByteAt(prefix, i) / Pow2(8 - r)
  {
    hide ByteBit, Pow2;
    var x, y := ByteAt(bytes, i), ByteAt(prefix, i);
    TopBits(x, y, r);
    forall k | 8 * i <= k < 8 * i + r
      ensures Bit(bytes, k) == ByteBit(x, k - 8 * i) && Bit(prefix, k) == ByteBit(y, k - 8 * i)
    {
      assert k / 8 == i && k % 8 == k - 8 * i;
    }
    if forall k :: 8 * i <= k < 8 * i + r ==> Bit(bytes, k) == Bit(prefix, k) {
      forall j | 0 <= j < r ensures ByteBit(x, j) == ByteBit(y, j) {
        assert Bit(bytes, 8 * i + j) == Bit(prefix, 8 * i + j);
      }
    }
  }

  /** What `hasPrefix` decides for any prefix: CIDR membership, but never of a range whose written
      prefix has fewer whole bytes than the range has. */
  lemma HasPrefixExact(bytes: Bytes, prefix: Bytes, n: nat)
    requires n / 8 <= |bytes|
    ensures HasPrefix(bytes, prefix, n) <==> n / 8 <= |prefix| && InRange(bytes, prefix, n)
  {
    hide Bit;
    var full, r := n / 8, n % 8;
    ByteAgrees(bytes, prefix, full, r);
    assert Pow2(0) == 1;
    if HasPrefix(bytes, prefix, n) {
      forall k | 0 <= k < n ensures Bit(bytes, k) == Bit(prefix, k) {
        ByteAgrees(bytes, prefix, k / 8, 8);
        assert k / 8 < full || 8 * full <= k < 8 * full + r;
      }
    }
    if n / 8 <= |prefix| && InRange(bytes, prefix, n) {
      forall i | 0 <= i < full ensures bytes[i] == prefix[i] {
        assert forall k :: 8 * i <= k < 8 * i + 8 ==> Bit(bytes, k) == Bit(prefix, k);
        ByteAgrees(bytes, prefix, i, 8);
      }
      assert forall k :: 8 * full <= k < 8 * full + r ==> Bit(bytes, k) == Bit(prefix, k);
    }
  }

  // ---------------------------------------------------------------- the ranges

  /** The reserved IPv4 ranges in CIDR form. */
  ghost predicate ReservedRange4(b: Bytes) {
    || InRange(b, [0], 8) || InRange(b, [10], 8) || InRange(b, [127], 8)
    || InRange(b, [100, 64], 10)
    || InRange(b, [169, 254], 16)
    || InRange(b, [172, 16], 12)
    || InRange(b, [192, 0, 0], 24) || InRange(b, [192, 0, 2], 24) || InRange(b, [192, 88, 99], 24)
    || InRange(b, [192, 168], 16)
    || InRange(b, [198, 18], 15) || InRange(b, [198, 51, 100], 24)
    || InRange(b, [203, 0, 113], 24)
    || InRange(b, [224], 3)
  }

  /** `isReservedIpv4`. */
  predicate IsReservedIpv4(bytes: Bytes)
    requires |bytes| == 4
  {
    var a, b, c := bytes[0], bytes[1], bytes[2];
    || a == 0 || a == 10 || a == 127
    || (a == 100 && b >= 64 && b <= 127)
    || (a == 169 && b == 254)
    || (a == 172 && b >= 16 && b <= 31)
    || (a == 192 && b == 0 && c == 0)
    || (a == 192 && b == 0 && c == 2)
    || (a == 192 && b == 88 && c == 99)
    || (a == 192 && b == 168)
    || (a == 198 && (b == 18 || b == 19))
    || (a == 198 && b == 51 && c == 100)
    || (a == 203 && b == 0 && c == 113)
    || a >= 224
  }

  /** Membership in a range whose prefix ends r bits into its last byte. */
  lemma RangeByBytes(b: Bytes, prefix: Bytes, r: nat, d: nat)
    requires 0 < |prefix| <= |b| && 1 <= r <= 8 && d == Pow2(8 - r)
    ensures InRange(b, prefix, 8 * (|prefix| - 1) + r) <==>
            b[..|prefix| - 1] == prefix[..|prefix| - 1] && b[|prefix| - 1] / d == prefix[|prefix| - 1] / d
  {
    var n := |prefix| - 1;
    hide InRange;
    HasPrefixExact(b, prefix, 8 * n + r);
    assert (forall i :: 0 <= i < n ==> b[i] == prefix[i]) <==> b[..n] == prefix[..n];
    if r == 8 {
      assert d == 1;
      hide Pow2, ByteAt;
      assert (8 * n + r) / 8 == n + 1 && (8 * n + r) % 8 == 0;
      assert (forall i :: 0 <= i < n + 1 ==> b[i] == prefix[i]) <==> (forall i :: 0 <= i < n ==> b[i] == prefix[i]) && b[n] == prefix[n];
    } else {
      hide Pow2;
      assert (8 * n + r) / 8 == n && (8 * n + r) % 8 == r;
    }
  }

  lemma Range8(b: Bytes, x: Byte)
    requires |b| >= 1
    ensures InRange(b, [x], 8) <==> b[0] == x
  {
    RangeByBytes(b, [x], 8, 1);
    assert b[..0] == [x][..0];
  }

  lemma Range16(b: Bytes, x: Byte, y: Byte, r: nat, d: nat)
    requires |b| >= 2 && 1 <= r <= 8 && d == Pow2(8 - r)
    ensures InRange(b, [x, y], 8 + r) <==> b[0] == x && b[1] / d == y / d
  {
    RangeByBytes(b, [x, y], r, d);
    assert b[..1] == [b[0]] && [x, y][..1] == [x];
  }

  lemma Range24(b: Bytes, x: Byte, y: Byte, z: Byte)
    requires |b| >= 3
    ensures InRange(b, [x, y, z], 24) <==> b[0] == x && b[1] == y && b[2] == z
  {
    RangeByBytes(b, [x, y, z], 8, 1);
    assert b[..2] == [b[0], b[1]] && [x, y, z][..2] == [x, y];
  }

  lemma SmallPowers()
    ensures Pow2(0) == 1 && Pow2(1) == 2 && Pow2(4) == 16 && Pow2(5) == 32 && Pow2(6) == 64
  {
  }

  /** The comparisons on octets are exactly the reserved CIDR ranges. */
  lemma ReservedIpv4Exact(b: Bytes)
    requires |b| == 4
    ensures IsReservedIpv4(b) <==> ReservedRange4(b)
  {
    SmallPowers();
    hide InRange, Pow2;
    Range8(b, 0);
    Range8(b, 10);
    Range8(b, 127);
    Range16(b, 100, 64, 2, 64);
    Range16(b, 169, 254, 8, 1);
    Range16(b, 172, 16, 4, 16);
    Range24(b, 192, 0, 0);
    Range24(b, 192, 0, 2);
    Range24(b, 192, 88, 99);
    Range16(b, 192, 168, 8, 1);
    Range16(b, 198, 18, 7, 2);
    Range24(b, 198, 51, 100);
    Range24(b, 203, 0, 113);
    RangeByBytes(b, [224], 3, 32);
    assert b[..0] == [224][..0];
  }

  // ---------------------------------------------------------------- IPv6

  predicate AllZero(s: Bytes) { forall i :: 0 <= i < |s| ==> s[i] == 0 }

  /** `isReservedIpv6`. */
  predicate IsReservedIpv6(b: Bytes)
    requires |b| == 16
  {
    if AllZero(b) then true
    else if AllZero(b[..15]) && b[15] == 1 then true
    else if HasPrefix(b, [0xfc], 7) || HasPrefix(b, [0xfe, 0x80], 10) || HasPrefix(b, [0xff], 8) then true
    else if HasPrefix(b, [0x01, 0x00], 64) then true
    else if HasPrefix(b, [0x20, 0x01, 0x0d, 0xb8], 32) then true
    else if HasPrefix(b, [0x3f, 0xff], 20) || HasPrefix(b, [0x5f, 0x00], 16) then true
    else if HasPrefix(b, MAPPED, 96) then IsReservedIpv4(b[12..16])
    else if HasPrefix(b, NAT64, 96) then IsReservedIpv4(b[12..16])
    else if HasPrefix(b, [0x20, 0x02], 16) then IsReservedIpv4(b[2..6])
    else false
  }

  const MAPPED: Bytes := [0, 0, 0, 0, 0, 0, 0, 0, 0, 0, 0xff, 0xff]
  const NAT64: Bytes := [0x00, 0x64, 0xff, 0x9b, 0, 0, 0, 0, 0, 0, 0, 0]
  const LOOPBACK: Bytes := [0, 0, 0, 0, 0, 0, 0, 0, 0, 0, 0, 0, 0, 0, 0, 1]

  /** The reserved IPv6 ranges in CIDR form, with the IPv4 ranges that are embedded in others; the
      discard-only range 100::/64 is missing. */
  ghost predicate ReservedRange6(b: Bytes)
    requires |b| == 16
  {
    || InRange(b, [], 128) || InRange(b, LOOPBACK, 128)
    || InRange(b, [0xfc], 7) || InRange(b, [0xfe, 0x80], 10) || InRange(b, [0xff], 8)
    || InRange(b, [0x20, 0x01, 0x0d, 0xb8], 32)
    || InRange(b, [0x3f, 0xff], 20) || InRange(b, [0x5f, 0x00], 16)
    || (InRange(b, MAPPED, 96) && ReservedRange4(b[12..16]))
    || (InRange(b, NAT64, 96) && ReservedRange4(b[12..16]))
    || (InRange(b, [0x20, 0x02], 16) && ReservedRange4(b[2..6]))
  }

  /** Missing prefix bytes count as zero for membership. */
  lemma PaddedRange(b: Bytes, prefix: Bytes, zeros: nat, n: nat)
    ensures InRange(b, prefix, n) <==> InRange(b, prefix + seq(zeros, _ => 0), n)
  {
    forall k ensures ByteAt(prefix, k) == ByteAt(prefix + seq(zeros, _ => 0), k) {}
    hide ByteAt, ByteBit;
    forall k: nat ensures Bit(prefix, k) == Bit(prefix + seq(zeros, _ => 0), k) {}
  }

  lemma SingleAddress(b: Bytes, a: Bytes)
    requires |b| == |a| == 16
    ensures InRange(b, a, 128) <==> b == a
  {
    HasPrefixExact(b, a, 128);
  }

  lemma SpecialAddresses(b: Bytes)
    requires |b| == 16
    ensures AllZero(b) <==> InRange(b, [], 128)
    ensures AllZero(b[..15]) && b[15] == 1 <==> InRange(b, LOOPBACK, 128)
  {
    hide InRange;
    PaddedRange(b, [], 16, 128);
    SingleAddress(b, [] + seq(16, _ => 0));
    SingleAddress(b, LOOPBACK);
    assert AllZero(b) <==> b == [] + seq(16, _ => 0);
    assert AllZero(b[..15]) && b[15] == 1 <==> b == LOOPBACK;
  }

  /** The classification is exactly the union of the listed ranges. */
  lemma ReservedIpv6Exact(b: Bytes)
    requires |b| == 16
    ensures IsReservedIpv6(b) <==> ReservedRange6(b)
  {
    hide InRange, IsReservedIpv4, ReservedRange4, Pow2, AllZero;
    SpecialAddresses(b);
    HasPrefixExact(b, [0xfc], 7);
    HasPrefixExact(b, [0xfe, 0x80], 10);
    HasPrefixExact(b, [0xff], 8);
    HasPrefixExact(b, [0x01, 0x00], 64);
    HasPrefixExact(b, [0x20, 0x01, 0x0d, 0xb8], 32);
    HasPrefixExact(b, [0x3f, 0xff], 20);
    HasPrefixExact(b, [0x5f, 0x00], 16);
    HasPrefixExact(b, MAPPED, 96);
    HasPrefixExact(b, NAT64, 96);
    HasPrefixExact(b, [0x20, 0x02], 16);
    ReservedIpv4Exact(b[12..16]);
    ReservedIpv4Exact(b[2..6]);
    assert HasPrefix(b, MAPPED, 96) ==> b[1] == 0;
    assert HasPrefix(b, NAT64, 96) ==> b[1] == 0x64 && b[0] == 0;
    assert HasPrefix(b, [0x20, 0x02], 16) ==> b[0] == 0x20;
  }

  /** The discard-only range 100::/64 is not recognised: its two-byte prefix is shorter than the eight
      whole bytes the test compares. */
  lemma DiscardOnlyMissed(b: Bytes)
    requires |b| == 16 && InRange(b, [0x01, 0x00], 64)
    ensures !HasPrefix(b, [0x01, 0x00], 64) && !IsReservedIpv6(b)
  {
    PaddedRange(b, [0x01, 0x00], 6, 64);
    HasPrefixExact(b, [0x01, 0x00] + seq(6, _ => 0), 64);
    assert b[0] == 0x01;
    SmallPowers();
    assert Pow2(8 - 7) == 2;
  }
}
