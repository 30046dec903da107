/**
IPv4 addresses as 32-bit numbers, and the prefix arithmetic every table below rests on.

Masks are modelled by the shifts they stand for. With `k = 32 - bits` host bits, `a & mask`
clears the low `k` bits, which is `(a >> k) << k`, and `a | !mask` sets them, which is one
less than the next multiple, `((a >> k) + 1) << k`.
*/
module Ipv4 {

  const ADDRESS_SPACE: nat := 0x1_0000_0000

  type Address = a: nat | a < ADDRESS_SPACE

  type Address6 = a: nat | a < 0x1_0000_0000_0000_0000_0000_0000_0000_0000

  datatype IpAddr = V4(v4: Address) | V6(v6: Address6)

  type Byte = b: nat | b < 256

  function Shr(a: nat, k: nat): (r: nat)
    ensures r <= a
  {
    if k == 0 then a else Shr(a / 2, k - 1)
  }

  function Shl(q: nat, k: nat): (r: nat)
    ensures q <= r
  {
    if k == 0 then q else 2 * Shl(q, k - 1)
  }

  // A shifted-out address lies in the block its leading bits name, and in no other.
  lemma {:induction false} ShrBlock(a: nat, q: nat, k: nat)
    ensures Shr(a, k) == q <==> Shl(q, k) <= a < Shl(q + 1, k)
  {
    if k > 0 { ShrBlock(a / 2, q, k - 1); }
  }

  lemma {:induction false} ShlStrict(p: nat, q: nat, k: nat)
    requires p < q
    ensures Shl(p, k) < Shl(q, k)
  {
    if k > 0 { ShlStrict(p, q, k - 1); }
  }

  lemma {:induction false} ShrCompose(a: nat, j: nat, k: nat)
    ensures Shr(a, j + k) == Shr(Shr(a, j), k)
  {
    if j > 0 { ShrCompose(a / 2, j - 1, k); }
  }

  // The block sizes that name fixed ranges.
  lemma Shl16(q: nat, k: nat)
    ensures Shl(q, k + 16) == 0x1_0000 * Shl(q, k)
  {
    Shl4(q, k);
    Shl4(q, k + 4);
    Shl4(q, k + 8);
    Shl4(q, k + 12);
  }

  lemma Shl4(q: nat, k: nat)
    ensures Shl(q, k + 4) == 16 * Shl(q, k)
  {
    assert Shl(q, k + 2) == 2 * Shl(q, k + 1);
    assert Shl(q, k + 4) == 2 * Shl(q, k + 3);
  }

  lemma ShlSizes(q: nat)
    ensures Shl(q, 16) == 0x1_0000 * q && Shl(q, 20) == 0x10_0000 * q
    ensures Shl(q, 24) == 0x100_0000 * q && Shl(q, 32) == 0x1_0000_0000 * q
  {
    Shl16(q, 0);
    Shl16(q, 16);
    Shl4(q, 16);
    Shl4(q, 20);
  }

  function Masked(a: Address, bits: nat): (r: Address)
    requires bits <= 32
    ensures r <= a
  {
    ShrBlock(a, Shr(a, 32 - bits), 32 - bits);
    Shl(Shr(a, 32 - bits), 32 - bits)
  }

  function LastOf(a: Address, bits: nat): (r: Address)
    requires bits <= 32
    ensures a <= r
  {
    LastInRange(a, bits);
    Shl(Shr(a, 32 - bits) + 1, 32 - bits) - 1
  }

  lemma LastInRange(a: Address, bits: nat)
    requires bits <= 32
    ensures a < Shl(Shr(a, 32 - bits) + 1, 32 - bits) <= ADDRESS_SPACE
  {
    var k := 32 - bits;
    var last := Shl(Shr(a, k) + 1, k) - 1;
    ShrBlock(a, Shr(a, k), k);
    ShrBlock(last, Shr(a, k), k);
    ShrCompose(a, k, bits);
    ShrCompose(last, k, bits);
    WholeSpace(a);
    WholeSpace(last);
  }

  lemma WholeSpace(a: nat)
    ensures Shr(a, 32) == 0 <==> a < ADDRESS_SPACE
  {
    ShrBlock(a, 0, 32);
    ShlSizes(0);
    ShlSizes(1);
  }

  function Pow2(k: nat): (r: nat)
    ensures r > 0
  {
    if k == 0 then 1 else 2 * Pow2(k - 1)
  }

  lemma {:induction false} ShlIsMultiple(q: nat, k: nat)
    ensures Shl(q, k) == q * Pow2(k)
  {
    if k > 0 { ShlIsMultiple(q, k - 1); }
  }

  lemma {:induction false} ShlNext(q: nat, k: nat)
    ensures Shl(q + 1, k) == Shl(q, k) + Pow2(k)
  {
    if k > 0 { ShlNext(q, k - 1); }
  }

  // The block of an address starts at a multiple of its width, which the number of host bits fixes.
  lemma BlockEnds(a: Address, bits: nat) returns (q: nat)
    requires bits <= 32
    ensures Masked(a, bits) == q * Pow2(32 - bits) <= a
    ensures a <= LastOf(a, bits) == Masked(a, bits) + Pow2(32 - bits) - 1
  {
    hide Shl, Shr;
    var k := 32 - bits;
    q := Shr(a, k);
    ShlIsMultiple(q, k);
    ShlNext(q, k);
  }

  /** Same leading `bits` bits. */
  predicate SameBlock(x: Address, y: Address, bits: nat)
    requires bits <= 32
  {
    Masked(x, bits) == Masked(y, bits)
  }

  // Masking two addresses gives the same network exactly when one lies between the first
  // and the last address of the other's block.
  lemma BlockIsInterval(x: Address, y: Address, bits: nat)
    requires bits <= 32
    ensures SameBlock(x, y, bits) <==> Masked(y, bits) <= x <= LastOf(y, bits)
    ensures SameBlock(x, y, bits) <==> Shr(x, 32 - bits) == Shr(y, 32 - bits)
  {
    var k := 32 - bits;
    var p, q := Shr(x, k), Shr(y, k);
    ShrBlock(x, q, k);
    if p < q { ShlStrict(p, q, k); }
    if q < p { ShlStrict(q, p, k); }
  }

  // Masking is idempotent and changes neither end of the block.
  lemma MaskedStays(a: Address, bits: nat)
    requires bits <= 32
    ensures Masked(Masked(a, bits), bits) == Masked(a, bits)
    ensures LastOf(Masked(a, bits), bits) == LastOf(a, bits)
  {
    var k := 32 - bits;
    ShrBlock(a, Shr(a, k), k);
    ShrBlock(Masked(a, bits), Shr(a, k), k);
  }

  // Blocks nest: addresses in one block share every wider block.
  lemma WiderBlock(x: Address, y: Address, bits: nat, wide: nat)
    requires wide <= bits <= 32 && SameBlock(x, y, bits)
    ensures SameBlock(x, y, wide)
  {
    BlockIsInterval(x, y, bits);
    BlockIsInterval(x, y, wide);
    ShrCompose(x, 32 - bits, bits - wide);
    ShrCompose(y, 32 - bits, bits - wide);
  }

  const TEN: Address := 0x0A00_0000
  const ONE_SEVENTY_TWO: Address := 0xAC10_0000
  const ONE_NINETY_TWO: Address := 0xC0A8_0000

  /** A whole range inside one of the three blocks of section 3 of RFC 1918. */
  predicate InOneRfc1918Block(first: Address, last: Address)
  {
    || 0x0A00_0000 <= first <= last <= 0x0AFF_FFFF
    || 0xAC10_0000 <= first <= last <= 0xAC1F_FFFF
    || 0xC0A8_0000 <= first <= last <= 0xC0A8_FFFF
  }

  predicate IsRfc1918(a: Address)
  {
    InOneRfc1918Block(a, a)
  }

  // The program's own test compares masked addresses; it accepts the same addresses.
  lemma Rfc1918ByMasks(a: Address)
    ensures IsRfc1918(a) <==>
            SameBlock(a, TEN, 8) || SameBlock(a, ONE_SEVENTY_TWO, 12) || SameBlock(a, ONE_NINETY_TWO, 16)
  {
    SlashEight(a);
    SlashTwelve(a);
    SlashSixteen(a);
  }

  lemma SlashEight(a: Address)
    ensures SameBlock(a, TEN, 8) <==> 0x0A00_0000 <= a <= 0x0AFF_FFFF
  {
    ShlSizes(10);
    ShlSizes(11);
    NamedBlock(a, 10, 24);
  }

  lemma SlashTwelve(a: Address)
    ensures SameBlock(a, ONE_SEVENTY_TWO, 12) <==> 0xAC10_0000 <= a <= 0xAC1F_FFFF
  {
    ShlSizes(0xAC1);
    ShlSizes(0xAC2);
    NamedBlock(a, 0xAC1, 20);
  }

  lemma SlashSixteen(a: Address)
    ensures SameBlock(a, ONE_NINETY_TWO, 16) <==> 0xC0A8_0000 <= a <= 0xC0A8_FFFF
  {
    ShlSizes(0xC0A8);
    ShlSizes(0xC0A9);
    NamedBlock(a, 0xC0A8, 16);
  }

  lemma FirstOctet(a: Address)
    ensures Shr(a, 24) == a / 0x100_0000
  {
    var q := a / 0x100_0000;
    ShlSizes(q);
    ShlSizes(q + 1);
    ShrBlock(a, q, 24);
  }

  lemma NamedBlock(a: Address, q: nat, k: nat)
    requires k <= 32 && Shl(q, k) < ADDRESS_SPACE
    ensures SameBlock(a, Shl(q, k), 32 - k) <==> Shl(q, k) <= a < Shl(q + 1, k)
    ensures Masked(Shl(q, k), 32 - k) == Shl(q, k)
  {
    ShlStrict(q, q + 1, k);
    ShrBlock(Shl(q, k), q, k);
    BlockIsInterval(a, Shl(q, k), 32 - k);
  }

  /** The four bytes of an address, most significant first. */
  function Octets(a: Address): (r: seq<Byte>)
    ensures |r| == 4
  {
    var high := a / 256;
    var higher := high / 256;
    [higher / 256, higher % 256, high % 256, a % 256]
  }

  function FromOctets(o: seq<Byte>): (a: Address)
    requires |o| == 4
    ensures Octets(a) == o
  {
    AppendByte(AppendByte(AppendByte(o[0], o[1]), o[2]), o[3])
  }

  function AppendByte(high: nat, low: Byte): (r: nat)
    ensures r / 256 == high && r % 256 == low
  {
    high * 256 + low
  }

  lemma OctetsBigEndian(a: Address)
    ensures var o := Octets(a);
            (o[0] as int) * 0x100_0000 + (o[1] as int) * 0x1_0000 + (o[2] as int) * 0x100 + o[3] as int == a
  {
  }

  lemma OctetsRoundTrip(a: Address)
    ensures FromOctets(Octets(a)) == a
  {
  }
}
