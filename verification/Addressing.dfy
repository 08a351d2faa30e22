/** When do two bits, or two bytes, of a report share a (channel, controller) address? */
module Addressing {
  import opened Bits
  import opened Sequences
  import opened Midi
  import opened Protocol

  /** Distinct bits of an n-byte report have distinct addresses. */
  ghost predicate DistinctBits(s: Settings, n: nat) {
    forall i: nat, k: nat, j: nat, l: nat | i < n && k < 8 && j < n && l < 8 && (i, k) != (j, l) ::
      BitAddress(s, i, k) != BitAddress(s, j, l)
  }

  /** Distinct unmapped bytes of an n-byte report have distinct addresses. */
  ghost predicate DistinctBytes(base: uint8, n: nat) {
    forall i: nat, j: nat | i < n && j < n && i != j :: FallbackAddress(base, i) != FallbackAddress(base, j)
  }

  /** The address as one number, in the order in which the fallback walks it. */
  function Linear(a: Address): nat {
    a.channel * 128 + a.controller
  }

  /** The 16-bit cast never shows: 2048 divides 65536. */
  lemma CastIsHarmless(base: uint8, index: nat)
    ensures FallbackAddress(base, index) == Address((base + index / 128) % 16, index % 128)
  {
    var wraps, index16 := index / 0x1_0000, index % 0x1_0000;
    SplitIndex(index, wraps, index16);
    ModuloOfSum(base + index16 / 128, 32 * wraps);
  }

  lemma SplitIndex(index: nat, wraps: nat, index16: nat)
    requires index == 0x1_0000 * wraps + index16
    ensures index / 128 == 512 * wraps + index16 / 128 && index % 128 == index16 % 128
  {
  }

  lemma ModuloOfSum(x: nat, k: nat)
    ensures (x + 16 * k) % 16 == x % 16
  {
    assert (x + 16 * k) / 16 == x / 16 + k;
  }

  /** Below index 2048 the fallback walks the 2048 addresses from base * 128 on, wrapping once. */
  lemma FallbackIsLinear(base: uint8, index: nat)
    requires base < 16 && index < 2048
    ensures FallbackAddress(base, index).channel < 16 && FallbackAddress(base, index).controller < 128
    ensures Linear(FallbackAddress(base, index))
         == if base * 128 + index < 2048 then base * 128 + index else base * 128 + index - 2048
  {
    var q := index / 128;
    assert index % 0x1_0000 == index;
    WrapOnce(base + q);
  }

  lemma WrapOnce(x: nat)
    requires x < 32
    ensures x % 16 == if x < 16 then x else x - 16
  {
  }

  lemma LinearIsInjective(a: Address, b: Address)
    requires a.controller < 128 && b.controller < 128 && Linear(a) == Linear(b)
    ensures a == b
  {
  }

  lemma BitAddressInRange(s: Settings, i: nat, k: nat)
    ensures BitAddress(s, i, k).channel < 16 && BitAddress(s, i, k).controller < 128
  {
  }

  /** Byte addresses are distinct exactly up to 2048 bytes. */
  lemma ByteThreshold(base: uint8, n: nat)
    requires base < 16
    ensures DistinctBytes(base, n) <==> n <= 2048
  {
    if n <= 2048 {
      forall i: nat, j: nat | i < n && j < n && i != j
        ensures FallbackAddress(base, i) != FallbackAddress(base, j)
      {
        FallbackPairDistinct(base, i, j);
      }
    } else {
      CastIsHarmless(base, 0);
      CastIsHarmless(base, 2048);
      assert FallbackAddress(base, 0) == FallbackAddress(base, 2048);
    }
  }

  lemma FallbackPairDistinct(base: uint8, x: nat, y: nat)
    requires base < 16 && x < 2048 && y < 2048 && x != y
    ensures FallbackAddress(base, x) != FallbackAddress(base, y)
  {
    hide FallbackAddress;
    FallbackIsLinear(base, x);
    FallbackIsLinear(base, y);
  }

  /** The shipped bit table by cases. */
  lemma ShippedLookup(i: nat, k: nat)
    ensures FindBitMapping(SHIPPED_BIT_MAP, i, k) ==
            if (i, k) == (4, 7) then Some(BitMapEntry(4, 7, 1, 20, false))
            else if (i, k) == (4, 5) then Some(BitMapEntry(4, 5, 1, 21, false))
            else if (i, k) == (4, 3) then Some(BitMapEntry(4, 3, 1, 22, false))
            else if (i, k) == (4, 1) then Some(BitMapEntry(4, 1, 1, 23, false))
            else if (i, k) == (7, 3) then Some(BitMapEntry(7, 3, 1, 24, false))
            else None
  {
    var t := SHIPPED_BIT_MAP;
    assert t[1..][1..] == t[2..] && t[2..][1..] == t[3..] && t[3..][1..] == t[4..] && t[4..][1..] == [];
    assert FindBitMapping(t[4..], i, k) == if (i, k) == (7, 3) then Some(t[4]) else None;
    assert FindBitMapping(t[2..], i, k) == if (i, k) == (4, 3) then Some(t[2]) else if (i, k) == (4, 1) then Some(t[3])
                                           else FindBitMapping(t[4..], i, k);
  }

  /** The number of report bytes up to which the shipped table keeps the bits of a report apart. */
  function ShippedBitLimit(base: uint8): int {
    if base == 0 then 4 else 258 - 16 * base
  }

  /** The linear address of a shipped mapping; the others use the fallback. */
  function ShippedMapped(i: nat, k: nat): Option<nat> {
    if i == 4 && k == 7 then Some(20)
    else if i == 4 && k == 5 then Some(21)
    else if i == 4 && k == 3 then Some(22)
    else if i == 4 && k == 1 then Some(23)
    else if i == 7 && k == 3 then Some(24)
    else None
  }

  /** Mapped bits answer on the linear addresses 20 to 24, the others on the fallback. */
  lemma ShippedAddress(s: Settings, i: nat, k: nat)
    requires s.bitMap == SHIPPED_BIT_MAP && k < 8
    ensures match ShippedMapped(i, k)
            case Some(a) => BitAddress(s, i, k) == Address(0, a)
            case None => BitAddress(s, i, k) == FallbackAddress(s.base, i * 8 + k)
  {
    hide FallbackAddress;
    ShippedLookup(i, k);
  }

  /** Within the limit, no fallback address falls on a mapped one. */
  lemma FallbackAvoidsMapped(base: uint8, n: nat, i: nat, k: nat)
    requires base < 16 && 4 < n <= ShippedBitLimit(base) && i < n && k < 8
    ensures !(20 <= Linear(FallbackAddress(base, i * 8 + k)) <= 24)
  {
    hide FallbackAddress;
    FallbackIsLinear(base, i * 8 + k);
  }

  lemma ShippedPairDistinct(s: Settings, n: nat, i: nat, k: nat, j: nat, l: nat)
    requires s.bitMap == SHIPPED_BIT_MAP && n <= ShippedBitLimit(s.base)
    requires i < n && k < 8 && j < n && l < 8 && (i, k) != (j, l)
    ensures BitAddress(s, i, k) != BitAddress(s, j, l)
  {
    hide BitAddress, FallbackAddress;
    ShippedAddress(s, i, k);
    ShippedAddress(s, j, l);
    if n > 4 {
      FallbackAvoidsMapped(s.base, n, i, k);
      FallbackAvoidsMapped(s.base, n, j, l);
    }
    FallbackPairDistinct(s.base, i * 8 + k, j * 8 + l);
  }

  /** Beyond the limit, the fallback address of some bit is the mapped one of byte 4, bit 7. */
  lemma ShippedCollision(s: Settings, n: nat) returns (i: nat)
    requires s.bitMap == SHIPPED_BIT_MAP && n > ShippedBitLimit(s.base)
    ensures i < n && 4 < n && i != 4 && BitAddress(s, i, 4) == BitAddress(s, 4, 7)
  {
    hide BitAddress, FallbackAddress;
    i := if s.base == 0 then 2 else 258 - 16 * s.base;
    ShippedAddress(s, i, 4);
    ShippedAddress(s, 4, 7);
    FallbackIsLinear(s.base, i * 8 + 4);
    LinearIsInjective(BitAddress(s, i, 4), BitAddress(s, 4, 7));
  }

  /** The README promises a unique controller per bit. With the shipped table that holds exactly up to 4 bytes
      on base channel 0, and up to 258 - 16 * base bytes on the others. */
  lemma ShippedBitThreshold(s: Settings, n: nat)
    requires s.bitMap == SHIPPED_BIT_MAP
    ensures DistinctBits(s, n) <==> n <= ShippedBitLimit(s.base)
  {
    hide BitAddress, ShippedBitLimit;
    if n <= ShippedBitLimit(s.base) {
      forall i: nat, k: nat, j: nat, l: nat | i < n && k < 8 && j < n && l < 8 && (i, k) != (j, l)
        ensures BitAddress(s, i, k) != BitAddress(s, j, l)
      {
        ShippedPairDistinct(s, n, i, k, j, l);
      }
    } else {
      var i := ShippedCollision(s, n);
      assert (i, 4) != (4, 7);
    }
  }
}
