/** Hybrid mode with the shipped tables: up to which report size bytes and bits can be told apart on the wire. */
module HybridShipped {
  import opened Bits
  import opened Sequences
  import opened Midi
  import opened Protocol
  import opened Addressing
  import opened BitView
  import opened HybridNotes
  import opened HybridWire
  import opened HybridReports

  predicate ShippedHybrid(s: Settings) {
    s.mode == HybridMode && s.byteMap == SHIPPED_BYTE_MAP && s.bitMap == SHIPPED_BIT_MAP
  }

  /** The byte whose bits 4 to 7 share the addresses of the mapped bits 7, 5, 3 and 1 of byte 4. */
  function Rival(base: uint8): nat
    requires base < 16
  {
    if base == 0 then 2 else 258 - 16 * base
  }

  /** Up to here those are the only bits that share an address. */
  function RivalLimit(base: uint8): nat
    requires base < 16
  {
    if base == 0 then 7 else 259 - 16 * base
  }

  /** Bit k of the rival shares the address of bit l of byte 4. */
  predicate Rivals(k: nat, l: nat) {
    (k, l) == (4, 7) || (k, l) == (5, 5) || (k, l) == (6, 3) || (k, l) == (7, 1)
  }

  /** The bits with linear addresses 20 to 24. */
  lemma AroundTheMapped(base: uint8, i: nat, k: nat)
    requires base < 16 && i < RivalLimit(base) && k < 8
    ensures var a := Linear(FallbackAddress(base, i * 8 + k));
            && (20 <= a <= 23 ==> i == Rival(base) && k == a - 16)
            && (a == 24 ==> base == 0)
  {
    hide FallbackAddress;
    FallbackIsLinear(base, i * 8 + k);
  }

  lemma OnlyRivalsCollide(s: Settings, i: nat, k: nat, j: nat, l: nat)
    requires ShippedHybrid(s) && i < RivalLimit(s.base) && j < RivalLimit(s.base) && k < 8 && l < 8
    requires (i, k) != (j, l) && BitAddress(s, i, k) == BitAddress(s, j, l)
    ensures (i == Rival(s.base) && j == 4 && Rivals(k, l)) || (j == Rival(s.base) && i == 4 && Rivals(l, k))
  {
    hide FallbackAddress, BitAddress;
    ShippedAddress(s, i, k);
    ShippedAddress(s, j, l);
    AroundTheMapped(s.base, i, k);
    AroundTheMapped(s.base, j, l);
    if ShippedMapped(i, k).None? && ShippedMapped(j, l).None? {
      FallbackPairDistinct(s.base, i * 8 + k, j * 8 + l);
    }
    hide Rival;
  }

  lemma BytesShareWithOwn(s: Settings, c: nat, i: nat, k: nat)
    requires ShippedHybrid(s) && c < RivalLimit(s.base) && i < RivalLimit(s.base) && k < 8
    requires BitAddress(s, i, k) == FallbackAddress(s.base, c)
    ensures i * 8 + k == c
  {
    hide FallbackAddress, BitAddress;
    ShippedAddress(s, i, k);
    FallbackIsLinear(s.base, c);
    FallbackIsLinear(s.base, i * 8 + k);
  }

  lemma ShippedSeparable(s: Settings, n: nat)
    requires ShippedHybrid(s) && n <= RivalLimit(s.base)
    ensures Separable(s, n)
  {
    hide BitAddress, FallbackAddress, DistinctBytes;
    ByteThreshold(s.base, n);
    forall c: nat, i: nat, k: nat | c < n && i < n && k < 8 && BitAddress(s, i, k) == FallbackAddress(s.base, c)
      ensures i * 8 + k == c
    {
      BytesShareWithOwn(s, c, i, k);
    }
  }

  // ---------- Telling bits apart ----------

  lemma BitInRange(s: Settings, ns: seq<Note>, n: nat, q: nat)
    requires AllLocal(s, ns) && Within(ns, n) && q < |ns| && ns[q].event.view.OfBit?
    ensures var e := ns[q].event;
            Local(s, ns, q) && e.index < n && e.view.bit < 8 && e.address == BitAddress(s, e.index, e.view.bit)
  {
    hide Local, BitAddress, FallbackAddress;
    assert ns[q] in ns;
    assert Local(s, ns, q);
    BitNote(s, ns, q);
  }

  lemma TellingIfDistinct(s: Settings, n: nat)
    requires DistinctBits(s, n)
    ensures Telling(s, n)
  {
    hide AllLocal, Within, BitAddress;
    forall ns: seq<Note>, ms: seq<Note> |
      AllLocal(s, ns) && AllLocal(s, ms) && Within(ns, n) && Within(ms, n) && SameOnWire(ns, ms)
      ensures Resolved(ns, ms)
    {
      forall q | 0 <= q < |ns| && ns[q].event.view.OfBit? && ms[q].event.view.OfBit?
        ensures ns[q].event.index == ms[q].event.index && ns[q].event.view == ms[q].event.view
      {
        BitInRange(s, ns, n, q);
        BitInRange(s, ms, n, q);
        var e, f := ns[q].event, ms[q].event;
        if (e.index, e.view.bit) != (f.index, f.view.bit) {
          DistinctPair(s, n, e.index, e.view.bit, f.index, f.view.bit);
        }
      }
    }
  }

  /** Without a deadzone, an upper bit comes right after a lower bit of its byte, or after the message of its byte. */
  lemma BeforeAnUpperBit(s: Settings, ns: seq<Note>, q: nat, c: nat)
    requires s.deadzone == 0 && AllLocal(s, ns) && q < |ns| && IsUpper(ns[q], c)
    ensures q > 0 && ns[q - 1].event.index == c
    ensures match ns[q - 1].event.view
            case OfByte => ns[q - 1].event.address == FallbackAddress(s.base, c)
            case OfBit(k) => k < ns[q].event.view.bit && ns[q - 1].event.address == BitAddress(s, c, k)
  {
    hide BitAddress, FallbackAddress;
    assert Local(s, ns, q);
    assert q > 0 ==> Local(s, ns, q - 1);
    WeightIsPositive(ns[q].event.view.bit);
  }

  /** Possible addresses right before bit k of byte c. */
  predicate Before(s: Settings, c: nat, k: nat, a: Address) {
    a == FallbackAddress(s.base, c) || exists l: nat :: l < k && a == BitAddress(s, c, l)
  }

  /** Except on base channel 14, what comes before a bit of the rival never comes before the bit of byte 4 on the same
      address. */
  lemma BeforeDiffers(s: Settings, k: nat, l: nat, a: Address)
    requires ShippedHybrid(s) && s.base != 14 && Rivals(k, l) && Before(s, Rival(s.base), k, a)
    ensures !Before(s, 4, l, a)
  {
    hide FallbackAddress, BitAddress;
    var f := Rival(s.base);
    FallbackIsLinear(s.base, f);
    FallbackIsLinear(s.base, 4);
    forall x: nat | x < k
      ensures Linear(BitAddress(s, f, x)) == 16 + x
    {
      ShippedAddress(s, f, x);
      FallbackIsLinear(s.base, f * 8 + x);
    }
    forall y: nat | y < l
      ensures match ShippedMapped(4, y)
              case Some(m) => Linear(BitAddress(s, 4, y)) == m
              case None => Linear(BitAddress(s, 4, y)) == s.base * 128 + 32 + y
    {
      ShippedAddress(s, 4, y);
      FallbackIsLinear(s.base, 32 + y);
    }
  }

  lemma TellingRivals(s: Settings, n: nat, ns: seq<Note>, ms: seq<Note>, q: nat)
    requires ShippedHybrid(s) && s.base != 14 && s.deadzone == 0 && n <= RivalLimit(s.base)
    requires AllLocal(s, ns) && AllLocal(s, ms) && Within(ns, n) && Within(ms, n) && SameOnWire(ns, ms)
    requires q < |ns| && ns[q].event.view.OfBit? && ms[q].event.view.OfBit?
    ensures ns[q].event.index == ms[q].event.index && ns[q].event.view == ms[q].event.view
  {
    hide AllLocal, Within, Local, BitAddress, FallbackAddress;
    BitInRange(s, ns, n, q);
    BitInRange(s, ms, n, q);
    var e, f := ns[q].event, ms[q].event;
    if (e.index, e.view.bit) != (f.index, f.view.bit) {
      OnlyRivalsCollide(s, e.index, e.view.bit, f.index, f.view.bit);
      BeforeAnUpperBit(s, ns, q, e.index);
      BeforeAnUpperBit(s, ms, q, f.index);
      var a := ns[q - 1].event.address;
      assert Before(s, e.index, e.view.bit, a) && Before(s, f.index, f.view.bit, a);
      if f.index == 4 && Rivals(e.view.bit, f.view.bit) && e.index == Rival(s.base) {
        BeforeDiffers(s, e.view.bit, f.view.bit, a);
      } else {
        BeforeDiffers(s, f.view.bit, e.view.bit, a);
      }
    }
  }

  lemma TellingWithoutDeadzone(s: Settings, n: nat)
    requires ShippedHybrid(s) && s.base != 14 && s.deadzone == 0 && n <= RivalLimit(s.base)
    ensures Telling(s, n)
  {
    hide AllLocal, Within;
    forall ns: seq<Note>, ms: seq<Note> |
      AllLocal(s, ns) && AllLocal(s, ms) && Within(ns, n) && Within(ms, n) && SameOnWire(ns, ms)
      ensures Resolved(ns, ms)
    {
      forall q | 0 <= q < |ns| && ns[q].event.view.OfBit? && ms[q].event.view.OfBit?
        ensures ns[q].event.index == ms[q].event.index && ns[q].event.view == ms[q].event.view
      {
        TellingRivals(s, n, ns, ms, q);
      }
    }
  }

  /** The positive half: when baseline and messages do determine the report. */
  lemma ShippedHybridDetermines(s: Settings, n: nat, j: nat)
    requires ShippedHybrid(s) && s.deadzone + 1 == Pow2(j)
    requires n <= ShippedBitLimit(s.base) || (s.deadzone == 0 && s.base != 14 && n <= RivalLimit(s.base))
    ensures WireDeterminesReport(s, n)
  {
    hide Separable, Telling, WireDeterminesReport, Pow2, DistinctBits;
    ShippedSeparable(s, n);
    if n <= ShippedBitLimit(s.base) {
      ShippedBitThreshold(s, n);
      TellingIfDistinct(s, n);
    } else {
      TellingWithoutDeadzone(s, n);
    }
    HybridDetermines(s, n, j);
  }
}
