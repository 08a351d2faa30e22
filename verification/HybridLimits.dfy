/** Hybrid mode with the shipped tables: exactly when the messages determine the report. */
module HybridLimits {
  import opened Bits
  import opened Sequences
  import opened Midi
  import opened Protocol
  import opened Addressing
  import opened BitView
  import opened ByteView
  import opened HybridView
  import opened HybridNotes
  import opened HybridShipped
  import opened HybridAmbiguity

  // ---------- Scripts, one rise at a time ----------

  /** Flipping bit k alone sends no byte message. */
  predicate Silent(s: Settings, k: nat) {
    k == 0 || Weight(k) <= s.deadzone
  }

  lemma Cons(s: Settings, n: nat, zeros: set<(nat, nat)>, x: Rise, rest: seq<Rise>)
    requires Playable(s, n, zeros, x) && WellFormed(rest) && Plays(s, n, zeros - Span(x), rest)
    ensures WellFormed([x] + rest) && Plays(s, n, zeros, [x] + rest)
    ensures After(zeros, [x] + rest) == After(zeros - Span(x), rest)
    ensures Said(s, [x] + rest) == SaidOnce(s, x) + Said(s, rest)
  {
    hide SaidOnce, Span, Loud;
    assert ([x] + rest)[1..] == rest;
  }

  /** The messages of one flip. */
  function SaidOne(s: Settings, i: nat, k: nat): seq<Address> {
    (if Silent(s, k) then [] else [FallbackAddress(s.base, i)]) + [BitAddress(s, i, k)]
  }

  lemma OneSaid(s: Settings, i: nat, k: nat)
    ensures SaidOnce(s, One(i, k)) == SaidOne(s, i, k) && (Loud(s, One(i, k)) <==> !Silent(s, k))
    ensures Span(One(i, k)) == {(i, k)}
  {
    hide BitAddress, FallbackAddress;
    if k > 0 {
      assert Pow2(k) == 2 * Pow2(k - 1);
    }
    assert BitsOn(s, i, k, k) == [];
  }

  /** Bit k of byte i is off, and if its flip is loud, it is the only upper bit of the byte that is off. */
  predicate CanFlip(s: Settings, n: nat, zeros: set<(nat, nat)>, i: nat, k: nat) {
    && i < n && k < 8 && (i, k) in zeros
    && (!Silent(s, k) ==> forall l | 1 <= l < 8 && (i, l) in zeros :: l == k)
  }

  lemma ConsOne(s: Settings, n: nat, zeros: set<(nat, nat)>, i: nat, k: nat, rest: seq<Rise>)
    requires CanFlip(s, n, zeros, i, k)
    requires WellFormed(rest) && Plays(s, n, zeros - {(i, k)}, rest)
    ensures WellFormed([One(i, k)] + rest) && Plays(s, n, zeros, [One(i, k)] + rest)
    ensures After(zeros, [One(i, k)] + rest) == After(zeros - {(i, k)}, rest)
    ensures Said(s, [One(i, k)] + rest) == SaidOne(s, i, k) + Said(s, rest)
  {
    hide SaidOnce, SaidOne, Loud, Plays, After, Said, Silent, Span;
    OneSaid(s, i, k);
    Cons(s, n, zeros, One(i, k), rest);
  }

  lemma Done(s: Settings, n: nat, zeros: set<(nat, nat)>)
    ensures WellFormed([]) && Plays(s, n, zeros, []) && After(zeros, []) == zeros && Said(s, []) == []
  {
  }

  lemma OneFlip(s: Settings, n: nat, zeros: set<(nat, nat)>, i: nat, k: nat)
    requires CanFlip(s, n, zeros, i, k)
    ensures WellFormed([One(i, k)]) && Plays(s, n, zeros, [One(i, k)])
    ensures After(zeros, [One(i, k)]) == zeros - {(i, k)} && Said(s, [One(i, k)]) == SaidOne(s, i, k)
  {
    hide SaidOne, Silent, Plays, After, Said, CanFlip;
    Done(s, n, zeros - {(i, k)});
    ConsOne(s, n, zeros, i, k, []);
    assert [One(i, k)] + [] == [One(i, k)];
  }

  lemma TwoFlips(s: Settings, n: nat, zeros: set<(nat, nat)>, i: nat, k: nat, j: nat, l: nat)
    requires CanFlip(s, n, zeros, i, k) && CanFlip(s, n, zeros - {(i, k)}, j, l)
    ensures var flips := [One(i, k), One(j, l)];
            && WellFormed(flips) && Plays(s, n, zeros, flips) && After(zeros, flips) == zeros - {(i, k)} - {(j, l)}
            && Said(s, flips) == SaidOne(s, i, k) + SaidOne(s, j, l)
  {
    hide SaidOne, Silent, Plays, After, Said, CanFlip;
    OneFlip(s, n, zeros - {(i, k)}, j, l);
    ConsOne(s, n, zeros, i, k, [One(j, l)]);
    assert [One(i, k)] + [One(j, l)] == [One(i, k), One(j, l)];
  }

  lemma ThreeFlips(s: Settings, n: nat, zeros: set<(nat, nat)>, i: nat, k: nat, j: nat, l: nat, g: nat, m: nat)
    requires CanFlip(s, n, zeros, i, k) && CanFlip(s, n, zeros - {(i, k)}, j, l)
    requires CanFlip(s, n, zeros - {(i, k)} - {(j, l)}, g, m)
    ensures var flips := [One(i, k), One(j, l), One(g, m)];
            && WellFormed(flips) && Plays(s, n, zeros, flips)
            && After(zeros, flips) == zeros - {(i, k)} - {(j, l)} - {(g, m)}
            && Said(s, flips) == SaidOne(s, i, k) + (SaidOne(s, j, l) + SaidOne(s, g, m))
  {
    hide SaidOne, Silent, Plays, After, Said, CanFlip;
    TwoFlips(s, n, zeros - {(i, k)}, j, l, g, m);
    ConsOne(s, n, zeros, i, k, [One(j, l), One(g, m)]);
    assert [One(i, k)] + [One(j, l), One(g, m)] == [One(i, k), One(j, l), One(g, m)];
  }

  lemma BitFallsBack(s: Settings, i: nat, k: nat)
    requires ShippedHybrid(s) && k < 8 && ShippedMapped(i, k).None?
    ensures BitAddress(s, i, k) == FallbackAddress(s.base, i * 8 + k)
  {
    hide FallbackAddress, BitAddress;
    ShippedAddress(s, i, k);
  }

  /** The rival's upper bits and the lowest bit after them are on the mapped addresses. */
  lemma RivalOnMapped(s: Settings, k: nat)
    requires ShippedHybrid(s) && 4 <= k <= 8
    ensures var f := Rival(s.base);
            (if k < 8 then BitAddress(s, f, k) else BitAddress(s, f + 1, 0)) == Address(0, 16 + k)
  {
    hide FallbackAddress, BitAddress;
    var index := Rival(s.base) * 8 + k;
    if k < 8 {
      BitFallsBack(s, Rival(s.base), k);
    } else {
      BitFallsBack(s, Rival(s.base) + 1, 0);
    }
    FallbackIsLinear(s.base, index);
    LinearIsInjective(FallbackAddress(s.base, index), Address(0, 16 + k));
  }

  // ---------- A deadzone that splits a loud group ----------

  lemma {:induction false} BitsOnSplit(s: Settings, i: nat, lo: nat, mid: nat, hi: nat)
    requires lo <= mid <= hi
    ensures BitsOn(s, i, lo, hi) == BitsOn(s, i, lo, mid) + BitsOn(s, i, mid, hi)
    decreases hi
  {
    hide BitAddress;
    if mid < hi {
      BitsOnSplit(s, i, lo, mid, hi - 1);
    }
  }

  ghost predicate IsPow2(x: nat) {
    exists j: nat :: Pow2(j) == x
  }

  /** Between two neighbouring powers of two. */
  lemma Between(d: nat) returns (q: nat)
    requires 2 <= d <= 126 && !IsPow2(d + 1)
    ensures 1 <= q <= 6 && Pow2(q) <= d < Pow2(q + 1) - 1
  {
    assert Pow2(1) == 2 && Pow2(2) == 4 && Pow2(3) == 8 && Pow2(4) == 16;
    assert Pow2(5) == 32 && Pow2(6) == 64 && Pow2(7) == 128;
    q := if d < 3 then 1 else if d < 7 then 2 else if d < 15 then 3 else if d < 31 then 4 else if d < 63 then 5 else 6;
  }

  /** If the deadzone plus one is not a power of two, one loud group of byte 0 sends what two silent ones send. */
  lemma SplitGroup(s: Settings, n: nat)
    requires Plain(s) && BitAddress(s, 0, 0) == FallbackAddress(s.base, 0)
    requires n > 0 && 2 <= s.deadzone <= 126 && !IsPow2(s.deadzone + 1)
    ensures !WireDeterminesReport(s, n)
  {
    hide Plain, IsPow2, WireDeterminesReport, BitAddress, FallbackAddress;
    var q := Between(s.deadzone);
    var z := Span(Rise(0, 0, q + 2));
    var x, y1, y2 := Rise(0, 1, q + 2), Rise(0, 0, q + 1), Rise(0, q + 1, q + 2);
    assert Pow2(q + 1) == 2 * Pow2(q) && Pow2(0) == 1;
    assert Gain(1, q + 2) == Pow2(q + 1) - 1 && Gain(0, q + 1) == Pow2(q) - 1 && Gain(q + 1, q + 2) == Pow2(q);
    hide Pow2, Gain;
    Done(s, n, z - Span(x));
    Cons(s, n, z, x, []);
    Done(s, n, z - Span(y1) - Span(y2));
    Cons(s, n, z - Span(y1), y2, []);
    Cons(s, n, z, y1, [y2] + []);
    var a, b := [x] + [], [y1] + ([y2] + []);
    SplitSaid(s, q, x, y1, y2);
    assert Said(s, a) == Said(s, b);
    Ambiguous(s, n, z, a, b, 0, 0);
  }

  lemma SplitSaid(s: Settings, q: nat, x: Rise, y1: Rise, y2: Rise)
    requires x == Rise(0, 1, q + 2) && y1 == Rise(0, 0, q + 1) && y2 == Rise(0, q + 1, q + 2)
    requires Loud(s, x) && !Loud(s, y1) && !Loud(s, y2)
    requires BitAddress(s, 0, 0) == FallbackAddress(s.base, 0)
    ensures SaidOnce(s, x) == SaidOnce(s, y1) + SaidOnce(s, y2)
  {
    hide BitAddress, FallbackAddress, Loud;
    BitsOnSplit(s, 0, 0, 1, q + 2);
    BitsOnSplit(s, 0, 0, q + 1, q + 2);
    assert BitsOn(s, 0, 0, 0) == [];
    assert BitsOn(s, 0, 0, 1) == [BitAddress(s, 0, 0)];
  }

  // ---------- Above the limit ----------

  /** A silent bit of the rival for a silent bit of byte 4. */
  lemma SilentRivals(s: Settings, n: nat)
    requires ShippedHybrid(s) && s.deadzone >= 16 && n > ShippedBitLimit(s.base)
    ensures !WireDeterminesReport(s, n)
  {
    hide WireDeterminesReport, BitAddress, FallbackAddress, Plays, Said, After;
    var f := Rival(s.base);
    var z := {(f, 5), (4, 5)};
    assert Weight(5) == 16;
    RivalOnMapped(s, 5);
    ShippedAddress(s, 4, 5);
    OneFlip(s, n, z, f, 5);
    OneFlip(s, n, z, 4, 5);
    Ambiguous(s, n, z, [One(f, 5)], [One(4, 5)], f, 5);
  }

  /** What the flips below say: a bit on the fallback address of its index, a loud one after its byte's message. */
  lemma SaidOnFallback(s: Settings, i: nat, k: nat, index: nat)
    requires ShippedHybrid(s) && k < 8 && ShippedMapped(i, k).None? && index == i * 8 + k
    ensures SaidOne(s, i, k)
         == if Silent(s, k) then [FallbackAddress(s.base, index)]
            else [FallbackAddress(s.base, i), FallbackAddress(s.base, index)]
  {
    hide FallbackAddress, BitAddress, Silent;
    BitFallsBack(s, i, k);
  }

  /** Bit 1 of byte 4 without a byte message, and bit 7 of the rival with one. */
  lemma SaidLast(s: Settings)
    requires ShippedHybrid(s) && 1 <= s.deadzone < 64
    ensures SaidOne(s, 4, 1) == [Address(0, 23)]
    ensures SaidOne(s, Rival(s.base), 7) == [FallbackAddress(s.base, Rival(s.base)), Address(0, 23)]
    ensures Silent(s, 1) && !Silent(s, 7)
  {
    hide FallbackAddress, BitAddress;
    assert Weight(1) == 1 && Weight(7) == 64;
    ShippedAddress(s, 4, 1);
    RivalOnMapped(s, 7);
  }

  /** The byte whose bit 2 has the address of the rival's messages. */
  function Guide(base: uint8): nat
    requires base < 16
  {
    if base == 0 then 0 else 32 - 2 * base
  }

  lemma RivalFacts(base: uint8, n: nat)
    requires base < 16 && n > ShippedBitLimit(base)
    ensures Rival(base) == Guide(base) * 8 + 2 && Rival(base) < n && 4 < n && Guide(base) < n
    ensures Rival(base) != 4 && Rival(base) > Guide(base) + 1 && Guide(base) <= 30 && Guide(base) % 2 == 0
    ensures (Guide(base) == 4 <==> base == 14) && (Guide(base) == 0 <==> base == 0)
  {
  }

  lemma SilentFromTwo(s: Settings)
    requires s.deadzone >= 2
    ensures Silent(s, 2)
  {
    assert Weight(2) == 2;
  }

  /** Deadzone 2 to 63: bit 2 of the guide and bit 1 of byte 4, both silent, for bit 7 of the rival. */
  lemma SilentGuide(s: Settings, n: nat)
    requires ShippedHybrid(s) && 2 <= s.deadzone < 64 && n > ShippedBitLimit(s.base)
    ensures !WireDeterminesReport(s, n)
  {
    hide WireDeterminesReport, FallbackAddress, BitAddress, Plays, Said, After, SaidOne, Silent;
    hide ShippedBitLimit, Rival, Guide;
    var f, c := Rival(s.base), Guide(s.base);
    RivalFacts(s.base, n);
    SaidLast(s);
    SilentFromTwo(s);
    SaidOnFallback(s, c, 2, f);
    var z := {(c, 2), (4, 1), (f, 7)};
    TwoFlips(s, n, z, c, 2, 4, 1);
    OneFlip(s, n, z, f, 7);
    Ambiguous(s, n, z, [One(c, 2), One(4, 1)], [One(f, 7)], 4, 1);
  }

  /** Deadzone 1: bit 2 of the guide is loud, and the other run has to send the guide's address by other means. */
  lemma LoudGuideFromLowestBit(s: Settings, n: nat)
    requires ShippedHybrid(s) && s.deadzone == 1 && s.base != 14 && n > ShippedBitLimit(s.base)
    requires Guide(s.base) % 8 == 0
    ensures !WireDeterminesReport(s, n)
  {
    hide WireDeterminesReport, FallbackAddress, BitAddress, Plays, Said, After, SaidOne, Silent;
    hide ShippedBitLimit, Rival, Guide;
    var f, c := Rival(s.base), Guide(s.base);
    var e := c / 8;
    RivalFacts(s.base, n);
    SaidLast(s);
    SilentAtOne(s);
    SaidOnFallback(s, c, 2, f);
    SaidOnFallback(s, e, 0, c);
    var z := {(c, 2), (4, 1), (e, 0), (f, 7)};
    TwoFlips(s, n, z, c, 2, 4, 1);
    TwoFlips(s, n, z, e, 0, f, 7);
    Ambiguous(s, n, z, [One(c, 2), One(4, 1)], [One(e, 0), One(f, 7)], 4, 1);
  }

  lemma SilentAtOne(s: Settings)
    requires s.deadzone == 1
    ensures Silent(s, 0) && Silent(s, 1) && forall k | 2 <= k < 8 :: !Silent(s, k)
  {
    assert Pow2(1) == 2;
    forall k | 2 <= k < 8
      ensures !Silent(s, k)
    {
      Pow2Monotone(1, k - 1);
    }
  }

  lemma LoudGuideFromLowBit(s: Settings, n: nat)
    requires ShippedHybrid(s) && s.deadzone == 1 && s.base != 14 && n > ShippedBitLimit(s.base)
    requires Guide(s.base) % 8 != 0 && Guide(s.base) < 16
    ensures !WireDeterminesReport(s, n)
  {
    hide WireDeterminesReport, FallbackAddress, BitAddress, Plays, Said, After, SaidOne, Silent;
    hide ShippedBitLimit, Rival, Guide;
    var f, c := Rival(s.base), Guide(s.base);
    var e, k := c / 8, c % 8;
    RivalFacts(s.base, n);
    SaidLast(s);
    SilentAtOne(s);
    SaidOnFallback(s, c, 2, f);
    SaidOnFallback(s, e, k, c);
    SaidOnFallback(s, 0, e, e);
    var z := {(0, e), (c, 2), (4, 1), (e, k), (f, 7)};
    ThreeFlips(s, n, z, 0, e, c, 2, 4, 1);
    TwoFlips(s, n, z, e, k, f, 7);
    Ambiguous(s, n, z, [One(0, e), One(c, 2), One(4, 1)], [One(e, k), One(f, 7)], 4, 1);
  }

  lemma LoudGuideFromLoudBit(s: Settings, n: nat)
    requires ShippedHybrid(s) && s.deadzone == 1 && s.base != 14 && n > ShippedBitLimit(s.base)
    requires Guide(s.base) % 8 != 0 && Guide(s.base) >= 16
    ensures !WireDeterminesReport(s, n)
  {
    hide WireDeterminesReport, FallbackAddress, BitAddress, Plays, Said, After, SaidOne, Silent;
    hide ShippedBitLimit, Rival, Guide;
    var f, c := Rival(s.base), Guide(s.base);
    var e, k := c / 8, c % 8;
    RivalFacts(s.base, n);
    SaidLast(s);
    SilentAtOne(s);
    SaidOnFallback(s, c, 2, f);
    SaidOnFallback(s, e, k, c);
    SaidOnFallback(s, 0, e, e);
    SaidOnFallback(s, 0, 0, 0);
    var z := {(0, 0), (0, e), (c, 2), (4, 1), (e, k), (f, 7)};
    ThreeFlips(s, n, z, 0, e, c, 2, 4, 1);
    ThreeFlips(s, n, z, 0, 0, e, k, f, 7);
    Ambiguous(s, n, z, [One(0, e), One(c, 2), One(4, 1)], [One(0, 0), One(e, k), One(f, 7)], 4, 1);
  }

  /** Deadzone 0 and a report long enough for bit 3 of byte 7: the lowest bit after the rival has its address. */
  lemma BehindTheRival(s: Settings, n: nat)
    requires ShippedHybrid(s) && s.deadzone == 0 && n > RivalLimit(s.base)
    ensures !WireDeterminesReport(s, n)
  {
    hide WireDeterminesReport, FallbackAddress, BitAddress, Plays, Said, After, SaidOne, Silent;
    var f := Rival(s.base) + 1;
    SilentAtZero(s);
    SaidOnFallback(s, 0, 7, 7);
    SaidOnFallback(s, 0, 0, 0);
    assert SaidOne(s, f, 0) == [Address(0, 24)] && SaidOne(s, 7, 3) == [FallbackAddress(s.base, 7), Address(0, 24)] by {
      RivalOnMapped(s, 8);
      ShippedAddress(s, 7, 3);
      SaidBit(s, f, 0);
      SaidBit(s, 7, 3);
    }
    var z := {(0, 7), (f, 0), (0, 0), (7, 3)};
    hide Rival, RivalLimit;
    TwoFlips(s, n, z, 0, 7, f, 0);
    TwoFlips(s, n, z, 0, 0, 7, 3);
    Ambiguous(s, n, z, [One(0, 7), One(f, 0)], [One(0, 0), One(7, 3)], 7, 3);
  }

  lemma SaidBit(s: Settings, i: nat, k: nat)
    ensures SaidOne(s, i, k)
         == if Silent(s, k) then [BitAddress(s, i, k)] else [FallbackAddress(s.base, i), BitAddress(s, i, k)]
  {
    hide FallbackAddress, BitAddress, Silent;
  }

  lemma SilentAtZero(s: Settings)
    requires s.deadzone == 0
    ensures Silent(s, 0) && forall k | 1 <= k < 8 :: !Silent(s, k)
  {
  }

  /** Base channel 14 and deadzone below 6: the rival is byte 34, whose messages have the address of bit 2 of byte 4. */
  lemma GuideIsByteFour(s: Settings, n: nat)
    requires ShippedHybrid(s) && s.base == 14 && s.deadzone < 6 && n > ShippedBitLimit(s.base)
    ensures !WireDeterminesReport(s, n)
  {
    hide WireDeterminesReport, FallbackAddress, BitAddress, Plays, Said, After, SaidOne, SaidOnce, Silent;
    GuideSays(s);
    var z := {(0, 4), (34, 6), (0, 0), (4, 2), (4, 3)};
    var x := Rise(4, 2, 4);
    TwoFlips(s, n, z, 0, 4, 34, 6);
    assert Pow2(1) == 2 && Pow2(3) == 8 && Gain(2, 4) == 6;
    Done(s, n, z - {(0, 0)} - Span(x));
    Cons(s, n, z - {(0, 0)}, x, []);
    ConsOne(s, n, z, 0, 0, [x] + []);
    Ambiguous(s, n, z, [One(0, 4), One(34, 6)], [One(0, 0)] + ([x] + []), 34, 6);
  }

  lemma GuideSays(s: Settings)
    requires ShippedHybrid(s) && s.base == 14 && s.deadzone < 6
    ensures SaidOne(s, 0, 4) + SaidOne(s, 34, 6) == SaidOne(s, 0, 0) + (SaidOnce(s, Rise(4, 2, 4)) + [])
    ensures !Silent(s, 4) && !Silent(s, 6) && Silent(s, 0)
  {
    hide FallbackAddress, BitAddress;
    assert Weight(4) == 8 && Weight(6) == 32 && Pow2(1) == 2 && Pow2(3) == 8;
    BitFallsBack(s, 0, 4);
    BitFallsBack(s, 0, 0);
    BitFallsBack(s, 4, 2);
    RivalOnMapped(s, 6);
    ShippedAddress(s, 4, 3);
    assert BitsOn(s, 4, 2, 2) == [];
    assert BitsOn(s, 4, 2, 3) == [BitAddress(s, 4, 2)];
    assert BitsOn(s, 4, 2, 4) == [BitAddress(s, 4, 2), BitAddress(s, 4, 3)];
  }

  lemma AboveTheLimit(s: Settings, n: nat)
    requires ShippedHybrid(s) && n > ShippedBitLimit(s.base)
    requires !(s.deadzone == 0 && s.base != 14 && n <= RivalLimit(s.base))
    ensures !WireDeterminesReport(s, n)
  {
    hide WireDeterminesReport;
    if s.deadzone >= 16 {
      SilentRivals(s, n);
    } else if s.deadzone >= 2 {
      SilentGuide(s, n);
    } else if s.base == 14 {
      GuideIsByteFour(s, n);
    } else if s.deadzone == 0 {
      BehindTheRival(s, n);
    } else if Guide(s.base) % 8 == 0 {
      LoudGuideFromLowestBit(s, n);
    } else if Guide(s.base) < 16 {
      LoudGuideFromLowBit(s, n);
    } else {
      LoudGuideFromLoudBit(s, n);
    }
  }

  // ---------- The exact condition ----------

  /** With the shipped tables, baseline and messages of a Hybrid decoder determine the report exactly if there is none;
      or the deadzone plus one is a power of two and the bits have distinct addresses; or there is no deadzone and only
      the rivals share addresses, which the message before them tells apart, except on base channel 14. */
  lemma HybridWireIff(s: Settings, n: nat)
    requires s.mode == HybridMode && s.byteMap == SHIPPED_BYTE_MAP && s.bitMap == SHIPPED_BIT_MAP
    ensures WireDeterminesReport(s, n) <==>
      || n == 0
      || (IsPow2(s.deadzone + 1) && n <= ShippedBitLimit(s.base))
      || (s.deadzone == 0 && s.base != 14 && n <= RivalLimit(s.base))
  {
    hide WireDeterminesReport, FallbackAddress, BitAddress, Plain, IsPow2;
    if n == 0 {
      NothingToDetermine(s);
    } else if !IsPow2(s.deadzone + 1) {
      SmallPowers();
      BitFallsBack(s, 0, 0);
      assert Plain(s) by { ShippedIsPlain(s); }
      SplitGroup(s, n);
    } else if n <= ShippedBitLimit(s.base) || (s.deadzone == 0 && s.base != 14 && n <= RivalLimit(s.base)) {
      var j := Exponent(s.deadzone + 1);
      ShippedHybridDetermines(s, n, j);
    } else {
      AboveTheLimit(s, n);
    }
  }

  lemma NothingToDetermine(s: Settings)
    ensures WireDeterminesReport(s, 0)
  {
    hide Wire, Stream;
    forall a: seq<seq<uint8>>, b: seq<seq<uint8>> | FixedRun(a, 0) && FixedRun(b, 0)
      ensures LastOf(a) == LastOf(b)
    {
      assert LastOf(a) in a && LastOf(b) in b;
    }
  }

  lemma ShippedIsPlain(s: Settings)
    requires ShippedHybrid(s)
    ensures Plain(s)
  {
  }

  lemma SmallPowers()
    ensures IsPow2(1) && IsPow2(2) && IsPow2(128)
  {
    assert Pow2(0) == 1 && Pow2(1) == 2 && Pow2(7) == 128;
  }

  lemma Exponent(x: nat) returns (j: nat)
    requires IsPow2(x)
    ensures Pow2(j) == x
  {
    j :| Pow2(j) == x;
  }

  // ---------- A silent byte view ----------

  lemma {:induction false} NothingLeftOut(es: seq<Event>)
    requires OfView(es, true) == []
    ensures OfView(es, false) == es
  {
    if es != [] {
      NothingLeftOut(es[..|es| - 1]);
      assert es[..|es| - 1] + [es[|es| - 1]] == es;
    }
  }

  lemma HybridIsBitMode(s: Settings, reports: seq<seq<uint8>>)
    requires s.mode == HybridMode && s.byteMap == [] && s.deadzone == 127
    ensures Stream(s, reports) == Stream(InMode(s, BitMode), reports)
  {
    hide Stream, OfView;
    assert InMode(s, HybridMode) == s;
    HybridIsMerge(s, reports);
    SilentAtFullDeadzone(InMode(s, ByteMode), reports);
    NothingLeftOut(Stream(s, reports));
  }

  /** With deadzone 127 and an empty byte table, for any bit table: Hybrid mode is Bit mode, and the messages determine
      the report exactly if the bits have distinct addresses. */
  lemma HybridAtFullDeadzone(s: Settings, n: nat)
    requires s.mode == HybridMode && s.byteMap == [] && s.deadzone == 127
    ensures WireDeterminesReport(s, n) <==> DistinctBits(s, n)
  {
    hide Stream, Wire;
    var b := InMode(s, BitMode);
    assert forall i: nat, k: nat :: BitAddress(s, i, k) == BitAddress(b, i, k);
    assert DistinctBits(s, n) <==> DistinctBits(b, n);
    forall reports: seq<seq<uint8>>
      ensures Stream(s, reports) == Stream(b, reports)
    {
      HybridIsBitMode(s, reports);
    }
    hide DistinctBits, BitAddress;
    WireDeterminesIffDistinct(b, n);
  }
}
