/** Bit mode over whole runs: what a listener who hears only (channel, controller, value) knows of the device. */
module BitView {
  import opened Bits
  import opened Sequences
  import opened Midi
  import opened Protocol
  import opened Addressing

  // ---------- The listener ----------

  /** A listener's belief about bit k of byte i after one more message. */
  function Hear(s: Settings, i: nat, k: nat, held: bool, m: MidiMessage): bool {
    match ParseCc(m)
    case Some(cc) => if cc.address == BitAddress(s, i, k) then (cc.value == 127) != Inverted(s, i, k) else held
    case None => held
  }

  function Believe(s: Settings, i: nat, k: nat, held: bool, wire: seq<MidiMessage>): bool {
    if wire == [] then held
    else Hear(s, i, k, Believe(s, i, k, held, wire[..|wire| - 1]), wire[|wire| - 1])
  }

  lemma {:induction false} BelieveAppend(s: Settings, i: nat, k: nat, held: bool,
                                         a: seq<MidiMessage>, b: seq<MidiMessage>)
    ensures Believe(s, i, k, held, a + b) == Believe(s, i, k, Believe(s, i, k, held, a), b)
    decreases |b|
  {
    if b == [] {
      assert a + b == a;
    } else {
      assert (a + b)[..|a + b| - 1] == a + b[..|b| - 1];
      BelieveAppend(s, i, k, held, a, b[..|b| - 1]);
    }
  }

  lemma BelieveNothing(s: Settings, i: nat, k: nat, held: bool)
    ensures Believe(s, i, k, held, Wire([])) == held
  {
  }

  /** One more event moves the belief about its own address only. */
  lemma BelieveOneMore(s: Settings, i: nat, k: nat, held: bool, es: seq<Event>, e: Event)
    requires e.address.channel < 16 && e.address.controller < 128 && e.value < 128
    ensures Believe(s, i, k, held, Wire(es + [e]))
         == if e.address == BitAddress(s, i, k) then (e.value == 127) != Inverted(s, i, k)
            else Believe(s, i, k, held, Wire(es))
  {
    hide BitAddress, Inverted;
    var w := Wire(es + [e]);
    assert w[..|w| - 1] == Wire(es) && w[|w| - 1] == MessageOf(e);
    assert ParseCc(MessageOf(e)) == Some(ControlChange(e.address, e.value));
  }

  lemma {:induction false} BelieveBitEvents(s: Settings, i: nat, k: nat, held: bool,
                                            at: nat, prev: uint8, cur: uint8, n: nat, size: nat)
    requires HasBitView(s.mode) && DistinctBits(s, size) && i < size && k < 8 && at < size && n <= 8
    ensures Believe(s, i, k, held, Wire(BitEvents(s, at, prev, cur, n)))
         == if at == i && k < n && Bit(prev, k) != Bit(cur, k) then Bit(cur, k) else held
  {
    hide BitAddress, Inverted, Bit, Wire, Believe, DistinctBits;
    if n == 0 {
      BelieveNothing(s, i, k, held);
    } else {
      BelieveBitEvents(s, i, k, held, at, prev, cur, n - 1, size);
      if Bit(prev, n - 1) != Bit(cur, n - 1) {
        BitAddressInRange(s, at, n - 1);
        BelieveOneMore(s, i, k, held, BitEvents(s, at, prev, cur, n - 1), BitEvent(s, at, n - 1, Bit(cur, n - 1)));
        if (at, n - 1) != (i, k) {
          DistinctPair(s, size, i, k, at, n - 1);
        }
      }
    }
  }

  lemma DistinctPair(s: Settings, size: nat, i: nat, k: nat, j: nat, l: nat)
    requires DistinctBits(s, size) && i < size && k < 8 && j < size && l < 8 && (i, k) != (j, l)
    ensures BitAddress(s, i, k) != BitAddress(s, j, l)
  {
  }

  lemma NoByteEventsInBitMode(s: Settings, i: nat, prev: uint8, cur: uint8)
    requires s.mode == BitMode
    ensures ByteEvents(s, i, prev, cur) == [] && Wire([]) == []
  {
  }

  lemma BitModeWireStep(s: Settings, prev: seq<uint8>, cur: seq<uint8>, i: nat)
    requires s.mode == BitMode && i < |prev| && i < |cur|
    ensures Wire(DiffUpTo(s, prev, cur, i + 1))
         == Wire(DiffUpTo(s, prev, cur, i)) + Wire(BitEvents(s, i, prev[i], cur[i], 8))
  {
    hide DiffUpTo, BitEvents, ByteEvents, MessageOf;
    WireDiffStep(s, prev, cur, i);
    NoByteEventsInBitMode(s, i, prev[i], cur[i]);
  }

  lemma {:induction false} BelieveDiff(s: Settings, i: nat, k: nat,
                                       prev: seq<uint8>, cur: seq<uint8>, n: nat, size: nat)
    requires s.mode == BitMode && DistinctBits(s, size) && k < 8
    requires i < |prev| <= size && i < |cur| <= size && n <= |prev| && n <= |cur|
    ensures Believe(s, i, k, Bit(prev[i], k), Wire(DiffUpTo(s, prev, cur, n)))
         == Bit(if i < n then cur[i] else prev[i], k)
  {
    hide DiffUpTo, BitEvents, Wire, Believe, Bit, DistinctBits;
    var start := Bit(prev[i], k);
    if n == 0 {
      DiffStep(s, prev, cur, 0);
      BelieveNothing(s, i, k, start);
    } else {
      var before := Wire(DiffUpTo(s, prev, cur, n - 1));
      BelieveDiff(s, i, k, prev, cur, n - 1, size);
      BitModeWireStep(s, prev, cur, n - 1);
      BelieveAppend(s, i, k, start, before, Wire(BitEvents(s, n - 1, prev[n - 1], cur[n - 1], 8)));
      BelieveBitEvents(s, i, k, Believe(s, i, k, start, before), n - 1, prev[n - 1], cur[n - 1], 8, size);
    }
  }

  /** Reconstruction: a listener who starts from the first report and applies the messages in order holds the
      last report, on every byte that all reports have, if no two bits of the longest report share an address. */
  lemma {:induction false} Reconstruction(s: Settings, reports: seq<seq<uint8>>, i: nat, k: nat, size: nat)
    requires s.mode == BitMode && DistinctBits(s, size) && k < 8 && reports != []
    requires forall r | r in reports :: i < |r| <= size
    ensures Believe(s, i, k, Bit(reports[0][i], k), Wire(Stream(s, reports))) == Bit(LastOf(reports)[i], k)
  {
    var n := |reports|;
    if n > 1 {
      hide Believe, Stream, Bit, DistinctBits;
      var init, prev, cur := reports[..n - 1], reports[n - 2], reports[n - 1];
      StreamStep(s, reports);
      Reconstruction(s, init, i, k, size);
      WireAppend(Stream(s, init), Diff(s, prev, cur));
      BelieveAppend(s, i, k, Bit(reports[0][i], k), Wire(Stream(s, init)), Wire(Diff(s, prev, cur)));
      BelieveDiff(s, i, k, prev, cur, Min(|prev|, |cur|), size);
    }
  }

  // ---------- The wire determines the report exactly when the addresses are distinct ----------

  ghost predicate FixedRun(reports: seq<seq<uint8>>, n: nat) {
    reports != [] && forall r | r in reports :: |r| == n
  }

  /** Runs of n-byte reports with the same baseline and the same messages end in the same report. */
  ghost predicate WireDeterminesReport(s: Settings, n: nat) {
    forall a, b | FixedRun(a, n) && FixedRun(b, n) && a[0] == b[0] && Wire(Stream(s, a)) == Wire(Stream(s, b)) ::
      LastOf(a) == LastOf(b)
  }

  lemma DistinctImpliesDetermined(s: Settings, n: nat)
    requires s.mode == BitMode && DistinctBits(s, n)
    ensures WireDeterminesReport(s, n)
  {
    forall a, b | FixedRun(a, n) && FixedRun(b, n) && a[0] == b[0] && Wire(Stream(s, a)) == Wire(Stream(s, b))
      ensures LastOf(a) == LastOf(b)
    {
      var x, y := LastOf(a), LastOf(b);
      assert x in a && y in b;
      forall i | 0 <= i < n
        ensures x[i] == y[i]
      {
        forall k | 0 <= k < 8
          ensures Bit(x[i], k) == Bit(y[i], k)
        {
          Reconstruction(s, a, i, k, n);
          Reconstruction(s, b, i, k, n);
        }
        BytesEqualIfBitsEqual(x[i], y[i]);
      }
    }
  }

  function Flip(r: seq<uint8>, i: nat, k: nat): (f: seq<uint8>)
    requires i < |r| && k < 8
    ensures |f| == |r|
  {
    r[i := FlipBit(r[i], k)]
  }

  lemma {:induction false} FlipBitEvents(s: Settings, i: nat, b: uint8, k: nat, n: nat)
    requires HasBitView(s.mode) && k < 8 && n <= 8
    ensures BitEvents(s, i, b, FlipBit(b, k), n) == if k < n then [BitEvent(s, i, k, !Bit(b, k))] else []
  {
    if n > 0 {
      FlipBitEvents(s, i, b, k, n - 1);
      BitOfFlipBit(b, k, n - 1);
    }
  }

  /** In Bit mode a single flipped bit is a single message. */
  lemma {:induction false} FlipDiff(s: Settings, r: seq<uint8>, i: nat, k: nat, n: nat)
    requires s.mode == BitMode && i < |r| && k < 8 && n <= |r|
    ensures DiffUpTo(s, r, Flip(r, i, k), n) == if i < n then [BitEvent(s, i, k, !Bit(r[i], k))] else []
  {
    hide DiffUpTo, PairEvents, Flip, BitEvent, Bit;
    PairStep(s, r, Flip(r, i, k), n);
    if n > 0 {
      FlipDiff(s, r, i, k, n - 1);
      FlipPair(s, r, i, k, n - 1);
    }
  }

  lemma FlipPair(s: Settings, r: seq<uint8>, i: nat, k: nat, j: nat)
    requires s.mode == BitMode && i < |r| && k < 8 && j < |r|
    ensures PairEvents(s, j, r[j], Flip(r, i, k)[j]) == if j == i then [BitEvent(s, i, k, !Bit(r[i], k))] else []
  {
    hide BitEvents, ByteEvents, BitEvent, FlipBit, Bit;
    NoByteEventsInBitMode(s, j, r[j], Flip(r, i, k)[j]);
    if j == i {
      FlipBitEvents(s, i, r[i], k, 8);
    } else {
      NoBitEventsIfEqual(s, j, r[j], 8);
    }
  }

  /** Two reports that differ in one bit; the messages of the step between them. */
  lemma FlipRun(s: Settings, r: seq<uint8>, i: nat, k: nat)
    requires s.mode == BitMode && i < |r| && k < 8
    ensures Stream(s, [r, Flip(r, i, k)]) == [BitEvent(s, i, k, !Bit(r[i], k))]
  {
    var run := [r, Flip(r, i, k)];
    assert run[..1] == [r];
    FlipDiff(s, r, i, k, |r|);
  }

  /** A baseline in which flipping either of two bits sends the value 127. */
  lemma BalancedBaseline(s: Settings, n: nat, i: nat, k: nat, j: nat, l: nat) returns (r: seq<uint8>)
    requires i < n && k < 8 && j < n && l < 8 && (i, k) != (j, l)
    ensures |r| == n && Bit(r[i], k) == Inverted(s, i, k) && Bit(r[j], l) == Inverted(s, j, l)
  {
    hide Bit, FlipBit, Inverted;
    var zero: seq<uint8> := seq(n, _ => 0);
    BitOfZero(k);
    BitOfZero(l);
    var one := if Inverted(s, i, k) then Flip(zero, i, k) else zero;
    BitOfFlipBit(0, k, k);
    BitOfFlipBit(0, k, l);
    r := if Inverted(s, j, l) then Flip(one, j, l) else one;
    BitOfFlipBit(one[j], l, l);
    BitOfFlipBit(one[j], l, k);
  }

  lemma CollisionImpliesUndetermined(s: Settings, n: nat, i: nat, k: nat, j: nat, l: nat)
    requires s.mode == BitMode
    requires i < n && k < 8 && j < n && l < 8 && (i, k) != (j, l) && BitAddress(s, i, k) == BitAddress(s, j, l)
    ensures !WireDeterminesReport(s, n)
  {
    hide Bit, FlipBit, Inverted, BitAddress, Stream;
    var r := BalancedBaseline(s, n, i, k, j, l);
    FlipRun(s, r, i, k);
    FlipRun(s, r, j, l);
    var a, b := [r, Flip(r, i, k)], [r, Flip(r, j, l)];
    assert Wire(Stream(s, a)) == Wire(Stream(s, b));
    assert FixedRun(a, n) && FixedRun(b, n);
    BitOfFlipBit(r[i], k, k);
    BitOfFlipBit(r[j], l, k);
    assert LastOf(a)[i] != LastOf(b)[i];
  }

  /** The messages determine the final report exactly when no two bits share an address. */
  lemma WireDeterminesIffDistinct(s: Settings, n: nat)
    requires s.mode == BitMode
    ensures WireDeterminesReport(s, n) <==> DistinctBits(s, n)
  {
    if DistinctBits(s, n) {
      DistinctImpliesDetermined(s, n);
    } else {
      var i: nat, k: nat, j: nat, l: nat :| i < n && k < 8 && j < n && l < 8 && (i, k) != (j, l)
        && BitAddress(s, i, k) == BitAddress(s, j, l);
      CollisionImpliesUndetermined(s, n, i, k, j, l);
    }
  }

  /** For the shipped table: exactly the reports of at most ShippedBitLimit(base) bytes can be followed. */
  lemma ShippedWireDetermines(s: Settings, n: nat)
    requires s.mode == BitMode && s.bitMap == SHIPPED_BIT_MAP
    ensures WireDeterminesReport(s, n) <==> n <= ShippedBitLimit(s.base)
  {
    WireDeterminesIffDistinct(s, n);
    ShippedBitThreshold(s, n);
  }

  // ---------- Alternation ----------

  /** The values sent for one bit (or for the byte view) of byte i, in order. */
  function ValuesAt(es: seq<Event>, i: nat, v: View): seq<nat> {
    if es == [] then []
    else
      var rest, e := ValuesAt(es[..|es| - 1], i, v), es[|es| - 1];
      if e.index == i && e.view == v then rest + [e.value] else rest
  }

  lemma {:induction false} ValuesAtAppend(a: seq<Event>, b: seq<Event>, i: nat, v: View)
    ensures ValuesAt(a + b, i, v) == ValuesAt(a, i, v) + ValuesAt(b, i, v)
    decreases |b|
  {
    if b == [] {
      assert a + b == a;
    } else {
      assert (a + b)[..|a + b| - 1] == a + b[..|b| - 1];
      ValuesAtAppend(a, b[..|b| - 1], i, v);
    }
  }

  lemma {:induction false} ValuesAtBitEvents(s: Settings, i: nat, k: nat, at: nat, prev: uint8, cur: uint8, n: nat)
    requires HasBitView(s.mode)
    ensures ValuesAt(BitEvents(s, at, prev, cur, n), i, OfBit(k))
         == if at == i && k < n && Bit(prev, k) != Bit(cur, k) then [OnOff(Inverted(s, i, k) != Bit(cur, k))] else []
  {
    hide BitEvents, BitEvent, Bit, Inverted, OnOff, ValuesAt;
    BitEventsStep(s, at, prev, cur, n);
    if n == 0 {
      ValuesAtNothing(i, OfBit(k));
    } else {
      ValuesAtBitEvents(s, i, k, at, prev, cur, n - 1);
      var e := BitEvent(s, at, n - 1, Bit(cur, n - 1));
      ValuesAtSnoc(BitEvents(s, at, prev, cur, n - 1), e, i, OfBit(k));
      BitEventFields(s, at, n - 1, Bit(cur, n - 1));
    }
  }

  lemma ValuesAtNothing(i: nat, v: View)
    ensures ValuesAt([], i, v) == []
  {
  }

  lemma ValuesAtSnoc(es: seq<Event>, e: Event, i: nat, v: View)
    ensures ValuesAt(es + [e], i, v)
         == if e.index == i && e.view == v then ValuesAt(es, i, v) + [e.value] else ValuesAt(es, i, v)
  {
    assert (es + [e])[..|es|] == es;
  }

  lemma BitEventFields(s: Settings, i: nat, k: nat, on: bool)
    ensures var e := BitEvent(s, i, k, on);
            e.index == i && e.view == OfBit(k) && e.address == BitAddress(s, i, k)
              && e.value == OnOff(Inverted(s, i, k) != on)
  {
  }

  lemma ByteValuesElsewhere(s: Settings, at: nat, prev: uint8, cur: uint8, i: nat, k: nat)
    ensures ValuesAt(ByteEvents(s, at, prev, cur), i, OfBit(k)) == []
  {
  }

  lemma {:induction false} BitValuesOfDiff(s: Settings, i: nat, k: nat, prev: seq<uint8>, cur: seq<uint8>, n: nat)
    requires HasBitView(s.mode) && k < 8 && n <= |prev| && n <= |cur|
    ensures ValuesAt(DiffUpTo(s, prev, cur, n), i, OfBit(k))
         == if i < n && Bit(prev[i], k) != Bit(cur[i], k) then [OnOff(Inverted(s, i, k) != Bit(cur[i], k))] else []
  {
    hide DiffUpTo, BitEvents, ByteEvents, Inverted, Bit, OnOff;
    DiffStep(s, prev, cur, n);
    if n > 0 {
      var v, p, c := OfBit(k), prev[n - 1], cur[n - 1];
      BitValuesOfDiff(s, i, k, prev, cur, n - 1);
      ByteValuesElsewhere(s, n - 1, p, c, i, k);
      ValuesAtBitEvents(s, i, k, n - 1, p, c, 8);
      hide ValuesAt;
      ValuesAtAppend(DiffUpTo(s, prev, cur, n - 1), ByteEvents(s, n - 1, p, c), i, v);
      ValuesAtAppend(DiffUpTo(s, prev, cur, n - 1) + ByteEvents(s, n - 1, p, c), BitEvents(s, n - 1, p, c, 8), i, v);
    }
  }

  /** `vs` alternates, starting with the opposite of `first` and ending on `last`. */
  ghost predicate Alternates(vs: seq<nat>, inverted: bool, first: bool, last: bool) {
    && (forall j | 0 <= j < |vs| :: vs[j] == OnOff(inverted != (first == (j % 2 == 1))))
    && last == (first == (|vs| % 2 == 0))
  }

  lemma AlternatesAtStart(inverted: bool, first: bool, i: nat, v: View)
    ensures Alternates(ValuesAt([], i, v), inverted, first, first)
  {
  }

  lemma AlternatesStep(vs: seq<nat>, inverted: bool, first: bool, prev: bool, cur: bool)
    requires Alternates(vs, inverted, first, prev)
    ensures Alternates(vs + if prev != cur then [OnOff(inverted != cur)] else [], inverted, first, cur)
  {
  }

  /** Strict alternation: for a bit that every report has, the values sent alternate between 127 and 0. The first
      is the opposite of the baseline bit, and the last agrees with the last report; an inverted mapping turns
      both around. Any mapping table, any mode with a bit view, colliding addresses or not. */
  lemma {:induction false} Alternation(s: Settings, reports: seq<seq<uint8>>, i: nat, k: nat)
    requires HasBitView(s.mode) && k < 8 && reports != []
    requires forall r | r in reports :: i < |r|
    ensures Alternates(ValuesAt(Stream(s, reports), i, OfBit(k)), Inverted(s, i, k),
                       Bit(reports[0][i], k), Bit(LastOf(reports)[i], k))
  {
    hide Stream, DiffUpTo, Inverted, Bit, OnOff, Alternates, ValuesAt;
    var n := |reports|;
    var inverted, first, v := Inverted(s, i, k), Bit(reports[0][i], k), OfBit(k);
    if n == 1 {
      StreamOfOne(s, reports);
      AlternatesAtStart(inverted, first, i, v);
    } else {
      var init, prev, cur := reports[..n - 1], reports[n - 2], reports[n - 1];
      StreamStep(s, reports);
      Alternation(s, init, i, k);
      ValuesAtAppend(Stream(s, init), Diff(s, prev, cur), i, v);
      BitValuesOfDiff(s, i, k, prev, cur, Min(|prev|, |cur|));
      AlternatesStep(ValuesAt(Stream(s, init), i, v), inverted, first, Bit(prev[i], k), Bit(cur[i], k));
    }
  }

  // ---------- Message count ----------

  /** The number of bits in which two byte strings differ, over the first n bytes. */
  function Hamming(a: seq<uint8>, b: seq<uint8>, n: nat): nat
    requires n <= |a| && n <= |b|
  {
    if n == 0 then 0 else Hamming(a, b, n - 1) + Popcount(Xor(a[n - 1], b[n - 1]))
  }

  function FlippedBits(a: nat, b: nat, n: nat): nat {
    if n == 0 then 0 else FlippedBits(a, b, n - 1) + if Bit(a, n - 1) != Bit(b, n - 1) then 1 else 0
  }

  lemma {:induction false} FlippedBitsHalve(a: nat, b: nat, n: nat)
    requires n > 0
    ensures FlippedBits(a, b, n) == (if a % 2 != b % 2 then 1 else 0) + FlippedBits(a / 2, b / 2, n - 1)
  {
    if n > 1 {
      FlippedBitsHalve(a, b, n - 1);
    } else {
      assert FlippedBits(a, b, 0) == 0 && FlippedBits(a / 2, b / 2, 0) == 0;
    }
  }

  lemma {:induction false} PopcountOfXor(a: nat, b: nat, n: nat)
    requires a < Pow2(n) && b < Pow2(n)
    ensures Popcount(Xor(a, b)) == FlippedBits(a, b, n)
    decreases n
  {
    if n == 0 {
    } else {
      PopcountOfXor(a / 2, b / 2, n - 1);
      FlippedBitsHalve(a, b, n);
      if a != 0 || b != 0 {
        assert Xor(a, b) / 2 == Xor(a / 2, b / 2);
        assert Xor(a, b) % 2 == if a % 2 != b % 2 then 1 else 0;
      }
    }
  }

  lemma PopcountOfBytes(a: uint8, b: uint8)
    ensures Popcount(Xor(a, b)) == FlippedBits(a, b, 8)
  {
    hide Popcount, Xor, FlippedBits;
    assert Pow2(8) == 256;
    PopcountOfXor(a, b, 8);
  }

  lemma {:induction false} BitEventCount(s: Settings, i: nat, prev: uint8, cur: uint8, n: nat)
    requires HasBitView(s.mode)
    ensures |BitEvents(s, i, prev, cur, n)| == FlippedBits(prev, cur, n)
  {
    if n > 0 {
      BitEventCount(s, i, prev, cur, n - 1);
    }
  }

  lemma {:induction false} DiffCount(s: Settings, prev: seq<uint8>, cur: seq<uint8>, n: nat)
    requires s.mode == BitMode && n <= |prev| && n <= |cur|
    ensures |DiffUpTo(s, prev, cur, n)| == Hamming(prev, cur, n)
  {
    hide DiffUpTo, ByteEvents, BitEvents, Popcount, Xor;
    DiffStep(s, prev, cur, n);
    if n > 0 {
      DiffCount(s, prev, cur, n - 1);
      NoByteEventsInBitMode(s, n - 1, prev[n - 1], cur[n - 1]);
      BitEventCount(s, n - 1, prev[n - 1], cur[n - 1], 8);
      PopcountOfBytes(prev[n - 1], cur[n - 1]);
    }
  }

  lemma {:induction false} FlippedTriangle(a: nat, b: nat, c: nat, n: nat)
    ensures FlippedBits(a, c, n) <= FlippedBits(a, b, n) + FlippedBits(b, c, n)
    ensures FlippedBits(a, c, n) % 2 == (FlippedBits(a, b, n) + FlippedBits(b, c, n)) % 2
  {
    if n > 0 {
      FlippedTriangle(a, b, c, n - 1);
    }
  }

  lemma {:induction false} HammingTriangle(a: seq<uint8>, b: seq<uint8>, c: seq<uint8>, n: nat)
    requires n <= |a| && n <= |b| && n <= |c|
    ensures Hamming(a, c, n) <= Hamming(a, b, n) + Hamming(b, c, n)
    ensures Hamming(a, c, n) % 2 == (Hamming(a, b, n) + Hamming(b, c, n)) % 2
  {
    hide Popcount, Xor;
    if n > 0 {
      HammingTriangle(a, b, c, n - 1);
      PopcountTriangle(a[n - 1], b[n - 1], c[n - 1]);
    }
  }

  lemma PopcountTriangle(a: uint8, b: uint8, c: uint8)
    ensures Popcount(Xor(a, c)) <= Popcount(Xor(a, b)) + Popcount(Xor(b, c))
    ensures Popcount(Xor(a, c)) % 2 == (Popcount(Xor(a, b)) + Popcount(Xor(b, c))) % 2
  {
    hide Popcount, Xor, FlippedBits;
    PopcountOfBytes(a, b);
    PopcountOfBytes(b, c);
    PopcountOfBytes(a, c);
    FlippedTriangle(a, b, c, 8);
  }

  /** Over a run of equal-length reports in Bit mode, the number of messages is at least the Hamming distance
      between the first and the last report, and has the same parity. */
  lemma {:induction false} MessageCount(s: Settings, reports: seq<seq<uint8>>, n: nat)
    requires s.mode == BitMode && FixedRun(reports, n)
    ensures var distance := Hamming(reports[0], LastOf(reports), n);
            |Stream(s, reports)| >= distance && |Stream(s, reports)| % 2 == distance % 2
  {
    hide Hamming, DiffUpTo, Stream;
    if |reports| == 1 {
      StreamOfOne(s, reports);
      HammingSelf(reports[0], n);
    } else {
      var m := |reports|;
      var init, prev, cur := reports[..m - 1], reports[m - 2], reports[m - 1];
      StreamStep(s, reports);
      MessageCount(s, init, n);
      DiffCount(s, prev, cur, n);
      HammingTriangle(reports[0], prev, cur, n);
    }
  }

  lemma {:induction false} HammingSelf(a: seq<uint8>, n: nat)
    requires n <= |a|
    ensures Hamming(a, a, n) == 0
  {
    if n > 0 {
      HammingSelf(a, n - 1);
      XorIsZeroIffEqual(a[n - 1], a[n - 1]);
    }
  }
}
