/** Hybrid runs that a listener cannot tell apart: two sequences of rising bits with the same messages. */
module HybridAmbiguity {
  import opened Bits
  import opened Sequences
  import opened Midi
  import opened Protocol
  import opened BitView
  import opened ByteWire
  import opened HybridNotes

  /** One report in which bits lo to hi - 1 of one byte come on. */
  datatype Rise = Rise(index: nat, lo: nat, hi: nat)

  function One(i: nat, k: nat): Rise {
    Rise(i, k, k + 1)
  }

  // ---------- Reports by the set of their zero bits ----------

  function Value(zeros: set<(nat, nat)>, i: nat, k: nat, m: nat): (b: nat)
    ensures b < Pow2(m)
    decreases m
  {
    if m == 0 then 0 else (if (i, k) in zeros then 0 else 1) + 2 * Value(zeros, i, k + 1, m - 1)
  }

  lemma {:induction false} BitOfValue(zeros: set<(nat, nat)>, i: nat, k: nat, m: nat, j: nat)
    ensures Bit(Value(zeros, i, k, m), j) <==> j < m && (i, k + j) !in zeros
    decreases m
  {
    if m == 0 {
      BitOfZero(j);
    } else if j > 0 {
      BitOfValue(zeros, i, k + 1, m - 1, j - 1);
      assert Value(zeros, i, k, m) / 2 == Value(zeros, i, k + 1, m - 1);
    }
  }

  function ByteOf(zeros: set<(nat, nat)>, i: nat): uint8 {
    assert Pow2(8) == 256;
    Value(zeros, i, 0, 8)
  }

  lemma BitOfByte(zeros: set<(nat, nat)>, i: nat, k: nat)
    requires k < 8
    ensures Bit(ByteOf(zeros, i), k) <==> (i, k) !in zeros
  {
    BitOfValue(zeros, i, 0, 8, k);
  }

  /** All bits are set but those in `zeros`. */
  function ReportOf(n: nat, zeros: set<(nat, nat)>): (r: seq<uint8>)
    ensures |r| == n
  {
    seq(n, i requires 0 <= i < n => ByteOf(zeros, i))
  }

  function Span(x: Rise): set<(nat, nat)> {
    set k: nat | x.lo <= k < x.hi :: (x.index, k)
  }

  function After(zeros: set<(nat, nat)>, script: seq<Rise>): set<(nat, nat)> {
    if script == [] then zeros else After(zeros - Span(script[0]), script[1..])
  }

  // ---------- The messages of one rise ----------

  /** How far a rise moves the 7-bit value. */
  function Gain(lo: nat, hi: nat): int
    requires lo < hi
  {
    Pow2(hi - 1) - Pow2(if lo == 0 then 0 else lo - 1)
  }

  predicate Loud(s: Settings, x: Rise)
    requires x.lo < x.hi
  {
    Gain(x.lo, x.hi) > s.deadzone
  }

  /** The bits of x are off, and if x is loud, it brings its byte to the 7-bit value 127. */
  predicate Playable(s: Settings, n: nat, zeros: set<(nat, nat)>, x: Rise) {
    && x.index < n && x.lo < x.hi <= 8
    && (forall k | x.lo <= k < x.hi :: (x.index, k) in zeros)
    && (Loud(s, x) ==> forall k | 1 <= k < 8 && (x.index, k) in zeros :: x.lo <= k < x.hi)
  }

  predicate Plays(s: Settings, n: nat, zeros: set<(nat, nat)>, script: seq<Rise>) {
    script == []
    || (Playable(s, n, zeros, script[0]) && Plays(s, n, zeros - Span(script[0]), script[1..]))
  }

  function BitsOn(s: Settings, i: nat, lo: nat, hi: nat): seq<Address>
    requires lo <= hi
  {
    if lo == hi then [] else BitsOn(s, i, lo, hi - 1) + [BitAddress(s, i, hi - 1)]
  }

  function SaidOnce(s: Settings, x: Rise): seq<Address>
    requires x.lo < x.hi
  {
    (if Loud(s, x) then [FallbackAddress(s.base, x.index)] else []) + BitsOn(s, x.index, x.lo, x.hi)
  }

  /** The addresses on which a sequence of rises sends the value 127. */
  function Said(s: Settings, script: seq<Rise>): seq<Address>
    requires forall x | x in script :: x.lo < x.hi
  {
    if script == [] then [] else SaidOnce(s, script[0]) + Said(s, script[1..])
  }

  function On(a: Address): MidiMessage {
    [0xB0 + a.channel % 16, a.controller % 128, 127]
  }

  function Ons(addresses: seq<Address>): seq<MidiMessage> {
    seq(|addresses|, i requires 0 <= i < |addresses| => On(addresses[i]))
  }

  lemma OnsAppend(a: seq<Address>, b: seq<Address>)
    ensures Ons(a + b) == Ons(a) + Ons(b)
  {
  }

  lemma NoOns()
    ensures Ons([]) == []
  {
  }

  /** Exactly bits lo to hi - 1 differ, and they are on in c. */
  ghost predicate Rises(p: uint8, c: uint8, lo: nat, hi: nat) {
    forall k: nat | k < 8 :: (Bit(p, k) != Bit(c, k) <==> lo <= k < hi) && (lo <= k < hi ==> Bit(c, k))
  }

  lemma {:induction false} RisingBits(s: Settings, i: nat, p: uint8, c: uint8, lo: nat, hi: nat, m: nat)
    requires Plain(s) && lo < hi <= 8 && m <= 8 && Rises(p, c, lo, hi)
    ensures Wire(BitEvents(s, i, p, c, m))
         == Ons(if m <= lo then [] else if m <= hi then BitsOn(s, i, lo, m) else BitsOn(s, i, lo, hi))
  {
    assert HasBitView(s.mode);
    hide Plain, BitEvents, BitEvent, Bit, BitAddress, Wire, Ons;
    BitEventsStep(s, i, p, c, m);
    if m == 0 {
      WireOfNone();
      NoOns();
    } else {
      RisingBits(s, i, p, c, lo, hi, m - 1);
      if lo <= m - 1 < hi {
        var e := BitEvent(s, i, m - 1, true);
        PlainValue(s, i, m - 1, true);
        WireSnoc(BitEvents(s, i, p, c, m - 1), e);
        OnsAppend(BitsOn(s, i, lo, m - 1), [BitAddress(s, i, m - 1)]);
        OneOn(e);
      }
    }
  }

  lemma OneOn(e: Event)
    requires e.value == 127
    ensures Ons([e.address]) == [MessageOf(e)] == Wire([e])
  {
  }

  lemma {:induction false} RisingSum(p: uint8, c: uint8, lo: nat, hi: nat, k: nat)
    requires lo < hi <= 8 && 1 <= k <= 8 && Rises(p, c, lo, hi)
    ensures TailSum(p, c, k) == if k >= hi then 0 else Pow2(hi - 1) - Pow2(if lo <= k then k - 1 else lo - 1)
    decreases 8 - k
  {
    hide Bit;
    if k < 8 {
      RisingSum(p, c, lo, hi, k + 1);
      assert Pow2(k) == 2 * Pow2(k - 1);
    }
  }

  lemma RisingDelta(p: uint8, c: uint8, lo: nat, hi: nat)
    requires lo < hi <= 8 && Rises(p, c, lo, hi)
    ensures Delta(p, c) == Gain(lo, hi)
  {
    hide Bit, TailSum, Rises;
    RisingSum(p, c, lo, hi, 1);
    TailSumFromOne(p, c);
    Pow2Monotone(if lo == 0 then 0 else lo - 1, hi - 1);
  }

  lemma FullByte(c: uint8)
    requires forall k | 1 <= k < 8 :: Bit(c, k)
    ensures V7(c) == 127
  {
    assert Pow2(7) == 128;
    forall k | 0 <= k < 7
      ensures Bit(c / 2, k) == Bit(127, k)
    {
      assert Bit(c, k + 1);
      LowOnes(7, k);
    }
    BitsDetermine(c / 2, 127, 7);
  }

  lemma RiseOfReport(n: nat, zeros: set<(nat, nat)>, x: Rise)
    requires x.index < n && x.lo < x.hi <= 8 && forall k | x.lo <= k < x.hi :: (x.index, k) in zeros
    ensures var z := zeros - Span(x);
            && ReportOf(n, z) == ReportOf(n, zeros)[x.index := ByteOf(z, x.index)]
            && Rises(ByteOf(zeros, x.index), ByteOf(z, x.index), x.lo, x.hi)
  {
    hide Bit, ByteOf;
    var z := zeros - Span(x);
    forall i | 0 <= i < n && i != x.index
      ensures ByteOf(z, i) == ByteOf(zeros, i)
    {
      forall k | 0 <= k < 8
        ensures Bit(ByteOf(z, i), k) == Bit(ByteOf(zeros, i), k)
      {
        BitOfByte(z, i, k);
        BitOfByte(zeros, i, k);
      }
      BytesEqualIfBitsEqual(ByteOf(z, i), ByteOf(zeros, i));
    }
    forall k: nat | k < 8
      ensures Bit(ByteOf(zeros, x.index), k) != Bit(ByteOf(z, x.index), k) <==> x.lo <= k < x.hi
      ensures x.lo <= k < x.hi ==> Bit(ByteOf(z, x.index), k)
    {
      BitOfByte(z, x.index, k);
      BitOfByte(zeros, x.index, k);
    }
  }

  lemma LoudRiseFills(s: Settings, n: nat, zeros: set<(nat, nat)>, x: Rise)
    requires Playable(s, n, zeros, x) && Loud(s, x)
    ensures V7(ByteOf(zeros - Span(x), x.index)) == 127
  {
    hide Bit, ByteOf, V7, Gain;
    var z := zeros - Span(x);
    forall k | 1 <= k < 8
      ensures Bit(ByteOf(z, x.index), k)
    {
      BitOfByte(z, x.index, k);
    }
    FullByte(ByteOf(z, x.index));
  }

  lemma ByteSaid(s: Settings, i: nat, p: uint8, c: uint8, loud: bool)
    requires Plain(s) && (loud <==> Delta(p, c) > s.deadzone) && (loud ==> V7(c) == 127)
    ensures Wire(ByteEvents(s, i, p, c)) == Ons(if loud then [FallbackAddress(s.base, i)] else [])
  {
    hide Delta, V7, FallbackAddress, Wire, Ons;
    if loud {
      OneOn(Event(i, OfByte, FallbackAddress(s.base, i), 127));
    } else {
      WireOfNone();
      NoOns();
    }
  }

  lemma PairSaid(s: Settings, x: Rise, p: uint8, c: uint8)
    requires Plain(s) && x.lo < x.hi <= 8 && Rises(p, c, x.lo, x.hi) && (Loud(s, x) ==> V7(c) == 127)
    ensures Wire(PairEvents(s, x.index, p, c)) == Ons(SaidOnce(s, x))
  {
    hide Plain, Wire, Ons, ByteEvents, BitEvents, BitsOn, FallbackAddress, Rises, Delta, V7, Gain;
    RisingDelta(p, c, x.lo, x.hi);
    WireAppend(ByteEvents(s, x.index, p, c), BitEvents(s, x.index, p, c, 8));
    ByteSaid(s, x.index, p, c, Loud(s, x));
    RisingBits(s, x.index, p, c, x.lo, x.hi, 8);
    OnsAppend(if Loud(s, x) then [FallbackAddress(s.base, x.index)] else [], BitsOn(s, x.index, x.lo, x.hi));
  }

  lemma RiseStep(s: Settings, n: nat, zeros: set<(nat, nat)>, x: Rise)
    requires Plain(s) && Playable(s, n, zeros, x)
    ensures Wire(Diff(s, ReportOf(n, zeros), ReportOf(n, zeros - Span(x)))) == Ons(SaidOnce(s, x))
  {
    var z := zeros - Span(x);
    var p, c := ByteOf(zeros, x.index), ByteOf(z, x.index);
    if Loud(s, x) {
      LoudRiseFills(s, n, zeros, x);
    }
    RiseOfReport(n, zeros, x);
    PairSaid(s, x, p, c);
    hide Plain, ByteOf, Wire, Ons, DiffUpTo, PairEvents, Rises, SaidOnce, Span, V7, Loud;
    OneByteMoved(s, ReportOf(n, zeros), x.index, c, n);
  }

  // ---------- Playing a script ----------

  predicate WellFormed(script: seq<Rise>) {
    forall x | x in script :: x.lo < x.hi
  }

  lemma {:induction false} Play(s: Settings, n: nat, run: seq<seq<uint8>>, zeros: set<(nat, nat)>, script: seq<Rise>)
    returns (played: seq<seq<uint8>>)
    requires Plain(s) && WellFormed(script) && Plays(s, n, zeros, script)
    requires FixedRun(run, n) && LastOf(run) == ReportOf(n, zeros)
    ensures FixedRun(played, n) && played[0] == run[0] && LastOf(played) == ReportOf(n, After(zeros, script))
    ensures Wire(Stream(s, played)) == Wire(Stream(s, run)) + Ons(Said(s, script))
    decreases |script|
  {
    hide Plain, Stream, Wire, Ons, SaidOnce, Playable, ReportOf, Diff, Span;
    if script == [] {
      played := run;
      NoOns();
    } else {
      var x := script[0];
      var next := ReportOf(n, zeros - Span(x));
      RiseStep(s, n, zeros, x);
      StreamAppend(s, run, next);
      WireAppend(Stream(s, run), Diff(s, LastOf(run), next));
      played := Play(s, n, run + [next], zeros - Span(x), script[1..]);
      OnsAppend(SaidOnce(s, x), Said(s, script[1..]));
    }
  }

  /** Two scripts that say the same and leave bit (i, k) different. */
  lemma Ambiguous(s: Settings, n: nat, zeros: set<(nat, nat)>, a: seq<Rise>, b: seq<Rise>, i: nat, k: nat)
    requires Plain(s) && WellFormed(a) && WellFormed(b) && Plays(s, n, zeros, a) && Plays(s, n, zeros, b)
    requires Said(s, a) == Said(s, b)
    requires i < n && k < 8 && ((i, k) in After(zeros, a) <==> (i, k) !in After(zeros, b))
    ensures !WireDeterminesReport(s, n)
  {
    hide Plain, Stream, Wire, Ons, Plays, Said, After, ByteOf, Bit;
    var start := [ReportOf(n, zeros)];
    var x := Play(s, n, start, zeros, a);
    var y := Play(s, n, start, zeros, b);
    BitOfByte(After(zeros, a), i, k);
    BitOfByte(After(zeros, b), i, k);
    assert LastOf(x)[i] == ByteOf(After(zeros, a), i) && LastOf(y)[i] == ByteOf(After(zeros, b), i);
    assert LastOf(x) != LastOf(y);
  }
}
