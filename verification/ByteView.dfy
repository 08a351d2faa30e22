/** The byte view over whole runs: what the deadzone loses, when it loses nothing, and what it can repeat. */
module ByteView {
  import opened Bits
  import opened Sequences
  import opened Protocol
  import opened BitView

  /** The smallest movement that is not sent. An entry's own deadzone can only lower the global one: a movement it
      holds back still goes out on the fallback address. */
  function EffectiveDeadzone(s: Settings, i: nat): uint8 {
    match FindByteMapping(s.byteMap, i)
    case Some(e) => Min(EntryDeadzone(s, e), s.deadzone)
    case None => s.deadzone
  }

  /** A byte event carries the new 7-bit value, and is sent exactly when the movement exceeds the effective deadzone. */
  lemma ByteEventIff(s: Settings, i: nat, prev: uint8, cur: uint8)
    requires HasByteView(s.mode)
    ensures ValuesAt(ByteEvents(s, i, prev, cur), i, OfByte)
         == if Delta(prev, cur) > EffectiveDeadzone(s, i) then [V7(cur)] else []
  {
  }

  /** An entry's own deadzone is the one that decides, for every movement, exactly when it does not exceed the global
      one. */
  lemma OverrideHonouredIff(s: Settings, i: nat, e: ByteMapEntry)
    requires HasByteView(s.mode) && FindByteMapping(s.byteMap, i) == Some(e)
    ensures (forall p: uint8, c: uint8 :: ByteEvents(s, i, p, c) != [] <==> Delta(p, c) > EntryDeadzone(s, e))
       <==> EntryDeadzone(s, e) <= s.deadzone
  {
    hide Delta, EntryDeadzone, FallbackAddress, MappedAddress;
    if EntryDeadzone(s, e) > s.deadzone {
      OverrideLeaks(s, i, e);
      var p: uint8, c: uint8 := 0, 2 * (s.deadzone + 1);
      assert ByteEvents(s, i, p, c) != [] && Delta(p, c) <= EntryDeadzone(s, e);
    }
  }

  /** A movement that the entry should hold back and that is sent all the same, on the fallback address. */
  lemma OverrideLeaks(s: Settings, i: nat, e: ByteMapEntry)
    requires HasByteView(s.mode) && FindByteMapping(s.byteMap, i) == Some(e) && EntryDeadzone(s, e) > s.deadzone
    ensures var c := 2 * (s.deadzone + 1);
            && c < 256 && Delta(0, c) == s.deadzone + 1 <= EntryDeadzone(s, e)
            && ByteEvents(s, i, 0, c) == [Event(i, OfByte, FallbackAddress(s.base, i), s.deadzone + 1)]
  {
    hide FallbackAddress, MappedAddress;
  }

  /** Where a mapped byte goes: to its own address exactly when its movement exceeds the entry's deadzone, to the
      fallback address exactly when it exceeds the global one but not the entry's. */
  lemma OverrideRouting(s: Settings, i: nat, e: ByteMapEntry, prev: uint8, cur: uint8)
    requires HasByteView(s.mode) && FindByteMapping(s.byteMap, i) == Some(e)
    requires MappedAddress(s.base, e.midiChannel, e.cc) != FallbackAddress(s.base, i)
    ensures var es, delta := ByteEvents(s, i, prev, cur), Delta(prev, cur);
            && |es| <= 1
            && (es != [] ==> es[0].index == i && es[0].view == OfByte && es[0].value == V7(cur))
            && (delta > EntryDeadzone(s, e) <==>
                  es != [] && es[0].address == MappedAddress(s.base, e.midiChannel, e.cc))
            && (EntryDeadzone(s, e) >= delta > s.deadzone <==>
                  es != [] && es[0].address == FallbackAddress(s.base, i))
  {
    hide Delta, EntryDeadzone, FallbackAddress, MappedAddress, V7;
  }

  lemma {:induction false} BitEventsHaveNoByteValue(s: Settings, at: nat, prev: uint8, cur: uint8, n: nat, i: nat)
    ensures ValuesAt(BitEvents(s, at, prev, cur, n), i, OfByte) == []
  {
    if n > 0 {
      BitEventsHaveNoByteValue(s, at, prev, cur, n - 1, i);
      var rest, e := BitEvents(s, at, prev, cur, n - 1), BitEvent(s, at, n - 1, Bit(cur, n - 1));
      assert (rest + [e])[..|rest|] == rest;
    }
  }

  lemma ByteEventsElsewhere(s: Settings, at: nat, prev: uint8, cur: uint8, i: nat)
    requires at != i
    ensures ValuesAt(ByteEvents(s, at, prev, cur), i, OfByte) == []
  {
  }

  lemma ByteValuesOfPair(s: Settings, i: nat, at: nat, prev: uint8, cur: uint8)
    requires HasByteView(s.mode)
    ensures ValuesAt(PairEvents(s, at, prev, cur), i, OfByte)
         == if at == i && Delta(prev, cur) > EffectiveDeadzone(s, i) then [V7(cur)] else []
  {
    BitEventsHaveNoByteValue(s, at, prev, cur, 8, i);
    ByteEventIff(s, at, prev, cur);
    if at != i {
      ByteEventsElsewhere(s, at, prev, cur, i);
    }
    hide ByteEvents, BitEvents, ValuesAt, Delta, EffectiveDeadzone, V7;
    ValuesAtAppend(ByteEvents(s, at, prev, cur), BitEvents(s, at, prev, cur, 8), i, OfByte);
  }

  lemma {:induction false} ByteValuesOfDiffUpTo(s: Settings, i: nat, prev: seq<uint8>, cur: seq<uint8>, n: nat)
    requires HasByteView(s.mode) && n <= |prev| && n <= |cur|
    ensures ValuesAt(DiffUpTo(s, prev, cur, n), i, OfByte)
         == if i < n && Delta(prev[i], cur[i]) > EffectiveDeadzone(s, i) then [V7(cur[i])] else []
  {
    hide DiffUpTo, PairEvents, ValuesAt, Delta, EffectiveDeadzone, V7;
    PairStep(s, prev, cur, n);
    if n == 0 {
      NoValues(i);
    } else {
      ByteValuesOfDiffUpTo(s, i, prev, cur, n - 1);
      ByteValuesOfPair(s, i, n - 1, prev[n - 1], cur[n - 1]);
      ValuesAtAppend(DiffUpTo(s, prev, cur, n - 1), PairEvents(s, n - 1, prev[n - 1], cur[n - 1]), i, OfByte);
    }
  }

  lemma NoValues(i: nat)
    ensures ValuesAt([], i, OfByte) == []
  {
  }

  lemma ByteValuesOfDiff(s: Settings, i: nat, prev: seq<uint8>, cur: seq<uint8>)
    requires HasByteView(s.mode) && i < |prev| && i < |cur|
    ensures ValuesAt(Diff(s, prev, cur), i, OfByte)
         == if Delta(prev[i], cur[i]) > EffectiveDeadzone(s, i) then [V7(cur[i])] else []
  {
    ByteValuesOfDiffUpTo(s, i, prev, cur, Min(|prev|, |cur|));
  }

  // ---------- Drift ----------

  /** What a listener takes byte i to be: the last value sent for it, or the baseline. */
  function Heard(s: Settings, reports: seq<seq<uint8>>, i: nat): nat
    requires reports != [] && i < |reports[0]|
  {
    var vs := ValuesAt(Stream(s, reports), i, OfByte);
    if vs == [] then V7(reports[0][i]) else vs[|vs| - 1]
  }

  /** The number of reports since byte i was last sent, or since the baseline. */
  function QuietReports(s: Settings, reports: seq<seq<uint8>>, i: nat): nat {
    if |reports| <= 1 then 0
    else if ValuesAt(Diff(s, reports[|reports| - 2], reports[|reports| - 1]), i, OfByte) != [] then 0
    else 1 + QuietReports(s, reports[..|reports| - 1], i)
  }

  function Gap(a: int, b: int): nat {
    if a >= b then a - b else b - a
  }

  lemma QuietStep(s: Settings, reports: seq<seq<uint8>>, i: nat)
    requires |reports| > 1
    ensures var n := |reports|;
            QuietReports(s, reports, i) ==
            if ValuesAt(Diff(s, reports[n - 2], reports[n - 1]), i, OfByte) != [] then 0
            else 1 + QuietReports(s, reports[..n - 1], i)
  {
  }

  /** Drift: the listener is off by at most the deadzone for each report since byte i was last sent; so not at all
      right after it was sent. */
  lemma {:induction false} DriftBound(s: Settings, reports: seq<seq<uint8>>, i: nat)
    requires HasByteView(s.mode) && reports != [] && forall r | r in reports :: i < |r|
    ensures Gap(Heard(s, reports, i), V7(LastOf(reports)[i])) <= EffectiveDeadzone(s, i) * QuietReports(s, reports, i)
  {
    hide ValuesAt, Stream, Diff, QuietReports, EffectiveDeadzone, V7;
    var n := |reports|;
    if n == 1 {
      StreamOfOne(s, reports);
      NoValues(i);
    } else {
      var init, prev, cur := reports[..n - 1], reports[n - 2], reports[n - 1];
      StreamStep(s, reports);
      DriftBound(s, init, i);
      ValuesAtAppend(Stream(s, init), Diff(s, prev, cur), i, OfByte);
      ByteValuesOfDiff(s, i, prev, cur);
      QuietStep(s, reports, i);
      if Delta(prev[i], cur[i]) <= EffectiveDeadzone(s, i) {
        assert ValuesAt(Stream(s, reports), i, OfByte) == ValuesAt(Stream(s, init), i, OfByte);
        assert Heard(s, reports, i) == Heard(s, init, i);
        assert Gap(V7(prev[i]), V7(cur[i])) <= EffectiveDeadzone(s, i);
        Distribute(EffectiveDeadzone(s, i), QuietReports(s, init, i));
      }
    }
  }

  lemma {:induction false} HeardIsSevenBits(s: Settings, reports: seq<seq<uint8>>, i: nat)
    requires HasByteView(s.mode) && reports != [] && forall r | r in reports :: i < |r|
    ensures Heard(s, reports, i) < 128
  {
    hide ValuesAt, Stream, Diff, EffectiveDeadzone, Delta, V7;
    var n := |reports|;
    SevenBits(LastOf(reports)[i]);
    if n == 1 {
      StreamOfOne(s, reports);
      NoValues(i);
    } else {
      var init, prev, cur := reports[..n - 1], reports[n - 2], reports[n - 1];
      StreamStep(s, reports);
      HeardIsSevenBits(s, init, i);
      ValuesAtAppend(Stream(s, init), Diff(s, prev, cur), i, OfByte);
      ByteValuesOfDiff(s, i, prev, cur);
      if Delta(prev[i], cur[i]) > EffectiveDeadzone(s, i) {
        assert Heard(s, reports, i) == V7(cur[i]);
      } else {
        assert ValuesAt(Stream(s, reports), i, OfByte) == ValuesAt(Stream(s, init), i, OfByte);
      }
    }
  }

  lemma SevenBits(b: uint8)
    ensures V7(b) < 128
  {
  }

  /** Both ends are 7-bit values: the drift after k quiet reports is at most the smaller of deadzone * k and 127. */
  lemma DriftAtMost(s: Settings, reports: seq<seq<uint8>>, i: nat)
    requires HasByteView(s.mode) && reports != [] && forall r | r in reports :: i < |r|
    ensures Gap(Heard(s, reports, i), V7(LastOf(reports)[i]))
         <= Min(EffectiveDeadzone(s, i) * QuietReports(s, reports, i), 127)
  {
    assert V7(LastOf(reports)[i]) < 128;
    hide Heard, QuietReports, EffectiveDeadzone, V7;
    DriftBound(s, reports, i);
    HeardIsSevenBits(s, reports, i);
  }

  lemma Distribute(d: nat, k: nat)
    ensures d * (1 + k) == d + d * k
  {
  }

  /** A byte whose effective deadzone is 0 is followed exactly. */
  lemma ExactWithoutDeadzone(s: Settings, reports: seq<seq<uint8>>, i: nat)
    requires HasByteView(s.mode) && reports != [] && forall r | r in reports :: i < |r|
    requires EffectiveDeadzone(s, i) == 0
    ensures Heard(s, reports, i) == V7(LastOf(reports)[i])
  {
    DriftBound(s, reports, i);
  }

  /** A movement of d per report, as far as a 7-bit value goes. */
  function SlowRamp(d: nat, k: nat): seq<seq<uint8>> {
    if k == 0 then [[0]] else SlowRamp(d, k - 1) + [[RampByte(d, k)]]
  }

  function RampByte(d: nat, k: nat): uint8 {
    2 * Min(d * k, 127)
  }

  lemma {:induction false} RampShape(d: nat, k: nat)
    ensures var reports := SlowRamp(d, k);
            && |reports| == k + 1 && reports[0] == [0] && LastOf(reports) == [RampByte(d, k)]
            && (forall r | r in reports :: |r| == 1)
  {
    if k > 0 {
      RampShape(d, k - 1);
    }
  }

  lemma {:induction false} RampIsSilent(s: Settings, d: nat, k: nat)
    requires s.mode == ByteMode && s.byteMap == [] && s.deadzone == d
    ensures Stream(s, SlowRamp(d, k)) == [] && QuietReports(s, SlowRamp(d, k), 0) == k
  {
    hide Stream, Diff, QuietReports, Delta, ValuesAt, RampByte;
    RampShape(d, k);
    if k == 0 {
      StreamOfOne(s, SlowRamp(d, 0));
      QuietAtStart(s, SlowRamp(d, 0), 0);
    } else {
      RampIsSilent(s, d, k - 1);
      RampShape(d, k - 1);
      var p, c := RampByte(d, k - 1), RampByte(d, k);
      RampDelta(d, k);
      SilentStep(s, p, c);
      var init := SlowRamp(d, k - 1);
      var reports := init + [[c]];
      assert reports == SlowRamp(d, k);
      StreamAppend(s, init, [c]);
      assert reports[..k] == init && reports[k - 1] == [p];
      QuietStep(s, reports, 0);
      NoValues(0);
    }
  }

  lemma RampDelta(d: nat, k: nat)
    requires k > 0
    ensures Delta(RampByte(d, k - 1), RampByte(d, k)) <= d
  {
    Distribute(d, k - 1);
    var x: uint8, y: uint8 := Min(d * (k - 1), 127), Min(d * k, 127);
    assert x <= y <= x + d;
    DoubledDelta(x, y);
  }

  lemma DoubledDelta(x: uint8, y: uint8)
    requires x <= y < 128
    ensures Delta(2 * x, 2 * y) == y - x && V7(2 * y) == y
  {
  }

  lemma QuietAtStart(s: Settings, reports: seq<seq<uint8>>, i: nat)
    requires |reports| <= 1
    ensures QuietReports(s, reports, i) == 0
  {
  }

  /** The bound is reached: for every deadzone d and every k, k reports can move byte 0 by d * k, or all the way to
      127, without a single message. With DriftAtMost, the largest drift after k quiet reports is the smaller of the
      two. */
  lemma DriftIsTight(s: Settings, d: nat, k: nat)
    requires s.mode == ByteMode && s.byteMap == [] && s.deadzone == d
    ensures var reports := SlowRamp(d, k);
            && |reports| == k + 1 && (forall r | r in reports :: |r| == 1)
            && Stream(s, reports) == []
            && QuietReports(s, reports, 0) == k
            && Gap(Heard(s, reports, 0), V7(LastOf(reports)[0])) == Min(d * k, 127)
  {
    hide SlowRamp, Stream, QuietReports;
    RampShape(d, k);
    RampIsSilent(s, d, k);
    NoValues(0);
    assert V7(2 * Min(d * k, 127)) == Min(d * k, 127);
  }

  predicate Covers(reports: seq<seq<uint8>>, i: nat) {
    reports != [] && forall r | r in reports :: i < |r|
  }

  /** Over every run, a listener is never off by more than the deadzone. */
  ghost predicate StaysWithinDeadzone(s: Settings) {
    forall reports: seq<seq<uint8>>, i: nat | Covers(reports, i) ::
      Gap(Heard(s, reports, i), V7(LastOf(reports)[i])) <= s.deadzone
  }

  /** One silent movement by the deadzone and one more by 1. */
  lemma TwoStepDrift(s: Settings)
    requires s.mode == ByteMode && s.byteMap == [] && 1 <= s.deadzone <= 126
    ensures !StaysWithinDeadzone(s)
  {
    hide Stream, Diff, ValuesAt, Delta;
    var d := s.deadzone;
    TwoStepDeltas(d);
    SilentStep(s, 0, 2 * d);
    SilentStep(s, 2 * d, 2 * (d + 1));
    var r1 := OneReport(s, 0);
    var r2 := Extend(s, r1, 2 * d);
    var run := Extend(s, r2, 2 * (d + 1));
    assert run[0] == [0] && Stream(s, run) == [];
    NoValues(0);
    assert Covers(run, 0);
    assert Gap(Heard(s, run, 0), V7(LastOf(run)[0])) == d + 1;
  }

  lemma TwoStepDeltas(d: uint8)
    requires 1 <= d <= 126
    ensures Delta(0, 2 * d) == d && Delta(2 * d, 2 * (d + 1)) == 1 && V7(2 * (d + 1)) == d + 1
  {
  }

  /** With an empty byte table, a listener stays within the deadzone over every run exactly for deadzone 0 and 127. */
  lemma StaysWithinDeadzoneIff(s: Settings)
    requires s.mode == ByteMode && s.byteMap == []
    ensures StaysWithinDeadzone(s) <==> s.deadzone == 0 || s.deadzone == 127
  {
    hide Heard, QuietReports, V7;
    if s.deadzone == 0 || s.deadzone == 127 {
      forall reports: seq<seq<uint8>>, i: nat | Covers(reports, i)
        ensures Gap(Heard(s, reports, i), V7(LastOf(reports)[i])) <= s.deadzone
      {
        DriftAtMost(s, reports, i);
        assert EffectiveDeadzone(s, i) == s.deadzone;
      }
    } else {
      TwoStepDrift(s);
    }
  }

  lemma SilentByte(s: Settings, i: nat, p: uint8, c: uint8)
    requires s.mode == ByteMode && s.byteMap == [] && Delta(p, c) <= s.deadzone
    ensures PairEvents(s, i, p, c) == []
  {
    hide Delta, FallbackAddress, V7;
    NoBitEventsInByteMode(s, i, p, c);
  }

  lemma LoudByte(s: Settings, i: nat, p: uint8, c: uint8)
    requires s.mode == ByteMode && s.byteMap == [] && Delta(p, c) > s.deadzone
    ensures PairEvents(s, i, p, c) == [Event(i, OfByte, FallbackAddress(s.base, i), V7(c))]
  {
    hide Delta, FallbackAddress, V7;
    NoBitEventsInByteMode(s, i, p, c);
  }

  lemma OneByteDiff(s: Settings, p: uint8, c: uint8)
    ensures Diff(s, [p], [c]) == PairEvents(s, 0, p, c)
  {
    hide DiffUpTo, PairEvents;
    PairStep(s, [p], [c], 0);
    PairStep(s, [p], [c], 1);
  }

  lemma SilentStep(s: Settings, p: uint8, c: uint8)
    requires s.mode == ByteMode && s.byteMap == [] && Delta(p, c) <= s.deadzone
    ensures Diff(s, [p], [c]) == []
  {
    OneByteDiff(s, p, c);
    SilentByte(s, 0, p, c);
  }

  lemma LoudStep(s: Settings, p: uint8, c: uint8)
    requires s.mode == ByteMode && s.byteMap == [] && Delta(p, c) > s.deadzone
    ensures Diff(s, [p], [c]) == [Event(0, OfByte, FallbackAddress(s.base, 0), V7(c))]
  {
    OneByteDiff(s, p, c);
    LoudByte(s, 0, p, c);
  }

  // ---------- Repeated values ----------

  ghost predicate NoRepeats(vs: seq<nat>) {
    forall j | 0 < j < |vs| :: vs[j] != vs[j - 1]
  }

  /** With effective deadzone 0, byte i never sends the same value twice in a row, nor its baseline first. */
  lemma {:induction false} NoRepeatsWithoutDeadzone(s: Settings, reports: seq<seq<uint8>>, i: nat)
    requires HasByteView(s.mode) && reports != [] && forall r | r in reports :: i < |r|
    requires EffectiveDeadzone(s, i) == 0
    ensures NoRepeats([V7(reports[0][i]) as nat] + ValuesAt(Stream(s, reports), i, OfByte))
  {
    hide ValuesAt, Stream, Diff, EffectiveDeadzone, V7;
    var n := |reports|;
    if n == 1 {
      StreamOfOne(s, reports);
      NoValues(i);
    } else {
      var init, prev, cur := reports[..n - 1], reports[n - 2], reports[n - 1];
      StreamStep(s, reports);
      NoRepeatsWithoutDeadzone(s, init, i);
      ExactWithoutDeadzone(s, init, i);
      ValuesAtAppend(Stream(s, init), Diff(s, prev, cur), i, OfByte);
      ByteValuesOfDiff(s, i, prev, cur);
      var before := [V7(reports[0][i]) as nat] + ValuesAt(Stream(s, init), i, OfByte);
      assert before[|before| - 1] == Heard(s, init, i);
      var moved := if Delta(prev[i], cur[i]) > 0 then [V7(cur[i]) as nat] else [];
      assert [V7(reports[0][i]) as nat] + ValuesAt(Stream(s, reports), i, OfByte) == before + moved;
    }
  }

  /** Every run of one-byte reports sends byte 0 without repeating a value. */
  ghost predicate NeverRepeats(s: Settings) {
    forall reports: seq<seq<uint8>> | FixedRun(reports, 1) :: NoRepeats(ValuesAt(Stream(s, reports), 0, OfByte))
  }

  /** Up by d + 1, back down in two silent steps, and up again. */
  lemma RepeatingRun(s: Settings)
    requires s.mode == ByteMode && s.byteMap == [] && 1 <= s.deadzone <= 126
    ensures !NeverRepeats(s)
  {
    hide Stream, Diff, ValuesAt, FallbackAddress, Delta, NoRepeats, FixedRun;
    var d := s.deadzone;
    var top: uint8 := 2 * (d + 1);
    var e := Event(0, OfByte, FallbackAddress(s.base, 0), d + 1);
    RepeatingDeltas(d);
    LoudStep(s, 0, top);
    SilentStep(s, top, 2);
    SilentStep(s, 2, 0);
    var r1 := OneReport(s, 0);
    var r2 := Extend(s, r1, top);
    var r3 := Extend(s, r2, 2);
    var r4 := Extend(s, r3, 0);
    var run := Extend(s, r4, top);
    assert Stream(s, run) == [e, e];
    RepeatedEvent(e);
    RepeatFound(d + 1);
    assert !NoRepeats(ValuesAt(Stream(s, run), 0, OfByte));
  }

  lemma RepeatingDeltas(d: uint8)
    requires 1 <= d <= 126
    ensures Delta(0, 2 * (d + 1)) == d + 1 && Delta(2 * (d + 1), 2) == d && Delta(2, 0) == 1 && V7(2 * (d + 1)) == d + 1
  {
  }

  lemma OneReport(s: Settings, b: uint8) returns (r: seq<seq<uint8>>)
    ensures FixedRun(r, 1) && LastOf(r) == [b] && r[0] == [b] && Stream(s, r) == []
  {
    r := [[b]];
    StreamOfOne(s, r);
  }

  lemma Extend(s: Settings, reports: seq<seq<uint8>>, b: uint8) returns (r: seq<seq<uint8>>)
    requires FixedRun(reports, 1)
    ensures FixedRun(r, 1) && LastOf(r) == [b] && r[0] == reports[0]
    ensures Stream(s, r) == Stream(s, reports) + Diff(s, LastOf(reports), [b])
  {
    r := reports + [[b]];
    StreamAppend(s, reports, [b]);
  }

  lemma RepeatFound(v: nat)
    ensures !NoRepeats([v, v])
  {
    var vs := [v, v];
    assert vs[1] == vs[0];
  }

  lemma RepeatedEvent(e: Event)
    requires e.index == 0 && e.view == OfByte
    ensures ValuesAt([e, e], 0, OfByte) == [e.value, e.value]
  {
    assert [e, e][..1] == [e] && [e][..0] == [];
    assert ValuesAt([e], 0, OfByte) == [e.value];
  }

  /** Deadzone 127 silences a byte: no movement of a 7-bit value exceeds it. */
  lemma {:induction false} NothingAtFullDeadzone(s: Settings, prev: seq<uint8>, cur: seq<uint8>, n: nat)
    requires s.mode == ByteMode && s.byteMap == [] && s.deadzone == 127 && n <= |prev| && n <= |cur|
    ensures DiffUpTo(s, prev, cur, n) == []
  {
    hide DiffUpTo, PairEvents;
    PairStep(s, prev, cur, n);
    if n > 0 {
      NothingAtFullDeadzone(s, prev, cur, n - 1);
      SilentByte(s, n - 1, prev[n - 1], cur[n - 1]);
    }
  }

  lemma {:induction false} SilentAtFullDeadzone(s: Settings, reports: seq<seq<uint8>>)
    requires s.mode == ByteMode && s.byteMap == [] && s.deadzone == 127
    ensures Stream(s, reports) == []
  {
    hide Stream, DiffUpTo;
    var n := |reports|;
    if n <= 1 {
      StreamOfOne(s, reports);
    } else {
      StreamStep(s, reports);
      SilentAtFullDeadzone(s, reports[..n - 1]);
      NothingAtFullDeadzone(s, reports[n - 2], reports[n - 1], Min(|reports[n - 2]|, |reports[n - 1]|));
    }
  }

  /** With an empty byte table, repeats are excluded exactly for deadzone 0 (nothing is lost) and 127 (nothing is
      sent). */
  lemma NeverRepeatsIff(s: Settings)
    requires s.mode == ByteMode && s.byteMap == []
    ensures NeverRepeats(s) <==> s.deadzone == 0 || s.deadzone == 127
  {
    hide Stream, ValuesAt, NoRepeats;
    if s.deadzone == 0 {
      forall reports: seq<seq<uint8>> | FixedRun(reports, 1)
        ensures NoRepeats(ValuesAt(Stream(s, reports), 0, OfByte))
      {
        NoRepeatsWithoutDeadzone(s, reports, 0);
        NoRepeatsTail(V7(reports[0][0]), ValuesAt(Stream(s, reports), 0, OfByte));
      }
    } else if s.deadzone == 127 {
      forall reports: seq<seq<uint8>> | FixedRun(reports, 1)
        ensures NoRepeats(ValuesAt(Stream(s, reports), 0, OfByte))
      {
        SilentAtFullDeadzone(s, reports);
        NoValues(0);
        NothingRepeats();
      }
    } else {
      RepeatingRun(s);
    }
  }

  lemma NoRepeatsTail(v: nat, vs: seq<nat>)
    requires NoRepeats([v] + vs)
    ensures NoRepeats(vs)
  {
    var all := [v] + vs;
    forall j | 0 < j < |vs|
      ensures vs[j] != vs[j - 1]
    {
      assert all[j + 1] == vs[j] && all[j] == vs[j - 1];
    }
  }

  lemma NothingRepeats()
    ensures NoRepeats([])
  {
  }

  // ---------- Monotonicity ----------

  lemma ByteEventsMonotone(s: Settings, t: Settings, i: nat, prev: uint8, cur: uint8)
    requires s.mode == ByteMode && t == s.(deadzone := t.deadzone) && s.deadzone <= t.deadzone
    ensures Subsequence(ByteEvents(t, i, prev, cur), ByteEvents(s, i, prev, cur))
  {
    SubsequenceRefl(ByteEvents(s, i, prev, cur));
  }

  lemma NoBitEventsInByteMode(s: Settings, i: nat, prev: uint8, cur: uint8)
    requires s.mode == ByteMode
    ensures BitEvents(s, i, prev, cur, 8) == []
  {
  }

  lemma {:induction false} DiffMonotone(s: Settings, t: Settings, prev: seq<uint8>, cur: seq<uint8>, n: nat)
    requires s.mode == ByteMode && t == s.(deadzone := t.deadzone) && s.deadzone <= t.deadzone
    requires n <= |prev| && n <= |cur|
    ensures Subsequence(DiffUpTo(t, prev, cur, n), DiffUpTo(s, prev, cur, n))
  {
    hide DiffUpTo, ByteEvents, BitEvents, Subsequence;
    DiffStep(s, prev, cur, n);
    DiffStep(t, prev, cur, n);
    if n == 0 {
      SubsequenceRefl<Event>([]);
    } else {
      var p, c := prev[n - 1], cur[n - 1];
      DiffMonotone(s, t, prev, cur, n - 1);
      ByteEventsMonotone(s, t, n - 1, p, c);
      NoBitEventsInByteMode(s, n - 1, p, c);
      NoBitEventsInByteMode(t, n - 1, p, c);
      SubsequenceAppend(DiffUpTo(t, prev, cur, n - 1), DiffUpTo(s, prev, cur, n - 1),
                        ByteEvents(t, n - 1, p, c), ByteEvents(s, n - 1, p, c));
      assert DiffUpTo(t, prev, cur, n) == DiffUpTo(t, prev, cur, n - 1) + ByteEvents(t, n - 1, p, c);
      assert DiffUpTo(s, prev, cur, n) == DiffUpTo(s, prev, cur, n - 1) + ByteEvents(s, n - 1, p, c);
    }
  }

  /** On the same run, a larger deadzone sends a subsequence of what a smaller one sends: same addresses, same
      values, same order, for any byte table with overrides. */
  lemma {:induction false} DeadzoneMonotone(s: Settings, t: Settings, reports: seq<seq<uint8>>)
    requires s.mode == ByteMode && t == s.(deadzone := t.deadzone) && s.deadzone <= t.deadzone
    ensures Subsequence(Stream(t, reports), Stream(s, reports))
  {
    hide Diff, Subsequence, Stream;
    if |reports| <= 1 {
      StreamOfOne(s, reports);
      StreamOfOne(t, reports);
      SubsequenceRefl<Event>([]);
    } else {
      var n := |reports|;
      var init, prev, cur := reports[..n - 1], reports[n - 2], reports[n - 1];
      StreamStep(s, reports);
      StreamStep(t, reports);
      DeadzoneMonotone(s, t, init);
      DiffMonotoneWhole(s, t, prev, cur);
      SubsequenceAppend(Stream(t, init), Stream(s, init), Diff(t, prev, cur), Diff(s, prev, cur));
    }
  }

  lemma DiffMonotoneWhole(s: Settings, t: Settings, prev: seq<uint8>, cur: seq<uint8>)
    requires s.mode == ByteMode && t == s.(deadzone := t.deadzone) && s.deadzone <= t.deadzone
    ensures Subsequence(Diff(t, prev, cur), Diff(s, prev, cur))
  {
    DiffMonotone(s, t, prev, cur, Min(|prev|, |cur|));
  }
}
