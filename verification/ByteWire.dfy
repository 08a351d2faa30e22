/** Byte mode with an empty table, as it appears on the wire: every byte on its fallback address, and what the messages
    determine of the reports. */
module ByteWire {
  import opened Bits
  import opened Sequences
  import opened Midi
  import opened Protocol
  import opened Addressing
  import opened BitView
  import opened ByteView

  /** Byte-mode events for the bytes of `packet`, on the fallback addresses. */
  predicate ShowsBytes(es: seq<Event>, base: uint8, packet: seq<uint8>) {
    forall e | e in es ::
      && e.view == OfByte && e.index < |packet|
      && e.address == FallbackAddress(base, e.index) && e.value == V7(packet[e.index])
  }

  lemma {:induction false} ByteModeShowsBytes(s: Settings, prev: seq<uint8>, cur: seq<uint8>, n: nat)
    requires s.mode == ByteMode && s.byteMap == [] && n <= |prev| && n <= |cur|
    ensures ShowsBytes(DiffUpTo(s, prev, cur, n), s.base, cur)
  {
    hide DiffUpTo, PairEvents, FallbackAddress, V7;
    PairStep(s, prev, cur, n);
    if n > 0 {
      ByteModeShowsBytes(s, prev, cur, n - 1);
      if Delta(prev[n - 1], cur[n - 1]) > s.deadzone {
        LoudByte(s, n - 1, prev[n - 1], cur[n - 1]);
      } else {
        SilentByte(s, n - 1, prev[n - 1], cur[n - 1]);
      }
    }
  }

  /** Byte events on the fallback addresses of a report of at most 2048 bytes. */
  predicate OnFallback(es: seq<Event>, base: uint8) {
    forall e | e in es ::
      e.view == OfByte && e.index < 2048 && e.address == FallbackAddress(base, e.index) && e.value < 128
  }

  lemma {:induction false} StreamOnFallback(s: Settings, reports: seq<seq<uint8>>)
    requires s.mode == ByteMode && s.byteMap == [] && forall r | r in reports :: |r| <= 2048
    ensures OnFallback(Stream(s, reports), s.base)
  {
    hide Stream, DiffUpTo, FallbackAddress;
    var n := |reports|;
    if n <= 1 {
      StreamOfOne(s, reports);
    } else {
      var init, prev, cur := reports[..n - 1], reports[n - 2], reports[n - 1];
      StreamStep(s, reports);
      StreamOnFallback(s, init);
      ByteModeShowsBytes(s, prev, cur, Min(|prev|, |cur|));
    }
  }

  // ---------- What the messages determine ----------

  /** The values a receiver hears on one address, in order. */
  function ValuesOn(wire: seq<MidiMessage>, a: Address): seq<nat> {
    if wire == [] then []
    else
      var rest, cc := ValuesOn(wire[..|wire| - 1], a), ParseCc(wire[|wire| - 1]);
      if cc.Some? && cc.value.address == a then rest + [cc.value.value] else rest
  }

  lemma ValuesOnSnoc(es: seq<Event>, e: Event, a: Address)
    requires e.address.channel < 16 && e.address.controller < 128 && e.value < 128
    ensures ValuesOn(Wire(es + [e]), a)
         == if e.address == a then ValuesOn(Wire(es), a) + [e.value] else ValuesOn(Wire(es), a)
  {
    var w := Wire(es + [e]);
    assert w[..|w| - 1] == Wire(es) && w[|w| - 1] == MessageOf(e);
    assert ParseCc(MessageOf(e)) == Some(ControlChange(e.address, e.value));
  }

  /** The values heard on the address of byte i are the values sent for byte i. */
  lemma {:induction false} HeardOnAddress(es: seq<Event>, base: uint8, i: nat)
    requires base < 16 && i < 2048 && OnFallback(es, base)
    ensures ValuesOn(Wire(es), FallbackAddress(base, i)) == ValuesAt(es, i, OfByte)
  {
    hide FallbackAddress, Wire;
    if es == [] {
      WireOfNone();
    } else {
      var init, e := es[..|es| - 1], es[|es| - 1];
      assert es == init + [e];
      HeardOnAddress(init, base, i);
      FallbackIsLinear(base, e.index);
      ValuesOnSnoc(init, e, FallbackAddress(base, i));
      if e.index != i {
        FallbackPairDistinct(base, e.index, i);
      }
    }
  }

  /** Runs of n-byte reports with the same baseline and the same messages end in the same upper seven bits. */
  ghost predicate WireDeterminesUpperBits(s: Settings, n: nat) {
    forall a: seq<seq<uint8>>, b: seq<seq<uint8>> | FixedRun(a, n) && FixedRun(b, n) && a[0] == b[0]
      && Wire(Stream(s, a)) == Wire(Stream(s, b)) ::
      forall i | 0 <= i < n :: V7(LastOf(a)[i]) == V7(LastOf(b)[i])
  }

  lemma SameWireSameHeard(s: Settings, a: seq<seq<uint8>>, b: seq<seq<uint8>>, n: nat, i: nat)
    requires s.mode == ByteMode && s.byteMap == [] && s.deadzone == 0 && i < n <= 2048
    requires FixedRun(a, n) && FixedRun(b, n) && a[0] == b[0] && Wire(Stream(s, a)) == Wire(Stream(s, b))
    ensures V7(LastOf(a)[i]) == V7(LastOf(b)[i])
  {
    hide Stream, Wire, ValuesOn, ValuesAt, OnFallback, FallbackAddress;
    StreamOnFallback(s, a);
    StreamOnFallback(s, b);
    HeardOnAddress(Stream(s, a), s.base, i);
    HeardOnAddress(Stream(s, b), s.base, i);
    assert EffectiveDeadzone(s, i) == 0;
    ExactWithoutDeadzone(s, a, i);
    ExactWithoutDeadzone(s, b, i);
  }

  /** If only byte i moved, the report's events are that byte's. */
  lemma {:induction false} OneByteMoved(s: Settings, r: seq<uint8>, i: nat, c: uint8, n: nat)
    requires i < |r| && n <= |r|
    ensures DiffUpTo(s, r, r[i := c], n) == if i < n then PairEvents(s, i, r[i], c) else []
  {
    hide DiffUpTo, ByteEvents, BitEvents;
    PairStep(s, r, r[i := c], n);
    if n > 0 {
      OneByteMoved(s, r, i, c, n - 1);
      if n - 1 != i {
        EqualBytesEmitNothing(s, n - 1, r[n - 1]);
      }
    }
  }

  /** One byte of an all-zero report rises to 2: one message, or none if the deadzone holds it back. */
  lemma SmallRise(s: Settings, n: nat, i: nat) returns (run: seq<seq<uint8>>)
    requires s.mode == ByteMode && s.byteMap == [] && i < n
    ensures FixedRun(run, n) && run[0] == seq(n, _ => 0) && LastOf(run) == run[0][i := 2]
    ensures Stream(s, run) == if s.deadzone == 0 then [Event(i, OfByte, FallbackAddress(s.base, i), 1)] else []
  {
    hide Stream, DiffUpTo, FallbackAddress;
    var r: seq<uint8> := seq(n, _ => 0);
    run := [r, r[i := 2]];
    assert run[..1] == [r];
    StreamStep(s, run);
    StreamOfOne(s, [r]);
    OneByteMoved(s, r, i, 2, n);
    assert Delta(0, 2) == 1 && V7(2) == 1;
    if s.deadzone == 0 {
      LoudByte(s, i, 0, 2);
    } else {
      SilentByte(s, i, 0, 2);
    }
  }

  /** In Byte mode with an empty table, baseline and messages determine the upper seven bits of every run of n-byte
      reports exactly with deadzone 0 and at most 2048 bytes. */
  lemma UpperBitsDeterminedIff(s: Settings, n: nat)
    requires s.mode == ByteMode && s.byteMap == []
    ensures WireDeterminesUpperBits(s, n) <==> n == 0 || (s.deadzone == 0 && n <= 2048)
  {
    hide Stream, Wire, FallbackAddress;
    if n == 0 {
    } else if s.deadzone == 0 && n <= 2048 {
      forall a: seq<seq<uint8>>, b: seq<seq<uint8>> | FixedRun(a, n) && FixedRun(b, n) && a[0] == b[0]
        && Wire(Stream(s, a)) == Wire(Stream(s, b))
        ensures forall i | 0 <= i < n :: V7(LastOf(a)[i]) == V7(LastOf(b)[i])
      {
        forall i | 0 <= i < n
          ensures V7(LastOf(a)[i]) == V7(LastOf(b)[i])
        {
          SameWireSameHeard(s, a, b, n, i);
        }
      }
    } else {
      UpperBitsLost(s, n);
    }
  }

  lemma SmallValues()
    ensures V7(2) == 1 && V7(0) == 0
  {
  }

  lemma UpperBitsLost(s: Settings, n: nat)
    requires s.mode == ByteMode && s.byteMap == [] && n > 0 && (s.deadzone > 0 || n > 2048)
    ensures !WireDeterminesUpperBits(s, n)
  {
    hide Stream, FallbackAddress, V7;
    assert V7(2) == 1 && V7(0) == 0 by { SmallValues(); }
    var a := SmallRise(s, n, 0);
    var b: seq<seq<uint8>>;
    if s.deadzone > 0 {
      b := [seq(n, _ => 0)];
      StreamOfOne(s, b);
    } else {
      b := SmallRise(s, n, 2048);
      CastIsHarmless(s.base, 0);
      CastIsHarmless(s.base, 2048);
    }
    assert Wire(Stream(s, a)) == Wire(Stream(s, b));
    var x, y := LastOf(a), LastOf(b);
    assert FixedRun(a, n) && FixedRun(b, n) && a[0] == b[0];
    assert x[0] == 2 && y[0] == 0;
    assert V7(x[0]) != V7(y[0]);
  }
}
