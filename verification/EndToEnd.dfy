/** From the device to the tester's grid: decoder, bridge loop, MIDI port, receiver and router together, over whole
    runs of the bridge. */
module EndToEnd {
  import opened Bits
  import opened Sequences
  import opened Midi
  import opened Protocol
  import opened Addressing
  import opened BitView
  import opened ByteView
  import opened ByteWire
  import opened RawSysEx
  import opened Usb
  import opened DebugView
  import opened Bridge
  import opened BridgeRuns
  import opened ByteMap

  // ---------- A listener on the real wire ----------

  lemma {:induction false} BelieveIgnoresSysex(s: Settings, i: nat, k: nat, held: bool, wire: seq<MidiMessage>)
    ensures Believe(s, i, k, held, wire) == Believe(s, i, k, held, ControlChanges(wire))
  {
    hide BitAddress, Inverted;
    if wire != [] {
      var init, m := wire[..|wire| - 1], wire[|wire| - 1];
      BelieveIgnoresSysex(s, i, k, held, init);
      if IsControlChange(m) {
        var kept := ControlChanges(init) + [m];
        assert kept[..|kept| - 1] == ControlChanges(init);
      } else {
        assert ControlChanges(wire) == ControlChanges(init);
      }
    }
  }

  /** Reconstruction through the bridge: while it runs in Bit mode, whatever timeouts, disconnects, reconnects and
      interleaved System Exclusive messages have happened, a listener who started from the first packet holds the last
      one on every byte that all packets have. */
  lemma BridgeReconstruction(o: Options, boot: Start, ticks: seq<Tick>, i: nat, k: nat, size: nat)
    requires o.mode == BitMode && DistinctBits(SettingsOf(o), size) && k < 8
    requires Run(o, boot, ticks).exit == Running && Packets(ticks) != []
    requires forall p | p in Packets(ticks) :: i < |p| <= size
    ensures Believe(SettingsOf(o), i, k, Bit(Packets(ticks)[0][i], k), Run(o, boot, ticks).wire)
         == Bit(LastOf(Packets(ticks))[i], k)
  {
    hide Believe, Run, Packets, Stream, Wire, Filter, DistinctBits, Bit;
    BelieveIgnoresSysex(SettingsOf(o), i, k, Bit(Packets(ticks)[0][i], k), Run(o, boot, ticks).wire);
    ControlChangesRefineDecoder(o, boot, ticks);
    Reconstruction(SettingsOf(o), Packets(ticks), i, k, size);
  }

  // ---------- The grid, message by message ----------

  lemma {:induction false} ReceiveAppend(g: Grid, a: seq<MidiMessage>, b: seq<MidiMessage>)
    ensures ReceiveAll(g, a + b) == ReceiveAll(ReceiveAll(g, a), b)
    decreases |b|
  {
    hide Receive;
    if b == [] {
      assert a + b == a;
    } else {
      assert (a + b)[..|a + b| - 1] == a + b[..|b| - 1];
      ReceiveAppend(g, a, b[..|b| - 1]);
    }
  }

  lemma {:induction false} ControlsStay(g: Grid, wire: seq<MidiMessage>)
    ensures var r := ReceiveAll(g, wire); r.filter == g.filter && r.base == g.base && r.alive == g.alive
  {
    if wire != [] {
      ControlsStay(g, wire[..|wire| - 1]);
      ReceiveKeepsControls(ReceiveAll(g, wire[..|wire| - 1]), wire[|wire| - 1]);
    }
  }

  lemma ReceiveKeepsControls(g: Grid, m: MidiMessage)
    ensures var r := Receive(g, m); r.filter == g.filter && r.base == g.base && r.alive == g.alive
  {
    hide ParseCc, DecodeSysex, ByteIndex;
  }

  lemma ReceiveEncodedPacket(g: Grid, packet: seq<uint8>)
    requires packet != [] && g.alive
    ensures Receive(g, EncodePacket(packet)) == PutPacket(g, packet, FromSysex)
  {
    SysexIsNoControlChange(packet);
    SysexIsClean(packet);
    RoundTrip(packet);
    hide EncodePacket, DecodeSysex, PutPacket;
  }

  /** The packet and the grid agree on every byte the grid has. */
  predicate Exact(g: Grid, packet: seq<uint8>) {
    forall i | 0 <= i < |packet| && i < 512 :: g.data[i] == packet[i]
  }

  /** The packet and the grid agree on the upper seven bits. */
  predicate Tracks(g: Grid, packet: seq<uint8>) {
    forall i | 0 <= i < |packet| && i < 512 :: g.data[i] / 2 == packet[i] / 2
  }

  // ---------- Source "SysEx only" ----------

  lemma {:induction false} SysexOnlyIgnoresControlChanges(g: Grid, w: seq<MidiMessage>)
    requires g.filter == SysexOnly && AllControlChanges(w)
    ensures ReceiveAll(g, w) == g
  {
    if w != [] {
      SysexOnlyIgnoresControlChanges(g, w[..|w| - 1]);
      assert w[|w| - 1] in w;
    }
  }

  lemma SentMessagesAreControlChanges(s: Settings, prev: seq<uint8>, cur: seq<uint8>, n: nat)
    ensures var w := Wire(Diff(s, prev, cur)); n <= |w| ==> AllControlChanges(w[..n])
  {
    hide DiffUpTo, Wire;
    DiffInRange(s, prev, cur, Min(|prev|, |cur|));
    RangeGivesControlChanges(Diff(s, prev, cur));
  }

  /** What the grid receives from one handled packet. */
  lemma ReceiveHandled(o: Options, st: BridgeState, packet: seq<uint8>, t: Tick, g: Grid)
    requires packet != [] && g.alive
    ensures var before := ReceiveAll(g, st.wire);
            var shown := if SendsSysex(o, st, packet) && t.sysexOk then PutPacket(before, packet, FromSysex)
                         else before;
            var ccs := Wire(Diff(SettingsOf(o), st.previousReport, packet));
            ReceiveAll(g, Handle(o, st, packet, t).wire) == ReceiveAll(shown, ccs[..Min(|ccs|, t.ccLimit)])
  {
    hide Wire, Diff, EncodePacket, Receive, PutPacket, DebugLines;
    var ccs := Wire(Diff(SettingsOf(o), st.previousReport, packet));
    var sent := ccs[..Min(|ccs|, t.ccLimit)];
    var sysex := if SendsSysex(o, st, packet) && t.sysexOk then [EncodePacket(packet)] else [];
    ControlsStay(g, st.wire);
    assert Handle(o, st, packet, t).wire == st.wire + sysex + sent;
    ReceiveAppend(g, st.wire + sysex, sent);
    ReceiveAppend(g, st.wire, sysex);
    ReceiveEncodedPacket(ReceiveAll(g, st.wire), packet);
    if sysex != [] {
      assert sysex[..0] == [] && ReceiveAll(ReceiveAll(g, st.wire), sysex[..0]) == ReceiveAll(g, st.wire);
    }
  }

  lemma PutPacketIsExact(g: Grid, packet: seq<uint8>)
    requires !Blocked(g.filter, FromSysex)
    ensures Exact(PutPacket(g, packet, FromSysex), packet)
  {
  }

  lemma HandleSysexOnly(o: Options, st: BridgeState, packet: seq<uint8>, t: Tick, g: Grid)
    requires packet != [] && g.alive && g.filter == SysexOnly && Exact(ReceiveAll(g, st.wire), st.previousSysex)
    ensures var next := Handle(o, st, packet, t); Exact(ReceiveAll(g, next.wire), next.previousSysex)
  {
    hide Wire, Diff, EncodePacket, Receive, PutPacket, Exact, DebugLines, ReceiveAll;
    var before := ReceiveAll(g, st.wire);
    ControlsStay(g, st.wire);
    var shown := if SendsSysex(o, st, packet) && t.sysexOk then PutPacket(before, packet, FromSysex) else before;
    PutPacketIsExact(before, packet);
    PutPacketKeepsControls(before, packet);
    var ccs := Wire(Diff(SettingsOf(o), st.previousReport, packet));
    SentMessagesAreControlChanges(SettingsOf(o), st.previousReport, packet, Min(|ccs|, t.ccLimit));
    SysexOnlyIgnoresControlChanges(shown, ccs[..Min(|ccs|, t.ccLimit)]);
    ReceiveHandled(o, st, packet, t, g);
  }

  lemma PutPacketKeepsControls(g: Grid, packet: seq<uint8>)
    ensures var r := PutPacket(g, packet, FromSysex); r.filter == g.filter && r.base == g.base && r.alive == g.alive
  {
  }

  /** Source "SysEx only", every decode mode, sends failing at will, even after the run has ended: the grid shows the
      remembered packet, byte for byte. */
  lemma {:induction false} SysexGridShowsRemembered(o: Options, boot: Start, ticks: seq<Tick>, g: Grid)
    requires g.alive && g.filter == SysexOnly
    ensures Exact(ReceiveAll(g, Run(o, boot, ticks).wire), Run(o, boot, ticks).previousSysex)
  {
    if ticks != [] {
      hide Run, Handle, ReceiveAll, Exact, Packets;
      var init, t := ticks[..|ticks| - 1], ticks[|ticks| - 1];
      SysexGridShowsRemembered(o, boot, init, g);
      LastTick(o, boot, ticks);
      if Run(o, boot, init).exit == Running && BringsPacket(t) {
        HandleSysexOnly(o, Run(o, boot, init), t.read.data, t, g);
      }
    }
  }

  /** After each iteration that brings a packet, the grid shows that packet exactly, unless this very iteration's
      System Exclusive send failed. */
  lemma SysexGridShowsPacket(o: Options, boot: Start, ticks: seq<Tick>, g: Grid)
    requires o.rawSysex && g.alive && g.filter == SysexOnly && ticks != []
    requires Run(o, boot, ticks[..|ticks| - 1]).exit == Running
    requires var t := ticks[|ticks| - 1]; BringsPacket(t)
    ensures var t, before := ticks[|ticks| - 1], Run(o, boot, ticks[..|ticks| - 1]);
            Exact(ReceiveAll(g, Run(o, boot, ticks).wire), t.read.data)
            || (!t.sysexOk && SendsSysex(o, before, t.read.data))
  {
    hide Run, ReceiveAll, Exact, Wire, Diff, EncodePacket, DebugLines, Packets;
    SysexGridShowsRemembered(o, boot, ticks, g);
    LastTick(o, boot, ticks);
  }

  // ---------- Source "Both", Byte mode ----------

  /** No System Exclusive send fails, and no packet exceeds the 2048 byte addresses. */
  predicate Clean(ticks: seq<Tick>) {
    forall t | t in ticks :: t.sysexOk && (t.read.Completed? ==> |t.read.data| <= 2048)
  }

  lemma ReceiveByteEvent(g: Grid, base: uint8, e: Event)
    requires base < 16 && g.alive && g.filter != SysexOnly && (g.base - 1 - base) % 16 == 0
    requires e.index < 2048 && e.address == FallbackAddress(base, e.index) && e.value < 128
    ensures Receive(g, MessageOf(e)) == if e.index < 512 then g.(data := g.data[e.index := e.value * 2]) else g
  {
    RecoverIndex(base, g.base, e.index);
    CastIsHarmless(base, e.index);
    hide FallbackAddress, ByteIndex;
    assert ParseCc(MessageOf(e)) == Some(ControlChange(e.address, e.value));
  }

  lemma ReceiveSnoc(g: Grid, es: seq<Event>, e: Event)
    ensures ReceiveAll(g, Wire(es + [e])) == Receive(ReceiveAll(g, Wire(es)), MessageOf(e))
  {
    hide Receive, MessageOf;
    var w := Wire(es + [e]);
    assert w[..|w| - 1] == Wire(es) && w[|w| - 1] == MessageOf(e);
  }

  lemma TrackOneByte(g: Grid, packet: seq<uint8>, i: nat)
    requires Tracks(g, packet) && i < |packet| && i < 512
    ensures Tracks(g.(data := g.data[i := V7(packet[i]) * 2]), packet)
  {
  }

  lemma {:induction false} ByteEventsKeepTracking(g: Grid, es: seq<Event>, base: uint8, packet: seq<uint8>)
    requires base < 16 && g.alive && g.filter == Both && (g.base - 1 - base) % 16 == 0 && |packet| <= 2048
    requires Tracks(g, packet) && ShowsBytes(es, base, packet)
    ensures Tracks(ReceiveAll(g, Wire(es)), packet)
  {
    if es != [] {
      hide Tracks, Receive, Wire, V7, FallbackAddress;
      var init, e := es[..|es| - 1], es[|es| - 1];
      assert es == init + [e];
      ByteEventsKeepTracking(g, init, base, packet);
      ControlsStay(g, Wire(init));
      ReceiveSnoc(g, init, e);
      ReceiveByteEvent(ReceiveAll(g, Wire(init)), base, e);
      if e.index < 512 {
        TrackOneByte(ReceiveAll(g, Wire(init)), packet, e.index);
      }
    }
  }

  lemma ExactTracks(g: Grid, packet: seq<uint8>)
    requires Exact(g, packet)
    ensures Tracks(g, packet)
  {
  }

  lemma {:induction false} EqualReportsEmitNothing(s: Settings, r: seq<uint8>, n: nat)
    requires n <= |r|
    ensures DiffUpTo(s, r, r, n) == []
  {
    hide DiffUpTo, ByteEvents, BitEvents;
    DiffStep(s, r, r, n);
    if n > 0 {
      EqualReportsEmitNothing(s, r, n - 1);
      EqualBytesEmitNothing(s, n - 1, r[n - 1]);
    }
  }

  lemma HandleBoth(o: Options, st: BridgeState, packet: seq<uint8>, t: Tick, g: Grid)
    requires o.rawSysex && o.mode == ByteMode && o.byteMap == [] && t.sysexOk
    requires g.alive && g.filter == Both && (g.base - 1 - SettingsOf(o).base) % 16 == 0
    requires 0 < |packet| <= 2048 && st.previousSysex == st.previousReport
    requires Tracks(ReceiveAll(g, st.wire), st.previousReport) && Handle(o, st, packet, t).exit == Running
    ensures var next := Handle(o, st, packet, t);
            next.previousSysex == next.previousReport == packet && Tracks(ReceiveAll(g, next.wire), packet)
  {
    hide Wire, DiffUpTo, EncodePacket, Receive, PutPacket, Tracks, Exact, DebugLines, ReceiveAll, ShowsBytes;
    var s, before := SettingsOf(o), ReceiveAll(g, st.wire);
    var events := Diff(s, st.previousReport, packet);
    ControlsStay(g, st.wire);
    ReceiveHandled(o, st, packet, t, g);
    assert Wire(events)[..|Wire(events)|] == Wire(events);
    if SendsSysex(o, st, packet) {
      var shown := PutPacket(before, packet, FromSysex);
      PutPacketIsExact(before, packet);
      PutPacketKeepsControls(before, packet);
      ExactTracks(shown, packet);
      ByteModeShowsBytes(s, st.previousReport, packet, Min(|st.previousReport|, |packet|));
      ByteEventsKeepTracking(shown, events, s.base, packet);
    } else {
      EqualReportsEmitNothing(s, packet, |packet|);
      NothingReceived(before);
    }
  }

  lemma NothingReceived(g: Grid)
    ensures Wire([]) == [] && ReceiveAll(g, []) == g
  {
  }

  /** The window may show any channel number that agrees with the option modulo 16. */
  lemma SameBase(o: Options, base: int)
    ensures (base - 1 - o.baseChannel) % 16 == 0 <==> (base - 1 - SettingsOf(o).base) % 16 == 0
  {
    assert o.baseChannel == SettingsOf(o).base + 16 * (o.baseChannel / 16);
    ModuloDrops(base - 1 - SettingsOf(o).base, o.baseChannel / 16);
  }

  lemma ModuloDrops(x: int, k: int)
    ensures (x - 16 * k) % 16 == 0 <==> x % 16 == 0
  {
  }

  /** End to end: with raw System Exclusive on, Byte mode, any deadzone, matching base channels, source "Both", packets
      of at most 2048 bytes and no failed send, the grid agrees with the last packet on the upper seven bits of every
      byte it has, after every iteration of every run. */
  lemma GridTracksDevice(o: Options, boot: Start, ticks: seq<Tick>, g: Grid)
    requires o.rawSysex && o.mode == ByteMode && o.byteMap == []
    requires g.alive && g.filter == Both && (g.base - 1 - o.baseChannel) % 16 == 0
    requires Clean(ticks)
    requires Run(o, boot, ticks).exit == Running
    ensures var st := Run(o, boot, ticks);
            && st.previousSysex == st.previousReport == LastOf(Packets(ticks))
            && Tracks(ReceiveAll(g, st.wire), LastOf(Packets(ticks)))
  {
    hide Run, ReceiveAll, Tracks, Packets, Clean, SettingsOf;
    SameBase(o, g.base);
    GridFollows(o, boot, ticks, g);
  }

  lemma {:induction false} GridFollows(o: Options, boot: Start, ticks: seq<Tick>, g: Grid)
    requires o.rawSysex && o.mode == ByteMode && o.byteMap == []
    requires g.alive && g.filter == Both && (g.base - 1 - SettingsOf(o).base) % 16 == 0
    requires Clean(ticks)
    requires Run(o, boot, ticks).exit == Running
    ensures var st := Run(o, boot, ticks);
            && st.previousSysex == st.previousReport == LastOf(Packets(ticks))
            && Tracks(ReceiveAll(g, st.wire), LastOf(Packets(ticks)))
  {
    if ticks != [] {
      hide Run, Handle, ReceiveAll, Tracks, Packets;
      var init, t := ticks[..|ticks| - 1], ticks[|ticks| - 1];
      LastTick(o, boot, ticks);
      GridFollows(o, boot, init, g);
      if BringsPacket(t) {
        HandleBoth(o, Run(o, boot, init), t.read.data, t, g);
      }
    } else {
      BootIsQuiet(o, boot);
    }
  }

  // ---------- Byte mode is necessary ----------

  /** In every run without a failing send, and with packets of at most 2048 bytes, the grid tracks the last packet. */
  ghost predicate AlwaysTracks(o: Options, g: Grid) {
    forall boot, ticks | Clean(ticks) && Run(o, boot, ticks).exit == Running ::
      Tracks(ReceiveAll(g, Run(o, boot, ticks).wire), LastOf(Packets(ticks)))
  }

  function PacketTick(packet: seq<uint8>): Tick {
    Tick(Completed(packet), [], true, 1)
  }

  /** Raising the lowest bit of a byte moves no 7-bit value: with a bit view it is one message, on address 0 of the base
      channel, where the window expects the value of byte 0. */
  lemma LowestBitEvents(s: Settings)
    requires HasBitView(s.mode) && s.byteMap == [] && s.bitMap == SHIPPED_BIT_MAP
    ensures Diff(s, [0], [1]) == [Event(0, OfBit(0), FallbackAddress(s.base, 0), 127)]
  {
    hide FallbackAddress, ByteEvents, BitEvents;
    PairStep(s, [0], [1], 0);
    PairStep(s, [0], [1], 1);
    ShippedLookup(0, 0);
    NoMovement(s);
    assert FlipBit(0, 0) == 1 by { assert Xor(0, 1) == 1; }
    BitOfZero(0);
    FlipBitEvents(s, 0, 0, 0, 8);
  }

  lemma NoMovement(s: Settings)
    requires s.byteMap == []
    ensures ByteEvents(s, 0, 0, 1) == []
  {
    hide FallbackAddress;
  }

  lemma RunLowestBit(o: Options) returns (boot: Start, ticks: seq<Tick>)
    requires o.rawSysex && HasBitView(o.mode) && o.byteMap == [] && o.bitMap == SHIPPED_BIT_MAP
    ensures ticks == [PacketTick([0]), PacketTick([1])] && Packets(ticks) == [[0], [1]]
    ensures var before, st := Run(o, boot, ticks[..1]), Run(o, boot, ticks);
            && before.exit == st.exit == Running && before.previousReport == [0] && SendsSysex(o, before, [1])
            && st == Handle(o, before, [1], PacketTick([1]))
  {
    hide EncodePacket, DebugLines, DiffUpTo, Stream, Run;
    boot := Start([Attempt(Opened, true)], true);
    ticks := [PacketTick([0]), PacketTick([1])];
    var one := ticks[..1];
    assert one[..0] == [] && one == [PacketTick([0])];
    BootRuns(o, boot);
    LastTick(o, boot, one);
    assert Diff(SettingsOf(o), [], [0]) == [] by { PairStep(SettingsOf(o), [], [0], 0); }
    LastTick(o, boot, ticks);
    LowestBitEvents(SettingsOf(o));
  }

  lemma BootRuns(o: Options, boot: Start)
    requires boot == Start([Attempt(Opened, true)], true)
    ensures var st := Run(o, boot, []);
            st.exit == Running && st.previousReport == [] && st.previousSysex == [] && Packets([]) == []
  {
  }

  lemma BitViewLosesTrack(o: Options, g: Grid)
    requires o.rawSysex && HasBitView(o.mode) && o.byteMap == [] && o.bitMap == SHIPPED_BIT_MAP
    requires g.alive && g.filter == Both && (g.base - 1 - SettingsOf(o).base) % 16 == 0
    ensures !AlwaysTracks(o, g)
  {
    hide Run, Wire, Diff, EncodePacket, DebugLines, Receive, FallbackAddress, PutPacket;
    var s := SettingsOf(o);
    var boot, ticks := RunLowestBit(o);
    var before := Run(o, boot, ticks[..1]);
    var shown := PutPacket(ReceiveAll(g, before.wire), [1], FromSysex);
    ControlsStay(g, before.wire);
    PutPacketKeepsControls(ReceiveAll(g, before.wire), [1]);
    LowestBitEvents(s);
    var e := Event(0, OfBit(0), FallbackAddress(s.base, 0), 127);
    ReceiveHandled(o, before, [1], PacketTick([1]), g);
    OneMessage(shown, e);
    ReceiveByteEvent(shown, s.base, e);
    assert ReceiveAll(g, Run(o, boot, ticks).wire).data[0] == 254;
    assert LastOf(Packets(ticks)) == [1];
    assert !Tracks(ReceiveAll(g, Run(o, boot, ticks).wire), [1]);
  }

  lemma OneMessage(g: Grid, e: Event)
    ensures |Wire([e])| == 1 && ReceiveAll(g, Wire([e])[..1]) == Receive(g, MessageOf(e))
  {
    hide Receive, MessageOf;
    var w := Wire([e]);
    assert w[..1] == w && w[..0] == [] && ReceiveAll(g, w[..0]) == g;
  }

  /** With the shipped tables and source "Both", the grid tracks the device on every run exactly in Byte mode: bit
      messages use the same addresses as byte messages. */
  lemma GridTracksIff(o: Options, g: Grid)
    requires o.rawSysex && o.byteMap == SHIPPED_BYTE_MAP && o.bitMap == SHIPPED_BIT_MAP
    requires g.alive && g.filter == Both && (g.base - 1 - o.baseChannel) % 16 == 0
    ensures AlwaysTracks(o, g) <==> o.mode == ByteMode
  {
    if o.mode == ByteMode {
      forall boot, ticks | Clean(ticks) && Run(o, boot, ticks).exit == Running
        ensures Tracks(ReceiveAll(g, Run(o, boot, ticks).wire), LastOf(Packets(ticks)))
      {
        GridTracksDevice(o, boot, ticks, g);
      }
    } else {
      SameBase(o, g.base);
      BitViewLosesTrack(o, g);
    }
  }

  // ---------- Source "CC only", Byte mode ----------

  lemma CcOnlyIgnoresSysex(g: Grid, m: MidiMessage)
    requires g.filter == CcOnly && !IsControlChange(m)
    ensures Receive(g, m) == g
  {
    hide DecodeSysex, ParseCc;
  }

  lemma {:induction false} CcOnlyReceives(g: Grid, wire: seq<MidiMessage>)
    requires g.filter == CcOnly
    ensures ReceiveAll(g, wire) == ReceiveAll(g, ControlChanges(wire))
  {
    hide Receive, IsControlChange;
    if wire != [] {
      var init, m := wire[..|wire| - 1], wire[|wire| - 1];
      CcOnlyReceives(g, init);
      ControlsStay(g, init);
      if IsControlChange(m) {
        var kept := ControlChanges(init) + [m];
        assert kept[..|kept| - 1] == ControlChanges(init);
      } else {
        assert ControlChanges(wire) == ControlChanges(init);
        CcOnlyIgnoresSysex(ReceiveAll(g, init), m);
      }
    }
  }

  /** Twice the last value sent for byte i, or `start` if there is none. */
  function LastShown(es: seq<Event>, i: nat, start: nat): nat {
    var vs := ValuesAt(es, i, OfByte);
    if vs == [] then start else 2 * vs[|vs| - 1]
  }

  lemma LastShownStep(es: seq<Event>, e: Event, i: nat, start: nat)
    ensures LastShown(es + [e], i, start)
         == if e.index == i && e.view == OfByte then 2 * e.value else LastShown(es, i, start)
  {
    hide ValuesAt;
    ValuesAtSnoc(es, e, i, OfByte);
  }

  lemma NothingShown(i: nat, start: nat)
    ensures LastShown([], i, start) == start
  {
  }

  lemma {:induction false} CellHoldsLastValue(g: Grid, es: seq<Event>, base: uint8, i: nat)
    requires base < 16 && g.alive && g.filter == CcOnly && (g.base - 1 - base) % 16 == 0 && i < 512
    requires OnFallback(es, base)
    ensures ReceiveAll(g, Wire(es)).data[i] == LastShown(es, i, g.data[i])
  {
    hide LastShown, ValuesAt;
    if es == [] {
      NothingReceived(g);
      NothingShown(i, g.data[i]);
    } else {
      hide Receive, Wire, FallbackAddress, ReceiveAll;
      var init, e := es[..|es| - 1], es[|es| - 1];
      assert es == init + [e];
      LastShownStep(init, e, i, g.data[i]);
      CellHoldsLastValue(g, init, base, i);
      ControlsStay(g, Wire(init));
      ReceiveSnoc(g, init, e);
      ReceiveByteEvent(ReceiveAll(g, Wire(init)), base, e);
    }
  }

  /** Byte-mode mirror: with source "CC only", a cell holds twice the last value sent for its byte, and what it held
      before while none has been sent. */
  lemma CellMirrorsStream(o: Options, boot: Start, ticks: seq<Tick>, g: Grid, i: nat)
    requires o.mode == ByteMode && o.byteMap == [] && i < 512
    requires g.alive && g.filter == CcOnly && (g.base - 1 - o.baseChannel) % 16 == 0
    requires forall p | p in Packets(ticks) :: |p| <= 2048
    requires Run(o, boot, ticks).exit == Running
    ensures ReceiveAll(g, Run(o, boot, ticks).wire).data[i]
         == LastShown(Stream(SettingsOf(o), Packets(ticks)), i, g.data[i])
  {
    hide Run, Packets, Stream, Wire, Filter, ReceiveAll, LastShown, OnFallback;
    CcOnlyReceives(g, Run(o, boot, ticks).wire);
    ControlChangesRefineDecoder(o, boot, ticks);
    StreamOnFallback(SettingsOf(o), Packets(ticks));
    SameBase(o, g.base);
    CellHoldsLastValue(g, Stream(SettingsOf(o), Packets(ticks)), SettingsOf(o).base, i);
  }

  /** A cell whose byte has been sent at least once is off by at most the deadzone for each packet since; with
      deadzone 0 it holds the byte with its lowest bit cleared. */
  lemma CellDrift(o: Options, boot: Start, ticks: seq<Tick>, g: Grid, i: nat)
    requires o.mode == ByteMode && o.byteMap == [] && i < 512
    requires g.alive && g.filter == CcOnly && (g.base - 1 - o.baseChannel) % 16 == 0
    requires Packets(ticks) != [] && forall p | p in Packets(ticks) :: i < |p| <= 2048
    requires Run(o, boot, ticks).exit == Running
    requires ValuesAt(Stream(SettingsOf(o), Packets(ticks)), i, OfByte) != []
    ensures var s, cell := SettingsOf(o), ReceiveAll(g, Run(o, boot, ticks).wire).data[i];
            var byte := LastOf(Packets(ticks))[i];
            && Gap(cell / 2, byte / 2) <= s.deadzone * QuietReports(s, Packets(ticks), i)
            && (s.deadzone == 0 ==> cell == byte - byte % 2)
  {
    hide Run, Packets, Stream, ReceiveAll, QuietReports, ValuesAt;
    CellMirrorsStream(o, boot, ticks, g, i);
    DriftBound(SettingsOf(o), Packets(ticks), i);
    assert EffectiveDeadzone(SettingsOf(o), i) == SettingsOf(o).deadzone;
  }
}
