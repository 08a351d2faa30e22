/** What every run of the bridge keeps, whatever the device, the driver and the MIDI port answer. */
module BridgeRuns {
  import opened Bits
  import opened Sequences
  import opened Midi
  import opened Protocol
  import opened HybridView
  import opened RawSysEx
  import opened Usb
  import opened DebugView
  import opened Bridge

  // ---------- The device handle ----------

  /** Connecting succeeds exactly when some attempt opens and initialises before any finds several devices. */
  lemma {:induction false} ConnectSucceedsIff(st: DeviceState, attempts: seq<Attempt>)
    ensures ConnectState(st, attempts).1 <==> Connects(attempts)
    decreases |attempts|
  {
    if attempts != [] && !Succeeds(attempts[0]) && attempts[0].open != Multiple {
      var rest := attempts[1..];
      ConnectSucceedsIff(OpenState(CloseState(st), attempts[0].open), rest);
      if i :| 0 <= i < |attempts| && attempts[i].open == Opened && attempts[i].initOk
              && forall j | 0 <= j < i :: attempts[j].open != Multiple
      {
        assert rest[i - 1] == attempts[i] && forall j | 0 <= j < i - 1 :: rest[j].open != Multiple;
      }
      if i :| 0 <= i < |rest| && rest[i].open == Opened && rest[i].initOk
              && forall j | 0 <= j < i :: rest[j].open != Multiple
      {
        assert attempts[i + 1] == rest[i];
        forall j | 0 <= j < i + 1
          ensures attempts[j].open != Multiple
        {
          assert j > 0 ==> attempts[j] == rest[j - 1];
        }
      }
    } else if attempts != [] && Succeeds(attempts[0]) {
      assert Connects(attempts);
    }
  }

  lemma {:induction false} ConnectKeepsBalance(st: DeviceState, attempts: seq<Attempt>)
    requires Balanced(st)
    ensures var (device, ok) := ConnectState(st, attempts);
            Balanced(device) && (ok ==> device.handle && !device.disconnected)
    decreases |attempts|
  {
    if attempts != [] {
      OpenKeepsBalanceIff(CloseState(st), attempts[0].open);
      ConnectKeepsBalance(OpenState(CloseState(st), attempts[0].open), attempts[1..]);
    }
  }

  /** Handle conservation over every run: opens minus closes is 1 while a handle is held and 0 otherwise, a lost device
      still holds its handle, and a running bridge holds a handle that is not lost. */
  lemma {:induction false} HandleConservation(o: Options, boot: Start, ticks: seq<Tick>)
    ensures var st := Run(o, boot, ticks);
            Balanced(st.device) && (st.exit == Running ==> st.device.handle && !st.device.disconnected)
  {
    if ticks == [] {
      ConnectKeepsBalance(CLOSED, boot.attempts);
    } else {
      hide Diff, Wire, EncodePacket, DebugLines, ConnectState, Run;
      var n := |ticks|;
      var before, t := Run(o, boot, ticks[..n - 1]), ticks[n - 1];
      HandleConservation(o, boot, ticks[..n - 1]);
      ConnectKeepsBalance(ReadState(before.device, t.read), t.attempts);
      RunLast(o, boot, ticks);
    }
  }

  lemma RunLast(o: Options, boot: Start, ticks: seq<Tick>)
    requires ticks != []
    ensures Run(o, boot, ticks) == Step(o, Run(o, boot, ticks[..|ticks| - 1]), ticks[|ticks| - 1])
    ensures var t, rest := ticks[|ticks| - 1], Packets(ticks[..|ticks| - 1]);
            Packets(ticks) == if BringsPacket(t) then rest + [t.read.data] else rest
  {
    hide Step;
  }

  /** The transfer finds the device gone. */
  predicate Loses(t: Tick) {
    t.read == NoDevice || t.read == IoError
  }

  /** A tick of a running bridge changes more than the device state only if it brings a non-empty packet or loses
      the device. */
  lemma StepCases(o: Options, st: BridgeState, t: Tick)
    requires st.exit == Running && st.device.handle && !st.device.disconnected
    ensures BringsPacket(t) ==> Step(o, st, t) == Handle(o, st, t.read.data, t)
    ensures !BringsPacket(t) ==>
              var next := Step(o, st, t);
              && next.previousReport == st.previousReport && next.previousSysex == st.previousSysex
              && next.printed == st.printed && next.wire == st.wire
              && (!Loses(t) ==> next.previousDebug == st.previousDebug)
              && (Loses(t) && next.exit == Running ==> next.previousDebug == [])
  {
    hide Handle, ConnectState;
    assert st.(device := st.device) == st;
  }

  /** The last tick of a run: a packet handled by a running bridge, or nothing new on any output. */
  lemma LastTick(o: Options, boot: Start, ticks: seq<Tick>)
    requires ticks != []
    ensures var init, t := ticks[..|ticks| - 1], ticks[|ticks| - 1];
            var before, after := Run(o, boot, init), Run(o, boot, ticks);
            && Packets(ticks) == Packets(init) + (if BringsPacket(t) then [t.read.data] else [])
            && (before.exit != Running ==> after == before)
            && (before.exit == Running && BringsPacket(t) ==> after == Handle(o, before, t.read.data, t))
            && (before.exit == Running && !BringsPacket(t) ==>
                  && after.previousReport == before.previousReport && after.previousSysex == before.previousSysex
                  && after.printed == before.printed && after.wire == before.wire
                  && (!Loses(t) ==> after.previousDebug == before.previousDebug)
                  && (Loses(t) && after.exit == Running ==> after.previousDebug == []))
  {
    hide Handle, ConnectState, Run, Step, Packets;
    var init, t := ticks[..|ticks| - 1], ticks[|ticks| - 1];
    var before := Run(o, boot, init);
    HandleConservation(o, boot, init);
    RunLast(o, boot, ticks);
    if before.exit != Running {
      StoppedStep(o, before, t);
    } else {
      StepCases(o, before, t);
    }
  }

  // ---------- The Control Change stream ----------

  predicate IsControlChange(m: MidiMessage) {
    ParseCc(m).Some?
  }

  predicate IsSysex(m: MidiMessage) {
    m != [] && m[0] == 0xF0
  }

  function ControlChanges(wire: seq<MidiMessage>): seq<MidiMessage> {
    Filter(IsControlChange, wire)
  }

  function Sysexes(wire: seq<MidiMessage>): seq<MidiMessage> {
    Filter(IsSysex, wire)
  }

  predicate AllControlChanges(w: seq<MidiMessage>) {
    forall m | m in w :: IsControlChange(m) && !IsSysex(m)
  }

  predicate InRange(es: seq<Event>) {
    forall e | e in es :: e.address.channel < 16 && e.address.controller < 128 && e.value < 128
  }

  lemma {:induction false} BitEventsInRange(s: Settings, i: nat, prev: uint8, cur: uint8, n: nat)
    ensures InRange(BitEvents(s, i, prev, cur, n))
  {
    hide Bit;
    if n > 0 {
      BitEventsInRange(s, i, prev, cur, n - 1);
    }
  }

  lemma ByteEventsInRange(s: Settings, i: nat, prev: uint8, cur: uint8)
    ensures InRange(ByteEvents(s, i, prev, cur))
  {
    hide Delta;
  }

  lemma {:induction false} DiffInRange(s: Settings, prev: seq<uint8>, cur: seq<uint8>, n: nat)
    requires n <= |prev| && n <= |cur|
    ensures InRange(DiffUpTo(s, prev, cur, n))
  {
    hide DiffUpTo, ByteEvents, BitEvents;
    DiffStep(s, prev, cur, n);
    if n > 0 {
      DiffInRange(s, prev, cur, n - 1);
      ByteEventsInRange(s, n - 1, prev[n - 1], cur[n - 1]);
      BitEventsInRange(s, n - 1, prev[n - 1], cur[n - 1], 8);
    }
  }

  lemma RangeGivesControlChanges(es: seq<Event>)
    requires InRange(es)
    ensures AllControlChanges(Wire(es))
  {
    forall m | m in Wire(es)
      ensures IsControlChange(m) && !IsSysex(m)
    {
      var j :| 0 <= j < |es| && m == MessageOf(es[j]);
    }
  }

  lemma DiffIsControlChanges(s: Settings, prev: seq<uint8>, cur: seq<uint8>, n: nat)
    ensures var w := Wire(Diff(s, prev, cur));
            n <= |w| ==> ControlChanges(w[..n]) == w[..n] && Sysexes(w[..n]) == []
  {
    hide DiffUpTo, Wire;
    DiffInRange(s, prev, cur, Min(|prev|, |cur|));
    RangeGivesControlChanges(Diff(s, prev, cur));
    var w := Wire(Diff(s, prev, cur));
    if n <= |w| {
      assert forall m | m in w[..n] :: m in w;
      FilterAll(IsControlChange, w[..n]);
      FilterNone(IsSysex, w[..n]);
    }
  }

  lemma SysexIsNoControlChange(packet: seq<uint8>)
    ensures IsSysex(EncodePacket(packet)) && !IsControlChange(EncodePacket(packet))
  {
  }

  /** How one handled packet extends the two parts of the wire. */
  lemma HandleWire(o: Options, st: BridgeState, packet: seq<uint8>, t: Tick)
    ensures var next, ccs := Handle(o, st, packet, t), Wire(Diff(SettingsOf(o), st.previousReport, packet));
            && ControlChanges(next.wire) == ControlChanges(st.wire) + ccs[..Min(|ccs|, t.ccLimit)]
            && Sysexes(next.wire) == Sysexes(st.wire)
                 + if SendsSysex(o, st, packet) && t.sysexOk then [EncodePacket(packet)] else []
  {
    hide Wire, Diff, EncodePacket, Filter, IsControlChange, IsSysex;
    var ccs := Wire(Diff(SettingsOf(o), st.previousReport, packet));
    var sent := ccs[..Min(|ccs|, t.ccLimit)];
    var sysex := if SendsSysex(o, st, packet) && t.sysexOk then [EncodePacket(packet)] else [];
    assert Handle(o, st, packet, t).wire == st.wire + sysex + sent;
    DiffIsControlChanges(SettingsOf(o), st.previousReport, packet, Min(|ccs|, t.ccLimit));
    SysexIsNoControlChange(packet);
    FilterOne(IsControlChange, sysex);
    FilterOne(IsSysex, sysex);
    FilterAppend(IsControlChange, st.wire, sysex);
    FilterAppend(IsControlChange, st.wire + sysex, sent);
    FilterAppend(IsSysex, st.wire, sysex);
    FilterAppend(IsSysex, st.wire + sysex, sent);
  }

  lemma FilterOne<T>(keep: T -> bool, s: seq<T>)
    requires |s| <= 1
    ensures Filter(keep, s) == if s != [] && keep(s[0]) then s else []
  {
    if s != [] {
      assert s[..0] == [] && s == [s[0]];
    }
  }

  /** Bridge refinement: whatever happens around it, the Control Changes on the wire are a prefix of what the decoder
      emits for the non-empty packets alone; all of it while the bridge runs. The last non-empty packet is always the
      decoder's baseline for the next, across timeouts, empty reads, disconnects and reconnects; so the baseline is
      taken only once. */
  lemma {:induction false} ControlChangesRefineDecoder(o: Options, boot: Start, ticks: seq<Tick>)
    ensures var st, full := Run(o, boot, ticks), Wire(Stream(SettingsOf(o), Packets(ticks)));
            && ControlChanges(st.wire) <= full
            && (st.exit == Running ==> ControlChanges(st.wire) == full && st.previousReport == LastOf(Packets(ticks)))
  {
    if ticks != [] {
      hide Filter, Wire, Diff, EncodePacket, DebugLines, Run, Stream, Packets;
      var s, init, t := SettingsOf(o), ticks[..|ticks| - 1], ticks[|ticks| - 1];
      ControlChangesRefineDecoder(o, boot, init);
      LastTick(o, boot, ticks);
      if BringsPacket(t) {
        StreamAppend(s, Packets(init), t.read.data);
        WireAppend(Stream(s, Packets(init)), Diff(s, LastOf(Packets(init)), t.read.data));
        HandleWire(o, Run(o, boot, init), t.read.data, t);
      }
    } else {
      BootIsQuiet(o, boot);
    }
  }

  lemma StoppedStep(o: Options, st: BridgeState, t: Tick)
    requires st.exit != Running
    ensures Step(o, st, t) == st
  {
  }

  lemma BootIsQuiet(o: Options, boot: Start)
    ensures var st := Run(o, boot, []);
            && st.wire == [] && ControlChanges([]) == [] && Sysexes([]) == []
            && Wire(Stream(SettingsOf(o), Packets([]))) == [] && st.previousReport == LastOf(Packets([]))
  {
  }

  // ---------- When the bridge keeps running ----------

  /** Some attempt opens and initialises before any finds several devices. */
  ghost predicate Connects(attempts: seq<Attempt>) {
    exists i :: 0 <= i < |attempts| && attempts[i].open == Opened && attempts[i].initOk
                && forall j | 0 <= j < i :: attempts[j].open != Multiple
  }

  /** No fatal read error; a lost device comes back; and every Control Change of the packet is accepted. */
  ghost predicate Survives(s: Settings, before: seq<seq<uint8>>, t: Tick) {
    && t.read != OtherError
    && (Loses(t) ==> Connects(t.attempts))
    && (BringsPacket(t) ==> |Diff(s, LastOf(before), t.read.data)| <= t.ccLimit)
  }

  lemma StepSurvives(o: Options, st: BridgeState, t: Tick, before: seq<seq<uint8>>)
    requires st.exit == Running && st.device.handle && !st.device.disconnected && st.previousReport == LastOf(before)
    ensures Step(o, st, t).exit == Running <==> Survives(SettingsOf(o), before, t)
  {
    hide Diff, EncodePacket, DebugLines, ConnectState, Connects;
    ConnectSucceedsIff(ReadState(st.device, t.read), t.attempts);
    WireLength(Diff(SettingsOf(o), st.previousReport, if BringsPacket(t) then t.read.data else []));
    assert st.(device := st.device) == st;
  }

  lemma WireLength(es: seq<Event>)
    ensures |Wire(es)| == |es|
  {
  }

  /** The bridge is running after a script exactly if it connected at the start, the MIDI ports were
      created and every tick was survivable; a failing
      System Exclusive send, a timeout, an empty read or a loss followed by a reconnect never stops it. */
  lemma {:induction false} RunningIff(o: Options, boot: Start, ticks: seq<Tick>)
    ensures Run(o, boot, ticks).exit == Running
       <==> && Connects(boot.attempts) && boot.midiOk
            && forall i | 0 <= i < |ticks| :: Survives(SettingsOf(o), Packets(ticks[..i]), ticks[i])
  {
    hide ConnectState, Connects, Survives, Step, Packets, Run, Stream;
    if ticks == [] {
      RunningAtBoot(o, boot);
    } else {
      var n := |ticks|;
      var init, t := ticks[..n - 1], ticks[n - 1];
      var s, before := SettingsOf(o), Run(o, boot, init);
      RunningIff(o, boot, init);
      assert forall i | 0 <= i < n - 1 :: init[..i] == ticks[..i] && init[i] == ticks[i];
      LastTick(o, boot, ticks);
      if before.exit == Running {
        HandleConservation(o, boot, init);
        ControlChangesRefineDecoder(o, boot, init);
        RunLast(o, boot, ticks);
        StepSurvives(o, before, t, Packets(init));
      } else if Connects(boot.attempts) && boot.midiOk {
        var i :| 0 <= i < n - 1 && !Survives(s, Packets(init[..i]), init[i]);
        assert !Survives(s, Packets(ticks[..i]), ticks[i]);
      }
    }
  }

  lemma RunningAtBoot(o: Options, boot: Start)
    ensures Run(o, boot, []).exit == Running <==> Connects(boot.attempts) && boot.midiOk
  {
    ConnectSucceedsIff(CLOSED, boot.attempts);
  }

  /** Tick i is the first that is not survived. */
  ghost predicate FirstFatal(s: Settings, ticks: seq<Tick>, i: nat) {
    && i < |ticks| && !Survives(s, Packets(ticks[..i]), ticks[i])
    && forall j | 0 <= j < i :: Survives(s, Packets(ticks[..j]), ticks[j])
  }

  lemma FatalEarlier(s: Settings, ticks: seq<Tick>, i: nat)
    requires FirstFatal(s, ticks, i) && i < |ticks| - 1
    ensures FirstFatal(s, ticks[..|ticks| - 1], i)
  {
    hide Survives, Packets;
    var init := ticks[..|ticks| - 1];
    assert forall j | 0 <= j <= i :: init[..j] == ticks[..j];
  }

  lemma FatalNow(o: Options, boot: Start, ticks: seq<Tick>)
    requires ticks != [] && FirstFatal(SettingsOf(o), ticks, |ticks| - 1) && Connects(boot.attempts) && boot.midiOk
    ensures Run(o, boot, ticks[..|ticks| - 1]).exit == Running
    ensures !Survives(SettingsOf(o), Packets(ticks[..|ticks| - 1]), ticks[|ticks| - 1])
  {
    hide Survives, Packets, Run, Connects;
    var init := ticks[..|ticks| - 1];
    assert forall j | 0 <= j < |init| :: init[..j] == ticks[..j];
    RunningIff(o, boot, init);
  }

  /** How a run ends: with code 1 if it never connects; by an exception if the MIDI ports cannot be created; and at the
      first tick that is not survived, with code 0 if that tick lost the device for good, otherwise by an exception. */
  lemma {:induction false} ExitMeaning(o: Options, boot: Start, ticks: seq<Tick>)
    ensures var exit := Run(o, boot, ticks).exit;
            && (!Connects(boot.attempts) ==> exit == Returned(1))
            && (Connects(boot.attempts) && !boot.midiOk ==> exit == Threw)
            && (Connects(boot.attempts) && boot.midiOk ==>
                  forall i: nat | i < |ticks| && FirstFatal(SettingsOf(o), ticks, i) ::
                    exit == if ticks[i].read in {NoDevice, IoError} then Returned(0) else Threw)
  {
    hide ConnectState, Connects, Survives, Step, Packets, Run, Stream, FirstFatal;
    if ticks == [] {
      ExitAtBoot(o, boot);
    } else {
      var init, t := ticks[..|ticks| - 1], ticks[|ticks| - 1];
      ExitMeaning(o, boot, init);
      LastTick(o, boot, ticks);
      RunningIff(o, boot, init);
      forall i: nat | i < |ticks| && Connects(boot.attempts) && boot.midiOk && FirstFatal(SettingsOf(o), ticks, i)
        ensures Run(o, boot, ticks).exit == if ticks[i].read in {NoDevice, IoError} then Returned(0) else Threw
      {
        ExitAtFatal(o, boot, ticks, i);
      }
    }
  }

  lemma ExitAtFatal(o: Options, boot: Start, ticks: seq<Tick>, i: nat)
    requires FirstFatal(SettingsOf(o), ticks, i) && Connects(boot.attempts) && boot.midiOk
    requires var init := ticks[..|ticks| - 1];
             forall k: nat | k < |init| && FirstFatal(SettingsOf(o), init, k) ::
               Run(o, boot, init).exit == if init[k].read in {NoDevice, IoError} then Returned(0) else Threw
    ensures Run(o, boot, ticks).exit == if ticks[i].read in {NoDevice, IoError} then Returned(0) else Threw
  {
    hide ConnectState, Connects, Survives, Step, Packets, Run, Stream;
    assert i < |ticks|;
    hide FirstFatal;
    var init, t := ticks[..|ticks| - 1], ticks[|ticks| - 1];
    LastTick(o, boot, ticks);
    if i < |init| {
      FatalEarlier(SettingsOf(o), ticks, i);
      assert init[i] == ticks[i];
    } else {
      FatalNow(o, boot, ticks);
      HandleConservation(o, boot, init);
      ControlChangesRefineDecoder(o, boot, init);
      RunLast(o, boot, ticks);
      StepExits(o, Run(o, boot, init), t, Packets(init));
    }
  }

  lemma StepExits(o: Options, st: BridgeState, t: Tick, before: seq<seq<uint8>>)
    requires st.exit == Running && st.device.handle && !st.device.disconnected && st.previousReport == LastOf(before)
    requires !Survives(SettingsOf(o), before, t)
    ensures Step(o, st, t).exit == if t.read in {NoDevice, IoError} then Returned(0) else Threw
  {
    StepSurvives(o, st, t, before);
    hide Diff, EncodePacket, DebugLines, ConnectState, Survives;
  }

  lemma ExitAtBoot(o: Options, boot: Start)
    ensures var exit := Run(o, boot, []).exit;
            exit == if !Connects(boot.attempts) then Returned(1) else if !boot.midiOk then Threw else Running
  {
    ConnectSucceedsIff(CLOSED, boot.attempts);
  }

  // ---------- One tick on the wire ----------

  /** What a packet adds to the wire of a running bridge, in terms of the wire alone: first its System Exclusive
      message, if the option is set, it is accepted and it is not the one delivered last; then the decoder's messages
      against the packet before, up to the first that is not accepted. Any other tick adds nothing. */
  lemma TickOnTheWire(o: Options, boot: Start, ticks: seq<Tick>)
    requires ticks != [] && Run(o, boot, ticks[..|ticks| - 1]).exit == Running
    ensures var init, t := ticks[..|ticks| - 1], ticks[|ticks| - 1];
            var before, after := Run(o, boot, init).wire, Run(o, boot, ticks).wire;
            if BringsPacket(t) then
              var last, sysex := Sysexes(before), EncodePacket(t.read.data);
              var ccs := Wire(Diff(SettingsOf(o), LastOf(Packets(init)), t.read.data));
              var delivered := o.rawSysex && t.sysexOk && (last == [] || last[|last| - 1] != sysex);
              after == before + (if delivered then [sysex] else []) + ccs[..Min(|ccs|, t.ccLimit)]
            else after == before
  {
    hide Sysexes, Wire, Diff, EncodePacket, DebugLines, Run, Packets;
    var init, t := ticks[..|ticks| - 1], ticks[|ticks| - 1];
    var before := Run(o, boot, init);
    LastTick(o, boot, ticks);
    SysexDeduplication(o, boot, init);
    ControlChangesRefineDecoder(o, boot, init);
    if BringsPacket(t) && before.previousSysex != t.read.data && before.previousSysex != [] {
      if EncodePacket(before.previousSysex) == EncodePacket(t.read.data) {
        EncodeIsInjective(before.previousSysex, t.read.data);
      }
    }
  }

  // ---------- Raw System Exclusive ----------

  lemma EncodeIsInjective(a: seq<uint8>, b: seq<uint8>)
    requires EncodePacket(a) == EncodePacket(b)
    ensures a == b
  {
    hide DecodeSysex, Nibbles;
    SysexIsClean(a);
    SysexIsClean(b);
    RoundTrip(a);
    RoundTrip(b);
  }

  /** The deliveries so far: none repeats the one before it, and the remembered packet is the last one delivered. */
  ghost predicate Deduplicated(sysexes: seq<MidiMessage>, remembered: seq<uint8>) {
    && (forall j | 0 < j < |sysexes| :: sysexes[j] != sysexes[j - 1])
    && (remembered == [] <==> sysexes == [])
    && (sysexes != [] ==> sysexes[|sysexes| - 1] == EncodePacket(remembered))
  }

  lemma DeduplicatedStep(sysexes: seq<MidiMessage>, remembered: seq<uint8>, packet: seq<uint8>)
    requires Deduplicated(sysexes, remembered) && packet != remembered && packet != []
    ensures Deduplicated(sysexes + [EncodePacket(packet)], packet)
  {
    if EncodePacket(packet) == EncodePacket(remembered) {
      EncodeIsInjective(packet, remembered);
    }
  }

  lemma HandleDeduplicates(o: Options, st: BridgeState, packet: seq<uint8>, t: Tick)
    requires packet != [] && Deduplicated(Sysexes(st.wire), st.previousSysex)
    ensures Deduplicated(Sysexes(Handle(o, st, packet, t).wire), Handle(o, st, packet, t).previousSysex)
  {
    hide Sysexes, Wire, Diff, EncodePacket, DebugLines, Deduplicated;
    HandleWire(o, st, packet, t);
    if SendsSysex(o, st, packet) && t.sysexOk {
      DeduplicatedStep(Sysexes(st.wire), st.previousSysex, packet);
    } else {
      assert Sysexes(Handle(o, st, packet, t).wire) == Sysexes(st.wire);
    }
  }

  /** De-duplication over every run, with sends failing at will: no two consecutive deliveries are equal, and
      `previous_raw_sysex_packet` is the packet delivered last. It survives reconnects. */
  lemma {:induction false} SysexDeduplication(o: Options, boot: Start, ticks: seq<Tick>)
    ensures Deduplicated(Sysexes(Run(o, boot, ticks).wire), Run(o, boot, ticks).previousSysex)
  {
    if ticks == [] {
      BootIsQuiet(o, boot);
    } else {
      hide Sysexes, Handle, Run, Deduplicated;
      var init, t := ticks[..|ticks| - 1], ticks[|ticks| - 1];
      var before := Run(o, boot, init);
      SysexDeduplication(o, boot, init);
      LastTick(o, boot, ticks);
      if before.exit == Running && BringsPacket(t) {
        HandleDeduplicates(o, before, t.read.data, t);
      }
    }
  }

  // ---------- The debug printout ----------

  /** The last packet since the device was last lost. */
  function SessionPacket(ticks: seq<Tick>): seq<uint8> {
    if ticks == [] then []
    else
      var t := ticks[|ticks| - 1];
      if Loses(t) then [] else if BringsPacket(t) then t.read.data else SessionPacket(ticks[..|ticks| - 1])
  }

  /** The differences between successive packets of the same session. */
  function SessionEvents(s: Settings, ticks: seq<Tick>): seq<Event> {
    if ticks == [] then []
    else
      var init, t := ticks[..|ticks| - 1], ticks[|ticks| - 1];
      if BringsPacket(t) then SessionEvents(s, init) + Diff(s, SessionPacket(init), t.read.data)
      else SessionEvents(s, init)
  }

  /** The unfiltered debug printout of a running bridge is, bit for bit and in order, what a Bit-mode decoder would emit
      if it took a new baseline after every loss of the device; whatever mode the bridge itself decodes in. */
  lemma {:induction false} PrintoutIsSessionEvents(o: Options, boot: Start, ticks: seq<Tick>)
    requires o.inputDebug && !o.buttonsOnly && Run(o, boot, ticks).exit == Running
    ensures var s := InMode(SettingsOf(o), BitMode);
            Triples(Run(o, boot, ticks).printed) == TriplesOf(s, SessionEvents(s, ticks))
    ensures Run(o, boot, ticks).previousDebug == SessionPacket(ticks)
  {
    if ticks != [] {
      var s := InMode(SettingsOf(o), BitMode);
      hide Wire, Diff, EncodePacket, DebugLines, Run, Packets, Triples, TriplesOf;
      var init, t := ticks[..|ticks| - 1], ticks[|ticks| - 1];
      var before, prev := Run(o, boot, init), SessionPacket(init);
      LastTick(o, boot, ticks);
      PrintoutIsSessionEvents(o, boot, init);
      if BringsPacket(t) {
        TriplesOfAppend(s, SessionEvents(s, init), Diff(s, prev, t.read.data));
        DebugAgrees(s, prev, t.read.data);
        TriplesAppend(before.printed, DebugLines(prev, t.read.data, false));
        if prev == [] {
          NothingFromEmpty(s, t.read.data);
        }
      }
    } else {
      BootPrintsNothing(o, boot);
    }
  }

  /** While the device is never lost there is one session, and its events are those of the decoder's run. */
  lemma {:induction false} OneSessionIsStream(s: Settings, ticks: seq<Tick>)
    requires forall t | t in ticks :: !Loses(t)
    ensures SessionEvents(s, ticks) == Stream(s, Packets(ticks)) && SessionPacket(ticks) == LastOf(Packets(ticks))
  {
    hide Diff, Stream;
    if ticks != [] {
      var init, t := ticks[..|ticks| - 1], ticks[|ticks| - 1];
      OneSessionIsStream(s, init);
      if BringsPacket(t) {
        StreamAppend(s, Packets(init), t.read.data);
      }
    } else {
      StreamOfOne(s, []);
    }
  }

  /** Each packet of a session with the one before it. */
  function SessionPairs(ticks: seq<Tick>): seq<(seq<uint8>, seq<uint8>)> {
    if ticks == [] then []
    else
      var init, t := ticks[..|ticks| - 1], ticks[|ticks| - 1];
      if BringsPacket(t) && SessionPacket(init) != [] then SessionPairs(init) + [(SessionPacket(init), t.read.data)]
      else SessionPairs(init)
  }

  function Concat(groups: seq<seq<Line>>): seq<Line> {
    if groups == [] then [] else Concat(groups[..|groups| - 1]) + groups[|groups| - 1]
  }

  lemma ConcatSnoc(groups: seq<seq<Line>>, lines: seq<Line>)
    ensures Concat(groups + [lines]) == Concat(groups) + lines
  {
    assert (groups + [lines])[..|groups|] == groups;
  }

  /** One printout for each pair. */
  ghost predicate PrintoutsOf(groups: seq<seq<Line>>, pairs: seq<(seq<uint8>, seq<uint8>)>, buttonsOnly: bool) {
    && |groups| == |pairs|
    && forall j | 0 <= j < |groups| :: IsPrintout(groups[j], pairs[j].0, pairs[j].1, buttonsOnly)
  }

  lemma OneMorePrintout(groups: seq<seq<Line>>, pairs: seq<(seq<uint8>, seq<uint8>)>, buttonsOnly: bool,
                        previous: seq<uint8>, current: seq<uint8>)
    requires PrintoutsOf(groups, pairs, buttonsOnly)
    ensures PrintoutsOf(groups + [DebugLines(previous, current, buttonsOnly)], pairs + [(previous, current)],
                        buttonsOnly)
  {
    DebugLinesMeaning(previous, current, buttonsOnly);
    hide IsPrintout, DebugLines;
  }

  lemma NoPrintouts(buttonsOnly: bool)
    ensures PrintoutsOf([], SessionPairs([]), buttonsOnly)
  {
  }

  /** The printout after a tick that a running bridge has processed. */
  lemma {:induction false} PrintoutSoFar(o: Options, boot: Start, ticks: seq<Tick>) returns (groups: seq<seq<Line>>)
    requires ticks != [] ==> Run(o, boot, ticks[..|ticks| - 1]).exit == Running
    ensures Run(o, boot, ticks).printed == Concat(groups)
    ensures if o.inputDebug then PrintoutsOf(groups, SessionPairs(ticks), o.buttonsOnly) else groups == []
  {
    groups := [];
    if ticks == [] {
      BootPrintsNothing(o, boot);
      NoPrintouts(o.buttonsOnly);
    } else {
      hide DebugLines, Run, PrintoutsOf, Concat, SessionPairs, SessionPacket;
      var init, t := ticks[..|ticks| - 1], ticks[|ticks| - 1];
      if init != [] {
        PrintStep(o, boot, init);
      }
      groups := PrintoutSoFar(o, boot, init);
      PrintStep(o, boot, ticks);
      if BringsPacket(t) && o.inputDebug && SessionPacket(init) != [] {
        var lines := DebugLines(SessionPacket(init), t.read.data, o.buttonsOnly);
        OneMorePrintout(groups, SessionPairs(init), o.buttonsOnly, SessionPacket(init), t.read.data);
        ConcatSnoc(groups, lines);
        groups := groups + [lines];
      }
    }
  }

  /** The ticks up to the one that stops the bridge: all of them while it runs. */
  lemma {:induction false} StopPoint(o: Options, boot: Start, ticks: seq<Tick>) returns (m: nat)
    ensures m <= |ticks| && (Run(o, boot, ticks).exit == Running ==> m == |ticks|)
    ensures m < |ticks| ==> Run(o, boot, ticks[..m]).exit != Running
    ensures 0 < m ==> Run(o, boot, ticks[..m - 1]).exit == Running
    ensures Run(o, boot, ticks) == Run(o, boot, ticks[..m])
  {
    hide Run;
    m := |ticks|;
    assert ticks[..m] == ticks;
    if ticks != [] {
      var init := ticks[..|ticks| - 1];
      LastTick(o, boot, ticks);
      if Run(o, boot, init).exit != Running {
        m := StopPoint(o, boot, init);
        assert ticks[..m] == init[..m] && (m > 0 ==> ticks[..m - 1] == init[..m - 1]);
      }
    }
  }

  /** The printout of every run, with or without the button filter: nothing without the debug option; with it, one group
      of lines for each packet of a session and the one before it, as IsPrintout says. `m` counts the ticks up to the
      one that stops the bridge: all of them while it runs. */
  lemma PrintoutMeaning(o: Options, boot: Start, ticks: seq<Tick>) returns (m: nat, groups: seq<seq<Line>>)
    ensures m <= |ticks| && (Run(o, boot, ticks).exit == Running ==> m == |ticks|)
    ensures m < |ticks| ==> Run(o, boot, ticks[..m]).exit != Running
    ensures 0 < m ==> Run(o, boot, ticks[..m - 1]).exit == Running
    ensures Run(o, boot, ticks).printed == Concat(groups)
    ensures if o.inputDebug then PrintoutsOf(groups, SessionPairs(ticks[..m]), o.buttonsOnly)
            else groups == [] && Run(o, boot, ticks).printed == []
  {
    assert Concat([]) == [];
    hide Run, PrintoutsOf, Concat, SessionPairs;
    m := StopPoint(o, boot, ticks);
    assert m > 0 ==> ticks[..m][..m - 1] == ticks[..m - 1];
    groups := PrintoutSoFar(o, boot, ticks[..m]);
  }

  /** With the debug option, the remembered packet of a running bridge is the last one of the session. */
  lemma {:induction false} DebugRemembers(o: Options, boot: Start, ticks: seq<Tick>)
    requires o.inputDebug && Run(o, boot, ticks).exit == Running
    ensures Run(o, boot, ticks).previousDebug == SessionPacket(ticks)
  {
    if ticks == [] {
      BootPrintsNothing(o, boot);
    } else {
      hide Wire, Diff, EncodePacket, DebugLines, Run, Packets;
      LastTick(o, boot, ticks);
      DebugRemembers(o, boot, ticks[..|ticks| - 1]);
    }
  }

  /** What the last tick adds to the printout. */
  lemma PrintStep(o: Options, boot: Start, ticks: seq<Tick>)
    requires ticks != []
    ensures var init, t := ticks[..|ticks| - 1], ticks[|ticks| - 1];
            var before, after := Run(o, boot, init), Run(o, boot, ticks);
            var pairs := BringsPacket(t) && SessionPacket(init) != [];
            && SessionPairs(ticks)
               == SessionPairs(init) + (if pairs then [(SessionPacket(init), t.read.data)] else [])
            && after.printed == before.printed
                 + (if before.exit == Running && o.inputDebug && pairs
                    then DebugLines(SessionPacket(init), t.read.data, o.buttonsOnly) else [])
            && (before.exit != Running ==> after.exit == before.exit)
  {
    hide Wire, Diff, EncodePacket, DebugLines, Run, Packets;
    var init := ticks[..|ticks| - 1];
    LastTick(o, boot, ticks);
    if o.inputDebug && Run(o, boot, init).exit == Running {
      DebugRemembers(o, boot, init);
    }
  }

  lemma NothingFromEmpty(s: Settings, r: seq<uint8>)
    ensures TriplesOf(s, Diff(s, [], r)) == []
  {
  }

  lemma BootPrintsNothing(o: Options, boot: Start)
    ensures var s := InMode(SettingsOf(o), BitMode);
            && Triples(Run(o, boot, []).printed) == TriplesOf(s, SessionEvents(s, []))
            && Run(o, boot, []).printed == Concat([])
            && Run(o, boot, []).previousDebug == []
  {
  }
}
