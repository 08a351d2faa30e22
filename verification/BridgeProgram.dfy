/** The program text of `run_bridge` (src/main.cpp): its loops and local state, proved to do what the step machine of
    module Bridge does. */
module BridgeProgram {
  import opened Bits
  import opened Sequences
  import opened Midi
  import opened Protocol
  import opened CoreMidi
  import opened RawSysEx
  import opened Usb
  import opened DebugView
  import opened Bridge
  import opened BridgeRuns

  method Connect(device: UsbDevice, attempts: seq<Attempt>) returns (ok: bool)
    modifies device
    ensures (device.State(), ok) == ConnectState(old(device.State()), attempts)
  {
    var i := 0;
    while i < |attempts|
      invariant i <= |attempts|
      invariant ConnectState(device.State(), attempts[i..]) == ConnectState(old(device.State()), attempts)
    {
      assert attempts[i..][1..] == attempts[i + 1..];
      device.Close();
      var isOpen := device.Open(attempts[i].open);
      if isOpen && attempts[i].initOk {
        return true;
      }
      if attempts[i].open == Multiple {
        return false;
      }
      i := i + 1;
    }
    ok := false;
  }

  /** The tail of the loop body, for a non-empty packet. Returns false where a send throws out of the loop. */
  method Publish(o: Options, packet: seq<uint8>, t: Tick, protocol: S4GenericProtocol, midi: CoreMidiBridge,
                 previousSysex: seq<uint8>) returns (sysexPacket: seq<uint8>, ok: bool)
    requires protocol.Valid()
    modifies protocol, midi
    ensures protocol.Valid() && protocol.previousReport == packet
    ensures var sysexSent := o.rawSysex && packet != previousSysex && t.sysexOk;
            var ccs := Wire(Diff(protocol.settings, old(protocol.previousReport), packet));
            && sysexPacket == (if sysexSent then packet else previousSysex)
            && midi.published
               == (if sysexSent then old(midi.published) + [EncodePacket(packet)] else old(midi.published))
                                 + ccs[..Min(|ccs|, t.ccLimit)]
            && ok == (|ccs| <= t.ccLimit)
  {
    hide Diff, Wire, EncodePacket, Sanitize;
    sysexPacket := previousSysex;
    if o.rawSysex && packet != previousSysex {
      var sysex := Encode(packet);
      SysexIsClean(packet);
      var sent := midi.Send(sysex, t.sysexOk);
      if sent {
        sysexPacket := packet;
      }
    }
    ghost var events := Diff(protocol.settings, protocol.previousReport, packet);
    var messages := protocol.DecodeInput(packet);
    ok := SendAll(messages, events, t.ccLimit, midi);
  }

  method SendAll(messages: seq<MidiMessage>, ghost events: seq<Event>, limit: nat, midi: CoreMidiBridge)
    returns (ok: bool)
    requires messages == Wire(events)
    modifies midi
    ensures midi.published == old(midi.published) + messages[..Min(|messages|, limit)]
    ensures ok == (|messages| <= limit)
  {
    hide Wire, Sanitize;
    for i := 0 to |messages|
      invariant i <= limit
      invariant midi.published == old(midi.published) + messages[..i]
    {
      WireIsClean(events, i);
      var sent := midi.Send(messages[i], i < limit);
      if !sent {
        return false;
      }
      assert messages[..i + 1] == messages[..i] + [messages[i]];
    }
    ok := true;
  }

  lemma WireIsClean(es: seq<Event>, i: nat)
    requires i < |Wire(es)|
    ensures Wire(es)[i] != [] && Sanitize(Wire(es)[i]) == Wire(es)[i]
  {
    DecoderMessagesAreClean(es[i]);
  }

  /** A run that has stopped stays as it is. */
  lemma {:induction false} StoppedStays(o: Options, boot: Start, ticks: seq<Tick>, i: nat)
    requires i <= |ticks| && Run(o, boot, ticks[..i]).exit != Running
    ensures Run(o, boot, ticks) == Run(o, boot, ticks[..i])
    decreases |ticks|
  {
    if i == |ticks| {
      assert ticks[..i] == ticks;
    } else {
      var init := ticks[..|ticks| - 1];
      assert init[..i] == ticks[..i];
      StoppedStays(o, boot, init, i);
    }
  }

  lemma RunStep(o: Options, boot: Start, ticks: seq<Tick>, i: nat)
    requires i < |ticks|
    ensures Run(o, boot, ticks[..i + 1]) == Step(o, Run(o, boot, ticks[..i]), ticks[i])
  {
    assert ticks[..i + 1][..i] == ticks[..i];
  }

  method RunBridge(o: Options, boot: Start, ticks: seq<Tick>)
    returns (exit: Exit, wire: seq<MidiMessage>, printed: seq<Line>, ghost opens: nat, ghost closes: nat)
    requires o.reportSize > 0
    ensures wire == Run(o, boot, ticks).wire && printed == Run(o, boot, ticks).printed
    ensures exit == if Run(o, boot, ticks).exit == Running then Returned(0) else Run(o, boot, ticks).exit
    ensures ControlChanges(wire) <= Wire(Stream(SettingsOf(o), Packets(ticks)))
    ensures opens == Run(o, boot, ticks).device.opens && opens == closes
  {
    hide Diff, Wire, EncodePacket, DebugLines, ConnectState, ReadOutcome, ReadState, Run, Stream, Filter, Packets;
    HandleConservation(o, boot, ticks);
    ControlChangesRefineDecoder(o, boot, ticks);
    var protocol := new S4GenericProtocol(o.baseChannel, o.deadzone, o.mode, o.byteMap, o.bitMap);
    var usb := new UsbDevice(o.reportSize);
    var connected := Connect(usb, boot.attempts);
    RunAtBoot(o, boot, ticks);
    if !connected {
      StoppedStays(o, boot, ticks, 0);
      usb.Destroy();
      return Returned(1), [], [], usb.opens, usb.closes;
    }
    if !boot.midiOk {
      // The constructor of the MIDI bridge throws; the device is destroyed on the way out.
      StoppedStays(o, boot, ticks, 0);
      usb.Destroy();
      return Threw, [], [], usb.opens, usb.closes;
    }
    var midi := new CoreMidiBridge();
    var previousDebug, previousSysex := [], [];
    printed := [];
    exit := Running;
    var i := 0;
    while i < |ticks| && exit == Running
      invariant i <= |ticks| && protocol.Valid() && protocol.settings == SettingsOf(o)
      invariant Run(o, boot, ticks[..i])
             == BridgeState(usb.State(), protocol.previousReport, previousDebug, previousSysex,
                            printed, midi.published, exit)
      decreases |ticks| - i
    {
      RunStep(o, boot, ticks, i);
      var t := ticks[i];
      i := i + 1;
      var result := usb.ReadInput(t.read);
      match result {
        case ReadThrew =>
          exit := Threw;
        case Packet(packet) =>
          if usb.disconnected {
            var reconnected := Connect(usb, t.attempts);
            if reconnected {
              previousDebug := [];
            } else {
              exit := Returned(0);
            }
          } else if packet != [] {
            if o.inputDebug {
              if previousDebug != [] {
                var lines := PrintInputDeltas(previousDebug, packet, o.buttonsOnly);
                printed := printed + lines;
              }
              previousDebug := packet;
            }
            var ok;
            previousSysex, ok := Publish(o, packet, t, protocol, midi, previousSysex);
            if !ok {
              exit := Threw;
            }
          }
      }
    }
    wire := midi.published;
    if exit == Running {
      assert ticks[..i] == ticks;
      exit := Returned(0);
    } else {
      StoppedStays(o, boot, ticks, i);
    }
    usb.Destroy();
    opens, closes := usb.opens, usb.closes;
  }

  lemma RunAtBoot(o: Options, boot: Start, ticks: seq<Tick>)
    ensures Run(o, boot, ticks[..0]) == Boot(boot)
  {
  }
}
