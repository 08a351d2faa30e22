/** `run_bridge` (src/main.cpp) as a step machine over everything the outside world may answer: opens that fail at any
    stage, failing initialisation, timeouts, empty reads, packets, disconnects, fatal read errors and failing sends.
    A finite script stands for the moment at which the `running` flag is found cleared. */
module Bridge {
  import opened Bits
  import opened Sequences
  import opened Midi
  import opened Protocol
  import opened RawSysEx
  import opened Usb
  import opened DebugView

  datatype Options = Options(
    baseChannel: uint8, deadzone: uint8, mode: InputDecodeMode, byteMap: seq<ByteMapEntry>, bitMap: seq<BitMapEntry>,
    reportSize: int, rawSysex: bool, inputDebug: bool, buttonsOnly: bool)

  function SettingsOf(o: Options): Settings {
    Settings(o.baseChannel % 16, Min(o.deadzone, 127), o.mode, o.byteMap, o.bitMap)
  }

  /** One round of the connect loop: what `open` answers and whether the initialisation succeeds. */
  datatype Attempt = Attempt(open: OpenOutcome, initOk: bool)

  /** One round of the main loop: the transfer, the reconnect attempts if it loses the device, whether the System
      Exclusive send is accepted, and how many Control Change sends are accepted before one throws. */
  datatype Tick = Tick(read: Transfer, attempts: seq<Attempt>, sysexOk: bool, ccLimit: nat)

  /** The start: the connect attempts, and whether the virtual MIDI ports can then be created. */
  datatype Start = Start(attempts: seq<Attempt>, midiOk: bool)

  predicate BringsPacket(t: Tick) {
    t.read.Completed? && t.read.data != []
  }

  datatype Exit = Running | Returned(code: int) | Threw

  datatype BridgeState = BridgeState(
    device: DeviceState,
    previousReport: seq<uint8>, previousDebug: seq<uint8>, previousSysex: seq<uint8>,
    printed: seq<Line>, wire: seq<MidiMessage>,
    exit: Exit)

  predicate Succeeds(a: Attempt) {
    a.open == Opened && a.initOk
  }

  function ConnectState(st: DeviceState, attempts: seq<Attempt>): (DeviceState, bool)
    decreases |attempts|
  {
    if attempts == [] then (st, false)
    else
      var next := OpenState(CloseState(st), attempts[0].open);
      if Succeeds(attempts[0]) then (next, true)
      else if attempts[0].open == Multiple then (next, false)
      else ConnectState(next, attempts[1..])
  }

  function Boot(start: Start): BridgeState {
    var (device, ok) := ConnectState(CLOSED, start.attempts);
    BridgeState(device, [], [], [], [], [], if !ok then Returned(1) else if !start.midiOk then Threw else Running)
  }

  predicate SendsSysex(o: Options, st: BridgeState, packet: seq<uint8>) {
    o.rawSysex && packet != st.previousSysex
  }

  function Handle(o: Options, st: BridgeState, packet: seq<uint8>, t: Tick): BridgeState {
    var sysexSent := SendsSysex(o, st, packet) && t.sysexOk;
    var ccs := Wire(Diff(SettingsOf(o), st.previousReport, packet));
    st.(
      previousDebug := if o.inputDebug then packet else st.previousDebug,
      printed := if o.inputDebug && st.previousDebug != []
                 then st.printed + DebugLines(st.previousDebug, packet, o.buttonsOnly) else st.printed,
      previousSysex := if sysexSent then packet else st.previousSysex,
      previousReport := packet,
      wire := (if sysexSent then st.wire + [EncodePacket(packet)] else st.wire) + ccs[..Min(|ccs|, t.ccLimit)],
      exit := if |ccs| <= t.ccLimit then Running else Threw)
  }

  function Step(o: Options, st: BridgeState, t: Tick): BridgeState {
    var read := st.(device := ReadState(st.device, t.read));
    if st.exit != Running then st
    else match ReadOutcome(st.device, t.read)
      case ReadThrew => read.(exit := Threw)
      case Packet(packet) =>
        if read.device.disconnected then
          var (device, ok) := ConnectState(read.device, t.attempts);
          if ok then read.(device := device, previousDebug := []) else read.(device := device, exit := Returned(0))
        else if packet == [] then read
        else Handle(o, read, packet, t)
  }

  function Run(o: Options, boot: Start, ticks: seq<Tick>): BridgeState {
    if ticks == [] then Boot(boot)
    else Step(o, Run(o, boot, ticks[..|ticks| - 1]), ticks[|ticks| - 1])
  }

  /** The non-empty packets among the transfers, in order. */
  function Packets(ticks: seq<Tick>): seq<seq<uint8>> {
    if ticks == [] then []
    else
      var rest, t := Packets(ticks[..|ticks| - 1]), ticks[|ticks| - 1];
      if BringsPacket(t) then rest + [t.read.data] else rest
  }
}
