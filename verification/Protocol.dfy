/** The delta decoder of src/s4_generic_protocol.cpp: what one pair of reports emits (`Diff`), what a run
    emits (`Stream`), and the stateful class that computes it with its two nested loops. */
module Protocol {
  import opened Bits
  import opened Sequences
  import opened Midi

  datatype InputDecodeMode = ByteMode | BitMode | HybridMode

  datatype ByteMapEntry = ByteMapEntry(byteIndex: nat, midiChannel: uint8, cc: uint8, deadzoneOverride: int)
  datatype BitMapEntry = BitMapEntry(byteIndex: nat, bitIndex: nat, midiChannel: uint8, cc: uint8, invert: bool)

  /** The three configuration fields of the class, with the two mapping tables as parameters. */
  datatype SettingsRaw = Settings(
    base: uint8, deadzone: uint8, mode: InputDecodeMode, byteMap: seq<ByteMapEntry>, bitMap: seq<BitMapEntry>)

  type Settings = s: SettingsRaw | s.base < 16 && s.deadzone < 128 witness Settings(0, 0, ByteMode, [], [])

  /** The shipped tables. */
  const SHIPPED_BYTE_MAP: seq<ByteMapEntry> := []
  const SHIPPED_BIT_MAP: seq<BitMapEntry> := [
    BitMapEntry(4, 7, 1, 20, false),
    BitMapEntry(4, 5, 1, 21, false),
    BitMapEntry(4, 3, 1, 22, false),
    BitMapEntry(4, 1, 1, 23, false),
    BitMapEntry(7, 3, 1, 24, false)]

  // Table lookups: the first entry that matches.

  function FindByteMapping(table: seq<ByteMapEntry>, i: nat): Option<ByteMapEntry> {
    if table == [] then None
    else if table[0].byteIndex == i then Some(table[0])
    else FindByteMapping(table[1..], i)
  }

  function FindBitMapping(table: seq<BitMapEntry>, i: nat, k: nat): Option<BitMapEntry> {
    if table == [] then None
    else if table[0].byteIndex == i && table[0].bitIndex == k then Some(table[0])
    else FindBitMapping(table[1..], i, k)
  }

  // Addresses.

  function ChannelNibble(channel: uint8, fallback: uint8): uint8 {
    if 1 <= channel <= 16 then channel - 1 else fallback
  }

  /** Channel and controller of an unmapped byte or bit; the index goes through a 16-bit cast. */
  function FallbackAddress(base: uint8, index: nat): Address {
    var index16 := index % 0x1_0000;
    Address((base + index16 / 128) % 16, index16 % 128)
  }

  function MappedAddress(base: uint8, channel: uint8, cc: uint8): Address {
    Address(ChannelNibble(channel, base) % 16, cc % 128)
  }

  function BitAddress(s: Settings, i: nat, k: nat): Address {
    match FindBitMapping(s.bitMap, i, k)
    case Some(e) => MappedAddress(s.base, e.midiChannel, e.cc)
    case None => FallbackAddress(s.base, i * 8 + k)
  }

  predicate Inverted(s: Settings, i: nat, k: nat) {
    match FindBitMapping(s.bitMap, i, k)
    case Some(e) => e.invert
    case None => false
  }

  // Values.

  /** (b >> 1) & 0x7F */
  function V7(b: uint8): uint8 {
    b / 2 % 128
  }

  function Delta(prev: uint8, cur: uint8): uint8 {
    if V7(prev) > V7(cur) then V7(prev) - V7(cur) else V7(cur) - V7(prev)
  }

  function OnOff(on: bool): uint8 {
    if on then 127 else 0
  }

  function Clamp7(x: int): uint8 {
    if x < 0 then 0 else if x > 127 then 127 else x
  }

  /** The deadzone a mapping entry asks for: its own, or the global one when it is negative. */
  function EntryDeadzone(s: Settings, e: ByteMapEntry): uint8 {
    Clamp7(if e.deadzoneOverride >= 0 then e.deadzoneOverride else s.deadzone)
  }

  // Events. The origin of a message is not on the wire; it is kept here to reason about it.

  datatype View = OfByte | OfBit(bit: nat)
  datatype Event = Event(index: nat, view: View, address: Address, value: nat)

  function MessageOf(e: Event): MidiMessage {
    [0xB0 + e.address.channel % 16, e.address.controller % 128, e.value % 128]
  }

  function Wire(es: seq<Event>): seq<MidiMessage> {
    seq(|es|, i requires 0 <= i < |es| => MessageOf(es[i]))
  }

  predicate HasByteView(m: InputDecodeMode) {
    m == ByteMode || m == HybridMode
  }

  predicate HasBitView(m: InputDecodeMode) {
    m == BitMode || m == HybridMode
  }

  /** At most one byte event: on the mapped address if the entry's deadzone is exceeded, otherwise on the
      fallback address if the global one is. */
  function ByteEvents(s: Settings, i: nat, prev: uint8, cur: uint8): seq<Event> {
    var mapping := FindByteMapping(s.byteMap, i);
    if !HasByteView(s.mode) then []
    else if mapping.Some? && Delta(prev, cur) > EntryDeadzone(s, mapping.value) then
      [Event(i, OfByte, MappedAddress(s.base, mapping.value.midiChannel, mapping.value.cc), V7(cur))]
    else if Delta(prev, cur) > s.deadzone then
      [Event(i, OfByte, FallbackAddress(s.base, i), V7(cur))]
    else []
  }

  function BitEvent(s: Settings, i: nat, k: nat, on: bool): Event {
    Event(i, OfBit(k), BitAddress(s, i, k), OnOff(Inverted(s, i, k) != on))
  }

  /** One event for each of the lowest `n` bits in which the two bytes differ. */
  function BitEvents(s: Settings, i: nat, prev: uint8, cur: uint8, n: nat): seq<Event> {
    if n == 0 || !HasBitView(s.mode) then []
    else
      var rest := BitEvents(s, i, prev, cur, n - 1);
      if Bit(prev, n - 1) != Bit(cur, n - 1) then rest + [BitEvent(s, i, n - 1, Bit(cur, n - 1))] else rest
  }

  function PairEvents(s: Settings, i: nat, prev: uint8, cur: uint8): seq<Event> {
    ByteEvents(s, i, prev, cur) + BitEvents(s, i, prev, cur, 8)
  }

  function DiffUpTo(s: Settings, prev: seq<uint8>, cur: seq<uint8>, n: nat): seq<Event>
    requires n <= |prev| && n <= |cur|
  {
    if n == 0 then []
    else DiffUpTo(s, prev, cur, n - 1) + PairEvents(s, n - 1, prev[n - 1], cur[n - 1])
  }

  /** The events of one report against its predecessor: only the common prefix is compared. */
  function Diff(s: Settings, prev: seq<uint8>, cur: seq<uint8>): seq<Event> {
    DiffUpTo(s, prev, cur, Min(|prev|, |cur|))
  }

  /** The events of a whole run of reports. */
  function Stream(s: Settings, reports: seq<seq<uint8>>): seq<Event> {
    if |reports| <= 1 then []
    else Stream(s, reports[..|reports| - 1]) + Diff(s, reports[|reports| - 2], reports[|reports| - 1])
  }

  lemma WireOfNone()
    ensures Wire([]) == []
  {
  }

  lemma WireAppend(a: seq<Event>, b: seq<Event>)
    ensures Wire(a + b) == Wire(a) + Wire(b)
  {
  }

  lemma WireSnoc(es: seq<Event>, e: Event)
    ensures Wire(es + [e]) == Wire(es) + [MessageOf(e)]
  {
  }

  lemma DiffStep(s: Settings, prev: seq<uint8>, cur: seq<uint8>, n: nat)
    requires n <= |prev| && n <= |cur|
    ensures n == 0 ==> DiffUpTo(s, prev, cur, n) == []
    ensures n > 0 ==> DiffUpTo(s, prev, cur, n) == DiffUpTo(s, prev, cur, n - 1)
                      + ByteEvents(s, n - 1, prev[n - 1], cur[n - 1]) + BitEvents(s, n - 1, prev[n - 1], cur[n - 1], 8)
  {
    hide ByteEvents, BitEvents;
  }

  lemma PairStep(s: Settings, prev: seq<uint8>, cur: seq<uint8>, n: nat)
    requires n <= |prev| && n <= |cur|
    ensures n == 0 ==> DiffUpTo(s, prev, cur, n) == []
    ensures n > 0 ==>
      DiffUpTo(s, prev, cur, n) == DiffUpTo(s, prev, cur, n - 1) + PairEvents(s, n - 1, prev[n - 1], cur[n - 1])
  {
    hide PairEvents;
  }

  lemma BitEventsStep(s: Settings, i: nat, prev: uint8, cur: uint8, n: nat)
    requires HasBitView(s.mode)
    ensures n == 0 ==> BitEvents(s, i, prev, cur, n) == []
    ensures n > 0 ==>
      var rest := BitEvents(s, i, prev, cur, n - 1);
      BitEvents(s, i, prev, cur, n) ==
      if Bit(prev, n - 1) != Bit(cur, n - 1) then rest + [BitEvent(s, i, n - 1, Bit(cur, n - 1))] else rest
  {
    hide Bit, BitEvent;
  }

  lemma WireDiffStep(s: Settings, prev: seq<uint8>, cur: seq<uint8>, i: nat)
    requires i < |prev| && i < |cur|
    ensures Wire(DiffUpTo(s, prev, cur, i + 1))
         == Wire(DiffUpTo(s, prev, cur, i))
            + Wire(ByteEvents(s, i, prev[i], cur[i])) + Wire(BitEvents(s, i, prev[i], cur[i], 8))
  {
    hide ByteEvents, BitEvents, MessageOf;
    WireAppend(DiffUpTo(s, prev, cur, i), PairEvents(s, i, prev[i], cur[i]));
    WireAppend(ByteEvents(s, i, prev[i], cur[i]), BitEvents(s, i, prev[i], cur[i], 8));
  }

  lemma StreamOfOne(s: Settings, reports: seq<seq<uint8>>)
    requires |reports| <= 1
    ensures Stream(s, reports) == []
  {
  }

  /** The last report of a run, and the run before it. */
  lemma {:induction false} StreamStep(s: Settings, reports: seq<seq<uint8>>)
    requires |reports| > 1
    ensures var init, prev, cur := reports[..|reports| - 1], reports[|reports| - 2], reports[|reports| - 1];
            && Stream(s, reports) == Stream(s, init) + Diff(s, prev, cur)
            && init != [] && init[0] == reports[0] && LastOf(init) == prev && LastOf(reports) == cur
            && prev in reports && cur in reports && (forall r | r in init :: r in reports)
  {
    hide Diff, DiffUpTo;
    assert forall r | r in reports[..|reports| - 1] :: r in reports;
  }

  lemma {:induction false} StreamAppend(s: Settings, reports: seq<seq<uint8>>, r: seq<uint8>)
    ensures Stream(s, reports + [r]) == Stream(s, reports) + Diff(s, LastOf(reports), r)
  {
    var rs := reports + [r];
    assert rs[..|rs| - 1] == reports;
  }

  /** The source's early `continue` on equal bytes agrees with the two views. */
  lemma EqualBytesEmitNothing(s: Settings, i: nat, b: uint8)
    ensures ByteEvents(s, i, b, b) == [] && BitEvents(s, i, b, b, 8) == []
  {
    NoBitEventsIfEqual(s, i, b, 8);
  }

  lemma {:induction false} NoBitEventsIfEqual(s: Settings, i: nat, b: uint8, n: nat)
    ensures BitEvents(s, i, b, b, n) == []
  {
    if n > 0 {
      NoBitEventsIfEqual(s, i, b, n - 1);
    }
  }

  class S4GenericProtocol {
    const settings: Settings
    var previousReport: seq<uint8>
    /** Every report decoded so far, and every event emitted. */
    ghost var history: seq<seq<uint8>>
    ghost var emitted: seq<Event>

    ghost predicate Valid()
      reads this
    {
      previousReport == LastOf(history) && emitted == Stream(settings, history)
    }

    constructor (baseChannel: uint8, inputDeadzone: uint8, mode: InputDecodeMode,
                 byteMap: seq<ByteMapEntry>, bitMap: seq<BitMapEntry>)
      ensures Valid() && history == [] && previousReport == []
      ensures settings == Settings(baseChannel % 16, Min(inputDeadzone, 127), mode, byteMap, bitMap)
    {
      settings := Settings(baseChannel % 16, Min(inputDeadzone, 127), mode, byteMap, bitMap);
      previousReport := [];
      history := [];
      emitted := [];
    }

    method DecodeInput(report: seq<uint8>) returns (messages: seq<MidiMessage>)
      requires Valid()
      modifies this
      ensures Valid()
      ensures history == old(history) + [report] && previousReport == report
      ensures messages == Wire(Diff(settings, old(previousReport), report))
      ensures emitted == old(emitted) + Diff(settings, old(previousReport), report)
    {
      hide DiffUpTo, ByteEvents, BitEvents, Wire, Stream;
      messages := [];
      StreamAppend(settings, history, report);
      DiffStep(settings, previousReport, report, 0);
      WireOfNone();
      ghost var events := Diff(settings, previousReport, report);
      if |previousReport| == 0 {
        previousReport := report;
        history, emitted := history + [report], emitted + events;
        return;
      }
      var byteCount := Min(|previousReport|, |report|);
      for i := 0 to byteCount
        invariant byteCount <= |previousReport| && byteCount <= |report|
        invariant messages == Wire(DiffUpTo(settings, previousReport, report, i))
        modifies {}
      {
        var previous, current := previousReport[i], report[i];
        WireDiffStep(settings, previousReport, report, i);
        if previous == current {
          EqualBytesEmitNothing(settings, i, previous);
          continue;
        }
        var byteMessages := DecodeByteView(i, previous, current);
        var bitMessages := DecodeBitView(i, previous, current);
        messages := messages + byteMessages + bitMessages;
      }
      previousReport := report;
      history, emitted := history + [report], emitted + events;
    }

    method DecodeByteView(i: nat, previous: uint8, current: uint8) returns (messages: seq<MidiMessage>)
      ensures messages == Wire(ByteEvents(settings, i, previous, current))
    {
      messages := [];
      var delta := Delta(previous, current);
      var rawValue := V7(current);
      if settings.mode == ByteMode || settings.mode == HybridMode {
        var emittedMapped := false;
        var mapped := FindByteMapping(settings.byteMap, i);
        if mapped.Some? {
          if delta > EntryDeadzone(settings, mapped.value) {
            var channel := ChannelNibble(mapped.value.midiChannel, settings.base);
            messages := messages + [MakeCc(channel, mapped.value.cc, rawValue)];
            emittedMapped := true;
          }
        }
        // The raw mapping is also taken when a mapped byte stayed within its own deadzone.
        if !emittedMapped {
          if delta > settings.deadzone {
            var rawCcIndex := i % 0x1_0000;
            var rawChannel := (settings.base + rawCcIndex / 128) % 16;
            messages := messages + [MakeCc(rawChannel, rawCcIndex % 128, rawValue)];
          }
        }
      }
    }

    method DecodeBitView(i: nat, previous: uint8, current: uint8) returns (messages: seq<MidiMessage>)
      ensures messages == Wire(BitEvents(settings, i, previous, current, 8))
    {
      hide Wire, Bit, Xor;
      messages := [];
      WireOfNone();
      if settings.mode == BitMode || settings.mode == HybridMode {
        XorOfBytes(previous, current);
        var diff: uint8 := Xor(previous, current);
        for bit := 0 to 8
          invariant messages == Wire(BitEvents(settings, i, previous, current, bit))
        {
          BitOfXor(previous, current, bit);
          if !Bit(diff, bit) {
            continue;
          }
          WireSnoc(BitEvents(settings, i, previous, current, bit), BitEvent(settings, i, bit, Bit(current, bit)));
          var emittedMapped := false;
          var isOn := Bit(current, bit);
          var mapped := FindBitMapping(settings.bitMap, i, bit);
          if mapped.Some? {
            var channel := ChannelNibble(mapped.value.midiChannel, settings.base);
            var finalOn := if mapped.value.invert then !isOn else isOn;
            messages := messages + [MakeCc(channel, mapped.value.cc, if finalOn then 127 else 0)];
            emittedMapped := true;
          }
          if !emittedMapped {
            var bitIndex := (i * 8 + bit) % 0x1_0000;
            var bitChannel := (settings.base + bitIndex / 128) % 16;
            messages := messages + [MakeCc(bitChannel, bitIndex % 128, if isOn then 127 else 0)];
          }
        }
      }
    }
  }
}
