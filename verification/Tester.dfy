/** The tester's event handler in tools/midi_dev_tester.py: every message drives the mapping rules and the byte grid. */
module Tester {
  import opened Bits
  import opened Sequences
  import opened Midi
  import opened Protocol
  import opened Addressing
  import opened BitView
  import opened ByteWire
  import opened RuleIndex
  import opened ByteMap

  datatype Incoming = Incoming(key: Key, value: int)

  /** Control changes and notes; channels are counted from 1. */
  function ParseMsg(m: MidiMessage): Option<Incoming> {
    if |m| != 3 || m[1] >= 128 || m[2] >= 128 then None
    else if m[0] / 16 == 0xB then Some(Incoming(Key("cc", m[0] % 16 + 1, m[1]), m[2]))
    else if m[0] / 16 == 9 then Some(Incoming(Key("note_on", m[0] % 16 + 1, m[1]), m[2]))
    else if m[0] / 16 == 8 then Some(Incoming(Key("note_off", m[0] % 16 + 1, m[1]), m[2]))
    else None
  }

  /** What one message makes the rules send. */
  function Answer(rules: seq<MappingRule>, m: MidiMessage): seq<OutMessage> {
    match ParseMsg(m)
    case Some(x) => LinearScan(rules, x.key, x.value)
    case None => []
  }

  function AnswerAll(rules: seq<MappingRule>, wire: seq<MidiMessage>): seq<OutMessage> {
    if wire == [] then [] else AnswerAll(rules, wire[..|wire| - 1]) + Answer(rules, wire[|wire| - 1])
  }

  /** The dispatch by message kind agrees with reading Control Changes off the wire. */
  lemma ParsesAgree(m: MidiMessage)
    ensures ParseCc(m).Some? <==> ParseMsg(m).Some? && ParseMsg(m).value.key.kind == "cc"
    ensures ParseCc(m).Some? ==>
      var cc, x := ParseCc(m).value, ParseMsg(m).value;
      x.key.channel == cc.address.channel + 1 && x.key.index == cc.address.controller && x.value == cc.value
  {
    assert "cc"[0] == 'c' && "note_on"[0] == 'n' && "note_off"[0] == 'n';
  }

  /** Which rules a three-byte message reaches: Control Changes, note-on and note-off messages those with that input on
      its channel counted from 1, any other message none. */
  lemma AnswerByStatus(rules: seq<MappingRule>, status: uint8, index: uint8, value: uint8)
    requires index < 128 && value < 128
    ensures Answer(rules, [status, index, value]) ==
            if 0x80 <= status < 0x90 then LinearScan(rules, Key("note_off", status - 0x80 + 1, index), value)
            else if 0x90 <= status < 0xA0 then LinearScan(rules, Key("note_on", status - 0x90 + 1, index), value)
            else if 0xB0 <= status < 0xC0 then LinearScan(rules, Key("cc", status - 0xB0 + 1, index), value)
            else []
  {
    hide LinearScan;
    assert status == status / 16 * 16 + status % 16;
  }

  class MidiDevTesterApp {
    const window: ByteMapWindow
    const table: RuleTable
    var connected: bool

    ghost predicate Valid()
      reads this, table
    {
      window.Valid() && table.Valid()
    }

    constructor (baseChannel: int)
      ensures Valid() && fresh(window) && fresh(window.data) && fresh(table) && !connected
      ensures window.Value() == Grid(seq(512, _ => 0), Both, baseChannel, true) && table.rules == []
    {
      window := new ByteMapWindow(baseChannel);
      table := new RuleTable();
      connected := false;
    }

    /** One round of draining the event queue: at most 200 messages are handled, in order; the rest stay queued. */
    method DrainEventQueue(queue: seq<MidiMessage>) returns (rest: seq<MidiMessage>, sent: seq<OutMessage>)
      requires Valid()
      modifies window.data
      ensures Valid()
      ensures var n := Min(|queue|, 200);
              && rest == queue[n..] && window.Value() == ReceiveAll(old(window.Value()), queue[..n])
              && sent == if connected then AnswerAll(table.rules, queue[..n]) else []
    {
      hide Receive, Answer;
      var n := Min(|queue|, 200);
      sent := [];
      for i := 0 to n
        invariant n <= |queue| && window.Value() == ReceiveAll(old(window.Value()), queue[..i])
        invariant sent == if connected then AnswerAll(table.rules, queue[..i]) else []
        modifies window.data
      {
        assert queue[..i + 1][..i] == queue[..i];
        var more := HandleEvent(queue[i]);
        sent := sent + more;
      }
      rest := queue[n..];
    }

    /** Handling one queued message: the rules first, then the grid; anything else may be a raw packet. */
    method HandleEvent(m: MidiMessage) returns (sent: seq<OutMessage>)
      requires Valid()
      modifies window.data
      ensures Valid() && window.Value() == Receive(old(window.Value()), m)
      ensures sent == if connected then Answer(table.rules, m) else []
    {
      hide LinearScan, RouteCc, RouteSysex;
      ParsesAgree(m);
      sent := [];
      var parsed := ParseMsg(m);
      if parsed.None? {
        if |m| >= 2 && m[0] == 0xF0 && m[|m| - 1] == 0xF7 {
          window.RouteSysexToByteMap(m[1..|m| - 1]);
        }
        return;
      }
      var key, value := parsed.value.key, parsed.value.value;
      var answer, _ := table.ApplyRules(key.kind, key.channel, key.index, value);
      if connected {
        sent := answer;
      }
      if key.kind == "cc" {
        window.RouteCcToByteMap(key.channel, key.index, value);
      }
    }
  }

  // ---------- A rule learned for one bit ----------

  /** What a rule sends for a list of incoming values. */
  function FiresAll(r: MappingRule, values: seq<nat>): seq<OutMessage> {
    if values == [] then [] else FiresAll(r, values[..|values| - 1]) + Fires(r, values[|values| - 1])
  }

  /** The rule listens to Control Changes on one address. */
  predicate ListensTo(r: MappingRule, a: Address) {
    r.IncomingKey() == Key("cc", a.channel + 1, a.controller)
  }

  lemma AnswerOfOneRule(r: MappingRule, a: Address, m: MidiMessage)
    requires ListensTo(r, a)
    ensures Answer([r], m)
         == match ParseCc(m)
            case Some(cc) => if cc.address == a then Fires(r, cc.value) else []
            case None => []
  {
    hide Fires;
    ParsesAgree(m);
    assert [r][..0] == [];
    match ParseMsg(m)
    case Some(x) =>
      assert LinearScan([r], x.key, x.value) == if r.IncomingKey() == x.key then Fires(r, x.value) else [];
    case None =>
  }

  lemma {:induction false} RuleHearsItsAddress(r: MappingRule, a: Address, wire: seq<MidiMessage>)
    requires ListensTo(r, a)
    ensures AnswerAll([r], wire) == FiresAll(r, ValuesOn(wire, a))
  {
    hide Answer, Fires, ListensTo;
    if wire != [] {
      var init, m := wire[..|wire| - 1], wire[|wire| - 1];
      RuleHearsItsAddress(r, a, init);
      AnswerOfOneRule(r, a, m);
      if ParseCc(m).Some? && ParseCc(m).value.address == a {
        FiresOneMore(r, ValuesOn(init, a), ParseCc(m).value.value);
      }
    }
  }

  lemma FiresOneMore(r: MappingRule, values: seq<nat>, v: nat)
    ensures FiresAll(r, values + [v]) == FiresAll(r, values) + Fires(r, v)
  {
    assert (values + [v])[..|values|] == values;
  }

  /** Bit-mode events of reports of at most n bytes, each on its own address. */
  predicate BitsOnly(s: Settings, n: nat, es: seq<Event>) {
    forall e | e in es ::
      e.view.OfBit? && e.index < n && e.view.bit < 8 && e.address == BitAddress(s, e.index, e.view.bit) && e.value < 128
  }

  lemma {:induction false} BitEventsOnly(s: Settings, i: nat, p: uint8, c: uint8, m: nat, n: nat)
    requires i < n && m <= 8
    ensures BitsOnly(s, n, BitEvents(s, i, p, c, m))
  {
    hide Bit, BitAddress, Inverted;
    if m > 0 {
      BitEventsOnly(s, i, p, c, m - 1, n);
    }
  }

  lemma {:induction false} DiffBitsOnly(s: Settings, prev: seq<uint8>, cur: seq<uint8>, m: nat, n: nat)
    requires s.mode == BitMode && m <= |prev| <= n && m <= |cur|
    ensures BitsOnly(s, n, DiffUpTo(s, prev, cur, m))
  {
    hide DiffUpTo, BitEvents, ByteEvents, BitAddress;
    PairStep(s, prev, cur, m);
    if m > 0 {
      DiffBitsOnly(s, prev, cur, m - 1, n);
      BitEventsOnly(s, m - 1, prev[m - 1], cur[m - 1], 8, n);
      NoByteEventsInBitMode(s, m - 1, prev[m - 1], cur[m - 1]);
    }
  }

  lemma {:induction false} StreamBitsOnly(s: Settings, reports: seq<seq<uint8>>, n: nat)
    requires s.mode == BitMode && forall r | r in reports :: |r| <= n
    ensures BitsOnly(s, n, Stream(s, reports))
  {
    hide DiffUpTo, Stream, BitAddress;
    if |reports| <= 1 {
      StreamOfOne(s, reports);
    } else {
      var k := |reports|;
      StreamStep(s, reports);
      StreamBitsOnly(s, reports[..k - 1], n);
      DiffBitsOnly(s, reports[k - 2], reports[k - 1], Min(|reports[k - 2]|, |reports[k - 1]|), n);
    }
  }

  lemma {:induction false} BitOnItsAddress(s: Settings, n: nat, es: seq<Event>, i: nat, k: nat)
    requires DistinctBits(s, n) && i < n && k < 8 && BitsOnly(s, n, es)
    ensures ValuesOn(Wire(es), BitAddress(s, i, k)) == ValuesAt(es, i, OfBit(k))
  {
    hide BitAddress, Wire, DistinctBits;
    if es == [] {
      WireOfNone();
    } else {
      var init, e := es[..|es| - 1], es[|es| - 1];
      assert es == init + [e];
      BitOnItsAddress(s, n, init, i, k);
      BitAddressInRange(s, e.index, e.view.bit);
      ValuesOnSnoc(init, e, BitAddress(s, i, k));
      if (e.index, e.view.bit) != (i, k) {
        DistinctPair(s, n, e.index, e.view.bit, i, k);
      }
    }
  }

  /** Learning a control: in Bit mode with distinct addresses, a rule that listens to the address of one bit answers the
      messages of a whole run with exactly that bit's values, which alternate and end on its last state. */
  lemma LearnedBit(s: Settings, reports: seq<seq<uint8>>, n: nat, r: MappingRule, i: nat, k: nat)
    requires s.mode == BitMode && DistinctBits(s, n) && k < 8 && reports != []
    requires forall p | p in reports :: i < |p| <= n
    requires ListensTo(r, BitAddress(s, i, k))
    ensures exists values: seq<nat> ::
              && AnswerAll([r], Wire(Stream(s, reports))) == FiresAll(r, values)
              && Alternates(values, Inverted(s, i, k), Bit(reports[0][i], k), Bit(LastOf(reports)[i], k))
  {
    hide BitAddress, Stream, Wire, DistinctBits, AnswerAll, FiresAll, Alternates, Bit, Inverted, ListensTo;
    assert reports[0] in reports;
    var values := ValuesAt(Stream(s, reports), i, OfBit(k));
    RuleHearsItsAddress(r, BitAddress(s, i, k), Wire(Stream(s, reports)));
    StreamBitsOnly(s, reports, n);
    BitOnItsAddress(s, n, Stream(s, reports), i, k);
    Alternation(s, reports, i, k);
    assert AnswerAll([r], Wire(Stream(s, reports))) == FiresAll(r, values);
  }

  lemma {:induction false} PassesThrough(r: MappingRule, values: seq<nat>)
    requires r.enabled && r.valueMode == "passthrough" && 1 <= r.outChannel <= 16 && 0 <= r.outIndex <= 127
    requires r.outKind in {"cc", "note_on", "note_off"} && forall j | 0 <= j < |values| :: values[j] <= 127
    ensures FiresAll(r, values)
         == seq(|values|, j requires 0 <= j < |values| =>
                  OutMessage(r.outKind, r.outChannel - 1, r.outIndex, values[j]))
  {
    if values != [] {
      PassesThrough(r, values[..|values| - 1]);
    }
  }

  /** A passthrough rule for one bit sends the bit itself: the first message is the opposite of the baseline, they
      alternate between 127 and 0, and their number says how the bit ends. */
  lemma PassthroughBit(s: Settings, reports: seq<seq<uint8>>, n: nat, r: MappingRule, i: nat, k: nat)
    requires s.mode == BitMode && DistinctBits(s, n) && k < 8 && reports != []
    requires forall p | p in reports :: i < |p| <= n
    requires r.inKind == "cc" && r.inChannel == BitAddress(s, i, k).channel + 1
    requires r.inIndex == BitAddress(s, i, k).controller
    requires r.enabled && r.valueMode == "passthrough" && 1 <= r.outChannel <= 16 && 0 <= r.outIndex <= 127
    requires r.outKind in {"cc", "note_on", "note_off"}
    ensures var sent, first := AnswerAll([r], Wire(Stream(s, reports))), Bit(reports[0][i], k);
            && (forall j | 0 <= j < |sent| ::
                  sent[j] == OutMessage(r.outKind, r.outChannel - 1, r.outIndex,
                                        if (first == (j % 2 == 1)) != Inverted(s, i, k) then 127 else 0))
            && Bit(LastOf(reports)[i], k) == (first == (|sent| % 2 == 0))
  {
    hide BitAddress, Stream, Wire, DistinctBits, AnswerAll, FiresAll, Bit, Inverted;
    LearnedBit(s, reports, n, r, i, k);
    var first, last := Bit(reports[0][i], k), Bit(LastOf(reports)[i], k);
    var values: seq<nat> :| AnswerAll([r], Wire(Stream(s, reports))) == FiresAll(r, values)
                            && Alternates(values, Inverted(s, i, k), first, last);
    PassesThrough(r, values);
  }
}
