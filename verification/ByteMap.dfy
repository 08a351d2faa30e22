/** The receiving side: `ByteMapWindow` and its two routers in tools/midi_dev_tester.py. `Grid` is the value of the
    window, the class updates its byte array in place. */
module ByteMap {
  import opened Bits
  import opened Sequences
  import opened Midi
  import opened Protocol
  import opened Addressing
  import opened RawSysEx

  datatype SourceFilter = Both | CcOnly | SysexOnly
  datatype Origin = FromCc | FromSysex

  const MAX_BYTES: nat := 512

  /** Base channel as shown in the window, counted from 1. */
  datatype GridRaw = Grid(data: seq<uint8>, filter: SourceFilter, base: int, alive: bool)

  type Grid = g: GridRaw | |g.data| == MAX_BYTES witness Grid(seq(MAX_BYTES, _ => 0), Both, 1, true)

  predicate Blocked(filter: SourceFilter, origin: Origin) {
    (filter == CcOnly && origin != FromCc) || (filter == SysexOnly && origin != FromSysex)
  }

  function PutByte(g: Grid, idx: int, value: int, origin: Origin): Grid {
    if Blocked(g.filter, origin) || idx < 0 || idx >= MAX_BYTES then g
    else g.(data := g.data[idx := value % 256])
  }

  function PutPacket(g: Grid, packet: seq<uint8>, origin: Origin): Grid {
    var m := Min(|packet|, MAX_BYTES);
    if Blocked(g.filter, origin) then g else g.(data := packet[..m] + g.data[m..])
  }

  /** Byte index recovered from a 1-based channel and a controller. */
  function ByteIndex(base: int, channel: int, controller: int): int {
    (channel - base) % 16 * 128 + controller
  }

  function RouteCc(g: Grid, channel: int, controller: int, value: int): Grid {
    if !g.alive then g else PutByte(g, ByteIndex(g.base, channel, controller), value % 128 * 2, FromCc)
  }

  function RouteSysex(g: Grid, data: seq<uint8>): Grid {
    if !g.alive then g
    else match DecodeSysex(data)
      case Some(packet) => PutPacket(g, packet, FromSysex)
      case None => g
  }

  /** One message off the wire. The MIDI library strips F0 and F7; channels are counted from 1 from here on. */
  function Receive(g: Grid, m: MidiMessage): Grid {
    match ParseCc(m)
    case Some(cc) => RouteCc(g, cc.address.channel + 1, cc.address.controller, cc.value)
    case None =>
      if |m| >= 2 && m[0] == 0xF0 && m[|m| - 1] == 0xF7 then RouteSysex(g, m[1..|m| - 1]) else g
  }

  function ReceiveAll(g: Grid, wire: seq<MidiMessage>): Grid {
    if wire == [] then g else Receive(ReceiveAll(g, wire[..|wire| - 1]), wire[|wire| - 1])
  }

  class ByteMapWindow {
    const data: array<uint8>
    var filter: SourceFilter
    var base: int
    var alive: bool

    ghost predicate Valid() {
      data.Length == MAX_BYTES
    }

    ghost function Value(): Grid
      reads this, data
      requires Valid()
    {
      Grid(data[..], filter, base, alive)
    }

    constructor (baseChannel: int)
      ensures Valid() && fresh(data) && data.Length == 512
      ensures Value() == Grid(seq(512, _ => 0), Both, baseChannel, true)
    {
      data := new uint8[MAX_BYTES](_ => 0);
      filter, base, alive := Both, baseChannel, true;
      new;
      assert data[..] == seq(MAX_BYTES, _ => 0);
    }

    method UpdateByte(idx: int, value: int, origin: Origin)
      requires Valid()
      modifies data
      ensures Value() == PutByte(old(Value()), idx, value, origin)
    {
      if filter == CcOnly && origin != FromCc {
        return;
      }
      if filter == SysexOnly && origin != FromSysex {
        return;
      }
      if idx < 0 || idx >= MAX_BYTES {
        return;
      }
      data[idx] := value % 256;
    }

    method UpdatePacket(packet: seq<uint8>, origin: Origin)
      requires Valid()
      modifies data
      ensures Value() == PutPacket(old(Value()), packet, origin)
    {
      var m := Min(|packet|, MAX_BYTES);
      for i := 0 to m
        invariant m <= |packet| && m <= MAX_BYTES
        invariant forall j | 0 <= j < i && !Blocked(filter, origin) :: data[j] == packet[j]
        invariant forall j | 0 <= j < MAX_BYTES && (i <= j || Blocked(filter, origin)) :: data[j] == old(data[j])
        modifies data
      {
        if data[i] != packet[i] {
          ghost var before := data[..];
          UpdateByte(i, packet[i], origin);
          assert data[..] == if Blocked(filter, origin) then before else before[i := packet[i]];
          assert forall j | 0 <= j < MAX_BYTES && j != i :: data[j] == before[j];
        }
      }
      assert data[..] == PutPacket(old(Value()), packet, origin).data;
    }

    method RouteCcToByteMap(channel: int, controller: int, value: int)
      requires Valid()
      modifies data
      ensures Value() == RouteCc(old(Value()), channel, controller, value)
    {
      if !alive {
        return;
      }
      var chOffset := (channel - base) % 16;
      var byteIdx := chOffset * 128 + controller;
      var reconstructed := value % 128 * 2;
      UpdateByte(byteIdx, reconstructed, FromCc);
    }

    method RouteSysexToByteMap(message: seq<uint8>)
      requires Valid()
      modifies data
      ensures Value() == RouteSysex(old(Value()), message)
    {
      if !alive {
        return;
      }
      match DecodeSysex(message) {
        case Some(raw) => UpdatePacket(raw, FromSysex);
        case None =>
      }
    }
  }

  // ---------- Cell by cell ----------

  /** A raw packet that is well-formed, with nibbles as data, shows in the first 512 cells, and the rest stay. */
  lemma RawPacketCells(g: Grid, data: seq<uint8>)
    requires g.alive && g.filter != CcOnly
    requires |data| >= 6 && |data| % 2 == 0 && data[0] == 0x7D && data[1] == 0x53 && data[2] == 0x34 && data[3] == 0x02
    requires forall j | 4 <= j < |data| :: data[j] < 16
    ensures var r := RouteSysex(g, data);
            && r.filter == g.filter && r.base == g.base && r.alive && |r.data| == 512
            && forall i | 0 <= i < 512 ::
                 r.data[i] == if 2 * i + 5 < |data| then data[2 * i + 4] * 16 + data[2 * i + 5] else g.data[i]
  {
    hide JoinNibbles;
    var nibbles := data[4..];
    assert data[..4] == [0x7D, 0x53, 0x34, 0x02];
    forall i | 0 <= i < |nibbles| / 2
      ensures JoinNibbles(nibbles[2 * i], nibbles[2 * i + 1]) == data[2 * i + 4] * 16 + data[2 * i + 5] <= 255
    {
      JoinOfNibbles(data[2 * i + 4], data[2 * i + 5]);
    }
    assert DecodeSysex(data).Some?;
    var packet := DecodeSysex(data).value;
    assert forall i | 0 <= i < |packet| :: packet[i] == data[2 * i + 4] * 16 + data[2 * i + 5];
    hide DecodeSysex;
  }

  /** Anything else leaves the grid alone: another header, an odd number of nibbles, a pair that does not fit a byte, a
      closed window, or the other source. */
  lemma RawPacketIgnored(g: Grid, data: seq<uint8>)
    requires || |data| < 6 || |data| % 2 == 1
             || data[0] != 0x7D || data[1] != 0x53 || data[2] != 0x34 || data[3] != 0x02
             || (exists i {:trigger data[2 * i]} ::
                   2 <= i < |data| / 2 && 16 <= data[2 * i] < 128 && data[2 * i + 1] < 128)
             || !g.alive || g.filter == CcOnly
    ensures RouteSysex(g, data) == g
  {
    hide JoinNibbles;
    if DecodeSysex(data).Some? && g.alive && g.filter != CcOnly {
      var nibbles := data[4..];
      assert data[..4] == [0x7D, 0x53, 0x34, 0x02];
      assert data[0] == data[..4][0] && data[1] == data[..4][1] && data[2] == data[..4][2] && data[3] == data[..4][3];
      var i :| 2 <= i < |data| / 2 && 16 <= data[2 * i] < 128 && data[2 * i + 1] < 128;
      assert nibbles[2 * (i - 2)] == data[2 * i] && nibbles[2 * (i - 2) + 1] == data[2 * i + 1];
      JoinFitsIff(data[2 * i], data[2 * i + 1]);
      assert false;
    }
  }

  /** A Control Change sets the one cell that its channel and controller name, if there is such a cell. */
  lemma ControlChangeCell(g: Grid, channel: nat, controller: uint8, value: uint8)
    requires channel < 16 && controller < 128 && value < 128
    ensures var r := Receive(g, [0xB0 + channel, controller, value]);
            var idx := (channel + 1 - g.base) % 16 * 128 + controller;
            r == if g.alive && g.filter != SysexOnly && idx < 512 then g.(data := g.data[idx := 2 * value]) else g
  {
  }

  /** There are 512 cells: no index beyond them changes anything, and a longer packet shows its first 512 bytes. */
  lemma BeyondTheGrid(g: Grid, idx: int, value: int, packet: seq<uint8>, origin: Origin)
    requires |packet| >= 512
    ensures |g.data| == 512 && (idx < 0 || idx >= 512 ==> PutByte(g, idx, value, origin) == g)
    ensures PutPacket(g, packet, origin) == PutPacket(g, packet[..512], origin)
    ensures !Blocked(g.filter, origin) ==> PutPacket(g, packet, origin).data == packet[..512]
  {
  }

  // ---------- Inverse addressing ----------

  /** The window's formula inverts the decoder's addressing for every byte below 2048, exactly when its base channel is
      the decoder's (modulo the 16 channels). */
  lemma InverseAddressing(base: uint8, windowBase: int)
    requires base < 16
    ensures (forall i: nat | i < 2048 :: RecoveredIndex(base, windowBase, i) == i)
       <==> (windowBase - 1 - base) % 16 == 0
  {
    if (windowBase - 1 - base) % 16 == 0 {
      forall i: nat | i < 2048
        ensures RecoveredIndex(base, windowBase, i) == i
      {
        RecoverIndex(base, windowBase, i);
      }
    } else {
      assert RecoveredIndex(base, windowBase, 0) == (base + 1 - windowBase) % 16 * 128;
      ModuloNegation(base + 1 - windowBase);
      assert RecoveredIndex(base, windowBase, 0) != 0;
    }
  }

  function RecoveredIndex(base: uint8, windowBase: int, i: nat): int {
    var a := FallbackAddress(base, i);
    ByteIndex(windowBase, a.channel + 1, a.controller)
  }

  lemma ModuloNegation(x: int)
    ensures x % 16 == 0 <==> (-x) % 16 == 0
  {
  }

  lemma RecoverIndex(base: uint8, windowBase: int, i: nat)
    requires base < 16 && i < 2048 && (windowBase - 1 - base) % 16 == 0
    ensures RecoveredIndex(base, windowBase, i) == i
  {
    var turns := (windowBase - 1 - base) / 16;
    assert windowBase == 1 + base + 16 * turns;
    var c, q := FallbackAddress(base, i).channel, i / 128;
    assert i % 0x1_0000 == i;
    WrapOnce(base + q);
    assert c == base + q || c == base + q - 16;
    assert q < 16;
    ModuloShift(q, c + 1 - windowBase, if c == base + q then -turns else -turns - 1);
  }

  lemma ModuloShift(q: nat, x: int, k: int)
    requires q < 16 && x == q + 16 * k
    ensures x % 16 == q
  {
  }
}
