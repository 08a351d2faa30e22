/** The decoder's messages as bytes: status, controller and value of every Control Change, for any tables. */
module Messages {
  import opened Bits
  import opened Sequences
  import opened Midi
  import opened Protocol
  import opened Addressing
  import opened Bridge

  /** The entry used for a byte is the first of the table with its index. */
  lemma {:induction false} FirstByteEntry(table: seq<ByteMapEntry>, i: nat)
    ensures FindByteMapping(table, i).None? <==> forall e | e in table :: e.byteIndex != i
    ensures FindByteMapping(table, i).Some? ==>
              exists j :: && 0 <= j < |table| && table[j] == FindByteMapping(table, i).value && table[j].byteIndex == i
                          && forall l | 0 <= l < j :: table[l].byteIndex != i
  {
    if table != [] && table[0].byteIndex != i {
      var rest := table[1..];
      FirstByteEntry(rest, i);
      assert forall e :: e in table <==> e == table[0] || e in rest;
      if FindByteMapping(rest, i).Some? {
        var j :| 0 <= j < |rest| && rest[j] == FindByteMapping(rest, i).value && rest[j].byteIndex == i
                 && forall l | 0 <= l < j :: rest[l].byteIndex != i;
        assert table[j + 1] == rest[j] && forall l | 0 < l < j + 1 :: table[l] == rest[l - 1];
      }
    }
  }

  /** The entry used for a bit is the first of the table with its byte and bit. */
  lemma {:induction false} FirstBitEntry(table: seq<BitMapEntry>, i: nat, k: nat)
    ensures FindBitMapping(table, i, k).None? <==> forall e | e in table :: e.byteIndex != i || e.bitIndex != k
    ensures FindBitMapping(table, i, k).Some? ==>
              exists j :: && 0 <= j < |table| && table[j] == FindBitMapping(table, i, k).value
                          && table[j].byteIndex == i && table[j].bitIndex == k
                          && forall l | 0 <= l < j :: table[l].byteIndex != i || table[l].bitIndex != k
  {
    if table != [] && !(table[0].byteIndex == i && table[0].bitIndex == k) {
      var rest := table[1..];
      FirstBitEntry(rest, i, k);
      assert forall e :: e in table <==> e == table[0] || e in rest;
      if FindBitMapping(rest, i, k).Some? {
        var j :| 0 <= j < |rest| && rest[j] == FindBitMapping(rest, i, k).value
                 && rest[j].byteIndex == i && rest[j].bitIndex == k
                 && forall l | 0 <= l < j :: rest[l].byteIndex != i || rest[l].bitIndex != k;
        assert table[j + 1] == rest[j] && forall l | 0 < l < j + 1 :: table[l] == rest[l - 1];
      }
    }
  }

  /** The distance of two bytes without their lowest bits. */
  function Distance(p: uint8, c: uint8): nat {
    if p / 2 >= c / 2 then p / 2 - c / 2 else c / 2 - p / 2
  }

  lemma DeltaIsDistance(p: uint8, c: uint8)
    ensures Delta(p, c) == Distance(p, c) <= 127 && V7(c) == c / 2
  {
  }

  lemma OneMessage(e: Event)
    requires e.address.channel < 16 && e.address.controller < 128 && e.value < 128
    ensures MessageOf(e) == [0xB0 + e.address.channel, e.address.controller, e.value] && Wire([e]) == [MessageOf(e)]
    ensures Wire([]) == []
  {
  }

  lemma AddressBytes(base: uint8, channel: uint8, cc: uint8)
    requires base < 16
    ensures MappedAddress(base, channel, cc)
         == Address(if 1 <= channel <= 16 then channel - 1 else base, cc % 128)
  {
  }

  /** The message of a changed byte. The channel is the entry's own if it is one of the 16, counted from 1. An entry
      that asks for a negative deadzone has the global one; clamping an entry's deadzone to 127 changes nothing, since
      no distance exceeds 127. */
  lemma ByteMessages(s: Settings, i: nat, p: uint8, c: uint8)
    ensures Wire(ByteEvents(s, i, p, c)) ==
            match FindByteMapping(s.byteMap, i)
            case Some(e) =>
              if s.mode == BitMode then []
              else if Distance(p, c) > (if e.deadzoneOverride >= 0 then e.deadzoneOverride else s.deadzone) then
                [[0xB0 + (if 1 <= e.midiChannel <= 16 then e.midiChannel - 1 else s.base), e.cc % 128, c / 2]]
              else if Distance(p, c) > s.deadzone then [[0xB0 + (s.base + i / 128) % 16, i % 128, c / 2]]
              else []
            case None =>
              if s.mode == BitMode || Distance(p, c) <= s.deadzone then []
              else [[0xB0 + (s.base + i / 128) % 16, i % 128, c / 2]]
  {
    CastIsHarmless(s.base, i);
    DeltaIsDistance(p, c);
    hide FindByteMapping, FallbackAddress, MappedAddress, Wire, MessageOf, Delta, V7, Distance;
    var mapping := FindByteMapping(s.byteMap, i);
    var e := Event(i, OfByte, FallbackAddress(s.base, i), c / 2);
    OneMessage(e);
    if mapping.Some? {
      AddressBytes(s.base, mapping.value.midiChannel, mapping.value.cc);
      OneMessage(e.(address := MappedAddress(s.base, mapping.value.midiChannel, mapping.value.cc)));
    }
  }

  /** The message of a bit that has changed to `on`. */
  lemma BitMessage(s: Settings, i: nat, k: nat, on: bool)
    ensures MessageOf(BitEvent(s, i, k, on)) ==
            match FindBitMapping(s.bitMap, i, k)
            case Some(e) =>
              [0xB0 + (if 1 <= e.midiChannel <= 16 then e.midiChannel - 1 else s.base), e.cc % 128,
               if on == e.invert then 0 else 127]
            case None => [0xB0 + (s.base + (i * 8 + k) / 128) % 16, (i * 8 + k) % 128, if on then 127 else 0]
  {
    CastIsHarmless(s.base, i * 8 + k);
    hide FindBitMapping, FallbackAddress, MappedAddress, MessageOf;
    var mapping := FindBitMapping(s.bitMap, i, k);
    if mapping.Some? {
      AddressBytes(s.base, mapping.value.midiChannel, mapping.value.cc);
    }
    OneMessage(BitEvent(s, i, k, on));
  }

  /** The bit messages of a changed byte: one for every bit that differs, from the lowest, saying its new value. */
  lemma {:induction false} BitMessages(s: Settings, i: nat, p: uint8, c: uint8, n: nat) returns (bits: seq<nat>)
    requires n <= 8
    ensures forall a, b | 0 <= a < b < |bits| :: bits[a] < bits[b]
    ensures forall k: nat :: k in bits <==> s.mode != ByteMode && k < n && Bit(p, k) != Bit(c, k)
    ensures var wire := Wire(BitEvents(s, i, p, c, n));
            && |wire| == |bits|
            && forall j | 0 <= j < |bits| :: wire[j] == MessageOf(BitEvent(s, i, bits[j], Bit(c, bits[j])))
  {
    hide Bit, BitEvent, MessageOf;
    bits := [];
    if n > 0 && s.mode != ByteMode {
      bits := BitMessages(s, i, p, c, n - 1);
      if Bit(p, n - 1) != Bit(c, n - 1) {
        assert forall a | 0 <= a < |bits| :: bits[a] in bits;
        bits := bits + [n - 1];
      }
    }
  }

  /** The bridge hands its options to the decoder: the base channel modulo 16, and the deadzone, which no distance
      exceeds from 127 on. */
  lemma OptionsReachDecoder(o: Options, i: nat, p: uint8, c: uint8)
    requires o.mode == ByteMode && o.byteMap == []
    ensures Wire(ByteEvents(SettingsOf(o), i, p, c)) ==
            if Distance(p, c) > o.deadzone then [[0xB0 + (o.baseChannel + i / 128) % 16, i % 128, c / 2]] else []
  {
    hide Wire, ByteEvents;
    ByteMessages(SettingsOf(o), i, p, c);
    assert o.baseChannel == SettingsOf(o).base + 16 * (o.baseChannel / 16);
    ModuloOfSum(SettingsOf(o).base + i / 128, o.baseChannel / 16);
  }
}
