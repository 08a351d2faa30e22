/** The raw-packet System Exclusive message: written nibble by nibble in src/main.cpp, read back in
    tools/midi_dev_tester.py. */
module RawSysEx {
  import opened Bits
  import opened Sequences
  import opened Midi
  import opened CoreMidi

  /** High nibble first. */
  function Nibbles(packet: seq<uint8>): (r: seq<uint8>)
    ensures |r| == 2 * |packet|
  {
    if packet == [] then []
    else
      var b := packet[|packet| - 1];
      Nibbles(packet[..|packet| - 1]) + [b / 16 % 16, b % 16]
  }

  const HEADER: seq<uint8> := [0x7D, 0x53, 0x34, 0x02]

  function EncodePacket(packet: seq<uint8>): MidiMessage {
    [0xF0] + HEADER + Nibbles(packet) + [0xF7]
  }

  /** The bytes on the wire: F0 7D 53 34 02, for every byte its high and its low nibble, and F7. */
  method Encode(packet: seq<uint8>) returns (sysex: MidiMessage)
    ensures sysex == EncodePacket(packet)
    ensures |sysex| == 2 * |packet| + 6 && sysex[..5] == [0xF0, 0x7D, 0x53, 0x34, 0x02] && sysex[|sysex| - 1] == 0xF7
    ensures forall i {:trigger packet[i]} | 0 <= i < |packet| ::
              sysex[5 + 2 * i] == packet[i] / 16 && sysex[6 + 2 * i] == packet[i] % 16
  {
    sysex := [0xF0, 0x7D, 0x53, 0x34, 0x02];
    for i := 0 to |packet|
      invariant sysex == [0xF0] + HEADER + Nibbles(packet[..i])
    {
      assert packet[..i + 1][..i] == packet[..i];
      var b := packet[i];
      sysex := sysex + [b / 16 % 16];
      sysex := sysex + [b % 16];
    }
    assert packet[..|packet|] == packet;
    sysex := sysex + [0xF7];
    EncodedBytes(packet);
  }

  lemma EncodedBytes(packet: seq<uint8>)
    ensures var m := EncodePacket(packet);
            && |m| == 2 * |packet| + 6 && m[..5] == [0xF0, 0x7D, 0x53, 0x34, 0x02] && m[|m| - 1] == 0xF7
            && forall i {:trigger packet[i]} | 0 <= i < |packet| ::
                 m[5 + 2 * i] == packet[i] / 16 && m[6 + 2 * i] == packet[i] % 16
  {
    hide Nibbles;
    var m := EncodePacket(packet);
    forall i | 0 <= i < |packet|
      ensures m[5 + 2 * i] == packet[i] / 16 && m[6 + 2 * i] == packet[i] % 16
    {
      NibblesAt(packet, i);
      assert m[5 + 2 * i] == Nibbles(packet)[2 * i] && m[6 + 2 * i] == Nibbles(packet)[2 * i + 1];
    }
  }

  // ---------- The reader ----------

  /** (hi << 4) | lo */
  function JoinNibbles(hi: uint8, lo: uint8): nat {
    Or(hi * 16, lo)
  }

  /** The packet carried by the inner bytes of a System Exclusive message. None where the tester ignores the message,
      or where building the byte string fails because a pair does not fit a byte. */
  function DecodeSysex(data: seq<uint8>): Option<seq<uint8>> {
    if |data| < 5 || data[..4] != HEADER then None
    else
      var nibbles := data[4..];
      if |nibbles| % 2 != 0 then None
      else if exists i :: 0 <= i < |nibbles| / 2 && JoinNibbles(nibbles[2 * i], nibbles[2 * i + 1]) > 255 then None
      else Some(seq(|nibbles| / 2, i requires 0 <= i < |nibbles| / 2 =>
        JoinNibbles(nibbles[2 * i], nibbles[2 * i + 1])))
  }

  lemma JoinOfNibbles(hi: uint8, lo: uint8)
    requires hi < 16 && lo < 16
    ensures JoinNibbles(hi, lo) == hi * 16 + lo
  {
    hide Or;
    var h1, h2, h3 := lo / 2, lo / 4, lo / 8;
    assert h1 / 2 == h2 && h2 / 2 == h3 && h3 / 2 == 0;
    assert lo == 2 * h1 + lo % 2 && h1 == 2 * h2 + h1 % 2 && h2 == 2 * h3 + h2 % 2 && h3 == h3 % 2;
    OrDoubled(8 * hi, lo);
    OrDoubled(4 * hi, h1);
    OrDoubled(2 * hi, h2);
    OrDoubled(hi, h3);
    OrZero(hi);
    JoinIsOr(hi, lo);
    hide JoinNibbles;
  }

  lemma JoinIsOr(hi: uint8, lo: uint8)
    ensures JoinNibbles(hi, lo) == Or(2 * (8 * hi), lo)
  {
  }

  lemma OrDoubled(a: nat, b: nat)
    ensures Or(2 * a, b) == b % 2 + 2 * Or(a, b / 2)
  {
    assert 2 * a / 2 == a && 2 * a % 2 == 0;
  }

  lemma {:induction false} OrZero(a: nat)
    ensures Or(a, 0) == a
  {
    if a != 0 {
      OrZero(a / 2);
    }
  }

  /** On 7-bit data, a pair fits a byte exactly when its high half is a nibble. */
  lemma JoinFitsIff(hi: uint8, lo: uint8)
    requires hi < 128 && lo < 128
    ensures JoinNibbles(hi, lo) <= 255 <==> hi < 16
  {
    if hi < 16 {
      assert Pow2(8) == 256;
      OrBound(hi * 16, lo, 8);
    }
  }

  lemma {:induction false} NibblesAt(packet: seq<uint8>, i: nat)
    requires i < |packet|
    ensures Nibbles(packet)[2 * i] == packet[i] / 16 && Nibbles(packet)[2 * i + 1] == packet[i] % 16
  {
    if i < |packet| - 1 {
      NibblesAt(packet[..|packet| - 1], i);
    }
  }

  lemma NibblesAreNibbles(packet: seq<uint8>)
    ensures forall j | 0 <= j < |Nibbles(packet)| :: Nibbles(packet)[j] < 16
  {
    forall j | 0 <= j < |Nibbles(packet)|
      ensures Nibbles(packet)[j] < 16
    {
      NibblesAt(packet, j / 2);
      assert j == 2 * (j / 2) || j == 2 * (j / 2) + 1;
    }
  }

  /** The receiver strips the F0 and F7. */
  function Inner(packet: seq<uint8>): seq<uint8> {
    HEADER + Nibbles(packet)
  }

  /** Round trip: the reader gets back exactly what was written, for every packet but the empty one. */
  lemma RoundTrip(packet: seq<uint8>)
    ensures DecodeSysex(Inner(packet)) == if packet == [] then None else Some(packet)
  {
    hide Or, JoinNibbles, Nibbles;
    if packet != [] {
      var data, nibbles := Inner(packet), Nibbles(packet);
      assert data[..4] == HEADER && data[4..] == nibbles;
      forall i | 0 <= i < |packet|
        ensures JoinNibbles(nibbles[2 * i], nibbles[2 * i + 1]) == packet[i]
      {
        NibblesAt(packet, i);
        JoinBack(packet[i]);
      }
      assert DecodeSysex(data).Some?;
      assert DecodeSysex(data).value == packet;
    } else {
      NoNibbles();
    }
  }

  lemma NoNibbles()
    ensures Nibbles([]) == []
  {
  }

  lemma JoinBack(b: uint8)
    ensures JoinNibbles(b / 16, b % 16) == b
  {
    hide JoinNibbles;
    JoinOfNibbles(b / 16, b % 16);
  }

  /** The other way round: a message whose pairs are nibbles decodes to the packet that encodes to it. */
  lemma {:induction false} InverseRoundTrip(data: seq<uint8>)
    requires DecodeSysex(data).Some? && forall j | 4 <= j < |data| :: data[j] < 16
    ensures Inner(DecodeSysex(data).value) == data
  {
    hide JoinNibbles, Nibbles;
    var nibbles, packet := data[4..], DecodeSysex(data).value;
    forall i | 0 <= i < |packet|
      ensures Nibbles(packet)[2 * i] == nibbles[2 * i] && Nibbles(packet)[2 * i + 1] == nibbles[2 * i + 1]
    {
      assert packet[i] == JoinNibbles(nibbles[2 * i], nibbles[2 * i + 1]);
      NibblesAt(packet, i);
      SplitJoin(nibbles[2 * i], nibbles[2 * i + 1]);
    }
    PairwiseEqual(Nibbles(packet), nibbles);
  }

  lemma SplitJoin(hi: uint8, lo: uint8)
    requires hi < 16 && lo < 16
    ensures JoinNibbles(hi, lo) / 16 == hi && JoinNibbles(hi, lo) % 16 == lo
  {
    hide JoinNibbles;
    JoinOfNibbles(hi, lo);
  }

  lemma PairwiseEqual(a: seq<uint8>, b: seq<uint8>)
    requires |a| == |b| && |a| % 2 == 0
    requires forall i {:trigger a[2 * i]} | 0 <= i < |a| / 2 :: a[2 * i] == b[2 * i] && a[2 * i + 1] == b[2 * i + 1]
    ensures a == b
  {
    forall j | 0 <= j < |a|
      ensures a[j] == b[j]
    {
      var i := j / 2;
      assert a[2 * i] == b[2 * i] && a[2 * i + 1] == b[2 * i + 1];
    }
  }

  /** Every byte between F0 and F7 has bit 7 clear, and `send` publishes the message as it is. */
  lemma SysexIsClean(packet: seq<uint8>)
    ensures var m := EncodePacket(packet);
            && |m| == |Inner(packet)| + 2 && m[0] == 0xF0 && m[|m| - 1] == 0xF7 && m[1..|m| - 1] == Inner(packet)
            && (forall j | 0 < j < |m| - 1 :: m[j] < 0x80)
            && Sanitize(m) == m
  {
    NibblesAreNibbles(packet);
    var m := EncodePacket(packet);
    assert m[1..|m| - 1] == Inner(packet);
    forall j | 0 < j < |m| - 1
      ensures m[j] < 0x80
    {
      assert m[j] == Inner(packet)[j - 1];
      if j >= 5 {
        assert m[j] == Nibbles(packet)[j - 5];
      }
    }
  }
}
