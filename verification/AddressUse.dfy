/** Which addresses a decoder can use, in each mode, and when no two controls share one. */
module AddressUse {
  import opened Bits
  import opened Sequences
  import opened Midi
  import opened Protocol
  import opened Addressing
  import opened BitView

  /** Some movement of byte i makes its byte view, or one of its bits, send on address a. */
  ghost predicate CanSend(s: Settings, i: nat, v: View, a: Address) {
    exists p: uint8, c: uint8, e: Event :: e in PairEvents(s, i, p, c) && e.view == v && e.address == a
  }

  /** Over an n-byte report, no two of the bytes and bits that the decoder sends can use the same address. */
  ghost predicate UniqueAddresses(s: Settings, n: nat) {
    forall i: nat, v: View, j: nat, w: View, a: Address |
      i < n && j < n && (i, v) != (j, w) && CanSend(s, i, v, a) :: !CanSend(s, j, w, a)
  }

  lemma {:induction false} BitEventsOnTheirAddress(s: Settings, i: nat, p: uint8, c: uint8, n: nat)
    requires n <= 8
    ensures forall e | e in BitEvents(s, i, p, c, n) ::
              HasBitView(s.mode) && e.view.OfBit? && e.view.bit < 8 && e.address == BitAddress(s, i, e.view.bit)
  {
    hide Bit, BitAddress, Inverted;
    if n > 0 {
      BitEventsOnTheirAddress(s, i, p, c, n - 1);
    }
  }

  lemma BitCanSendIff(s: Settings, i: nat, k: nat, a: Address)
    ensures CanSend(s, i, OfBit(k), a) <==> HasBitView(s.mode) && k < 8 && a == BitAddress(s, i, k)
  {
    if p: uint8, c: uint8, e: Event :| e in PairEvents(s, i, p, c) && e.view == OfBit(k) && e.address == a {
      BitEventsOnTheirAddress(s, i, p, c, 8);
    }
    hide ByteEvents, BitEvents, BitAddress, Bit, FlipBit;
    if HasBitView(s.mode) && k < 8 {
      var e := BitEvent(s, i, k, !Bit(0, k));
      FlipBitEvents(s, i, 0, k, 8);
      assert e in BitEvents(s, i, 0, FlipBit(0, k), 8);
      assert e in PairEvents(s, i, 0, FlipBit(0, k));
    }
  }

  lemma ByteCanSendIff(s: Settings, i: nat, a: Address)
    requires s.byteMap == []
    ensures CanSend(s, i, OfByte, a) <==> HasByteView(s.mode) && s.deadzone < 127 && a == FallbackAddress(s.base, i)
  {
    hide FallbackAddress, BitEvents;
    if p: uint8, c: uint8, e: Event :| e in PairEvents(s, i, p, c) && e.view == OfByte && e.address == a {
      BitEventsOnTheirAddress(s, i, p, c, 8);
    }
    if HasByteView(s.mode) && s.deadzone < 127 {
      assert Delta(0, 254) == 127;
      var e := Event(i, OfByte, FallbackAddress(s.base, i), V7(254));
      assert e in ByteEvents(s, i, 0, 254);
      assert e in PairEvents(s, i, 0, 254);
    }
  }

  /** What may use an address at all, in each mode. */
  lemma CanSendIff(s: Settings, i: nat, v: View, a: Address)
    requires s.byteMap == []
    ensures CanSend(s, i, v, a) <==>
      match v
      case OfByte => HasByteView(s.mode) && s.deadzone < 127 && a == FallbackAddress(s.base, i)
      case OfBit(k) => HasBitView(s.mode) && k < 8 && a == BitAddress(s, i, k)
  {
    hide CanSend, FallbackAddress, BitAddress;
    match v
    case OfByte => ByteCanSendIff(s, i, a);
    case OfBit(k) => BitCanSendIff(s, i, k, a);
  }

  lemma UniqueInByteMode(s: Settings, n: nat)
    requires s.mode == ByteMode && s.byteMap == []
    ensures UniqueAddresses(s, n) <==> s.deadzone == 127 || DistinctBytes(s.base, n)
  {
    hide CanSend, FallbackAddress, BitAddress;
    forall i: nat, v: View, a: Address
      ensures CanSend(s, i, v, a) <==> v == OfByte && s.deadzone < 127 && a == FallbackAddress(s.base, i)
    {
      CanSendIff(s, i, v, a);
    }
    if s.deadzone < 127 && !DistinctBytes(s.base, n) {
      var i: nat, j: nat :| i < n && j < n && i != j && FallbackAddress(s.base, i) == FallbackAddress(s.base, j);
      assert CanSend(s, i, OfByte, FallbackAddress(s.base, i)) && CanSend(s, j, OfByte, FallbackAddress(s.base, i));
      assert (i, OfByte) != (j, OfByte);
    }
  }

  /** With any bit table, in Bit mode the addresses are unique exactly if the bits' are distinct. */
  lemma UniqueInBitMode(s: Settings, n: nat)
    requires (s.mode == BitMode || (s.mode == HybridMode && s.deadzone == 127)) && s.byteMap == []
    ensures UniqueAddresses(s, n) <==> DistinctBits(s, n)
  {
    hide CanSend, FallbackAddress, BitAddress;
    forall i: nat, v: View, a: Address
      ensures CanSend(s, i, v, a) <==> v.OfBit? && v.bit < 8 && a == BitAddress(s, i, v.bit)
    {
      CanSendIff(s, i, v, a);
    }
    if DistinctBits(s, n) {
      forall i: nat, v: View, j: nat, w: View, a: Address | i < n && j < n && (i, v) != (j, w) && CanSend(s, i, v, a)
        ensures !CanSend(s, j, w, a)
      {
        if CanSend(s, j, w, a) {
          DistinctPair(s, n, i, v.bit, j, w.bit);
        }
      }
    } else {
      var i: nat, k: nat, j: nat, l: nat :| i < n && k < 8 && j < n && l < 8 && (i, k) != (j, l)
        && BitAddress(s, i, k) == BitAddress(s, j, l);
      assert CanSend(s, i, OfBit(k), BitAddress(s, i, k)) && CanSend(s, j, OfBit(l), BitAddress(s, i, k));
      assert (i, OfBit(k)) != (j, OfBit(l));
    }
  }

  /** In Hybrid mode byte 0 and its lowest bit share an address. */
  lemma HybridCollision(s: Settings, n: nat)
    requires s.mode == HybridMode && s.byteMap == [] && s.bitMap == SHIPPED_BIT_MAP && s.deadzone < 127 && n > 0
    ensures !UniqueAddresses(s, n)
  {
    hide CanSend, FallbackAddress, BitAddress;
    var a := FallbackAddress(s.base, 0);
    ShippedAddress(s, 0, 0);
    CanSendIff(s, 0, OfByte, a);
    CanSendIff(s, 0, OfBit(0), a);
    assert CanSend(s, 0, OfByte, a) && CanSend(s, 0, OfBit(0), a) && (0, OfByte) != (0, OfBit(0));
  }

  /** The README's promise of a unique controller, exactly: with the shipped tables it holds in Byte mode up to 2048
      bytes, in Bit mode up to ShippedBitLimit(base), and in Hybrid mode for no report at all; except that a deadzone of
      127, which silences the byte view, leaves nothing to collide in Byte mode and makes Hybrid mode as good as Bit
      mode. */
  lemma UniqueAddressesIff(s: Settings, n: nat)
    requires s.byteMap == SHIPPED_BYTE_MAP && s.bitMap == SHIPPED_BIT_MAP
    ensures UniqueAddresses(s, n) <==>
      match s.mode
      case ByteMode => s.deadzone == 127 || n <= 2048
      case BitMode => n <= ShippedBitLimit(s.base)
      case HybridMode => n == 0 || (s.deadzone == 127 && n <= ShippedBitLimit(s.base))
  {
    hide UniqueAddresses, DistinctBits, DistinctBytes;
    match s.mode
    case ByteMode =>
      UniqueInByteMode(s, n);
      ByteThreshold(s.base, n);
    case BitMode =>
      UniqueInBitMode(s, n);
      ShippedBitThreshold(s, n);
    case HybridMode =>
      if n == 0 {
        NothingCollides(s);
      } else if s.deadzone == 127 {
        UniqueInBitMode(s, n);
        ShippedBitThreshold(s, n);
      } else {
        HybridCollision(s, n);
      }
  }

  lemma NothingCollides(s: Settings)
    ensures UniqueAddresses(s, 0)
  {
  }
}
