/** The publishing side of `CoreMidiBridge` (src/core_midi_bridge.cpp): `send` sanitises a copy and publishes it.
    Whether CoreMIDI accepts the packet is an argument. */
module CoreMidi {
  import opened Bits
  import opened Midi
  import opened Protocol

  /** A channel message has its data bytes masked to 7 bits; anything else goes out as it is. */
  function Sanitize(m: MidiMessage): MidiMessage {
    if m != [] && 0x80 <= m[0] < 0xF0
    then [m[0]] + seq(|m| - 1, j requires 0 <= j < |m| - 1 => m[j + 1] % 128)
    else m
  }

  /** `send` leaves a message alone exactly when it is not a channel message, or its data bytes are 7-bit. */
  lemma SanitizeIsIdentityIff(m: MidiMessage)
    ensures Sanitize(m) == m <==> m == [] || !(0x80 <= m[0] < 0xF0) || forall j | 0 < j < |m| :: m[j] < 128
  {
    if m != [] && 0x80 <= m[0] < 0xF0 {
      MaskedBytes(m);
      hide Sanitize;
      forall j | 0 < j < |m|
        ensures Sanitize(m)[j] == m[j] <==> m[j] < 128
      {
        MaskIsIdentityIff(m[j]);
      }
    }
  }

  lemma MaskedBytes(m: MidiMessage)
    requires m != [] && 0x80 <= m[0] < 0xF0
    ensures |Sanitize(m)| == |m| && Sanitize(m)[0] == m[0]
    ensures forall j | 0 < j < |m| :: Sanitize(m)[j] == m[j] % 128
  {
  }

  lemma MaskIsIdentityIff(b: uint8)
    ensures b % 128 == b <==> b < 128
  {
  }

  lemma DecoderMessagesAreClean(e: Event)
    ensures Sanitize(MessageOf(e)) == MessageOf(e) && MessageOf(e)[0] < 0xF0 && |MessageOf(e)| == 3
  {
    SanitizeIsIdentityIff(MessageOf(e));
  }

  class CoreMidiBridge {
    /** Everything the virtual source has published, in order. */
    var published: seq<MidiMessage>

    constructor ()
      ensures published == []
    {
      published := [];
    }

    /** Returns false where the source throws. */
    method Send(message: MidiMessage, accepted: bool) returns (ok: bool)
      modifies this
      ensures ok == (message == [] || accepted)
      ensures published == if message != [] && accepted then old(published) + [Sanitize(message)] else old(published)
    {
      if |message| == 0 {
        return true;
      }
      var sanitized := new uint8[|message|](j requires 0 <= j < |message| => message[j]);
      var status := sanitized[0];
      if status >= 0x80 && status < 0xF0 {
        for index := 1 to sanitized.Length
          invariant sanitized[0] == message[0]
          invariant forall j | 0 < j < index :: sanitized[j] == message[j] % 128
          invariant forall j | index <= j < |message| :: sanitized[j] == message[j]
          modifies sanitized
        {
          sanitized[index] := sanitized[index] % 128;
        }
      }
      assert sanitized[..] == Sanitize(message);
      if accepted {
        published := published + [sanitized[..]];
      }
      ok := accepted;
    }
  }
}
