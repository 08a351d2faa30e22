/** The wire messages: Control Change (status Bn) and the addresses they carry.
    Shapes follow the MIDI 1.0 Detailed Specification, Channel Voice Messages. */
module Midi {
  import opened Bits
  import opened Sequences

  type MidiMessage = seq<uint8>

  datatype Address = Address(channel: nat, controller: nat)
  datatype ControlChange = ControlChange(address: Address, value: nat)

  function MakeCc(channel: uint8, controller: uint8, value: uint8): MidiMessage {
    [0xB0 + channel % 16, controller % 128, value % 128]
  }

  /** What a receiver reads off the wire: a Control Change, or none. */
  function ParseCc(m: MidiMessage): Option<ControlChange> {
    if |m| == 3 && 0xB0 <= m[0] < 0xC0 && m[1] < 128 && m[2] < 128
    then Some(ControlChange(Address(m[0] - 0xB0, m[1]), m[2]))
    else None
  }
}
