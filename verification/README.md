# Verification model of the S4 MK1 USB-to-MIDI bridge

The bridge reads raw USB reports, compares each with the one before, and sends the differences as MIDI Control Changes;
optionally it also sends every packet as a System Exclusive message. A tester program on the other side turns both back
into a grid of bytes. This project models that whole path in Dafny and proves what a receiver can, and cannot, know about
the device, over whole runs, for any behaviour of the device, the USB driver and the MIDI port.

| file | models |
|---|---|
| `Bits.dfy`, `Sequences.dfy`, `Midi.dfy` | bytes and bit operations, sequence vocabulary, Control Change messages |
| `Protocol.dfy` | the delta decoder: `Diff` for a pair of reports, `Stream` for a run, and the class that computes them |
| `Messages.dfy` | the decoder's messages as bytes, for any tables |
| `Addressing.dfy`, `AddressUse.dfy` | when addresses collide, and which ones each mode can use |
| `BitView.dfy`, `ByteView.dfy`, `ByteWire.dfy`, `HybridView.dfy` | Bit, Byte and Hybrid mode over whole runs |
| `HybridNotes.dfy`, `HybridWire.dfy`, `HybridReports.dfy` | what a listener recovers from the mixed messages of Hybrid mode |
| `HybridShipped.dfy`, `HybridAmbiguity.dfy`, `HybridLimits.dfy` | the same for the shipped tables: where it works, where it fails, and that this is all |
| `Usb.dfy`, `CoreMidi.dfy`, `RawSysEx.dfy`, `DebugView.dfy` | device handle, sanitising send, raw-packet SysEx, debug printout |
| `Bridge.dfy`, `BridgeRuns.dfy`, `BridgeProgram.dfy` | the bridge loop with connect and retry as a step machine, what every run of it keeps, and its program text |
| `ByteMap.dfy`, `Tester.dfy`, `EndToEnd.dfy` | the tester's byte grid, its event handler, and the path from device to grid through all stages |
| `S4Init.dfy` | the asynchronous transfers of the initialisation, under every callback schedule |
| `RuleIndex.dfy`, `HexText.dfy` | the tester's rule index; the hexadecimal printer and reader |

Conventions. A byte is an integer from 0 to 255 and bit operations are written out on it. What the outside world answers
is an argument: a run of the bridge is a script of ticks, each with the result of the transfer, the outcomes of reconnect
attempts, whether the SysEx send is accepted, and how many Control Change sends are accepted before one throws. The end of
the script is the moment the `running` flag is found cleared, so a statement about all scripts is one about every moment
of every run. A method's Boolean result that is false stands for a thrown exception. The two mapping tables are
parameters; results that depend on the shipped ones say so.

Where the code and its documentation differ, the model follows the code:

- `README.md` line 19 promises a unique CC number per changed byte or bit. `UniqueAddressesIff` says exactly when that
  holds with the shipped tables: in Byte mode up to 2048 bytes, in Bit mode up to `ShippedBitLimit`, in Hybrid mode for
  no report at all (byte 0 and its lowest bit share an address), except that deadzone 127 silences the byte view. The S4
  examples in the documentation use reports of 64 and 512 bytes: 512 is beyond every limit of the bits, and 64 is beyond
  that of base channels 0 and 13 to 15 (counted from 0).
- Unique addresses are exactly what a listener needs in Bit mode (`WireDeterminesIffDistinct`). In Byte mode the messages
  determine the upper seven bits of a report exactly with deadzone 0 and at most 2048 bytes (`UpperBitsDeterminedIff`).
  In Hybrid mode a listener can often undo the sharing: `HybridWireIff` shows that the messages determine the report
  exactly if the deadzone plus one is a power of two and the bits are within their limit; with deadzone 0 the limit is
  one byte further (7 bytes instead of 4 on base channel 0), except on base channel 14 (counted from 0). `SplitGroup`
  gives the runs that look the same for every other deadzone.
- The comment on `deadzone_override` suggests that it replaces the global deadzone. `OverrideHonouredIff` shows that it
  decides what is sent exactly if it does not exceed the global one. `OverrideLeaks` is a movement that it should hold
  back and that is sent all the same, and `OverrideRouting` says on which address.
- The deadzone compares with the last report, not with the last value sent, so slow movements are lost. After k quiet
  reports a listener is off by at most the smaller of deadzone * k and 127 (`DriftAtMost`), and for every deadzone and
  every k some run reaches that (`DriftIsTight`). A listener always stays within the deadzone exactly for deadzones 0 and
  127 (`StaysWithinDeadzoneIff`). `NeverRepeatsIff` says when a value can be sent twice in a row.
- The tester's source setting "Both" shows wrong bytes when the bridge has a bit view (`GridTracksIff`).
- `cmd` and `stop_drain84` may free a transfer whose callback is still to come; `led_async` never does. `Cmd` and
  `StopDrain84` state exactly for which schedules of callbacks, and `Initialise` for the whole initialisation, together
  with the step at which it stops.

## Model

| member | source | states |
|---|---|---|
| Protocol.S4GenericProtocol.constructor | src/s4_generic_protocol.cpp:91-96 | the base channel is reduced to 4 bits, the deadzone clamped to 127, and there is no baseline yet |
| Protocol.S4GenericProtocol.DecodeInput | src/s4_generic_protocol.cpp:102-188 | the messages are those of `Diff` against the previous report, the report becomes the new baseline, and everything emitted so far is the `Stream` of all reports so far |
| Protocol.S4GenericProtocol.DecodeByteView | src/s4_generic_protocol.cpp:131-155 | the messages of the byte view of one changed byte |
| Protocol.S4GenericProtocol.DecodeBitView | src/s4_generic_protocol.cpp:157-183 | the messages of the bit view of one changed byte, found by testing the bits of the xor |
| Protocol.EqualBytesEmitNothing | src/s4_generic_protocol.cpp:116-118 | skipping equal bytes early loses nothing |
| Messages.FirstByteEntry | src/s4_generic_protocol.cpp:65-72 | the entry used for a byte is the first of the table with its index, and there is one if any entry has it |
| Messages.FirstBitEntry | src/s4_generic_protocol.cpp:74-81 | the same for a bit |
| Messages.ByteMessages | src/s4_generic_protocol.cpp:120-155 | status, controller and value of what a changed byte sends, for any table: entry channel or base, entry deadzone or global one, fallback address |
| Messages.BitMessage | src/s4_generic_protocol.cpp:163-180 | status, controller and value of what a changed bit sends, for any table, inversion included |
| Messages.BitMessages | src/s4_generic_protocol.cpp:157-183 | exactly the bits that differ are sent, from the lowest |
| Messages.OptionsReachDecoder | src/main.cpp:346-350 | base channel and deadzone as given on the command line decide what the bridge's decoder sends |
| Addressing.CastIsHarmless | src/s4_generic_protocol.cpp:149-152 | the 16-bit cast never alters an address |
| Addressing.FallbackIsLinear | src/s4_generic_protocol.cpp:176-178 | below index 2048 the fallback walks the 2048 addresses from base * 128 on and wraps once |
| Addressing.ByteThreshold | src/s4_generic_protocol.cpp:149-152 | byte addresses are distinct exactly up to 2048 bytes |
| Addressing.ShippedLookup | src/s4_generic_protocol.cpp:54-81 | the lookup in the shipped bit table, by cases |
| Addressing.ShippedAddress | src/s4_generic_protocol.cpp:165-180 | the mapped bits answer on controllers 20 to 24 of channel 0, all others on the fallback |
| Addressing.ShippedBitThreshold | src/s4_generic_protocol.cpp:54-63 | with the shipped table the bits of an n-byte report have distinct addresses if and only if n <= 4 (base 0) or n <= 258 - 16 * base |
| AddressUse.CanSendIff | src/s4_generic_protocol.cpp:131-183 | with the shipped empty byte table, the addresses a byte or a bit can ever send on, in each mode, derived from the events of all its movements |
| AddressUse.UniqueInBitMode | src/s4_generic_protocol.cpp:157-183 | for any bit table, with only the bit view sending, no address has two senders exactly if the bits have distinct addresses |
| AddressUse.UniqueAddressesIff | src/s4_generic_protocol.cpp:48-183 | the promise of a unique controller per byte or bit, exactly, for the shipped tables in each of the three modes |
| BitView.Reconstruction | src/s4_generic_protocol.cpp:102-188 | in Bit mode a listener who starts from the first report holds the last one on every byte all reports have, for reports of varying length and distinct addresses |
| BitView.WireDeterminesIffDistinct | src/s4_generic_protocol.cpp:157-187 | baseline and messages determine the final report, over all runs of n-byte reports, if and only if no two bits share an address; any table, inverted entries included |
| BitView.ShippedWireDetermines | src/s4_generic_protocol.cpp:54-63 | for the shipped table the messages determine the report exactly up to the size limit |
| BitView.FlipRun | src/s4_generic_protocol.cpp:159-182 | a single flipped bit is a single message |
| BitView.Alternation | src/s4_generic_protocol.cpp:159-180 | the values sent for one bit strictly alternate, start opposite to the baseline and end on the last report; any table, Bit or Hybrid mode |
| BitView.MessageCount | src/s4_generic_protocol.cpp:124-182 | the number of messages of a run is at least the Hamming distance from first to last report and has the same parity |
| BitView.PopcountOfBytes | src/s4_generic_protocol.cpp:124-162 | the popcount of the xor counts the differing bits |
| ByteView.ByteEventIff | src/s4_generic_protocol.cpp:131-155 | the values sent for one changed byte: its new value exactly when its movement exceeds the smaller of entry and global deadzone, nothing otherwise (`OverrideRouting` gives the address) |
| ByteView.OverrideHonouredIff | src/s4_generic_protocol.cpp:132-155 | an entry's own deadzone decides what is sent, over all movements, if and only if it does not exceed the global one |
| ByteView.OverrideLeaks | src/s4_generic_protocol.cpp:148-155 | otherwise the movement from 0 by the global deadzone plus one is within the entry's deadzone and is sent, on the fallback address |
| ByteView.OverrideRouting | src/s4_generic_protocol.cpp:132-155 | a mapped byte goes to its own address exactly when the entry's deadzone is exceeded, and to the fallback exactly when only the global one is |
| ByteView.ByteValuesOfDiff | src/s4_generic_protocol.cpp:113-155 | the same for a byte of a whole report: no other byte or view contributes to its values |
| ByteView.DriftBound | src/s4_generic_protocol.cpp:125-186 | a listener is off by at most the deadzone times the reports since the byte was last sent |
| ByteView.ExactWithoutDeadzone | src/s4_generic_protocol.cpp:125-186 | with effective deadzone 0 the listener is never off |
| ByteView.DriftAtMost | src/s4_generic_protocol.cpp:125-186 | both being 7-bit values, the listener is off by at most the smaller of that and 127 |
| ByteView.DriftIsTight | src/s4_generic_protocol.cpp:148-186 | for every deadzone and every k there is a silent run of k steps that reaches this maximum |
| ByteView.StaysWithinDeadzoneIff | src/s4_generic_protocol.cpp:127-148 | with an empty byte table, a listener is within the deadzone of the truth over every run if and only if the deadzone is 0 or 127 |
| ByteView.NoRepeatsWithoutDeadzone | src/s4_generic_protocol.cpp:125-153 | with effective deadzone 0 no byte sends its baseline first or a value twice in a row; any table and lengths |
| ByteView.NeverRepeatsIff | src/s4_generic_protocol.cpp:127-148 | with an empty byte table repeats are excluded exactly for deadzone 0 and 127 |
| ByteView.SilentAtFullDeadzone | src/s4_generic_protocol.cpp:132-155 | deadzone 127 with the empty table emits nothing in any run |
| ByteView.DeadzoneMonotone | src/s4_generic_protocol.cpp:132-155 | on the same run a larger deadzone emits a subsequence of what a smaller one emits, with any overrides |
| ByteWire.HeardOnAddress | src/s4_generic_protocol.cpp:148-153 | what is heard on the address of a byte is what was sent for that byte, for reports of at most 2048 bytes |
| ByteWire.UpperBitsDeterminedIff | src/s4_generic_protocol.cpp:127-153 | in Byte mode with the shipped empty table, baseline and messages determine the upper seven bits of every run of n-byte reports if and only if n is 0, or the deadzone is 0 and n <= 2048 |
| HybridView.HybridIsMerge | src/s4_generic_protocol.cpp:131-183 | over any run the byte events of Hybrid mode are the Byte-mode output and its bit events the Bit-mode output, in order |
| HybridView.KeysIncrease | src/s4_generic_protocol.cpp:113-184 | within one report the keys (byte, view, bit) strictly increase |
| HybridNotes.RunLocal | src/s4_generic_protocol.cpp:113-184 | every Hybrid run, annotated by groups: each byte message announces the flips of its byte, each group of flips is announced exactly if its total movement exceeds the deadzone |
| HybridNotes.CountRun | src/s4_generic_protocol.cpp:131-183 | byte messages and announced groups of each byte are equally many |
| HybridWire.LoudStep | src/s4_generic_protocol.cpp:131-183 | of two runs with the same messages and a deadzone one less than a power of two: where they agree from some message on, a group announced in one is announced in the other |
| HybridReports.HybridDetermines | src/s4_generic_protocol.cpp:102-188 | so Hybrid messages determine the report, for any table without inverted entries, if bytes and bits can be told apart and the deadzone plus one is a power of two |
| HybridShipped.TellingWithoutDeadzone | src/s4_generic_protocol.cpp:54-81 | without a deadzone the message before a bit tells apart bits that share an address, one byte beyond the limit, except on base channel 14 |
| HybridLimits.SplitGroup | src/s4_generic_protocol.cpp:127-183 | for every deadzone from 2 to 126 that is not one less than a power of two there are two runs of one changing byte with the same messages and different ends |
| HybridLimits.AboveTheLimit | src/s4_generic_protocol.cpp:54-81 | beyond the limits there are such runs for every deadzone and base channel |
| HybridLimits.HybridWireIff | src/s4_generic_protocol.cpp:48-183 | with the shipped tables, the exact report sizes, deadzones and base channels for which baseline and Hybrid messages determine the report |
| HybridLimits.HybridAtFullDeadzone | src/s4_generic_protocol.cpp:132-183 | with deadzone 127, an empty byte table and any bit table, if and only if the bits have distinct addresses |
| Usb.UsbDevice.Open | src/usb_device.cpp:90-128 | new fields and ledger for each way `open` can end, before or after libusb has given a handle |
| Usb.UsbDevice.Close | src/usb_device.cpp:130-137 | a held handle is closed once; the lost flag is cleared |
| Usb.UsbDevice.ReadInput | src/usb_device.cpp:139-160 | timeout, loss, fatal error and data, the check of the report size included; only a loss sets the flag |
| Usb.UsbDevice.Destroy | src/usb_device.cpp:29-37 | a held handle is closed, so a balanced ledger ends with as many closes as opens |
| Usb.OpenKeepsBalanceIff | src/usb_device.cpp:118-122 | `open` keeps the ledger balanced exactly when no handle is held or libusb is not reached |
| CoreMidi.SanitizeIsIdentityIff | src/core_midi_bridge.cpp:62-68 | sanitising leaves a message alone exactly when it is no channel message or its data bytes are 7-bit |
| CoreMidi.DecoderMessagesAreClean | src/core_midi_bridge.cpp:62-68 | every decoder message passes unchanged |
| CoreMidi.CoreMidiBridge.Send | src/core_midi_bridge.cpp:57-84 | the sanitised copy is published if accepted; an empty message is dropped without error |
| RawSysEx.Encode | src/main.cpp:416-427 | the loop builds, byte for byte, F0 7D 53 34 02, for every byte of the packet its high and its low nibble, and F7 |
| RawSysEx.RoundTrip | tools/midi_dev_tester.py:868-883 | the tester's decoder returns exactly the packet the bridge encoded, for every packet but the empty one |
| RawSysEx.InverseRoundTrip | tools/midi_dev_tester.py:876-882 | a message made of nibbles decodes to the packet that encodes to it |
| RawSysEx.JoinFitsIff | tools/midi_dev_tester.py:882 | on 7-bit data a pair fits a byte exactly when its high half is a nibble |
| RawSysEx.SysexIsClean | src/main.cpp:412-427 | all inner bytes have bit 7 clear and the message is published unchanged |
| DebugView.PrintInputDeltas | src/main.cpp:110-158 | the printed lines, with and without the button filter |
| DebugView.DebugAgrees | src/main.cpp:125-157 | the unfiltered (byte, bit, value) triples are exactly the Bit-mode events of the same pair, in order, for any table |
| DebugView.DebugLinesMeaning | src/main.cpp:110-158 | for any two packets: one line for every byte that changed, in order, with its values and exactly the bits that differ; with the button filter, only if at most two bytes changed and only bytes with a single differing bit |
| DebugView.PopcountIsOneFlip | src/main.cpp:133 | the population count test finds exactly the bytes that differ in one bit |
| DebugView.ButtonsOnly | src/main.cpp:120-135 | the button filter prints at most two lines, each for a byte with a one-bit difference, a subsequence of the unfiltered lines |
| BridgeProgram.Connect | src/main.cpp:355-375 | close, open and initialise in rounds until success, several devices, or the flag is cleared |
| BridgeProgram.Publish | src/main.cpp:412-437 | SysEx if enabled and changed, remembered only if sent; then the decoder's messages up to the first failing send |
| BridgeProgram.RunBridge | src/main.cpp:346-441 | output, printout and exit of a whole run, one that ends because the MIDI ports cannot be created included, are those of the step machine `Run`; its Control Changes are a prefix of the decoder's output on the packets; after the destructor every handle opened has been closed |
| BridgeRuns.ConnectSucceedsIff | src/main.cpp:355-375 | connecting succeeds exactly if some attempt succeeds before any finds several devices |
| BridgeRuns.HandleConservation | src/main.cpp:355-404 | over every run opens minus closes is 1 while a handle is held and 0 otherwise; a running bridge holds a handle that is not lost |
| BridgeRuns.ControlChangesRefineDecoder | src/main.cpp:396-437 | the Control Changes sent are a prefix of the decoder's output on the non-empty packets alone, all of it while running; the last packet is always the baseline, across reconnects |
| BridgeRuns.RunningIff | src/main.cpp:396-438 | the bridge runs on exactly if it connected, the MIDI ports could be created, no read was fatal, every loss was followed by a reconnect and no Control Change send failed |
| BridgeRuns.ExitMeaning | src/main.cpp:364-438 | how every run ends: code 1, code 0 or an exception, and at which tick |
| BridgeRuns.TickOnTheWire | src/main.cpp:412-437 | what each packet adds to the wire, in this order: its System Exclusive message unless it is the one delivered last, then the decoder's messages |
| BridgeRuns.SysexDeduplication | src/main.cpp:412-434 | with sends failing at will no two consecutive deliveries are equal and the remembered packet is the last one delivered |
| BridgeRuns.PrintoutMeaning | src/main.cpp:400-411 | the printout of every run, up to the tick that stops it: nothing without the debug option, otherwise one group of lines for each packet of a session and the one before it, with and without the button filter |
| BridgeRuns.PrintoutIsSessionEvents | src/main.cpp:400-411 | the debug printout of a run is the Bit-mode output with a new baseline after each loss of the device, in any decode mode |
| BridgeRuns.OneSessionIsStream | src/main.cpp:396-411 | without a loss that is the Bit-mode stream of the whole run |
| ByteMap.ByteMapWindow.constructor | tools/midi_dev_tester.py:49-58 | a grid of 512 zeros, source "Both" |
| ByteMap.RawPacketCells | tools/midi_dev_tester.py:868-883 | a well-formed raw packet of nibbles, header bytes 7D 53 34 02, shows in the first 512 cells, byte for byte |
| ByteMap.RawPacketIgnored | tools/midi_dev_tester.py:868-883 | any other header, an odd number of nibbles, a pair that does not fit a byte, a closed window or the other source leaves the grid alone |
| ByteMap.ControlChangeCell | tools/midi_dev_tester.py:856-866 | a Control Change sets the one cell that channel and controller name to twice its value, if the grid has it |
| ByteMap.BeyondTheGrid | tools/midi_dev_tester.py:46-46 | there are 512 cells, and nothing beyond them has an effect |
| ByteMap.ByteMapWindow.UpdateByte | tools/midi_dev_tester.py:197-208 | one cell changes unless the source filter or the range forbids it |
| ByteMap.ByteMapWindow.UpdatePacket | tools/midi_dev_tester.py:210-214 | the first 512 bytes of the packet replace the cells, the rest stay |
| ByteMap.ByteMapWindow.RouteCcToByteMap | tools/midi_dev_tester.py:856-866 | the cell and value recovered from a Control Change |
| ByteMap.ByteMapWindow.RouteSysexToByteMap | tools/midi_dev_tester.py:868-883 | a well-formed raw packet is shown, anything else ignored |
| Tester.MidiDevTesterApp.HandleEvent | tools/midi_dev_tester.py:655-684 | one queued message: control changes and notes drive all rules, control changes and raw packets the grid |
| Tester.MidiDevTesterApp.DrainEventQueue | tools/midi_dev_tester.py:646-653 | one round handles the first 200 queued messages in order, for grid and rules, and keeps the rest |
| Tester.AnswerByStatus | tools/midi_dev_tester.py:676-684 | which status bytes reach which rules |
| Tester.RuleHearsItsAddress | tools/midi_dev_tester.py:704-714 | over any messages, a rule for a control change answers exactly the values heard on its address |
| Tester.LearnedBit | tools/midi_dev_tester.py:655-714 | a rule that listens to the address of one bit answers a whole Bit-mode run with that bit's values, which alternate and end on its last state |
| Tester.PassthroughBit | tools/midi_dev_tester.py:704-729 | a passthrough rule for one bit sends 127 and 0 in turn, starting opposite to the baseline, and as often as says how the bit ends |
| ByteMap.InverseAddressing | tools/midi_dev_tester.py:861-863 | the window's formula inverts the decoder's addressing below 2048 exactly when the base channels agree modulo 16 |
| EndToEnd.BridgeReconstruction | src/main.cpp:396-437 | Bit-mode reconstruction from the real wire: through timeouts, losses, reconnects and interleaved SysEx |
| EndToEnd.SysexGridShowsRemembered | tools/midi_dev_tester.py:868-883 | source "SysEx only", every mode, failing sends: the grid always shows the packet delivered last, exactly |
| EndToEnd.SysexGridShowsPacket | src/main.cpp:412-434 | after each packet the grid shows it exactly unless this very send failed |
| EndToEnd.GridTracksDevice | tools/midi_dev_tester.py:856-883 | source "Both", Byte mode, any deadzone, packets up to 2048 bytes, no failed send: the grid agrees with the last packet on the upper seven bits of every byte |
| EndToEnd.GridTracksIff | tools/midi_dev_tester.py:856-883 | with the shipped tables that holds on every run if and only if the mode is Byte |
| EndToEnd.CellMirrorsStream | tools/midi_dev_tester.py:856-866 | source "CC only", Byte mode: a cell holds twice the last value sent for its byte, or what it held before |
| EndToEnd.CellDrift | tools/midi_dev_tester.py:861-866 | a cell that was sent is off by at most the deadzone per packet since; with deadzone 0 it is the byte with its lowest bit cleared |
| S4Init.CallbacksKeep | src/s4_init.cpp:22-127 | every callback schedule keeps ownership and keeps `active` equal to "the drain is pending" |
| S4Init.DrainPendingIff | src/s4_init.cpp:112-127 | the drain is pending after any callbacks exactly if each of its own resubmitted it |
| S4Init.DoneIff | src/s4_init.cpp:22-30 | a command transfer is done exactly if a callback of its own ran, and with the status of the first |
| S4Init.StartTracksIff | src/s4_init.cpp:129-138 | starting establishes the meaning of `active` exactly when no earlier drain transfer is pending |
| S4Init.TransferLoop.XferCb | src/s4_init.cpp:22-30 | status recorded, transfer no longer pending |
| S4Init.TransferLoop.Drain84Cb | src/s4_init.cpp:112-127 | ends on cancel, loss, error or a refused resubmission, otherwise pending again |
| S4Init.TransferLoop.HandleEvents | src/s4_init.cpp:77-79 | the effect of any batch of callbacks |
| S4Init.TransferLoop.LedAsync | src/s4_init.cpp:157-198 | on every exit path the transfer is freed only if it was never submitted or its callback has run, and nothing else is freed, while drain callbacks interleave |
| S4Init.TransferLoop.Cmd | src/s4_init.cpp:40-95 | outcome, turns driven and state for every schedule; ownership is kept exactly unless the OUT submission is refused, or the deadline is reached with a callback still to come; nothing is leaked once both transfers are allocated |
| S4Init.TransferLoop.StartDrain84 | src/s4_init.cpp:129-138 | the state it leaves for each answer |
| S4Init.TransferLoop.StopDrain84 | src/s4_init.cpp:140-153 | ownership is kept exactly if the drain is not active or the schedule up to the deadline has a callback of its own that ends it |
| S4Init.TransferLoop.RunStep | src/s4_init.cpp:40-95 | one call passes exactly if everything is allocated and submitted, its callbacks run before the deadline and its OUT status is Completed; the state it leaves otherwise, too |
| S4Init.TransferLoop.RunSteps | src/s4_init.cpp:262-299 | a sequence stops at its first step that does not pass, in the state that the steps up to there leave; ownership is kept exactly unless that step is a command that leaves a transfer pending |
| S4Init.TransferLoop.Initialise | src/s4_init.cpp:257-322 | the whole initialisation: for every schedule where it stops and in which state, which schedules keep every transfer owned and the drain tracked, and that the next one starts as clean |
| RuleIndex.RuleTable.RebuildRuleIndex | tools/midi_dev_tester.py:812-816 | after rebuilding, the index holds for every key exactly the rules with that key, in list order, and no empty entry |
| RuleIndex.RuleTable.AddRule | tools/midi_dev_tester.py:735-754 | the rule is appended and the index agrees |
| RuleIndex.RuleTable.DeleteSelectedRule | tools/midi_dev_tester.py:756-765 | the selected rule, if it exists, is removed and the index agrees |
| RuleIndex.RuleTable.DuplicateSelectedRule | tools/midi_dev_tester.py:767-789 | a copy of the selected rule, if it exists, is appended and the index agrees |
| RuleIndex.RuleTable.ApplyRules | tools/midi_dev_tester.py:704-729 | through the index, every enabled rule with this input and a valid output sends one message, in list order: its kind, channel and clamped index, with the incoming value in passthrough mode and its own value otherwise |
| RuleIndex.ScanOfFilter | tools/midi_dev_tester.py:704-713 | scanning only the rules of the key loses nothing |
| RuleIndex.ScanMeaning | tools/midi_dev_tester.py:704-729 | exactly the enabled rules of the key with a valid kind and channel send, always a valid message |
| HexText.HexDump | src/main.cpp:98-108 | the loop builds the two-digit dump |
| HexText.ParseHexBytes | src/main.cpp:185-200 | text is accepted exactly if it has a token and every token is a byte; then there is one byte per token, in order |
| HexText.DumpText | src/main.cpp:98-108 | the dump character by character: two lower-case digits for each byte, single spaces between |
| HexText.DigitValues | src/main.cpp:190 | the sixteen digits in either case, and no others |
| HexText.TokenMeaning | src/main.cpp:189-193 | what a token means: signs, 0x and 0X, the digits, trailing text, and the bound of a byte |
| HexText.OneMoreToken | src/main.cpp:185-189 | a word behind any whitespace character is one more token |
| HexText.TokensOfDump | src/main.cpp:98-108 | the tokens of a dump are the digit pairs of its bytes |
| HexText.PrintThenRead | src/main.cpp:185-200 | reading back a dump gives the same bytes, for every non-empty byte string |
| HexText.DumpIsInjective | src/main.cpp:98-108 | different byte strings have different dumps |

## Left out

- libusb and CoreMIDI internals, descriptor printing, `resolve_endpoint_types` and packet-list sizing: foreign calls, present only as the outcomes they can have.
- The content of the initialisation sequence and of the LED dumps: fixed data. In the bridge model the initialisation is one Boolean outcome.
- Real time: retry sleeps, timeouts and highlight ages. A deadline is a turn of the event loop that finds it expired.
- Termination of the wait for a cancelled transfer in `led_async`: it depends on the callback arriving; the model reports StillWaiting instead.
- The feedback path from MIDI to USB (`read_proc`, `encode_output`, `write_output`): one branch, and it shares no state with the input path except the device handle.
- Data races between the MIDI callback thread and `close`: the code takes no lock there, so nothing is claimed.
- The tester's user interface: layout, highlights (`_changed_at`), selection, log, counters, and its integer range checks; sending by hand. Sends of the tester are accepted. A window that is not open behaves like one that is not alive.
- The event queue and MIDI library of the tester: messages arrive in order, with F0 and F7 stripped from System Exclusive.
- Probe mode and command-line parsing.
