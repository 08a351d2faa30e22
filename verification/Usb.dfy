/** The open/close/read life of `UsbDevice` (src/usb_device.cpp). What libusb answers is an argument. */
module Usb {
  import opened Bits

  /** How `open` ends. The first four fail before libusb has handed out a handle, `ConfigureFails` after. */
  datatype OpenOutcome = EnumerateFails | Multiple | NotFound | LibusbOpenFails | ConfigureFails | Opened

  /** What an input transfer returns. */
  datatype Transfer = Completed(data: seq<uint8>) | TimedOut | NoDevice | IoError | OtherError

  datatype ReadResult = Packet(data: seq<uint8>) | ReadThrew

  /** The two fields, and libusb's own ledger of handles opened and closed. */
  datatype DeviceState = DeviceState(handle: bool, disconnected: bool, opens: nat, closes: nat)

  const CLOSED := DeviceState(false, false, 0, 0)

  predicate ReachesLibusbOpen(outcome: OpenOutcome) {
    outcome == ConfigureFails || outcome == Opened
  }

  function OpenState(st: DeviceState, outcome: OpenOutcome): DeviceState {
    if ReachesLibusbOpen(outcome) then st.(handle := true, disconnected := false, opens := st.opens + 1) else st
  }

  function CloseState(st: DeviceState): DeviceState {
    if st.handle then st.(handle := false, disconnected := false, closes := st.closes + 1)
    else st.(disconnected := false)
  }

  function ReadState(st: DeviceState, transfer: Transfer): DeviceState {
    if st.handle && (transfer == NoDevice || transfer == IoError) then st.(disconnected := true) else st
  }

  function ReadOutcome(st: DeviceState, transfer: Transfer): ReadResult {
    if !st.handle then ReadThrew
    else match transfer
      case Completed(data) => Packet(data)
      case OtherError => ReadThrew
      case _ => Packet([])
  }

  /** Every handle that was opened is closed or is the one held; a device can only be lost while one is held. */
  predicate Balanced(st: DeviceState) {
    && st.opens - st.closes == (if st.handle then 1 else 0)
    && (st.disconnected ==> st.handle)
  }

  /** `open` keeps the ledger balanced exactly when no handle is held, or libusb is not reached: a second open
      overwrites the handle of the first. */
  lemma OpenKeepsBalanceIff(st: DeviceState, outcome: OpenOutcome)
    requires Balanced(st)
    ensures Balanced(OpenState(st, outcome)) <==> !st.handle || !ReachesLibusbOpen(outcome)
  {
  }

  class UsbDevice {
    const reportSize: int
    var handle: bool
    var disconnected: bool
    ghost var opens: nat
    ghost var closes: nat

    ghost function State(): DeviceState
      reads this
    {
      DeviceState(handle, disconnected, opens, closes)
    }

    constructor (reportSize: int)
      ensures State() == CLOSED && this.reportSize == reportSize
    {
      this.reportSize := reportSize;
      handle, disconnected, opens, closes := false, false, 0, 0;
    }

    /** Returns false where the source throws. */
    method Open(outcome: OpenOutcome) returns (ok: bool)
      modifies this
      ensures State() == OpenState(old(State()), outcome)
      ensures ok == (outcome == Opened)
      ensures outcome in {ConfigureFails, Opened} ==>
                handle && !disconnected && opens == old(opens) + 1 && closes == old(closes)
      ensures outcome !in {ConfigureFails, Opened} ==> State() == old(State())
    {
      if outcome == EnumerateFails || outcome == Multiple || outcome == NotFound || outcome == LibusbOpenFails {
        return false;
      }
      handle, opens := true, opens + 1;
      disconnected := false;
      ok := outcome != ConfigureFails;
    }

    method Close()
      modifies this
      ensures State() == CloseState(old(State()))
      ensures !handle && !disconnected && opens == old(opens) && closes == old(closes) + if old(handle) then 1 else 0
    {
      if handle {
        handle, closes := false, closes + 1;
      }
      disconnected := false;
    }

    method ReadInput(transfer: Transfer) returns (r: ReadResult)
      modifies this
      ensures State() == if reportSize > 0 then ReadState(old(State()), transfer) else old(State())
      ensures r == if reportSize > 0 then ReadOutcome(old(State()), transfer) else ReadThrew
      ensures handle == old(handle) && opens == old(opens) && closes == old(closes)
      ensures disconnected <==> old(disconnected) || (handle && reportSize > 0 && transfer in {NoDevice, IoError})
      ensures r == if !handle || reportSize <= 0 || transfer == OtherError then ReadThrew
                   else if transfer.Completed? then Packet(transfer.data) else Packet([])
    {
      if !handle {
        return ReadThrew;
      }
      if reportSize <= 0 {
        return ReadThrew;
      }
      match transfer {
        case TimedOut =>
          r := Packet([]);
        case NoDevice =>
          disconnected := true;
          r := Packet([]);
        case IoError =>
          disconnected := true;
          r := Packet([]);
        case OtherError =>
          r := ReadThrew;
        case Completed(data) =>
          r := Packet(data);
      }
    }

    /** The destructor: a handle still held is closed. */
    method Destroy()
      modifies this
      ensures opens == old(opens) && closes == old(closes) + (if old(handle) then 1 else 0)
      ensures old(Balanced(State())) ==> opens == closes
    {
      if handle {
        closes := closes + 1;
      }
    }
  }
}
