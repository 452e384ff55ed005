/**
  `main` of src/main.rs as the nested loops it is: open the reader, poll
  for a token, SELECT the U2F applet, then serve HID messages until the
  token is lost, and start over. The NFC reader and `/dev/uhid` are objects
  whose inputs are fixed in advance; the loops are proved to do exactly
  what the state machine `Bridge.Run` describes.
*/
module BridgeLoop {
  import opened Bytes
  import opened Nfc
  import opened Ctaphid
  import opened HidSession
  import opened Bridge

  /**
    The NFC reader as `main` uses it: the return codes `poll_target` will
    get, the answers `transceive` will get, and the APDUs sent so far.
    Running out of codes or answers stands for a call that never returns.
  */
  class Reader {
    var polls: seq<int>
    var replies: seq<Reply>
    var apdus: seq<seq<Byte>>

    constructor(polls: seq<int>, replies: seq<Reply>)
      ensures this.polls == polls && this.replies == replies && apdus == []
    {
      this.polls := polls;
      this.replies := replies;
      apdus := [];
    }

    /** `nfc_initiator_poll_target`: the next return code. */
    method Poll() returns (code: Option<int>)
      modifies this
      ensures old(polls) == [] ==> code.None? && polls == []
      ensures old(polls) != [] ==> code == Some(old(polls)[0]) && polls == old(polls)[1..]
      ensures replies == old(replies) && apdus == old(apdus)
    {
      if polls == [] {
        code := None;
      } else {
        code := Some(polls[0]);
        polls := polls[1..];
      }
    }

    /** `nfc_initiator_transceive_bytes`: sends `apdu` and gets the next answer. */
    method Transceive(apdu: seq<Byte>) returns (reply: Option<Reply>)
      modifies this
      ensures old(replies) == [] ==> reply.None? && replies == [] && apdus == old(apdus)
      ensures old(replies) != [] ==> reply == Some(old(replies)[0]) && replies == old(replies)[1..]
                                     && apdus == old(apdus) + [apdu]
      ensures polls == old(polls)
    {
      if replies == [] {
        reply := None;
      } else {
        reply := Some(replies[0]);
        replies := replies[1..];
        apdus := apdus + [apdu];
      }
    }
  }

  /** The state of the bridge in `mode`, read off the reader and the uhid device. */
  function Snapshot(mode: Mode, reader: Reader, uhid: Uhid): Machine
    reads reader, uhid
  {
    Machine(mode, reader.polls, reader.replies, uhid.incoming, uhid.written, reader.apdus)
  }

  /** One `poll_target` of the search loop; `Searching` means nothing answered. */
  method SearchOnce(reader: Reader, uhid: Uhid) returns (mode: Mode)
    modifies reader
    ensures mode == Searching || mode == Selecting || mode.Halted?
    ensures Snapshot(mode, reader, uhid) == SearchStep(old(Snapshot(Searching, reader, uhid)))
  {
    var code := reader.Poll();
    if code.None? {
      return Halted(Blocked);
    }
    if code.value < 0 && !IsErrorCode(code.value) {
      return Halted(Fatal(Panic));
    }
    var polled := PollTarget(code.value);
    if polled.Err? {
      return Halted(Fatal(NfcFailure(polled.error)));
    }
    mode := if polled.value.Some? then Selecting else Searching;
  }

  /**
    SELECT of the U2F applet, and `Hid::new` when the token accepts it:
    `Connected` comes with the new device, `Searching` means the SELECT
    timed out.
  */
  method SelectOnce(reader: Reader, uhid: Uhid) returns (mode: Mode, hid: Hid?)
    modifies reader, uhid
    ensures mode == Searching || mode == Connected || mode.Halted?
    ensures mode == Connected <==> hid != null
    ensures hid != null ==> fresh(hid) && hid.uhid == uhid && hid.pending.None? && hid.Valid()
    ensures Snapshot(mode, reader, uhid) == SelectStep(old(Snapshot(Selecting, reader, uhid)))
  {
    hid := null;
    var answer := reader.Transceive(ApduSelect);
    if answer.None? {
      return Halted(Blocked), null;
    }
    var selected := Transfer(answer.value, SelectBufferSize);
    if selected.Crashed? {
      return Halted(Fatal(Panic)), null;
    }
    if selected.Failed? {
      if selected.e == TimedOut {
        return Searching, null;
      }
      return Halted(Fatal(NfcFailure(selected.e))), null;
    }
    if |selected.data| < 2 {
      return Halted(Fatal(Panic)), null;
    }
    var status := ParseResponse(selected.data);
    if status.Err? {
      return Halted(Fatal(SelectRefused(status.error))), null;
    }
    hid := new Hid(uhid);
    mode := Connected;
  }

  /**
    One pass of the session loop: `hid.read()`, then the `match` on the
    message. `Searching` means the token was lost and the device dropped.
  */
  method SessionOnce(hid: Hid, reader: Reader, uhid: Uhid) returns (mode: Mode)
    requires hid.uhid == uhid && hid.pending.None? && hid.Valid()
    modifies hid, reader, uhid
    ensures mode == Searching || mode == Connected || mode.Halted?
    ensures mode == Connected ==> hid.pending.None? && hid.Valid()
    ensures Snapshot(mode, reader, uhid) == SessionStep(old(Snapshot(Connected, reader, uhid)))
  {
    var msg := hid.Read();
    if msg.None? {
      return Halted(Blocked);
    }
    match Dispatch(msg.value)
    case Crash =>
      hid.Drop();
      return Halted(Fatal(Panic));
    case Answer(reply) =>
      hid.Write(reply);
      return Connected;
    case Relay(apdu) =>
      var response := reader.Transceive(apdu);
      if response.None? {
        return Halted(Blocked);
      }
      var relayed := Transfer(response.value, MsgBufferSize);
      if relayed.Crashed? {
        hid.Drop();
        return Halted(Fatal(Panic));
      }
      if relayed.Failed? {
        if relayed.e == RfTransmissionError {
          hid.Drop();
          return Searching;
        } else if relayed.e == DeviceChipError {
          return Connected;
        }
        hid.Drop();
        return Halted(Fatal(NfcFailure(relayed.e)));
      }
      hid.Write(HidMessage(msg.value.cid, CmdMsg, relayed.data));
      return Connected;
  }

  /** A step that does not halt leaves the final state of the run unchanged. */
  lemma Advance(m: Machine)
    requires !m.mode.Halted?
    ensures Run(m) == Run(Step(m))
    ensures m.mode == Searching ==> Step(m) == SearchStep(m)
    ensures m.mode == Selecting ==> Step(m) == SelectStep(m)
    ensures m.mode == Connected ==> Step(m) == SessionStep(m)
  {
  }

  /** `while nfc_device.poll_target()?.is_none() {}`: polls until a token answers or `main` stops. */
  method Search(reader: Reader, uhid: Uhid) returns (mode: Mode)
    modifies reader
    ensures mode == Selecting || mode.Halted?
    ensures Run(Snapshot(mode, reader, uhid)) == Run(old(Snapshot(Searching, reader, uhid)))
    ensures Measure(Snapshot(mode, reader, uhid)) <= old(Measure(Snapshot(Searching, reader, uhid)))
  {
    mode := Searching;
    while mode == Searching
      invariant mode == Searching || mode == Selecting || mode.Halted?
      invariant Run(Snapshot(mode, reader, uhid)) == Run(old(Snapshot(Searching, reader, uhid)))
      invariant Measure(Snapshot(mode, reader, uhid)) <= old(Measure(Snapshot(Searching, reader, uhid)))
      decreases Measure(Snapshot(mode, reader, uhid)), if mode == Searching then 1 else 0
    {
      ghost var m := Snapshot(mode, reader, uhid);
      Advance(m);
      mode := SearchOnce(reader, uhid);
    }
  }

  /** The session loop: serves HID messages until the token is lost or `main` stops. */
  method Session(hid: Hid, reader: Reader, uhid: Uhid) returns (mode: Mode)
    requires hid.uhid == uhid && hid.pending.None? && hid.Valid()
    modifies hid, reader, uhid
    ensures mode == Searching || mode.Halted?
    ensures Run(Snapshot(mode, reader, uhid)) == Run(old(Snapshot(Connected, reader, uhid)))
    ensures Measure(Snapshot(mode, reader, uhid)) <= old(Measure(Snapshot(Connected, reader, uhid)))
  {
    mode := Connected;
    while mode == Connected
      invariant mode == Searching || mode == Connected || mode.Halted?
      invariant mode == Connected ==> hid.pending.None? && hid.Valid()
      invariant Run(Snapshot(mode, reader, uhid)) == Run(old(Snapshot(Connected, reader, uhid)))
      invariant Measure(Snapshot(mode, reader, uhid)) <= old(Measure(Snapshot(Connected, reader, uhid)))
      decreases Measure(Snapshot(mode, reader, uhid)), if mode == Connected then 1 else 0
    {
      ghost var m := Snapshot(mode, reader, uhid);
      Advance(m);
      mode := SessionOnce(hid, reader, uhid);
    }
  }

  /**
    `main`. Returns the state it ends in: why it stopped, the inputs left,
    every uhid event written and every APDU sent. That is the final state
    of `Run` from `Start` on the same inputs.
  */
  method Serve(contextIsNull: bool, deviceIsNull: bool, initCode: int,
               polls: seq<int>, replies: seq<Reply>, incoming: seq<UhidEvent>) returns (r: Machine)
    ensures r == Run(Start(contextIsNull, deviceIsNull, initCode, polls, replies, incoming))
  {
    ghost var goal := Run(Start(contextIsNull, deviceIsNull, initCode, polls, replies, incoming));
    var context := NewContext(contextIsNull);
    if context.Err? {
      return Machine(Halted(Fatal(NfcFailure(context.error))), polls, replies, incoming, [], []);
    }
    if !deviceIsNull && initCode < 0 && !IsErrorCode(initCode) {
      return Machine(Halted(Fatal(Panic)), polls, replies, incoming, [], []);
    }
    var device := OpenInitiator(deviceIsNull, initCode);
    if device.Err? {
      return Machine(Halted(Fatal(NfcFailure(device.error))), polls, replies, incoming, [], []);
    }
    var reader := new Reader(polls, replies);
    var uhid := new Uhid(incoming);

    while true
      invariant Run(Snapshot(Searching, reader, uhid)) == goal
      decreases Measure(Snapshot(Searching, reader, uhid))
    {
      ghost var before := Measure(Snapshot(Searching, reader, uhid));
      var mode := Search(reader, uhid);
      if mode.Halted? {
        return Snapshot(mode, reader, uhid);
      }

      ghost var m := Snapshot(mode, reader, uhid);
      Advance(m);
      var hid;
      mode, hid := SelectOnce(reader, uhid);
      if mode.Halted? {
        return Snapshot(mode, reader, uhid);
      }
      if mode == Searching {
        continue;
      }

      mode := Session(hid, reader, uhid);
      if mode.Halted? {
        return Snapshot(mode, reader, uhid);
      }
    }
  }
}
