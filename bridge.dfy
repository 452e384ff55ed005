/**
  The decision logic of `main` in src/main.rs: the APDU status-word parser,
  the CTAPHID command dispatch, and the Searching / Selecting / Connected
  loop that bridges an NFC token to the emulated HID device, as a state
  machine over the values the NFC reader and the uhid device deliver.
*/
module Bridge {
  import opened Bytes
  import opened Nfc
  import opened Ctaphid
  import opened RoundTrip
  import opened HidSession

  /** The CTAPHID broadcast channel. */
  const Broadcast: U32 := 0xFFFF_FFFF
  /** CTAPHID_INIT, CTAPHID_MSG and CTAPHID_ERROR without the init bit. */
  const CmdInit: Byte := 0x06
  const CmdMsg: Byte := 0x03
  const CmdError: Byte := 0x3F
  /** The ISO/IEC 7816-4 status word for normal processing. */
  const StatusOk: int := 0x9000
  /** SELECT of the FIDO U2F applet, AID A0 00 00 06 47 2F 00 01. */
  const ApduSelect: seq<Byte> := [0x00, 0xa4, 0x04, 0x00, 0x08, 0xa0, 0x00, 0x00, 0x06, 0x47, 0x2f, 0x00, 0x01]
  /** The receive buffers `main` hands to `transceive`. */
  const SelectBufferSize: nat := 16
  const MsgBufferSize: nat := 65536
  /** The INIT nonce length, and what follows the echoed nonce in the INIT reply. */
  const NonceSize: nat := 8
  const InitCapabilities: seq<Byte> := [0xaa, 0xbb, 0xcc, 0xdd, 0x01, 0x01, 0x00, 0x00, 0x00]

  // ---------------------------------------------------------------------------
  // Status word
  // ---------------------------------------------------------------------------

  /** The two trailer octets of a response, big-endian. */
  function StatusBytes(status: int): (b: seq<Byte>)
    requires 0 <= status < 0x1_0000
    ensures |b| == 2
  {
    [status / 0x100, status % 0x100]
  }

  /**
    `parse_response` (ISO/IEC 7816-4, section 5.1): the status word is the
    last two octets, big-endian; 0x9000 gives the body before it, any other
    status is returned as the error. Fewer than two octets make the Rust
    code panic, so callers must rule that out.
  */
  function ParseResponse(data: seq<Byte>): (r: Result<seq<Byte>, int>)
    requires |data| >= 2
    ensures r.Ok? <==> data[|data| - 2] == 0x90 && data[|data| - 1] == 0x00
    ensures r.Ok? ==> data == r.value + [0x90, 0x00]
    ensures r.Err? ==> 0 <= r.error < 0x1_0000 && r.error != StatusOk
                       && data == data[..|data| - 2] + StatusBytes(r.error)
  {
    var status := data[|data| - 2] as int * 0x100 + data[|data| - 1] as int;
    if status == StatusOk then Ok(data[..|data| - 2]) else Err(status)
  }

  /** Parsing undoes appending a status word: the body comes back for 0x9000, the status otherwise. */
  lemma ParseResponseOfStatus(body: seq<Byte>, status: int)
    requires 0 <= status < 0x1_0000
    ensures ParseResponse(body + StatusBytes(status)) == if status == StatusOk then Ok(body) else Err(status)
  {
    var data := body + StatusBytes(status);
    assert data[..|data| - 2] == body;
    assert data[|data| - 2] as int * 0x100 + data[|data| - 1] as int == status;
  }

  // ---------------------------------------------------------------------------
  // Dispatch
  // ---------------------------------------------------------------------------

  /** What `main` does with a message read from the HID side. */
  datatype Action =
    | Answer(reply: HidMessage)
    | Relay(apdu: seq<Byte>)
    | Crash

  /** The reply to CTAPHID_INIT: the nonce echoed, then the capability octets. */
  function InitReply(msg: HidMessage): (reply: HidMessage)
    requires |msg.data| >= NonceSize
    ensures reply.cid == Broadcast && reply.cmd == CmdInit && |reply.data| == 17
    ensures reply.data[..NonceSize] == msg.data[..NonceSize] && reply.data[NonceSize..] == InitCapabilities
  {
    HidMessage(Broadcast, CmdInit, msg.data[..NonceSize] + InitCapabilities)
  }

  /**
    The `match (msg.cid, msg.cmd)` of `main` (CTAP 2.0, section 8.1.9.1):
    INIT on the broadcast channel is answered locally (and panics when the
    nonce is shorter than 8 octets), MSG on any channel is relayed to the
    token as an APDU, anything else gets an ERROR reply with code 0x01.
  */
  function Dispatch(msg: HidMessage): (a: Action)
    ensures msg.cid == Broadcast && msg.cmd == CmdInit ==>
      if |msg.data| < NonceSize then a == Crash
      else a.Answer? && a.reply.cid == Broadcast && a.reply.cmd == CmdInit
           && a.reply.data == msg.data[..NonceSize] + InitCapabilities
    ensures !(msg.cid == Broadcast && msg.cmd == CmdInit) && msg.cmd == CmdMsg ==> a == Relay(msg.data)
    ensures !(msg.cid == Broadcast && msg.cmd == CmdInit) && msg.cmd != CmdMsg ==>
      a == Answer(HidMessage(msg.cid, CmdError, [0x01]))
  {
    if msg.cid == Broadcast && msg.cmd == CmdInit then
      if |msg.data| < NonceSize then Crash else Answer(InitReply(msg))
    else if msg.cmd == CmdMsg then Relay(msg.data)
    else Answer(HidMessage(msg.cid, CmdError, [0x01]))
  }

  /**
    Every reply `main` composes locally fits the CTAPHID framing, so the
    host reads it back whole (see `HidSession.WriteThenRead`).
  */
  lemma LocalRepliesTransmissible(msg: HidMessage)
    requires Dispatch(msg).Answer?
    ensures Transmissible(Dispatch(msg).reply)
  {
  }

  // ---------------------------------------------------------------------------
  // Talking to the token
  // ---------------------------------------------------------------------------

  /**
    One `transceive` as the reader performs it: the libnfc return code and
    the octets the token's answer put at the start of the receive buffer.
  */
  datatype Reply = Reply(code: int, rx: seq<Byte>)

  /** The receive buffer after the call: zero-initialised, the answer copied over its start. */
  function ReceiveBuffer(rx: seq<Byte>, cap: nat): (buf: seq<Byte>)
    ensures |buf| == cap
    ensures forall i :: 0 <= i < cap && i < |rx| ==> buf[i] == rx[i]
  {
    if |rx| >= cap then rx[..cap] else rx + Zeros(cap - |rx|)
  }

  /** The outcome of a `transceive` for `main`: octets, a library error, or a panic. */
  datatype Exchange = Answered(data: seq<Byte>) | Failed(e: Error) | Crashed

  /**
    `transceive` followed by `&response[0..len]`: an unknown negative code
    panics in `From<c_int>`, a known one is an error, and a length beyond
    the buffer panics in the slice.
  */
  function Transfer(r: Reply, cap: nat): (x: Exchange)
    ensures x.Crashed? <==> (r.code < 0 && !IsErrorCode(r.code)) || r.code > cap
    ensures x.Failed? ==> r.code < 0 && Code(x.e) == Some(r.code)
    ensures x.Answered? ==> |x.data| == r.code && x.data == ReceiveBuffer(r.rx, cap)[..r.code]
  {
    if r.code < 0 && !IsErrorCode(r.code) then Crashed
    else
      match Transceive(r.code)
      case Err(e) => Failed(e)
      case Ok(len) => if len > cap then Crashed else Answered(ReceiveBuffer(r.rx, cap)[..len])
  }

  // ---------------------------------------------------------------------------
  // The loop of `main`
  // ---------------------------------------------------------------------------

  /** Why `main` ends with an error. */
  datatype Failure =
    | NfcFailure(e: Error)
    | SelectRefused(status: int)
    | Panic

  /** `Blocked`: a blocking read waits forever, because no further input arrives. */
  datatype Halt = Blocked | Fatal(reason: Failure)

  datatype Mode =
    | Searching
    | Selecting
    | Connected
    | Halted(halt: Halt)

  /**
    The state of the bridge: where `main` is, the poll codes and transceive
    answers still to come from the reader, the uhid events still to come,
    the uhid events written, and the APDUs sent to the token.
  */
  datatype Machine = Machine(
    mode: Mode,
    polls: seq<int>,
    replies: seq<Reply>,
    incoming: seq<UhidEvent>,
    written: seq<UhidEvent>,
    apdus: seq<seq<Byte>>)

  /** The inputs not yet consumed. */
  function Measure(m: Machine): nat
  {
    |m.polls| + |m.replies| + |m.incoming|
  }

  /** `r` comes after `m`: the uhid log and the APDU log only grow. */
  predicate Extends(m: Machine, r: Machine)
  {
    && |m.written| <= |r.written| && r.written[..|m.written|] == m.written
    && |m.apdus| <= |r.apdus| && r.apdus[..|m.apdus|] == m.apdus
  }

  /** A step that does not halt consumes input, and the logs only grow. */
  predicate Progress(m: Machine, r: Machine)
  {
    (!r.mode.Halted? ==> Measure(r) < Measure(m)) && Extends(m, r)
  }

  /**
    The start of `main`: `Context::new`, then `open_initiator`; either
    failing ends `main` before any uhid event is written.
  */
  function Start(contextIsNull: bool, deviceIsNull: bool, initCode: int,
                 polls: seq<int>, replies: seq<Reply>, incoming: seq<UhidEvent>): (m: Machine)
    ensures m.written == [] && m.apdus == []
    ensures m.mode.Halted? <==> contextIsNull || (!deviceIsNull ==> initCode < 0)
    ensures !m.mode.Halted? ==> m.mode == Searching
  {
    var m := Machine(Searching, polls, replies, incoming, [], []);
    match NewContext(contextIsNull)
    case Err(e) => m.(mode := Halted(Fatal(NfcFailure(e))))
    case Ok(_) =>
      if !deviceIsNull && initCode < 0 && !IsErrorCode(initCode) then m.(mode := Halted(Fatal(Panic)))
      else
        match OpenInitiator(deviceIsNull, initCode)
        case Err(e) => m.(mode := Halted(Fatal(NfcFailure(e))))
        case Ok(_) => m
  }

  /** `while nfc_device.poll_target()?.is_none() {}`, one poll. */
  function SearchStep(m: Machine): (r: Machine)
    requires m.mode == Searching
    ensures r.written == m.written && r.apdus == m.apdus && r.replies == m.replies && r.incoming == m.incoming
    ensures m.polls == [] ==> r.mode == Halted(Blocked)
    ensures m.polls != [] ==> r.polls == m.polls[1..]
    ensures m.polls != [] && m.polls[0] == 0 ==> r.mode == Searching
    ensures m.polls != [] && m.polls[0] > 0 ==> r.mode == Selecting
    ensures m.polls != [] && m.polls[0] < 0 ==> r.mode.Halted? && r.mode.halt.Fatal?
    ensures Progress(m, r)
  {
    if m.polls == [] then m.(mode := Halted(Blocked))
    else
      var code := m.polls[0];
      var m1 := m.(polls := m.polls[1..]);
      if code < 0 && !IsErrorCode(code) then m1.(mode := Halted(Fatal(Panic)))
      else
        match PollTarget(code)
        case Err(e) => m1.(mode := Halted(Fatal(NfcFailure(e))))
        case Ok(None) => m1
        case Ok(Some(_)) => m1.(mode := Selecting)
  }

  /**
    SELECT of the U2F applet: a timeout sends `main` back to polling; any
    other error, a panic or a status other than 0x9000 ends it; success
    creates the HID device.
  */
  function SelectStep(m: Machine): (r: Machine)
    requires m.mode == Selecting
    ensures r.polls == m.polls && r.incoming == m.incoming
    ensures m.replies == [] ==> r == m.(mode := Halted(Blocked))
    ensures m.replies != [] ==> r.replies == m.replies[1..] && r.apdus == m.apdus + [ApduSelect]
    ensures r.written == if r.mode == Connected then m.written + [Create2] else m.written
    ensures Progress(m, r)
  {
    if m.replies == [] then m.(mode := Halted(Blocked))
    else
      var m1 := m.(replies := m.replies[1..], apdus := m.apdus + [ApduSelect]);
      match Transfer(m.replies[0], SelectBufferSize)
      case Crashed => m1.(mode := Halted(Fatal(Panic)))
      case Failed(e) =>
        if e == TimedOut then m1.(mode := Searching) else m1.(mode := Halted(Fatal(NfcFailure(e))))
      case Answered(data) =>
        if |data| < 2 then m1.(mode := Halted(Fatal(Panic)))
        else
          match ParseResponse(data)
          case Err(status) => m1.(mode := Halted(Fatal(SelectRefused(status))))
          case Ok(_) => m1.(mode := Connected, written := m.written + [Create2])
  }

  /**
    The session ends: `hid` is dropped, which writes DESTROY. An open
    session is closed by it, and nothing but the log and the mode changes.
  */
  function EndSession(m: Machine, mode: Mode): (r: Machine)
    ensures r.mode == mode && Extends(m, r) && |r.written| == |m.written| + 1 && r.written[|m.written|] == Destroy
    ensures r.polls == m.polls && r.replies == m.replies && r.incoming == m.incoming && r.apdus == m.apdus
    ensures Bracket(m.written) == Some(true) ==> Bracket(r.written) == Some(false)
  {
    BracketAfter(m.written, [Destroy]);
    m.(mode := mode, written := m.written + [Destroy])
  }

  /**
    Relaying a MSG to the token: the answer goes back on the message's
    channel as a MSG reply; losing the token (RF error) ends the session and
    returns to polling; a chip error drops the message; any other error or
    a panic ends `main`, dropping the device on the way out.
  */
  function RelayStep(m: Machine, cid: U32, apdu: seq<Byte>): (r: Machine)
    requires m.mode == Connected
    ensures r.polls == m.polls && r.incoming == m.incoming
    ensures m.replies == [] ==> r == m.(mode := Halted(Blocked))
    ensures m.replies != [] ==> r.replies == m.replies[1..] && r.apdus == m.apdus + [apdu]
    ensures Progress(m, r)
  {
    if m.replies == [] then m.(mode := Halted(Blocked))
    else
      var m1 := m.(replies := m.replies[1..], apdus := m.apdus + [apdu]);
      match Transfer(m.replies[0], MsgBufferSize)
      case Crashed => EndSession(m1, Halted(Fatal(Panic)))
      case Failed(e) =>
        if e == RfTransmissionError then EndSession(m1, Searching)
        else if e == DeviceChipError then m1
        else EndSession(m1, Halted(Fatal(NfcFailure(e))))
      case Answered(data) => m1.(written := m.written + Reports(Frames(HidMessage(cid, CmdMsg, data))))
  }

  /** One iteration of the session loop: `hid.read()`, then the dispatch. */
  function SessionStep(m: Machine): (r: Machine)
    requires m.mode == Connected
    ensures r.polls == m.polls
    ensures Receive(None, m.incoming).msg.None? ==> r == m.(mode := Halted(Blocked), incoming := [])
    ensures Receive(None, m.incoming).msg.Some? ==> r.incoming == Receive(None, m.incoming).rest
    ensures Progress(m, r)
  {
    var got := Receive(None, m.incoming);
    if got.msg.None? then m.(mode := Halted(Blocked), incoming := [])
    else
      var msg := got.msg.value;
      var m1 := m.(incoming := got.rest);
      match Dispatch(msg)
      case Crash => EndSession(m1, Halted(Fatal(Panic)))
      case Answer(reply) => m1.(written := m.written + Reports(Frames(reply)))
      case Relay(apdu) => RelayStep(m1, msg.cid, apdu)
  }

  /** One step of `main`; every step that does not halt consumes input. */
  function Step(m: Machine): (r: Machine)
    requires !m.mode.Halted?
    ensures Progress(m, r)
  {
    match m.mode
    case Searching => SearchStep(m)
    case Selecting => SelectStep(m)
    case Connected => SessionStep(m)
  }

  /** `main` run until it returns, panics or blocks for good. */
  function Run(m: Machine): (r: Machine)
    ensures r.mode.Halted?
    ensures |m.written| <= |r.written| && r.written[..|m.written|] == m.written
    decreases Measure(m), if m.mode.Halted? then 0 else 1
  {
    if m.mode.Halted? then m else Run(Step(m))
  }

  // ---------------------------------------------------------------------------
  // Policy: what each outcome leads to
  // ---------------------------------------------------------------------------

  /** While polling finds nothing, `main` polls again. */
  lemma NoTargetPollsAgain(m: Machine)
    requires m.mode == Searching && m.polls != [] && m.polls[0] == 0
    ensures Step(m) == m.(polls := m.polls[1..])
  {
  }

  /** A timed-out SELECT goes back to polling and writes nothing. */
  lemma SelectTimeoutRetries(m: Machine)
    requires m.mode == Selecting && m.replies != [] && m.replies[0].code == -6
    ensures Step(m) == m.(mode := Searching, replies := m.replies[1..], apdus := m.apdus + [ApduSelect])
  {
    assert Transfer(m.replies[0], SelectBufferSize) == Failed(TimedOut);
  }

  /** Any other SELECT error is fatal, and no device is created. */
  lemma SelectErrorFatal(m: Machine)
    requires m.mode == Selecting && m.replies != []
    requires IsErrorCode(m.replies[0].code) && m.replies[0].code != -6
    ensures Step(m).mode == Halted(Fatal(NfcFailure(FromCode(m.replies[0].code))))
    ensures Step(m).written == m.written
  {
  }

  /** A SELECT answer whose status is not 0x9000 is fatal, and no device is created. */
  lemma SelectRefusedFatal(m: Machine, body: seq<Byte>, status: int)
    requires m.mode == Selecting && m.replies != []
    requires 0 <= status < 0x1_0000 && status != StatusOk
    requires m.replies[0] == Reply(|body| + 2, body + StatusBytes(status)) && |body| + 2 <= SelectBufferSize
    ensures Step(m).mode == Halted(Fatal(SelectRefused(status)))
    ensures Step(m).written == m.written
  {
    var data := body + StatusBytes(status);
    assert ReceiveBuffer(data, SelectBufferSize)[..|data|] == data;
    ParseResponseOfStatus(body, status);
  }

  /** A SELECT answered with 0x9000 starts a session: CREATE2 is written. */
  lemma SelectAcceptedConnects(m: Machine, body: seq<Byte>)
    requires m.mode == Selecting && m.replies != []
    requires m.replies[0] == Reply(|body| + 2, body + StatusBytes(StatusOk)) && |body| + 2 <= SelectBufferSize
    ensures Step(m) == m.(mode := Connected, replies := m.replies[1..], apdus := m.apdus + [ApduSelect],
                          written := m.written + [Create2])
  {
    var data := body + StatusBytes(StatusOk);
    assert ReceiveBuffer(data, SelectBufferSize)[..|data|] == data;
    ParseResponseOfStatus(body, StatusOk);
  }

  /** CTAPHID_INIT on the broadcast channel is answered locally: the reply is written and nothing is sent to the token. */
  lemma InitAnswered(m: Machine, msg: HidMessage)
    requires m.mode == Connected && Receive(None, m.incoming).msg == Some(msg)
    requires msg.cid == Broadcast && msg.cmd == CmdInit && |msg.data| >= NonceSize
    ensures Step(m) == m.(incoming := Receive(None, m.incoming).rest,
                          written := m.written + Reports(Frames(InitReply(msg))))
  {
  }

  /** An INIT whose nonce is shorter than 8 octets panics; the device is destroyed on the way out. */
  lemma ShortInitPanics(m: Machine, msg: HidMessage)
    requires m.mode == Connected && Receive(None, m.incoming).msg == Some(msg)
    requires msg.cid == Broadcast && msg.cmd == CmdInit && |msg.data| < NonceSize
    ensures Step(m).mode == Halted(Fatal(Panic))
    ensures Step(m).written == m.written + [Destroy]
    ensures Step(m).apdus == m.apdus
  {
  }

  /** Any command but INIT on the broadcast channel and MSG gets an ERROR reply with code 01 on its own channel. */
  lemma UnknownCommandRefused(m: Machine, msg: HidMessage)
    requires m.mode == Connected && Receive(None, m.incoming).msg == Some(msg)
    requires !(msg.cid == Broadcast && msg.cmd == CmdInit) && msg.cmd != CmdMsg
    ensures Step(m) == m.(incoming := Receive(None, m.incoming).rest,
                          written := m.written + Reports(Frames(HidMessage(msg.cid, CmdError, [0x01]))))
  {
  }

  /** A MSG request reaches the token unchanged, and its answer is written back on the same channel. */
  lemma RelayAnswered(m: Machine, msg: HidMessage, data: seq<Byte>)
    requires m.mode == Connected && Receive(None, m.incoming).msg == Some(msg)
    requires Dispatch(msg).Relay? && m.replies != []
    requires m.replies[0] == Reply(|data|, data) && |data| <= MsgBufferSize
    ensures Step(m).mode == Connected
    ensures Step(m).apdus == m.apdus + [msg.data]
    ensures Step(m).written == m.written + Reports(Frames(HidMessage(msg.cid, CmdMsg, data)))
  {
    assert ReceiveBuffer(data, MsgBufferSize)[..|data|] == data;
  }

  /** Losing the token ends the session with exactly one DESTROY and returns to polling. */
  lemma RfErrorEndsSession(m: Machine)
    requires m.mode == Connected && Receive(None, m.incoming).msg.Some?
    requires Dispatch(Receive(None, m.incoming).msg.value).Relay?
    requires m.replies != [] && m.replies[0].code == -20
    ensures Step(m).mode == Searching
    ensures Step(m).written == m.written + [Destroy]
  {
    assert Transfer(m.replies[0], MsgBufferSize) == Failed(RfTransmissionError);
  }

  /** A chip error drops the message: nothing is written and the session goes on. */
  lemma ChipErrorSkips(m: Machine)
    requires m.mode == Connected && Receive(None, m.incoming).msg.Some?
    requires Dispatch(Receive(None, m.incoming).msg.value).Relay?
    requires m.replies != [] && m.replies[0].code == -90
    ensures Step(m).mode == Connected
    ensures Step(m).written == m.written
    ensures Step(m).incoming == Receive(None, m.incoming).rest
  {
    assert Transfer(m.replies[0], MsgBufferSize) == Failed(DeviceChipError);
  }

  /** Any other relay error is fatal; the device is destroyed on the way out. */
  lemma RelayErrorFatal(m: Machine)
    requires m.mode == Connected && Receive(None, m.incoming).msg.Some?
    requires Dispatch(Receive(None, m.incoming).msg.value).Relay?
    requires m.replies != [] && IsErrorCode(m.replies[0].code)
    requires m.replies[0].code != -20 && m.replies[0].code != -90
    ensures Step(m).mode == Halted(Fatal(NfcFailure(FromCode(m.replies[0].code))))
    ensures Step(m).written == m.written + [Destroy]
  {
  }

  // ---------------------------------------------------------------------------
  // Session lifecycle
  // ---------------------------------------------------------------------------

  /**
    Whether a session is open after `log`: CREATE2 opens one, DESTROY closes
    it, INPUT2 reports belong inside one. `None` when the log breaks that
    pattern.
  */
  function Bracket(log: seq<UhidEvent>): Option<bool>
  {
    BracketFrom(Some(false), log)
  }

  /** The session state after `log`, starting from state `s`. */
  function BracketFrom(s: Option<bool>, log: seq<UhidEvent>): Option<bool>
    decreases |log|
  {
    if log == [] then s else BracketFrom(NextBracket(s, log[0]), log[1..])
  }

  function NextBracket(s: Option<bool>, e: UhidEvent): Option<bool>
  {
    match s
    case None => None
    case Some(open) =>
      match e
      case Create2 => if open then None else Some(true)
      case Destroy => if open then Some(false) else None
      case Input2(_, _) => if open then Some(true) else None
      case _ => None
  }

  /** The session state after two logs is the state after the second, starting where the first left off. */
  lemma {:induction false} BracketFromConcat(s: Option<bool>, a: seq<UhidEvent>, b: seq<UhidEvent>)
    ensures BracketFrom(s, a + b) == BracketFrom(BracketFrom(s, a), b)
    decreases |a|
  {
    if a == [] {
      assert a + b == b;
    } else {
      assert (a + b)[0] == a[0];
      assert (a + b)[1..] == a[1..] + b;
      BracketFromConcat(NextBracket(s, a[0]), a[1..], b);
    }
  }

  /** Reports written during a session keep it open. */
  lemma {:induction false} ReportsKeepOpen(fs: seq<seq<Byte>>)
    requires forall i :: 0 <= i < |fs| ==> |fs[i]| <= FrameSize
    ensures BracketFrom(Some(true), Reports(fs)) == Some(true)
    decreases |fs|
  {
    if fs != [] {
      var r := Reports(fs);
      assert r == [Input2(FrameSize, Pad(fs[0]))] + Reports(fs[1..]);
      assert r[1..] == Reports(fs[1..]);
      ReportsKeepOpen(fs[1..]);
    }
  }

  /** Appending CREATE2, DESTROY or a run of reports to a log, as the bridge does. */
  lemma BracketAfter(log: seq<UhidEvent>, more: seq<UhidEvent>)
    ensures Bracket(log + more) == BracketFrom(Bracket(log), more)
  {
    BracketFromConcat(Some(false), log, more);
  }

  /**
    The session bookkeeping `main` keeps: outside a session every CREATE2
    has had its DESTROY; inside one exactly one device exists. A fatal end
    leaves no device behind; blocking for good may leave one.
  */
  predicate Consistent(m: Machine)
  {
    match m.mode
    case Searching => Bracket(m.written) == Some(false)
    case Selecting => Bracket(m.written) == Some(false)
    case Connected => Bracket(m.written) == Some(true)
    case Halted(Fatal(_)) => Bracket(m.written) == Some(false)
    case Halted(Blocked) => Bracket(m.written).Some?
  }

  lemma StepConsistent(m: Machine)
    requires !m.mode.Halted? && Consistent(m)
    ensures Consistent(Step(m))
  {
    match m.mode
    case Searching =>
    case Selecting =>
      BracketAfter(m.written, [Create2]);
    case Connected =>
      BracketAfter(m.written, [Destroy]);
      var got := Receive(None, m.incoming);
      if got.msg.Some? {
        match Dispatch(got.msg.value)
        case Crash =>
        case Answer(reply) =>
          BracketAfter(m.written, Reports(Frames(reply)));
          ReportsKeepOpen(Frames(reply));
        case Relay(apdu) =>
          if m.replies != [] {
            var x := Transfer(m.replies[0], MsgBufferSize);
            if x.Answered? {
              var fs := Frames(HidMessage(got.msg.value.cid, CmdMsg, x.data));
              BracketAfter(m.written, Reports(fs));
              ReportsKeepOpen(fs);
            }
          }
      }
  }

  lemma {:induction false} RunConsistent(m: Machine)
    requires Consistent(m)
    ensures Consistent(Run(m))
    decreases Measure(m), if m.mode.Halted? then 0 else 1
  {
    if !m.mode.Halted? {
      StepConsistent(m);
      RunConsistent(Step(m));
    }
  }

  /**
    Over a whole run of `main`, CREATE2 and DESTROY alternate, starting
    with CREATE2, and every INPUT2 report lies between a CREATE2 and its
    DESTROY; when `main` ends with an error, every device it created has
    been destroyed.
  */
  lemma SessionsBracketed(contextIsNull: bool, deviceIsNull: bool, initCode: int,
                            polls: seq<int>, replies: seq<Reply>, incoming: seq<UhidEvent>)
    ensures
      var r := Run(Start(contextIsNull, deviceIsNull, initCode, polls, replies, incoming));
      && Bracket(r.written).Some?
      && (r.mode.halt.Fatal? ==> Bracket(r.written) == Some(false))
  {
    RunConsistent(Start(contextIsNull, deviceIsNull, initCode, polls, replies, incoming));
  }
}
