# u2f-nfchidemu in Dafny

u2f-nfchidemu makes an NFC U2F token (a YubiKey, say) usable as a USB one.
It creates an emulated HID device through Linux `uhid`. It reads CTAPHID
messages that the host's browser writes to that device and relays the U2F
requests to the token as APDUs over an NFC reader (libnfc). Then it writes
the token's answers back as CTAPHID messages.

This project models the protocol logic of `src/main.rs` and `src/nfc.rs`
and proves what that logic promises:

- **CTAPHID framing** (CTAP 2.0, section 8.1.4). `Hid::process_frame`
  reassembles 64-octet init and continuation frames into messages.
  `Hid::write` cuts a message into frames. `Ctaphid` specifies both as
  functions (`Reassemble`, `Fragments`). `HidSession.Hid` implements them
  imperatively: a class holding the `pending` field, writing to a `Uhid`
  object that keeps a queue of incoming events and a log of written ones.
  `RoundTrip` proves that the two halves are inverses for every message
  with a 7-bit command and 1 to 7609 payload octets.
- **The status word parser** `parse_response` (ISO/IEC 7816-4,
  section 5.1) and **the command dispatch** of `main` (CTAP 2.0,
  section 8.1.9.1). Both are in `Bridge`.
- **The loop of `main`.** `Bridge` gives it as a state machine
  (Searching, Selecting, Connected, Halted) over the values the NFC reader
  and the uhid device deliver. `BridgeLoop.Serve` gives it as the nested
  loops it is, proved to end in the state `Bridge.Run` describes. Over a
  whole run, CREATE2 and DESTROY alternate, every INPUT2 report lies
  inside a session, and a fatal end leaves no device behind.
- **The libnfc return-code classification** (`From<c_int> for Error`,
  `open_initiator`, `poll_target`, `transceive`). This is in `Nfc`.

Octets are integers 0..255 (`Bytes.Byte`) and channel identifiers are
integers below 2^32. The `u8` frame counter of `Hid::write` wraps
explicitly.

Where the CTAPHID specification and the code differ, the model follows the
code:

- `write` of an empty payload emits no frame at all. CTAPHID would send
  one init frame.
- A continuation frame's channel identifier and sequence number are never
  checked against the pending message.
- A SELECT answer with a status other than 0x9000 ends `main` with an error
  rather than retrying. Only a timed-out SELECT goes back to polling.
- Any error from polling for a token, a timeout included, ends `main`
  (the `?` at src/main.rs:233). Only a poll that finds no target polls
  again.

## Model

| member | source | states |
|---|---|---|
| Nfc.Code | src/nfc.rs:27-40 | every variant except the two initialisation failures stands for exactly one negative libnfc code of the table |
| Nfc.FromCode | src/nfc.rs:23-43 | defined only for the thirteen known codes (any other panics); the variant returned stands for the code given and is never an initialisation failure |
| Nfc.FromCodeInjective | src/nfc.rs:27-40 | distinct known codes give distinct variants |
| Nfc.FromCodeOnto | src/nfc.rs:27-40 | every variant except the two initialisation failures is produced by its own code |
| Nfc.FromCodeTable | src/nfc.rs:27-40 | the thirteen code/variant pairs of the table |
| Nfc.NewContext | src/nfc.rs:83-95 | fails exactly when `nfc_init` leaves a null context, with ContextInitializationFailed |
| Nfc.OpenInitiator | src/nfc.rs:97-115 | a null device gives DeviceInitializationFailed; otherwise a negative init code gives the error for that code; success otherwise |
| Nfc.PollTarget | src/nfc.rs:133-152 | negative code: the error for it; zero: no target; positive: a target |
| Nfc.Transceive | src/nfc.rs:154-165 | negative code: the error for it; otherwise the code is the received length |
| Nfc.InitFailuresOnlyFromNullChecks | src/nfc.rs:90-114 | no return code makes polling, transceiving or initialising yield an initialisation failure; DeviceInitializationFailed comes exactly from a null device |
| Ctaphid.HasInitBit | src/main.rs:130 | `b & 0x80 != 0`: holds exactly when `b` has a bit above its low seven |
| Ctaphid.SetInitBit | src/main.rs:176 | `cmd \| 0x80`: top bit set, low seven bits kept |
| Ctaphid.ClearInitBit | src/main.rs:129-130 | `b & !0x80`: top bit clear, low seven bits kept |
| Ctaphid.ReadCid | src/main.rs:123-127 | the cid assembled from octets 0-3 has octet 0 as its most significant and octet 3 as its least significant octet |
| Ctaphid.CidBytes | src/main.rs:169-172 | the four octets written for a cid read back as that cid |
| Ctaphid.ReadCidInverse | src/main.rs:123-127 | reading four octets big-endian as the cid and writing the cid back gives the same four octets |
| Ctaphid.CidBytesInjective | src/main.rs:169-172 | distinct cids are written as distinct octets |
| Ctaphid.ReadLength | src/main.rs:138 | the length field read from an init frame is below 65536, with octet 5 as its high and octet 6 as its low octet |
| Ctaphid.LengthBytes | src/main.rs:177-178 | the two octets written for a payload length read back as its low 16 bits |
| Ctaphid.ReadLengthInverse | src/main.rs:138 | the two length octets read and written back give the same octets |
| Ctaphid.LengthBytesInjective | src/main.rs:177-178 | distinct lengths below 65536 are written as distinct octets |
| Ctaphid.EncodeInit | src/main.rs:169-178 | an init frame is 7 octets longer than its chunk (its fields are what `DecodeInit` reads back) |
| Ctaphid.EncodeCont | src/main.rs:169-181 | a continuation frame is 5 octets longer than its chunk (its fields are what `DecodeCont` reads back) |
| Ctaphid.Pad | src/main.rs:189-193 | a frame copied into a zeroed report keeps its octets and is zero after them |
| Ctaphid.Decode | src/main.rs:122-130 | a frame is an init frame exactly when the top bit of octet 4 is set; the command has its top bit clear; the length is below 65536; the payload areas are 57 and 59 octets |
| Ctaphid.DecodeEncodes | src/main.rs:122-130 | decoding loses nothing: the fields of a decoded frame, encoded again, give back the frame |
| Ctaphid.DecodeInit | src/main.rs:122-145 | a zero-filled init frame decodes to its own cid, command, length and chunk |
| Ctaphid.DecodeCont | src/main.rs:146-151 | a zero-filled continuation frame decodes to its own cid, sequence number and chunk |
| Ctaphid.Absorb | src/main.rs:132-153 | the length invariant is kept; a continuation frame keeps a pending message's cid, command and length and only extends its data, and does not create one |
| Ctaphid.Reassemble | src/main.rs:122-161 | what stays pending is still incomplete; a completed message leaves nothing pending |
| Ctaphid.InitFrameRestarts | src/main.rs:132-145 | an init frame discards any pending message, whatever its cid, and starts one with cid from octets 0-3, command from octet 4 without its top bit, length from octets 5-6 and the first min(length, 57) octets from offset 7 |
| Ctaphid.EmptyInitCompletes | src/main.rs:137-160 | an init frame declaring length 0 completes at once with no data |
| Ctaphid.OrphanContinuation | src/main.rs:146-153 | a continuation frame with nothing pending changes nothing and returns nothing |
| Ctaphid.ContinuationAppends | src/main.rs:146-153 | a continuation frame appends min(remaining, 59) octets from offset 5 and touches nothing else |
| Ctaphid.ContinuationHeaderIgnored | src/main.rs:146-153 | the cid and sequence number of a continuation frame have no effect |
| Ctaphid.CompletesExactlyAtLength | src/main.rs:155-160 | a message is returned if and only if the collected octets reach the declared length, with the init frame's cid and command and the collected data; otherwise the state is kept |
| Ctaphid.Fragments | src/main.rs:163-202 | no frames exactly when no octets remain; every frame has a header and at most 64 octets |
| Ctaphid.Frames | src/main.rs:163-167 | a message has frames exactly when its payload is not empty; each is at most 64 octets |
| Ctaphid.FragmentsHeaders | src/main.rs:168-183 | every frame starts with the cid big-endian; the frame at counter 0 carries the command with the top bit set and the 16-bit length; the frame at counter k > 0 carries sequence number k - 1 (the `u8` counter wrapping) |
| Ctaphid.FragmentsPayloads | src/main.rs:185-187 | the payload chunks of the frames, concatenated in order, are the message data |
| Ctaphid.EmptyMessageHasNoFrames | src/main.rs:164-167 | an empty payload gives no frame at all |
| RoundTrip.Feed | src/main.rs:122-161 | feeding frames one by one to the reassembly step yields one result per frame and keeps the length invariant |
| RoundTrip.PadAll | src/main.rs:189-193 | each frame is zero-filled to 64 octets |
| RoundTrip.FeedSteps | src/main.rs:122-161 | frames that carry a message from state to state make the reassembly return nothing until the last frame, which returns the message and leaves nothing pending |
| RoundTrip.InitStep | src/main.rs:137-145 | the init frame of a transmissible message completes it when it fits in 57 octets, and otherwise leaves its first 57 octets pending |
| RoundTrip.ContinuationStep | src/main.rs:146-160 | a continuation frame of a transmissible message appends the next octets, or completes the message with all its data |
| RoundTrip.FrameStep | src/main.rs:122-186 | frame i of a transmissible message takes the receiver from the state before it to the state before frame i + 1, or completes the message |
| RoundTrip.FramesFromHead | src/main.rs:166-186 | the first frame sent at counter s is the init frame or continuation frame s - 1 of the message |
| RoundTrip.FramesFromTail | src/main.rs:166-198 | another frame follows exactly when octets remain after the first, and the rest are the frames sent from counter s + 1 |
| RoundTrip.FragmentsFrom | src/main.rs:166-198 | dropping i frames sent from counter s leaves the frames sent from counter s + i, with no counter wrap for a transmissible message |
| RoundTrip.StepAt | src/main.rs:122-202 | padded frame i of a transmissible message, fed in the state before it, gives the state before frame i + 1 or the message |
| RoundTrip.FramesDeliver | src/main.rs:122-202 | the padded frames of a transmissible message carry it from an empty state to its completion on the last frame |
| RoundTrip.WriteThenProcess | src/main.rs:122-202 | round trip: the frames `write` emits for a message with a 7-bit command and 1 to 7609 octets, fed from an empty state, return nothing until the last, which returns the message, leaving nothing pending |
| HidSession.Uhid.constructor | src/main.rs:18-25 | a freshly opened device has its incoming events and has written nothing |
| HidSession.Uhid.Read | src/main.rs:38-48 | reads the next incoming event, or none once no event will come |
| HidSession.Uhid.Write | src/main.rs:27-36 | appends the event to the log |
| HidSession.CopyBytes | src/main.rs:51-55 | the first \|from\| octets become `from`, the rest are unchanged |
| HidSession.Reports | src/main.rs:189-196 | one INPUT2 event of size 64 per frame, carrying the frame zero-filled |
| HidSession.Receive | src/main.rs:104-120 | a returned message consumed at least one event and leaves nothing pending; without one, all events are consumed; the length invariant is kept |
| HidSession.Hid.constructor | src/main.rs:87-102 | writes CREATE2 and starts with nothing pending |
| HidSession.Hid.Drop | src/main.rs:77-84 | writes DESTROY |
| HidSession.Hid.ProcessFrame | src/main.rs:122-161 | the new pending state and the returned message are those of `Reassemble` on the old state; the length invariant is kept |
| HidSession.Hid.Read | src/main.rs:104-120 | the message returned, the new pending state and the events left are those of `Receive` on the old state and events (which skips other events, see `ReceiveSkips`); writes nothing |
| HidSession.Hid.Write | src/main.rs:163-202 | writes exactly the INPUT2 reports of the message's frames, in order |
| HidSession.PadCopied | src/main.rs:189-193 | copying a frame over a zeroed report gives the frame zero-filled |
| HidSession.WriteStep | src/main.rs:167-198 | one pass of the write loop writes the report of the first remaining frame and leaves the frames from the next counter value |
| HidSession.ReceiveStep | src/main.rs:106-116 | an OUTPUT frame that completes nothing moves the reader to the next state |
| HidSession.ReceiveLast | src/main.rs:106-116 | an OUTPUT frame that completes a message ends the read with it, the later events unread |
| HidSession.ReceiveSkips | src/main.rs:108-117 | an event other than OUTPUT is passed over: reading with it in front gives what reading without it gives |
| HidSession.ReceiveSkipsAll | src/main.rs:105-117 | a run of events none of which is OUTPUT is passed over as a whole |
| HidSession.ReceiveSteps | src/main.rs:104-120 | reading frames that carry a message, with other events before each frame, returns that message on the last frame, leaves nothing pending and leaves later events unread |
| HidSession.WriteThenRead | src/main.rs:104-202 | what `write` sends for a transmissible message, delivered as OUTPUT events to a fresh device with any other events in between, makes `read` return that message |
| Bridge.ParseResponse | src/main.rs:209-216 | succeeds exactly when the last two octets are 90 00, with the octets before them; otherwise returns the big-endian status word, which is not 0x9000 |
| Bridge.ParseResponseOfStatus | src/main.rs:209-216 | parsing a body followed by a status word gives back the body for 0x9000 and the status otherwise |
| Bridge.InitReply | src/main.rs:258-270 | the INIT reply is on the broadcast channel with command 0x06 and 17 octets: the first 8 request octets, then `aa bb cc dd 01 01 00 00 00` |
| Bridge.Dispatch | src/main.rs:257-301 | INIT on the broadcast channel is answered locally (a panic with fewer than 8 octets); MSG on any channel is relayed unchanged; anything else gets an ERROR reply with data 01 on the same channel |
| Bridge.LocalRepliesTransmissible | src/main.rs:258-300 | every locally composed reply fits the framing, so the host reads it back whole |
| Bridge.ReceiveBuffer | src/main.rs:236-237 | the zeroed receive buffer holds the token's answer at its start |
| Bridge.Transfer | src/main.rs:236-245 | a panic exactly for an unknown error code or a length beyond the buffer; a known error code gives its error; otherwise the first `len` octets of the buffer |
| Bridge.Start | src/main.rs:221-223 | `main` stops before writing anything when the context or the initiator cannot be opened, and otherwise starts polling |
| Bridge.SearchStep | src/main.rs:233-234 | a poll with no target polls again, one with a target moves to SELECT, and an error ends `main` |
| Bridge.SelectStep | src/main.rs:236-252 | SELECT sends the U2F applet APDU; only an accepted SELECT writes CREATE2 and starts a session |
| Bridge.EndSession | src/main.rs:77-84 | dropping the device appends exactly one DESTROY to the log and changes nothing else but the mode; an open session is closed by it |
| Bridge.RelayStep | src/main.rs:273-293 | a MSG request is sent to the token and the answer consumed |
| Bridge.SessionStep | src/main.rs:254-302 | one `hid.read()` and its dispatch: with no message to come the bridge blocks for good, otherwise exactly the events of that message are consumed; polls are untouched and the logs only grow (each dispatch outcome has its own lemma below) |
| Bridge.Step | src/main.rs:231-303 | every step that does not stop `main` consumes input, and the logs only grow |
| Bridge.Run | src/main.rs:231-303 | `main` ends halted, and the uhid log of the run extends the log it started with |
| Bridge.NoTargetPollsAgain | src/main.rs:233-234 | a poll without a target just polls again |
| Bridge.SelectTimeoutRetries | src/main.rs:237-241 | a timed-out SELECT goes back to polling and writes nothing |
| Bridge.SelectErrorFatal | src/main.rs:237-243 | any other SELECT error ends `main` with that error and creates no device |
| Bridge.SelectRefusedFatal | src/main.rs:245-246 | a SELECT answer whose status is not 0x9000 ends `main` and creates no device |
| Bridge.SelectAcceptedConnects | src/main.rs:245-252 | a SELECT answered with 0x9000 writes CREATE2 and starts a session |
| Bridge.InitAnswered | src/main.rs:258-270 | INIT on the broadcast channel with an 8-octet nonce writes the INIT reply's reports, consumes the message and nothing else, and sends nothing to the token |
| Bridge.ShortInitPanics | src/main.rs:258-260 | INIT on the broadcast channel with fewer than 8 octets ends `main` with a panic, DESTROY written on the way out and nothing sent to the token |
| Bridge.UnknownCommandRefused | src/main.rs:294-300 | any other command but MSG writes an ERROR reply with data 01 on the message's own channel, consumes the message and nothing else |
| Bridge.RelayAnswered | src/main.rs:274-292 | a MSG request reaches the token unchanged and its answer is written back as MSG on the same channel |
| Bridge.RfErrorEndsSession | src/main.rs:277-281 | losing the token writes exactly one DESTROY and returns to polling |
| Bridge.ChipErrorSkips | src/main.rs:282-285 | a chip error writes nothing and the session reads the next message |
| Bridge.RelayErrorFatal | src/main.rs:286 | any other relay error ends `main`, the device destroyed on the way out |
| Bridge.StepConsistent | src/main.rs:231-303 | every step keeps the session bookkeeping: no device outside a session, exactly one inside |
| Bridge.RunConsistent | src/main.rs:231-303 | the whole run keeps the session bookkeeping |
| Bridge.SessionsBracketed | src/main.rs:77-101 | over a run of `main`, CREATE2 and DESTROY alternate starting with CREATE2, every report lies inside a session, and a fatal end leaves no device |
| BridgeLoop.Reader.constructor | src/nfc.rs:97-115 | the reader holds the poll codes and answers to come and has sent nothing |
| BridgeLoop.Reader.Poll | src/nfc.rs:141-143 | takes the next poll return code |
| BridgeLoop.Reader.Transceive | src/nfc.rs:155-158 | sends the APDU and takes the next answer |
| BridgeLoop.SearchOnce | src/main.rs:233 | one poll does what `SearchStep` says |
| BridgeLoop.SelectOnce | src/main.rs:236-252 | SELECT and `Hid::new` do what `SelectStep` says; a device exists exactly when a session starts |
| BridgeLoop.SessionOnce | src/main.rs:255-301 | one pass of the session loop does what `SessionStep` says |
| BridgeLoop.Search | src/main.rs:233-234 | the polling loop ends at SELECT or a stop, without changing where the run ends |
| BridgeLoop.Session | src/main.rs:254-302 | the session loop ends when the token is lost or `main` stops, without changing where the run ends |
| BridgeLoop.Serve | src/main.rs:221-303 | `main`, as nested loops, ends in exactly the final state of `Run` from `Start` on the same inputs |

## Left out

- The `Uhid` file I/O on `/dev/uhid` and the `uhid_event` memory layout (src/main.rs:13-49) are left out. The device is an object with a queue of incoming events and a log of written ones, and its reads and writes never fail. So the `?` on uhid errors in `Hid::new`, `Hid::read`, `Hid::write` and `main` is not modelled.
- The report-ID offset `e.data[1..e.size]` in `Hid::read` is not modelled. OUTPUT events carry 64-octet frames as they are fed to `process_frame`.
- CREATE2 carries no payload in the model. The device name, `FIDO_DESCRIPTOR`, bus, vendor and product are constants without behaviour.
- The privilege drop with `privdrop` is not modelled, because it is a process-level side effect of an external library.
- All libnfc calls (`nfc_init`, `nfc_open`, `nfc_initiator_*`, `nfc_exit`) and the `Rc` and `Drop` handling of its pointers are left out. What they return enters as parameters: whether a pointer is null, and the integer return codes.
- The `Display` texts of `Error` and all `eprintln!` diagnostics are left out, because they are text output.
- A blocking call that never returns is not modelled as such. When the poll codes, transceive answers or uhid events run out, the run stops in `Halted(Blocked)`.
- Nfc.FromCode: the panic on an unknown code is a precondition. `Bridge` and `BridgeLoop` check that precondition first and turn an unknown code into `Fatal(Panic)`.
- HidSession.CopyBytes: the `assert!` that the target is long enough is a precondition. Frames never exceed 64 octets, so the 4096-octet INPUT2 buffer always fits them, and the buffer is modelled as a 64-octet array.
- HidSession.Hid.Write: a debug build panics when the `u8` frame counter overflows after 256 frames. The model follows the wrapping of a release build.
- RoundTrip.WriteThenProcess: only messages of 1 to 7609 octets with a 7-bit command are covered. Longer payloads, such as a token answer of up to 65536 octets relayed by `main`, reach sequence number 0x80 and beyond, which reads back as an init frame. An empty payload sends no frame.
- Panics in `main` (a short SELECT answer, an INIT nonce shorter than 8 octets, a length beyond the receive buffer) become `Fatal(Panic)`. During a session, the unwinding drop of `hid` writes DESTROY.
