/**
  The emulated HID device of src/main.rs: `Hid` holds the reassembly state
  and talks to the uhid character device, which is abstracted as a queue of
  events the kernel will deliver and a log of the events written to it.
*/
module HidSession {
  import opened Bytes
  import opened Ctaphid
  import opened RoundTrip

  /** The uhid events the bridge writes or reacts to; every other kind is `OtherEvent`. */
  datatype UhidEvent =
    | Create2
    | Destroy
    | Input2(size: nat, data: seq<Byte>)
    | Output(frame: Frame)
    | OtherEvent

  /**
    `/dev/uhid`. Reading yields the next event the kernel delivers, or
    `None` once no further event will ever arrive; writing appends to the log.
  */
  class Uhid {
    var incoming: seq<UhidEvent>
    var written: seq<UhidEvent>

    constructor(events: seq<UhidEvent>)
      ensures incoming == events && written == []
    {
      incoming := events;
      written := [];
    }

    method Read() returns (ev: Option<UhidEvent>)
      modifies this
      ensures old(incoming) == [] ==> ev.None? && incoming == []
      ensures old(incoming) != [] ==> ev == Some(old(incoming)[0]) && incoming == old(incoming)[1..]
      ensures written == old(written)
    {
      if incoming == [] {
        ev := None;
      } else {
        ev := Some(incoming[0]);
        incoming := incoming[1..];
      }
    }

    method Write(ev: UhidEvent)
      modifies this
      ensures written == old(written) + [ev]
      ensures incoming == old(incoming)
    {
      written := written + [ev];
    }
  }

  /**
    `copy_bytes`: overwrites the first |from| octets of `to` and leaves the
    rest alone; the Rust code asserts that `to` is long enough.
  */
  method CopyBytes(from: seq<Byte>, to: array<Byte>)
    requires |from| <= to.Length
    modifies to
    ensures to[..] == from + old(to[..])[|from|..]
  {
    forall i | 0 <= i < |from| {
      to[i] := from[i];
    }
    assert to[..] == from + old(to[..])[|from|..] by {
      assert forall i :: 0 <= i < |from| ==> to[..][i] == from[i];
      assert forall i :: |from| <= i < to.Length ==> to[..][i] == old(to[..])[i];
    }
  }

  /** The INPUT2 events that carry the given frames, each zero-filled and sent with size 64. */
  function Reports(fs: seq<seq<Byte>>): (evs: seq<UhidEvent>)
    requires forall i :: 0 <= i < |fs| ==> |fs[i]| <= FrameSize
    ensures |evs| == |fs|
    ensures forall i :: 0 <= i < |fs| ==> evs[i] == Input2(FrameSize, Pad(fs[i]))
    decreases |fs|
  {
    if fs == [] then [] else [Input2(FrameSize, Pad(fs[0]))] + Reports(fs[1..])
  }

  /** What `Hid::read` ends with: the message, the reassembly state, the events not yet read. */
  datatype Received = Received(msg: Option<HidMessage>, pending: Option<PendingData>, rest: seq<UhidEvent>)

  /**
    `Hid::read` as a function of the reassembly state and the events still
    to come: OUTPUT events are fed to the reassembly step until one completes
    a message, every other event is skipped. When the events run out first,
    `Hid::read` would block forever; that is the result with no message.
  */
  function Receive(p: Option<PendingData>, evs: seq<UhidEvent>): (r: Received)
    requires WithinLength(p)
    ensures WithinLength(r.pending)
    ensures |r.rest| <= |evs| && r.rest == evs[|evs| - |r.rest|..]
    ensures r.msg.Some? ==> |r.rest| < |evs| && r.pending.None?
    ensures r.msg.None? ==> r.rest == []
    decreases |evs|
  {
    if evs == [] then Received(None, p, [])
    else
      match evs[0]
      case Output(frame) =>
        var step := Reassemble(p, frame);
        if step.msg.Some? then Received(step.msg, step.pending, evs[1..])
        else Receive(step.pending, evs[1..])
      case _ => Receive(p, evs[1..])
  }

  /** No OUTPUT event among `evs`: `Hid::read` passes over all of them. */
  predicate Quiet(evs: seq<UhidEvent>)
  {
    forall i :: 0 <= i < |evs| ==> !evs[i].Output?
  }

  /**
    The events that carry `frames` as OUTPUT events, frame `i` preceded by
    the other events `noise[i]` the kernel delivers in between.
  */
  function Interleaved(noise: seq<seq<UhidEvent>>, frames: seq<Frame>): seq<UhidEvent>
    requires |noise| == |frames|
    decreases |frames|
  {
    if frames == [] then [] else noise[0] + [Output(frames[0])] + Interleaved(noise[1..], frames[1..])
  }

  /** The emulated device: the uhid handle it writes to and the message being reassembled. */
  class Hid {
    const uhid: Uhid
    var pending: Option<PendingData>

    /** The length invariant of the reassembly state. */
    predicate Valid()
      reads this
    {
      WithinLength(pending)
    }

    /** `Hid::new`: announces the device with a CREATE2 event and starts with nothing pending. */
    constructor(uhid: Uhid)
      modifies uhid
      ensures this.uhid == uhid && pending.None? && Valid()
      ensures uhid.written == old(uhid.written) + [Create2]
      ensures uhid.incoming == old(uhid.incoming)
    {
      this.uhid := uhid;
      pending := None;
      new;
      uhid.Write(Create2);
    }

    /** `Drop for Hid`: removes the device with a DESTROY event. */
    method Drop()
      modifies uhid
      ensures uhid.written == old(uhid.written) + [Destroy]
      ensures uhid.incoming == old(uhid.incoming)
    {
      uhid.Write(Destroy);
    }

    /**
      `Hid::process_frame`: takes one 64-octet frame into the reassembly
      state and returns the message it completes, if any.
    */
    method ProcessFrame(data: Frame) returns (msg: Option<HidMessage>)
      requires Valid()
      modifies this
      ensures Valid()
      ensures Reassembled(pending, msg) == Reassemble(old(pending), data)
    {
      var cid := ReadCid(data[0], data[1], data[2], data[3]);
      var cmd := ClearInitBit(data[4]);
      var init := HasInitBit(data[4]);

      if init && pending.Some? {
        pending := None;
      }

      if init {
        var len := ReadLength(data[5], data[6]);
        var p := PendingData(cid, cmd, len, []);
        var initialLen := Min(len, FrameSize - InitHeaderSize);
        var payload := data[InitHeaderSize..InitHeaderSize + initialLen];
        p := p.(data := p.data + payload);
        assert p.data == payload;
        pending := Some(p);
        InitFrameRestarts(old(pending), data);
      } else {
        if pending.Some? {
          var remaining := pending.value.len - |pending.value.data|;
          var remainingThis := Min(remaining, FrameSize - ContHeaderSize);
          var payload := data[ContHeaderSize..ContHeaderSize + remainingThis];
          ContinuationAppends(pending.value, data);
          pending := Some(pending.value.(data := pending.value.data + payload));
        }
      }
      assert pending == Absorb(old(pending), data);

      if pending.Some? && |pending.value.data| == pending.value.len {
        var d := pending.value;
        pending := None;
        msg := Some(HidMessage(d.cid, d.cmd, d.data));
      } else {
        msg := None;
      }
    }

    /**
      `Hid::read`: reads uhid events, feeding OUTPUT frames to `ProcessFrame`,
      until a message is complete. `None` stands for blocking forever.
    */
    method Read() returns (msg: Option<HidMessage>)
      requires Valid()
      modifies this, uhid
      ensures Valid()
      ensures Received(msg, pending, uhid.incoming) == Receive(old(pending), old(uhid.incoming))
      ensures uhid.written == old(uhid.written)
    {
      while true
        invariant Valid()
        invariant Receive(pending, uhid.incoming) == Receive(old(pending), old(uhid.incoming))
        invariant uhid.written == old(uhid.written)
        decreases |uhid.incoming|
      {
        var ev := uhid.Read();
        if ev.None? {
          return None;
        }
        match ev.value {
          case Output(frame) =>
            var m := ProcessFrame(frame);
            if m.Some? {
              return m;
            }
          case _ =>
        }
      }
    }

    /**
      `Hid::write`: sends the message as an init frame and continuation
      frames, one INPUT2 event of size 64 each, zero-filled. The `u8` frame
      counter wraps.
    */
    method Write(msg: HidMessage)
      modifies uhid
      ensures uhid.written == old(uhid.written) + Reports(Frames(msg))
      ensures uhid.incoming == old(uhid.incoming)
    {
      var remaining := msg.data;
      var segment: Byte := 0;
      while remaining != []
        invariant uhid.incoming == old(uhid.incoming)
        invariant old(uhid.written) + Reports(Frames(msg))
               == uhid.written + Reports(Fragments(msg.cid, msg.cmd, |msg.data|, remaining, segment))
        decreases |remaining|
      {
        ghost var w0, rest0, segment0 := uhid.written, remaining, segment;
        var reply := CidBytes(msg.cid);
        var space;
        if segment == 0 {
          reply := reply + [SetInitBit(msg.cmd)] + LengthBytes(|msg.data|);
          space := FrameSize - InitHeaderSize;
        } else {
          reply := reply + [segment - 1];
          space := FrameSize - ContHeaderSize;
        }

        var thisLen := Min(|remaining|, space);
        reply := reply + remaining[..thisLen];
        remaining := remaining[thisLen..];

        var buf := new Byte[FrameSize](_ => 0);
        ghost var blank := buf[..];
        CopyBytes(reply, buf);
        PadCopied(reply, blank);
        uhid.Write(Input2(FrameSize, buf[..]));

        segment := (segment + 1) % 0x100;
        WriteStep(w0, msg, rest0, segment0, reply, thisLen);
      }
    }
  }

  /** Copying a frame over a zeroed 64-octet buffer leaves the frame zero-filled. */
  lemma PadCopied(reply: seq<Byte>, blank: seq<Byte>)
    requires |reply| <= FrameSize && |blank| == FrameSize
    requires forall i :: 0 <= i < FrameSize ==> blank[i] == 0
    ensures reply + blank[|reply|..] == Pad(reply)
  {
    assert blank[|reply|..] == Zeros(FrameSize - |reply|);
  }

  /** One pass of the loop of `Hid::write` emits the leading frame of those still to send. */
  lemma WriteStep(log: seq<UhidEvent>, msg: HidMessage, remaining: seq<Byte>, segment: Byte, reply: seq<Byte>, n: nat)
    requires remaining != [] && n == Min(|remaining|, if segment == 0 then InitCapacity else ContCapacity)
    requires reply == if segment == 0 then EncodeInit(msg.cid, msg.cmd, |msg.data|, remaining[..n])
                      else EncodeCont(msg.cid, segment - 1, remaining[..n])
    ensures log + Reports(Fragments(msg.cid, msg.cmd, |msg.data|, remaining, segment))
         == (log + [Input2(FrameSize, Pad(reply))])
            + Reports(Fragments(msg.cid, msg.cmd, |msg.data|, remaining[n..], (segment + 1) % 0x100))
  {
    var m := FragmentsFirst(msg.cid, msg.cmd, |msg.data|, remaining, segment);
    LogStep(log, reply, Fragments(msg.cid, msg.cmd, |msg.data|, remaining[n..], (segment + 1) % 0x100));
  }

  /** Writing the report of a leading frame, then the reports of the rest. */
  lemma LogStep(log: seq<UhidEvent>, f: seq<Byte>, fs: seq<seq<Byte>>)
    requires |f| <= FrameSize && forall i :: 0 <= i < |fs| ==> |fs[i]| <= FrameSize
    ensures (log + [Input2(FrameSize, Pad(f))]) + Reports(fs) == log + Reports([f] + fs)
  {
    assert ([f] + fs)[1..] == fs;
  }

  /** An event other than OUTPUT is skipped: the reassembly state stays as it was. */
  lemma ReceiveSkips(p: Option<PendingData>, e: UhidEvent, evs: seq<UhidEvent>)
    requires WithinLength(p) && !e.Output?
    ensures Receive(p, [e] + evs) == Receive(p, evs)
  {
    DropCons(e, evs);
  }

  /** A run of events none of which is OUTPUT is skipped as a whole. */
  lemma {:induction false} ReceiveSkipsAll(p: Option<PendingData>, quiet: seq<UhidEvent>, evs: seq<UhidEvent>)
    requires WithinLength(p) && Quiet(quiet)
    ensures Receive(p, quiet + evs) == Receive(p, evs)
    decreases |quiet|
  {
    if quiet != [] {
      assert quiet + evs == [quiet[0]] + (quiet[1..] + evs);
      ReceiveSkips(p, quiet[0], quiet[1..] + evs);
      assert forall i :: 0 <= i < |quiet| - 1 ==> quiet[1..][i] == quiet[i + 1];
      ReceiveSkipsAll(p, quiet[1..], evs);
    } else {
      assert quiet + evs == evs;
    }
  }

  /**
    Reading frames that carry a message from the states `states`, with
    other events before each of them, returns that message on the last
    frame, with nothing pending and the events after it unread.
  */
  lemma {:induction false} ReceiveSteps(states: seq<Option<PendingData>>, frames: seq<Frame>,
                                        noise: seq<seq<UhidEvent>>, tail: seq<UhidEvent>, msg: HidMessage)
    requires Delivers(states, frames, msg)
    requires |noise| == |frames| && forall i :: 0 <= i < |noise| ==> Quiet(noise[i])
    ensures Receive(states[0], Interleaved(noise, frames) + tail) == Received(Some(msg), None, tail)
    decreases |frames|
  {
    var later := Interleaved(noise[1..], frames[1..]) + tail;
    var evs := [Output(frames[0])] + later;
    assert Interleaved(noise, frames) + tail == noise[0] + evs;
    ReceiveSkipsAll(states[0], noise[0], evs);
    DropCons(Output(frames[0]), later);
    if |frames| == 1 {
      assert later == tail;
      ReceiveLast(states[0], evs, msg);
    } else {
      DeliversRest(states, frames, msg);
      assert forall i :: 0 <= i < |noise| - 1 ==> noise[1..][i] == noise[i + 1];
      ReceiveSteps(states[1..], frames[1..], noise[1..], tail, msg);
      ReceiveStep(states[0], evs, states[1]);
    }
  }

  /** An OUTPUT frame that completes nothing moves the reader to the next state. */
  lemma ReceiveStep(p: Option<PendingData>, evs: seq<UhidEvent>, next: Option<PendingData>)
    requires WithinLength(p) && WithinLength(next) && evs != [] && evs[0].Output?
    requires Reassemble(p, evs[0].frame) == Reassembled(next, None)
    ensures Receive(p, evs) == Receive(next, evs[1..])
  {
  }

  /** An OUTPUT frame that completes a message ends the read with it. */
  lemma ReceiveLast(p: Option<PendingData>, evs: seq<UhidEvent>, msg: HidMessage)
    requires WithinLength(p) && evs != [] && evs[0].Output?
    requires Reassemble(p, evs[0].frame) == Reassembled(None, Some(msg))
    ensures Receive(p, evs) == Received(Some(msg), None, evs[1..])
  {
  }

  /**
    What `Hid::write` sends comes back whole through `Hid::read`: the
    INPUT2 reports of a message with a 7-bit command and 1 to 7609 payload
    octets, delivered as OUTPUT events from a fresh device, with any other
    events before each of them, make `Read` return that message, with
    nothing pending and later events unread.
  */
  lemma WriteThenRead(msg: HidMessage, noise: seq<seq<UhidEvent>>, tail: seq<UhidEvent>)
    requires Transmissible(msg)
    requires |noise| == |Frames(msg)| && forall i :: 0 <= i < |noise| ==> Quiet(noise[i])
    ensures
      var frames := PadAll(Frames(msg));
      && (forall i :: 0 <= i < |frames| ==> Reports(Frames(msg))[i] == Input2(FrameSize, frames[i]))
      && Receive(None, Interleaved(noise, frames) + tail) == Received(Some(msg), None, tail)
  {
    FramesDeliver(msg);
    ReceiveSteps(StatesOf(msg, |Frames(msg)|), PadAll(Frames(msg)), noise, tail, msg);
  }
}
