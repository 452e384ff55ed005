/**
  Fragmentation and reassembly are inverses: the frames `Hid::write` emits
  for a message, zero-filled to 64 octets and fed one by one to
  `Hid::process_frame` from an empty state, give back the message on the
  last frame and nothing before it.

  The proof has three layers: a description of frame `i` of a message and
  of the state the receiver is in before it (`FrameFor`, `PendingAt`), the
  effect of one such frame on that state (`FrameStep`), and the general
  fact that a chain of such steps makes `Feed` deliver the message on its
  last frame (`FeedSteps`).
*/
module RoundTrip {
  import opened Bytes
  import opened Ctaphid

  /** The state and the per-frame results after feeding `frames` to the reassembly step. */
  datatype Fed = Fed(pending: Option<PendingData>, outputs: seq<Option<HidMessage>>)

  function Feed(p: Option<PendingData>, frames: seq<Frame>): (r: Fed)
    requires WithinLength(p)
    ensures |r.outputs| == |frames|
    ensures WithinLength(r.pending)
    decreases |frames|
  {
    if frames == [] then Fed(p, [])
    else
      var step := Reassemble(p, frames[0]);
      var rest := Feed(step.pending, frames[1..]);
      Fed(rest.pending, [step.msg] + rest.outputs)
  }

  /** Each frame zero-filled to the report size, as `copy_bytes` into a zeroed event leaves it. */
  function PadAll(fs: seq<seq<Byte>>): (frames: seq<Frame>)
    requires forall i :: 0 <= i < |fs| ==> |fs[i]| <= FrameSize
    ensures |frames| == |fs|
    ensures forall i :: 0 <= i < |fs| ==> frames[i] == Pad(fs[i])
    decreases |fs|
  {
    if fs == [] then [] else [Pad(fs[0])] + PadAll(fs[1..])
  }

  function NoMessages(n: nat): seq<Option<HidMessage>>
  {
    seq(n, _ => None)
  }

  /** Messages the round trip holds for: a 7-bit command and 1 to 7609 payload octets. */
  predicate Transmissible(msg: HidMessage)
  {
    msg.cmd < InitBit && 1 <= |msg.data| <= MaxPayload
  }

  // ---------------------------------------------------------------------------
  // Chains of reassembly steps
  // ---------------------------------------------------------------------------

  /**
    `frames` carry `msg` from the reassembly states `states`: frame `i`
    takes state `i` to state `i + 1` and completes nothing, and the last
    frame completes `msg` and leaves nothing pending.
  */
  predicate Delivers(states: seq<Option<PendingData>>, frames: seq<Frame>, msg: HidMessage)
  {
    && |frames| >= 1 && |states| == |frames|
    && (forall i :: 0 <= i < |states| ==> WithinLength(states[i]))
    && (forall i :: 0 <= i < |frames| - 1 ==> Reassemble(states[i], frames[i]) == Reassembled(states[i + 1], None))
    && Reassemble(states[|frames| - 1], frames[|frames| - 1]) == Reassembled(None, Some(msg))
  }

  /** The frames after the first carry the message from the second state on. */
  lemma DeliversRest(states: seq<Option<PendingData>>, frames: seq<Frame>, msg: HidMessage)
    requires Delivers(states, frames, msg) && |frames| >= 2
    ensures Delivers(states[1..], frames[1..], msg)
    ensures Reassemble(states[0], frames[0]) == Reassembled(states[1], None)
  {
    var s, f := states[1..], frames[1..];
    forall i | 0 <= i < |f| - 1
      ensures Reassemble(s[i], f[i]) == Reassembled(s[i + 1], None)
    {
      assert s[i] == states[i + 1] && f[i] == frames[i + 1] && s[i + 1] == states[i + 2];
    }
    assert s[|f| - 1] == states[|frames| - 1] && f[|f| - 1] == frames[|frames| - 1];
  }

  /** A chain of steps makes `Feed` produce nothing until the last frame, which yields `msg`. */
  lemma {:induction false} FeedSteps(states: seq<Option<PendingData>>, frames: seq<Frame>, msg: HidMessage)
    requires Delivers(states, frames, msg)
    ensures Feed(states[0], frames) == Fed(None, NoMessages(|frames| - 1) + [Some(msg)])
    decreases |frames|
  {
    if |frames| == 1 {
      FeedLast(states[0], frames[0], msg);
      FirstRest(frames);
    } else {
      DeliversRest(states, frames, msg);
      FeedSteps(states[1..], frames[1..], msg);
      FeedChain(states[0], frames[0], frames[1..], states[1], |frames| - 2, msg);
      FirstRest(frames);
    }
  }

  /** A frame that completes the message, followed by nothing. */
  lemma FeedLast(p: Option<PendingData>, f: Frame, msg: HidMessage)
    requires WithinLength(p) && Reassemble(p, f) == Reassembled(None, Some(msg))
    ensures Feed(p, [f]) == Fed(None, NoMessages(0) + [Some(msg)])
  {
    assert [f][1..] == [];
    assert NoMessages(0) + [Some(msg)] == [Some(msg)];
  }

  /** A frame that completes nothing, in front of frames that complete the message on their last. */
  lemma FeedChain(p: Option<PendingData>, f: Frame, rest: seq<Frame>, next: Option<PendingData>, k: nat, msg: HidMessage)
    requires WithinLength(p) && Reassemble(p, f) == Reassembled(next, None) && WithinLength(next)
    requires Feed(next, rest) == Fed(None, NoMessages(k) + [Some(msg)])
    ensures Feed(p, [f] + rest) == Fed(None, NoMessages(k + 1) + [Some(msg)])
  {
    assert ([f] + rest)[0] == f;
    assert ([f] + rest)[1..] == rest;
    assert NoMessages(k + 1) + [Some(msg)] == [None] + (NoMessages(k) + [Some(msg)]);
  }

  // ---------------------------------------------------------------------------
  // The frames of one message
  // ---------------------------------------------------------------------------

  /** How many payload octets the first `i` frames of a message carry at most. */
  function Delivered(i: nat): nat
  {
    if i == 0 then 0 else InitCapacity + (i - 1) * ContCapacity
  }

  /** The reassembly state a receiver is in before frame `i` of `msg`. */
  function PendingAt(msg: HidMessage, i: nat): (p: Option<PendingData>)
    ensures WithinLength(p)
  {
    if i == 0 then None
    else Some(PendingData(msg.cid, msg.cmd, |msg.data|, msg.data[..Min(|msg.data|, Delivered(i))]))
  }

  /** Frame `i` of `msg` before padding: the init frame, or continuation frame `i - 1`. */
  function FrameFor(msg: HidMessage, i: nat): seq<Byte>
    requires i <= MaxContinuations
  {
    var len := |msg.data|;
    if i == 0 then EncodeInit(msg.cid, msg.cmd, len, msg.data[..Min(len, InitCapacity)])
    else
      var off := Min(len, Delivered(i));
      EncodeCont(msg.cid, i - 1, msg.data[off..][..Min(len - off, ContCapacity)])
  }

  /** Frame `i` of a message carries the octets from `Delivered(i)` on. */
  lemma DeliveredNext(i: nat)
    ensures Delivered(i + 1) == Delivered(i) + if i == 0 then InitCapacity else ContCapacity
  {
  }

  /** A frame can start only while octets remain, and at most 129 frames are needed. */
  lemma DeliveredBound(msg: HidMessage, i: nat)
    requires Transmissible(msg) && Delivered(i) < |msg.data|
    ensures i <= MaxContinuations
  {
    if i > 0 {
      assert (i - 1) * ContCapacity < MaxPayload - InitCapacity;
    }
  }

  /** The frames `Hid::write` emits for the octets of `msg` from `Delivered(s)` on, from counter `s`. */
  function FramesFrom(msg: HidMessage, s: Byte): seq<seq<Byte>>
    requires Delivered(s) <= |msg.data|
  {
    Fragments(msg.cid, msg.cmd, |msg.data|, msg.data[Delivered(s)..], s)
  }

  /** The first of those frames is `FrameFor(msg, s)`. */
  lemma FramesFromHead(msg: HidMessage, s: Byte)
    requires Transmissible(msg) && Delivered(s) < |msg.data|
    ensures s <= MaxContinuations && |FramesFrom(msg, s)| >= 1
    ensures FramesFrom(msg, s)[0] == FrameFor(msg, s)
  {
    DeliveredBound(msg, s);
    var len := |msg.data|;
    var rest := msg.data[Delivered(s)..];
    var n := FragmentsFirst(msg.cid, msg.cmd, len, rest, s);
    if s == 0 {
      assert rest[..n] == msg.data[..Min(len, InitCapacity)];
    } else {
      assert rest[..n] == msg.data[Min(len, Delivered(s))..][..Min(len - Min(len, Delivered(s)), ContCapacity)];
    }
  }

  /** Another frame follows exactly when octets remain after the first; the rest start at counter `s + 1`. */
  lemma FramesFromTail(msg: HidMessage, s: Byte)
    requires Transmissible(msg) && Delivered(s) < |msg.data|
    ensures |FramesFrom(msg, s)| >= 1
    ensures |FramesFrom(msg, s)| > 1 <==> Delivered(s + 1) < |msg.data|
    ensures |FramesFrom(msg, s)| > 1 ==> s + 1 < 0x100 && FramesFrom(msg, s)[1..] == FramesFrom(msg, s + 1)
  {
    var len := |msg.data|;
    var rest := msg.data[Delivered(s)..];
    DeliveredNext(s);
    var n := FragmentsRest(msg.cid, msg.cmd, len, rest, s);
    if n < |rest| {
      DeliveredBound(msg, s + 1);
      assert (s + 1) % 0x100 == s + 1;
      assert Delivered(s) + n == Delivered(s + 1);
      DropDrop(msg.data, Delivered(s), n);
    }
  }

  /** Dropping `i` of the frames from counter `s` leaves the frames from counter `s + i`. */
  lemma {:induction false} FragmentsFrom(msg: HidMessage, s: Byte, i: nat)
    requires Transmissible(msg) && Delivered(s) < |msg.data| && i < |FramesFrom(msg, s)|
    ensures s + i < 0x100 && Delivered(s + i) < |msg.data|
    ensures FramesFrom(msg, s)[i..] == FramesFrom(msg, s + i)
    decreases i
  {
    FramesFromTail(msg, s);
    if i > 0 {
      var fs := FramesFrom(msg, s);
      FragmentsFrom(msg, s + 1, i - 1);
      assert s + 1 + (i - 1) == s + i;
      DropDrop(fs, 1, i - 1);
    }
  }

  /** The init frame of a transmissible message starts its reassembly, or completes a short one. */
  lemma InitStep(msg: HidMessage, n: nat)
    requires Transmissible(msg) && n == Min(|msg.data|, InitCapacity)
    ensures
      var r := Reassemble(None, Pad(EncodeInit(msg.cid, msg.cmd, |msg.data|, msg.data[..n])));
      r == if n == |msg.data| then Reassembled(None, Some(msg))
           else Reassembled(Some(PendingData(msg.cid, msg.cmd, |msg.data|, msg.data[..n])), None)
  {
    var len := |msg.data|;
    DecodeInit(msg.cid, msg.cmd, len, msg.data[..n]);
    PrefixOfConcat(msg.data[..n], Zeros(InitCapacity - n));
    if n == len {
      assert msg.data[..n] == msg.data;
    }
  }

  /** A continuation frame of a transmissible message appends the next `n` octets, or completes it. */
  lemma ContinuationStep(msg: HidMessage, off: nat, index: Byte, n: nat)
    requires Transmissible(msg) && off < |msg.data| && index < InitBit
    requires n == Min(|msg.data| - off, ContCapacity)
    ensures
      var pd := PendingData(msg.cid, msg.cmd, |msg.data|, msg.data[..off]);
      var r := Reassemble(Some(pd), Pad(EncodeCont(msg.cid, index, msg.data[off..][..n])));
      r == if off + n == |msg.data| then Reassembled(None, Some(msg))
           else Reassembled(Some(pd.(data := msg.data[..off + n])), None)
  {
    var len := |msg.data|;
    var chunk := msg.data[off..][..n];
    DecodeCont(msg.cid, index, chunk);
    PrefixOfConcat(chunk, Zeros(ContCapacity - n));
    TakeMore(msg.data, off, n);
    if off + n == len {
      assert msg.data[..off + n] == msg.data;
    }
  }

  /**
    Frame `i` of a transmissible message takes the receiver from the state
    before it to the state before frame `i + 1`, or, when no octets remain,
    completes the message and clears the state.
  */
  lemma FrameStep(msg: HidMessage, i: nat)
    requires Transmissible(msg) && Delivered(i) < |msg.data| && i <= MaxContinuations
    ensures |FrameFor(msg, i)| <= FrameSize
    ensures Reassemble(PendingAt(msg, i), Pad(FrameFor(msg, i)))
         == if Delivered(i + 1) < |msg.data| then Reassembled(PendingAt(msg, i + 1), None)
            else Reassembled(None, Some(msg))
  {
    var len := |msg.data|;
    DeliveredNext(i);
    if i == 0 {
      InitStep(msg, Min(len, InitCapacity));
    } else {
      var off := Delivered(i);
      ContinuationStep(msg, off, i - 1, Min(len - off, ContCapacity));
    }
  }

  /** The reassembly states before each of the first `k` frames of `msg`. */
  function StatesOf(msg: HidMessage, k: nat): (states: seq<Option<PendingData>>)
    ensures |states| == k
    ensures forall i :: 0 <= i < k ==> states[i] == PendingAt(msg, i)
  {
    seq(k, i requires 0 <= i < k => PendingAt(msg, i))
  }

  /** Padded frame `i` of a transmissible message, fed in the state before it. */
  lemma StepAt(msg: HidMessage, i: nat)
    requires Transmissible(msg) && i < |Frames(msg)|
    ensures Reassemble(PendingAt(msg, i), PadAll(Frames(msg))[i])
         == if i + 1 < |Frames(msg)| then Reassembled(PendingAt(msg, i + 1), None)
            else Reassembled(None, Some(msg))
  {
    var fs := Frames(msg);
    assert fs == FramesFrom(msg, 0);
    FragmentsFrom(msg, 0, i);
    FramesFromHead(msg, i);
    FramesFromTail(msg, i);
    assert fs[i] == fs[i..][0];
    FrameStep(msg, i);
  }

  /** The padded frames of a transmissible message carry it from an empty state. */
  lemma FramesDeliver(msg: HidMessage)
    requires Transmissible(msg)
    ensures Delivers(StatesOf(msg, |Frames(msg)|), PadAll(Frames(msg)), msg)
  {
    var k := |Frames(msg)|;
    var frames := PadAll(Frames(msg));
    var states := StatesOf(msg, k);
    forall i | 0 <= i < k - 1
      ensures Reassemble(states[i], frames[i]) == Reassembled(states[i + 1], None)
    {
      StepAt(msg, i);
    }
    StepAt(msg, k - 1);
  }

  /**
    Round trip. A message with a 7-bit command and 1 to 7609 payload octets
    comes back whole, on the last of its frames; no earlier frame completes
    anything, and the reassembly state ends empty.
  */
  lemma WriteThenProcess(msg: HidMessage)
    requires Transmissible(msg)
    ensures
      var fs := Frames(msg);
      |fs| >= 1 && Feed(None, PadAll(fs)) == Fed(None, NoMessages(|fs| - 1) + [Some(msg)])
  {
    FramesDeliver(msg);
    FeedSteps(StatesOf(msg, |Frames(msg)|), PadAll(Frames(msg)), msg);
  }
}
