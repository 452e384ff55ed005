/**
  CTAPHID message framing (FIDO CTAP 2.0, section 8.1.4) as src/main.rs
  implements it: the layout of 64-octet init and continuation frames, the
  reassembly step of `Hid::process_frame` and the frame sequence that
  `Hid::write` emits, each as a function on values.
*/
module Ctaphid {
  import opened Bytes

  /** Every HID report carries exactly 64 octets. */
  const FrameSize: nat := 64
  /** cid (4 octets), cmd (1), bcnt (2). */
  const InitHeaderSize: nat := 7
  /** cid (4 octets), sequence number (1). */
  const ContHeaderSize: nat := 5
  /** Payload octets in an init frame: 64 - 7. */
  const InitCapacity: nat := 57
  /** Payload octets in a continuation frame: 64 - 5. */
  const ContCapacity: nat := 59
  /** The top bit of octet 4 marks an init frame. */
  const InitBit: Byte := 0x80
  /** A continuation sequence number must keep the top bit clear: 128 of them. */
  const MaxContinuations: nat := 128
  /** The largest payload that an init frame and 128 continuation frames hold (7609). */
  const MaxPayload: nat := 7609

  type Frame = s: seq<Byte> | |s| == FrameSize witness Zeros(64)

  /** A message being reassembled: the header of its init frame and the octets collected so far. */
  datatype PendingData = PendingData(cid: U32, cmd: Byte, len: nat, data: seq<Byte>)

  /** A complete logical message. */
  datatype HidMessage = HidMessage(cid: U32, cmd: Byte, data: seq<Byte>)

  // ---------------------------------------------------------------------------
  // Frame codec
  // ---------------------------------------------------------------------------

  /** `b & 0x80 != 0`: the top bit is set. */
  predicate HasInitBit(b: Byte): (r: bool)
    ensures r <==> b % InitBit != b
  {
    b >= InitBit
  }

  /** `b | 0x80`: sets the top bit. */
  function SetInitBit(b: Byte): (r: Byte)
    ensures HasInitBit(r) && r % InitBit == b % InitBit
  {
    if HasInitBit(b) then b else b + InitBit
  }

  /** `b & !0x80`: clears the top bit. */
  function ClearInitBit(b: Byte): (r: Byte)
    ensures !HasInitBit(r) && r % InitBit == b % InitBit
  {
    b % InitBit
  }

  /** The channel identifier, big-endian: reading the four octets back gives the cid. */
  function CidBytes(cid: U32): (b: seq<Byte>)
    ensures |b| == 4 && ReadCid(b[0], b[1], b[2], b[3]) == cid
  {
    ShiftTwice(cid);
    ShiftThrice(cid);
    var hi := cid / 0x100;
    ShiftOctet(cid, hi, cid % 0x100);
    ShiftOctet(hi, hi / 0x100, hi % 0x100);
    ShiftOctet(hi / 0x100, hi / 0x1_0000, (hi / 0x100) % 0x100);
    [cid / 0x100_0000, (cid / 0x1_0000) % 0x100, (cid / 0x100) % 0x100, cid % 0x100]
  }

  /** Reads a big-endian channel identifier: `b0` is its most significant octet, `b3` its least. */
  function ReadCid(b0: Byte, b1: Byte, b2: Byte, b3: Byte): (cid: U32)
    ensures cid / 0x100_0000 == b0 && cid % 0x100 == b3
  {
    var cid := b0 * 0x100_0000 + b1 * 0x1_0000 + b2 * 0x100 + b3;
    ShiftOctet(cid, b0 * 0x1_0000 + b1 * 0x100 + b2, b3);
    ShiftOctet(b0 * 0x1_0000 + b1 * 0x100 + b2, b0 * 0x100 + b1, b2);
    ShiftOctet(b0 * 0x100 + b1, b0, b1);
    ShiftThrice(cid);
    cid
  }

  /** Reading the cid octets back gives the cid they were read from. */
  lemma ReadCidInverse(b0: Byte, b1: Byte, b2: Byte, b3: Byte)
    ensures CidBytes(ReadCid(b0, b1, b2, b3)) == [b0, b1, b2, b3]
  {
    var cid := ReadCid(b0, b1, b2, b3);
    ShiftOctet(cid, b0 * 0x1_0000 + b1 * 0x100 + b2, b3);
    ShiftOctet(b0 * 0x1_0000 + b1 * 0x100 + b2, b0 * 0x100 + b1, b2);
    ShiftOctet(b0 * 0x100 + b1, b0, b1);
    ShiftTwice(cid);
    ShiftThrice(cid);
  }

  /** Shifting right by 8 drops the low octet. */
  lemma ShiftOctet(x: int, hi: int, lo: Byte)
    requires x == hi * 0x100 + lo
    ensures x / 0x100 == hi && x % 0x100 == lo
  {
  }

  lemma ShiftTwice(x: nat)
    ensures x / 0x1_0000 == (x / 0x100) / 0x100
  {
    var q, r := x / 0x1_0000, x % 0x1_0000;
    assert x == (q * 0x100 + r / 0x100) * 0x100 + r % 0x100;
    ShiftOctet(x, q * 0x100 + r / 0x100, r % 0x100);
    ShiftOctet(q * 0x100 + r / 0x100, q, r / 0x100);
  }

  lemma ShiftThrice(x: nat)
    ensures x / 0x100_0000 == ((x / 0x100) / 0x100) / 0x100
  {
    var q, r := x / 0x100_0000, x % 0x100_0000;
    assert x == (q * 0x1_0000 + r / 0x100) * 0x100 + r % 0x100;
    ShiftOctet(x, q * 0x1_0000 + r / 0x100, r % 0x100);
    ShiftTwice(q * 0x1_0000 + r / 0x100);
    assert (q * 0x1_0000 + r / 0x100) / 0x1_0000 == q;
  }

  lemma CidBytesInjective(c1: U32, c2: U32)
    requires CidBytes(c1) == CidBytes(c2)
    ensures c1 == c2
  {
    var b := CidBytes(c1);
    ShiftTwice(c1);
    ShiftThrice(c1);
    ShiftTwice(c2);
    ShiftThrice(c2);
    assert c1 == b[0] as int * 0x100_0000 + b[1] as int * 0x1_0000 + b[2] as int * 0x100 + b[3] as int;
    assert c2 == b[0] as int * 0x100_0000 + b[1] as int * 0x1_0000 + b[2] as int * 0x100 + b[3] as int;
  }

  /** The two-octet length field: the low 16 bits of the payload length, big-endian. */
  function LengthBytes(total: nat): (b: seq<Byte>)
    ensures |b| == 2 && ReadLength(b[0], b[1]) == total % 0x1_0000
  {
    [(total / 0x100) % 0x100, total % 0x100]
  }

  /** Reads the two-octet length field. */
  function ReadLength(hi: Byte, lo: Byte): (n: nat)
    ensures n < 0x1_0000 && n / 0x100 == hi && n % 0x100 == lo
  {
    hi * 0x100 + lo
  }

  /** Reading the length octets back gives the length they were read from. */
  lemma ReadLengthInverse(hi: Byte, lo: Byte)
    ensures LengthBytes(ReadLength(hi, lo)) == [hi, lo]
  {
  }

  lemma LengthBytesInjective(n1: nat, n2: nat)
    requires n1 < 0x1_0000 && n2 < 0x1_0000
    requires LengthBytes(n1) == LengthBytes(n2)
    ensures n1 == n2
  {
    var b := LengthBytes(n1);
    assert b[0] as int == n1 / 256 && b[1] as int == n1 % 256;
    assert LengthBytes(n2)[0] as int == n2 / 256 && LengthBytes(n2)[1] as int == n2 % 256;
  }

  /** An init frame before padding: cid, cmd with the top bit set, length, payload. */
  function EncodeInit(cid: U32, cmd: Byte, total: nat, chunk: seq<Byte>): (f: seq<Byte>)
    ensures |f| == InitHeaderSize + |chunk|
  {
    CidBytes(cid) + [SetInitBit(cmd)] + LengthBytes(total) + chunk
  }

  /** A continuation frame before padding: cid, sequence number, payload. */
  function EncodeCont(cid: U32, index: Byte, chunk: seq<Byte>): (f: seq<Byte>)
    ensures |f| == ContHeaderSize + |chunk|
  {
    CidBytes(cid) + [index] + chunk
  }

  /** A frame shorter than 64 octets, zero-filled to the report size. */
  function Pad(s: seq<Byte>): (f: Frame)
    requires |s| <= FrameSize
    ensures f[..|s|] == s
    ensures forall i :: |s| <= i < FrameSize ==> f[i] == 0
  {
    s + Zeros(FrameSize - |s|)
  }

  /** A frame split into its fields. */
  datatype Packet =
    | InitPacket(cid: U32, cmd: Byte, bcnt: nat, payload: seq<Byte>)
    | ContPacket(cid: U32, index: Byte, payload: seq<Byte>)

  /**
    The field split `process_frame` performs on a frame: octets 0-3 are the
    cid, the top bit of octet 4 tells an init frame from a continuation frame.
  */
  function Decode(frame: Frame): (p: Packet)
    ensures p.InitPacket? <==> HasInitBit(frame[4])
    ensures p.InitPacket? ==> p.cmd < InitBit && p.bcnt < 0x1_0000 && |p.payload| == InitCapacity
    ensures p.ContPacket? ==> p.index < InitBit && |p.payload| == ContCapacity
  {
    var cid := ReadCid(frame[0], frame[1], frame[2], frame[3]);
    if HasInitBit(frame[4]) then
      InitPacket(cid, ClearInitBit(frame[4]), ReadLength(frame[5], frame[6]), frame[7..])
    else
      ContPacket(cid, frame[4], frame[5..])
  }

  /** Decoding loses nothing: encoding the fields of a decoded frame gives the frame back. */
  lemma DecodeEncodes(frame: Frame)
    ensures var p := Decode(frame);
      && (p.InitPacket? ==> EncodeInit(p.cid, p.cmd, p.bcnt, p.payload) == frame)
      && (p.ContPacket? ==> EncodeCont(p.cid, p.index, p.payload) == frame)
  {
    ReadCidInverse(frame[0], frame[1], frame[2], frame[3]);
    assert frame[..4] == [frame[0], frame[1], frame[2], frame[3]];
    if HasInitBit(frame[4]) {
      ReadLengthInverse(frame[5], frame[6]);
      assert frame[5..7] == [frame[5], frame[6]];
      assert frame == frame[..4] + [frame[4]] + frame[5..7] + frame[7..];
    } else {
      assert frame == frame[..4] + [frame[4]] + frame[5..];
    }
  }

  /** An encoded init frame decodes to its own fields, the payload zero-filled. */
  lemma DecodeInit(cid: U32, cmd: Byte, total: nat, chunk: seq<Byte>)
    requires cmd < InitBit && total < 0x1_0000 && |chunk| <= InitCapacity
    ensures Decode(Pad(EncodeInit(cid, cmd, total, chunk)))
         == InitPacket(cid, cmd, total, chunk + Zeros(InitCapacity - |chunk|))
  {
    var f := Pad(EncodeInit(cid, cmd, total, chunk));
    var padded := chunk + Zeros(InitCapacity - |chunk|);
    assert f == EncodeInit(cid, cmd, total, padded);
    var p := Decode(f);
    DecodeEncodes(f);
    assert f[4] == SetInitBit(cmd);
    assert p.InitPacket?;
    assert f[..4] == CidBytes(p.cid) == CidBytes(cid);
    CidBytesInjective(p.cid, cid);
    assert SetInitBit(p.cmd) == f[4] == SetInitBit(cmd);
    assert f[5..7] == LengthBytes(p.bcnt) == LengthBytes(total);
    LengthBytesInjective(p.bcnt, total);
    assert p.payload == f[7..] == padded;
  }

  /** An encoded continuation frame decodes to its own fields, the payload zero-filled. */
  lemma DecodeCont(cid: U32, index: Byte, chunk: seq<Byte>)
    requires index < InitBit && |chunk| <= ContCapacity
    ensures Decode(Pad(EncodeCont(cid, index, chunk)))
         == ContPacket(cid, index, chunk + Zeros(ContCapacity - |chunk|))
  {
    var f := Pad(EncodeCont(cid, index, chunk));
    var padded := chunk + Zeros(ContCapacity - |chunk|);
    assert f == EncodeCont(cid, index, padded);
    var p := Decode(f);
    DecodeEncodes(f);
    assert f[4] == index;
    assert p.ContPacket?;
    assert f[..4] == CidBytes(p.cid) == CidBytes(cid);
    CidBytesInjective(p.cid, cid);
    assert p.payload == f[5..] == padded;
  }

  // ---------------------------------------------------------------------------
  // Reassembly (`Hid::process_frame`)
  // ---------------------------------------------------------------------------

  /** A pending reassembly never holds more octets than its init frame declared. */
  predicate WithinLength(p: Option<PendingData>)
  {
    p.Some? ==> |p.value.data| <= p.value.len
  }

  /**
    The pending state after a frame has been taken in, before the completion
    check. An init frame replaces whatever was pending, whatever its cid; a
    continuation frame extends the pending message by at most the octets still
    missing, or is dropped when nothing is pending. Neither the sequence
    number nor the cid of a continuation frame is looked at.
  */
  function Absorb(p: Option<PendingData>, frame: Frame): (q: Option<PendingData>)
    requires WithinLength(p)
    ensures WithinLength(q)
    ensures !HasInitBit(frame[4]) ==> (q.Some? <==> p.Some?)
    ensures !HasInitBit(frame[4]) && p.Some? ==>
      && q.value.cid == p.value.cid && q.value.cmd == p.value.cmd && q.value.len == p.value.len
      && |p.value.data| <= |q.value.data| && q.value.data[..|p.value.data|] == p.value.data
  {
    match Decode(frame)
    case InitPacket(cid, cmd, bcnt, payload) =>
      Some(PendingData(cid, cmd, bcnt, payload[..Min(bcnt, InitCapacity)]))
    case ContPacket(_, _, payload) =>
      if p.None? then None
      else
        var remaining := p.value.len - |p.value.data|;
        Some(p.value.(data := p.value.data + payload[..Min(remaining, ContCapacity)]))
  }

  /** What one frame leaves behind: the new pending state and the message it completed, if any. */
  datatype Reassembled = Reassembled(pending: Option<PendingData>, msg: Option<HidMessage>)

  /**
    `Hid::process_frame` as a function of the pending state and the frame: a
    message is emitted exactly when the octets collected reach the declared
    length, and the pending state is then cleared.
  */
  function Reassemble(p: Option<PendingData>, frame: Frame): (r: Reassembled)
    requires WithinLength(p)
    ensures r.pending.Some? ==> |r.pending.value.data| < r.pending.value.len
    ensures r.msg.Some? ==> r.pending.None?
  {
    var q := Absorb(p, frame);
    if q.Some? && |q.value.data| == q.value.len then
      Reassembled(None, Some(HidMessage(q.value.cid, q.value.cmd, q.value.data)))
    else
      Reassembled(q, None)
  }

  /**
    An init frame discards any pending reassembly, whatever its cid, and
    starts a new one from its own header: cid from octets 0-3, cmd from
    octet 4 without its top bit, the length from octets 5-6, and the first
    min(length, 57) payload octets.
  */
  lemma InitFrameRestarts(p: Option<PendingData>, frame: Frame)
    requires WithinLength(p) && HasInitBit(frame[4])
    ensures Reassemble(p, frame) == Reassemble(None, frame)
    ensures
      var len := ReadLength(frame[5], frame[6]);
      Absorb(p, frame) == Some(PendingData(ReadCid(frame[0], frame[1], frame[2], frame[3]),
                                           ClearInitBit(frame[4]), len,
                                           frame[InitHeaderSize..InitHeaderSize + Min(len, InitCapacity)]))
  {
    var len := ReadLength(frame[5], frame[6]);
    assert frame[InitHeaderSize..][..Min(len, InitCapacity)]
        == frame[InitHeaderSize..InitHeaderSize + Min(len, InitCapacity)];
  }

  /** An init frame declaring length 0 completes at once, with no data. */
  lemma EmptyInitCompletes(p: Option<PendingData>, frame: Frame)
    requires WithinLength(p) && HasInitBit(frame[4]) && frame[5] == 0 && frame[6] == 0
    ensures Reassemble(p, frame)
         == Reassembled(None, Some(HidMessage(ReadCid(frame[0], frame[1], frame[2], frame[3]),
                                              ClearInitBit(frame[4]), [])))
  {
  }

  /** A continuation frame with nothing pending changes nothing and emits nothing. */
  lemma OrphanContinuation(frame: Frame)
    requires !HasInitBit(frame[4])
    ensures Reassemble(None, frame) == Reassembled(None, None)
  {
  }

  /**
    A continuation frame appends min(remaining, 59) octets from offset 5 and
    leaves the cid, cmd and declared length of the pending message alone.
  */
  lemma ContinuationAppends(pd: PendingData, frame: Frame)
    requires |pd.data| <= pd.len && !HasInitBit(frame[4])
    ensures
      var n := Min(pd.len - |pd.data|, ContCapacity);
      Absorb(Some(pd), frame)
        == Some(pd.(data := pd.data + frame[ContHeaderSize..ContHeaderSize + n]))
  {
    var n := Min(pd.len - |pd.data|, ContCapacity);
    assert frame[ContHeaderSize..][..n] == frame[ContHeaderSize..ContHeaderSize + n];
  }

  /**
    Octets 0-4 of a continuation frame (its cid and sequence number) do not
    influence reassembly: two continuation frames with the same payload area
    have the same effect.
  */
  lemma ContinuationHeaderIgnored(p: Option<PendingData>, f1: Frame, f2: Frame)
    requires WithinLength(p) && !HasInitBit(f1[4]) && !HasInitBit(f2[4])
    requires f1[ContHeaderSize..] == f2[ContHeaderSize..]
    ensures Reassemble(p, f1) == Reassemble(p, f2)
  {
  }

  /**
    Completion: a message is emitted if and only if the octets collected
    reach the declared length; it carries the init frame's cid and cmd and
    the collected octets. Otherwise the new pending state is kept.
  */
  lemma CompletesExactlyAtLength(p: Option<PendingData>, frame: Frame)
    requires WithinLength(p)
    ensures
      var q := Absorb(p, frame);
      var r := Reassemble(p, frame);
      && (r.msg.Some? <==> q.Some? && |q.value.data| == q.value.len)
      && (r.msg.Some? ==> r.msg.value == HidMessage(q.value.cid, q.value.cmd, q.value.data))
      && (r.msg.None? ==> r.pending == q)
  {
  }

  // ---------------------------------------------------------------------------
  // Fragmentation (`Hid::write`)
  // ---------------------------------------------------------------------------

  /**
    The frames (before padding) that carry `rest`, the part of a message not
    yet sent, when the frame counter stands at `segment`. The counter is a
    Rust `u8` that wraps: counter 0 gives an init frame, counter k > 0 a
    continuation frame with sequence number k - 1.
  */
  function Fragments(cid: U32, cmd: Byte, total: nat, rest: seq<Byte>, segment: Byte): (fs: seq<seq<Byte>>)
    ensures |fs| == 0 <==> |rest| == 0
    ensures forall i :: 0 <= i < |fs| ==> ContHeaderSize < |fs[i]| <= FrameSize
    decreases |rest|
  {
    if rest == [] then []
    else
      var space := if segment == 0 then InitCapacity else ContCapacity;
      var n := Min(|rest|, space);
      var frame := if segment == 0 then EncodeInit(cid, cmd, total, rest[..n])
                   else EncodeCont(cid, segment - 1, rest[..n]);
      [frame] + Fragments(cid, cmd, total, rest[n..], (segment + 1) % 0x100)
  }

  /** All frames of a message, before padding. */
  function Frames(msg: HidMessage): (fs: seq<seq<Byte>>)
    ensures |fs| == 0 <==> |msg.data| == 0
    ensures forall i :: 0 <= i < |fs| ==> |fs[i]| <= FrameSize
  {
    Fragments(msg.cid, msg.cmd, |msg.data|, msg.data, 0)
  }

  /** The value of the frame counter `i` frames after `segment`. */
  function SegmentAfter(segment: Byte, i: nat): Byte
  {
    (segment + i) % 0x100
  }

  /** The header a frame carries when the counter stands at `segment`. */
  predicate HeaderAt(f: seq<Byte>, cid: U32, cmd: Byte, total: nat, segment: Byte)
  {
    && |f| > ContHeaderSize && f[..4] == CidBytes(cid)
    && if segment == 0 then
         |f| > InitHeaderSize && f[4] == SetInitBit(cmd) && f[5..InitHeaderSize] == LengthBytes(total)
       else
         f[4] == segment - 1
  }

  /** The payload octets of a frame sent when the counter stands at `segment`. */
  function PayloadAt(f: seq<Byte>, segment: Byte): seq<Byte>
  {
    var h := if segment == 0 then InitHeaderSize else ContHeaderSize;
    if |f| <= h then [] else f[h..]
  }

  /** The payloads of consecutive frames, the first sent at counter `segment`, concatenated. */
  function Payloads(fs: seq<seq<Byte>>, segment: Byte): seq<Byte>
    decreases |fs|
  {
    if fs == [] then [] else PayloadAt(fs[0], segment) + Payloads(fs[1..], (segment + 1) % 0x100)
  }

  /**
    The layout of `Hid::write`'s frames: each frame starts with the cid
    big-endian; the frame sent at counter 0 carries cmd with the top bit set
    and the length, the one sent at counter k > 0 carries sequence number
    k - 1; at most 57 resp. 59 payload octets each.
  */
  lemma {:induction false} FragmentsHeaders(cid: U32, cmd: Byte, total: nat, rest: seq<Byte>, segment: Byte)
    ensures
      var fs := Fragments(cid, cmd, total, rest, segment);
      forall i :: 0 <= i < |fs| ==> HeaderAt(fs[i], cid, cmd, total, SegmentAfter(segment, i))
    decreases |rest|
  {
    var fs := Fragments(cid, cmd, total, rest, segment);
    if rest != [] {
      var n := FragmentsRest(cid, cmd, total, rest, segment);
      FirstFrameHeader(cid, cmd, total, rest, segment);
      var next := (segment + 1) % 0x100;
      FragmentsHeaders(cid, cmd, total, rest[n..], next);
      var tail := Fragments(cid, cmd, total, rest[n..], next);
      forall i | 1 <= i < |fs|
        ensures HeaderAt(fs[i], cid, cmd, total, SegmentAfter(segment, i))
      {
        assert fs[i] == fs[1..][i - 1];
        SegmentAfterNext(segment, i);
      }
    }
  }

  lemma SegmentAfterNext(segment: Byte, i: nat)
    requires i >= 1
    ensures SegmentAfter((segment + 1) % 0x100, i - 1) == SegmentAfter(segment, i)
  {
  }

  /** The payloads of `Hid::write`'s frames, concatenated in order, give back the data. */
  lemma {:induction false} FragmentsPayloads(cid: U32, cmd: Byte, total: nat, rest: seq<Byte>, segment: Byte)
    ensures Payloads(Fragments(cid, cmd, total, rest, segment), segment) == rest
    decreases |rest|
  {
    if rest != [] {
      var fs := Fragments(cid, cmd, total, rest, segment);
      var n := FirstFramePayload(cid, cmd, total, rest, segment);
      var next := (segment + 1) % 0x100;
      var tail := Fragments(cid, cmd, total, rest[n..], next);
      TakeDrop(rest, n);
      FragmentsPayloads(cid, cmd, total, rest[n..], next);
      assert fs[1..] == tail;
    }
  }

  /** Unfolds `Fragments` once: the first frame, then the frames of what is left. */
  lemma FragmentsFirst(cid: U32, cmd: Byte, total: nat, rest: seq<Byte>, segment: Byte) returns (n: nat)
    requires rest != []
    ensures n == Min(|rest|, if segment == 0 then InitCapacity else ContCapacity)
    ensures Fragments(cid, cmd, total, rest, segment)
         == [if segment == 0 then EncodeInit(cid, cmd, total, rest[..n]) else EncodeCont(cid, segment - 1, rest[..n])]
            + Fragments(cid, cmd, total, rest[n..], (segment + 1) % 0x100)
  {
    n := Min(|rest|, if segment == 0 then InitCapacity else ContCapacity);
  }

  /** After the first frame come the frames for the octets it left, from the next counter value. */
  lemma FragmentsRest(cid: U32, cmd: Byte, total: nat, rest: seq<Byte>, segment: Byte) returns (n: nat)
    requires rest != []
    ensures n == Min(|rest|, if segment == 0 then InitCapacity else ContCapacity)
    ensures Fragments(cid, cmd, total, rest, segment)[1..] == Fragments(cid, cmd, total, rest[n..], (segment + 1) % 0x100)
  {
    n := FragmentsFirst(cid, cmd, total, rest, segment);
    var f := Fragments(cid, cmd, total, rest, segment)[0];
    DropCons(f, Fragments(cid, cmd, total, rest[n..], (segment + 1) % 0x100));
  }

  /** The first of the frames carrying `rest` has the header for `segment`. */
  lemma FirstFrameHeader(cid: U32, cmd: Byte, total: nat, rest: seq<Byte>, segment: Byte)
    requires rest != []
    ensures HeaderAt(Fragments(cid, cmd, total, rest, segment)[0], cid, cmd, total, segment)
  {
    var n := FragmentsFirst(cid, cmd, total, rest, segment);
    var f := Fragments(cid, cmd, total, rest, segment)[0];
    if segment == 0 {
      assert f == CidBytes(cid) + [SetInitBit(cmd)] + LengthBytes(total) + rest[..n];
      assert f[5..InitHeaderSize] == LengthBytes(total);
    } else {
      assert f == CidBytes(cid) + [segment - 1] + rest[..n];
    }
    assert f[..4] == CidBytes(cid);
  }

  /** The first of the frames carrying `rest` carries its first `n` octets. */
  lemma FirstFramePayload(cid: U32, cmd: Byte, total: nat, rest: seq<Byte>, segment: Byte) returns (n: nat)
    requires rest != []
    ensures n == Min(|rest|, if segment == 0 then InitCapacity else ContCapacity)
    ensures PayloadAt(Fragments(cid, cmd, total, rest, segment)[0], segment) == rest[..n]
  {
    n := FragmentsFirst(cid, cmd, total, rest, segment);
    var f := Fragments(cid, cmd, total, rest, segment)[0];
    if segment == 0 {
      assert f == CidBytes(cid) + [SetInitBit(cmd)] + LengthBytes(total) + rest[..n];
      assert f[InitHeaderSize..] == rest[..n];
    } else {
      assert f == CidBytes(cid) + [segment - 1] + rest[..n];
      assert f[ContHeaderSize..] == rest[..n];
    }
  }

  /** `write` with an empty payload emits no frame at all. */
  lemma EmptyMessageHasNoFrames(cid: U32, cmd: Byte)
    ensures Frames(HidMessage(cid, cmd, [])) == []
  {
  }
}
