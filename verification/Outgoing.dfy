/** What goes out: the frames and bytes of a send and of an acknowledgement, field by field. */
module Outgoing {
  import opened Numbers
  import opened Endian
  import opened Packets
  import opened AckWindow
  import opened Header
  import opened SessionSpec
  import Codec

  /** The flags byte: the packet's own, with `kHasAck` once there is something to acknowledge. */
  ghost predicate FlagsOf(flags: u8, own: u8, hasRemote: bool) {
    forall i: nat :: BitAt(flags, i) <==> BitAt(own, i) || (i == HAS_ACK_BIT && hasRemote)
  }

  /** The frame carries the packet under these ids, with the current acknowledgement. */
  ghost predicate IsFrame(f: Frame, w: Window, p: Packet, sequenceId: u32, orderId: u32) {
    && f.payload == p.payload
    && f.header.protocolId == 0x2204 && f.header.protocolVersion == 0x0003
    && f.header.sequenceId == sequenceId && f.header.orderId == orderId
    && f.header.channelId == p.channelId && f.header.messageId == p.messageId
    && f.header.acknowledgeId == w.ackId && f.header.acknowledgeBitfield == w.bits
    && FlagsOf(f.header.flags, p.flag, w.hasRemote)
    && f.header.packetSize == |p.payload| % 0x1_0000
  }

  lemma MarkedFlags(flags: u8)
    ensures FlagsOf(MarkAck(flags), flags, true) && FlagsOf(flags, flags, false)
  {
    forall i: nat ensures BitAt(MarkAck(flags), i) <==> BitAt(flags, i) || i == HAS_ACK_BIT {
      WithBitAt(flags, HAS_ACK_BIT, i);
    }
    hide BitAt;
    hide MarkAck;
  }

  lemma FrameExact(w: Window, p: Packet, sequenceId: u32, orderId: u32)
    ensures IsFrame(FrameOf(w, p, sequenceId, orderId), w, p, sequenceId, orderId)
  {
    MarkedFlags(p.flag);
    hide MarkAck;
    hide FlagsOf;
  }

  // ---- send ----

  /** What any transmission does to the acknowledgement timers. */
  ghost predicate TimersReset(s: State, s': State, now: nat) {
    s'.sinceAck == (if s.window.hasRemote then 0 else s.sinceAck) && !s'.unsentAck && s'.lastAckTime == now
  }

  /** `send`: one frame under the next sequence id, and on the next order id of its channel when
      the packet is ordered; it is kept unless it is plainly unreliable. */
  lemma SendExact(s: State, p: Packet, now: nat)
    ensures var o, k := Send(s, p, now), s.nextSequence;
            var orderId := if BitAt(p.flag, 2) && p.channelId in s.localOrder then s.localOrder[p.channelId] else 0;
            && |o.out| == 1 && IsFrame(o.out[0], s.window, p, k, orderId)
            && o.state.nextSequence == (k + 1) % TWO_TO_THE_32
            && o.state.localOrder
               == (if BitAt(p.flag, 2) then s.localOrder[p.channelId := (orderId + 1) % TWO_TO_THE_32]
                   else s.localOrder)
            && o.state.sent == (if p.flag != 1 then s.sent[k := SentInfo(p, now, k, orderId, 0)] else s.sent)
            && TimersReset(s, o.state, now)
            && o.state.window == s.window && o.state.pending == s.pending && o.state.shouldClose == s.shouldClose
            && o.state.nextExpected == s.nextExpected && o.state.reorder == s.reorder
  {
    var orderId := if IsOrdered(p.flag) then OrderOf(s.localOrder, p.channelId) else 0;
    FrameExact(s.window, p, s.nextSequence, orderId);
    IncrementWraps(s.nextSequence);
    IncrementWraps(orderId);
    hide Increment;
    hide FrameOf;
    hide IsFrame;
    hide BitAt;
  }

  /** The bytes of a frame. */
  lemma FrameBytes(f: Frame, w: Window, p: Packet, sequenceId: u32, orderId: u32)
    requires IsFrame(f, w, p, sequenceId, orderId)
    ensures Datagram(f)
         == [0x22, 0x04, 0x00, 0x03] + BigEndian(sequenceId, 4) + [p.channelId] + BigEndian(orderId, 4)
            + BigEndian(w.ackId, 4) + BigEndian(w.bits, 4) + BigEndian(p.messageId, 2) + [f.header.flags]
            + BigEndian(|p.payload| % 0x1_0000, 2) + p.payload
  {
    DatagramLayout(f);
    ProtocolBytes();
    hide Datagram;
    hide FlagsOf;
    assert BigEndian(0x2204, 2) + BigEndian(0x0003, 2) == [0x22, 0x04, 0x00, 0x03];
    hide BigEndian;
  }

  lemma ProtocolBytes()
    ensures BigEndian(0x2204, 2) == [0x22, 0x04] && BigEndian(0x0003, 2) == [0x00, 0x03]
  {
    assert Value([0x22]) == 0x22 && Value([0x22, 0x04]) == 0x2204;
    assert Value([0x00]) == 0x00 && Value([0x00, 0x03]) == 0x0003;
    Limits();
    BigEndianIff(0x2204, 2, [0x22, 0x04]);
    BigEndianIff(0x0003, 2, [0x00, 0x03]);
  }

  // ---- The session's own acknowledgements ----

  /** The ids of one chunk: 256 of them but in the last. */
  function ChunkOf(ids: seq<u32>, i: nat): seq<u32>
    requires 256 * i <= |ids|
  {
    if 256 * i + 256 <= |ids| then ids[256 * i..256 * i + 256] else ids[256 * i..]
  }

  /** An unordered frame on the internal channel, without claim to be kept. */
  ghost predicate IsControl(f: Frame, w: Window, sequenceId: u32) {
    && f.header.protocolId == 0x2204 && f.header.protocolVersion == 0x0003
    && f.header.sequenceId == sequenceId && f.header.orderId == 0 && f.header.channelId == 0
    && f.header.acknowledgeId == w.ackId && f.header.acknowledgeBitfield == w.bits
    && FlagsOf(f.header.flags, 1, w.hasRemote)
    && f.header.packetSize == |f.payload| % 0x1_0000
  }

  ghost predicate IsRichAck(f: Frame, w: Window, sequenceId: u32, ids: seq<u32>) {
    IsControl(f, w, sequenceId) && f.header.messageId == 1 && Codec.DecodeIds(f.payload) == ids
  }

  ghost predicate IsAck(f: Frame, w: Window, sequenceId: u32) {
    IsControl(f, w, sequenceId) && f.header.messageId == 0 && f.payload == []
  }

  /** One plain ACK when no id is queued, otherwise RICH_ACKs for all queued ids, in order and
      under consecutive sequence ids. */
  ghost predicate AreAcks(out: seq<Frame>, w: Window, first: u32, ids: seq<u32>) {
    if ids == [] then |out| == 1 && IsAck(out[0], w, first)
    else
      && 256 * (|out| - 1) < |ids| <= 256 * |out|
      && forall i: nat :: i < |out| ==> IsRichAck(out[i], w, (first + i) % TWO_TO_THE_32, ChunkOf(ids, i))
  }

  lemma ControlExact(s: State, p: Packet, now: nat)
    requires p.flag == UNRELIABLE && p.channelId == INTERNAL_CHANNEL
    ensures var o := SendControl(s, p, now);
            && |o.out| == 1 && IsControl(o.out[0], s.window, s.nextSequence)
            && o.out[0].payload == p.payload && o.out[0].header.messageId == p.messageId
            && o.state == s.(nextSequence := (s.nextSequence + 1) % TWO_TO_THE_32,
                             sinceAck := if s.window.hasRemote then 0 else s.sinceAck,
                             unsentAck := false, lastAckTime := now)
  {
    FrameExact(s.window, p, s.nextSequence, 0);
    hide FrameOf;
    hide FlagsOf;
  }

  lemma ChunkShift(ids: seq<u32>, i: nat)
    requires |ids| > 256 && 0 < i && 256 * i <= |ids|
    ensures ChunkOf(ids[256..], i - 1) == ChunkOf(ids, i)
  {
  }

  /** The first chunk in front of the others. */
  lemma ChunksMore(f: Frame, out: seq<Frame>, w: Window, first: u32, ids: seq<u32>, n: nat)
    requires ids != [] && n == (if |ids| < 256 then |ids| else 256)
    requires IsRichAck(f, w, first, ids[..n])
    requires if ids[n..] == [] then out == [] else AreAcks(out, w, (first + 1) % TWO_TO_THE_32, ids[n..])
    ensures AreAcks([f] + out, w, first, ids)
  {
    hide IsRichAck;
    hide IsAck;
    assert ChunkOf(ids, 0) == ids[..n];
    forall i: nat | 0 < i < |[f] + out|
      ensures 256 * i <= |ids| && IsRichAck(([f] + out)[i], w, (first + i) % TWO_TO_THE_32, ChunkOf(ids, i))
    {
      assert ([f] + out)[i] == out[i - 1];
      ChunkShift(ids, i);
      hide ChunkOf;
      WrapsAgain(first, i);
    }
  }

  lemma WrapsAgain(first: u32, i: nat)
    requires i > 0
    ensures ((first + 1) % TWO_TO_THE_32 + (i - 1)) % TWO_TO_THE_32 == (first + i) % TWO_TO_THE_32
  {
  }

  lemma {:induction false} FlushExact(s: State, acks: seq<u32>, now: nat)
    requires acks != []
    ensures var o := Flush(s, acks, now);
            && AreAcks(o.out, s.window, s.nextSequence, acks)
            && o.state == s.(nextSequence := (s.nextSequence + |o.out|) % TWO_TO_THE_32,
                             sinceAck := if s.window.hasRemote then 0 else s.sinceAck,
                             unsentAck := false, lastAckTime := now)
    decreases |acks|
  {
    hide Flush;
    hide AreAcks;
    hide IsControl;
    var n := if |acks| < MAX_ACK_PER_PACKET then |acks| else MAX_ACK_PER_PACKET;
    FlushStep(s, acks, n, now);
    var p := RichAckPacket(acks[..n]);
    ControlExact(s, p, now);
    Codec.IdsRoundTrip(acks[..n]);
    var first := SendControl(s, p, now);
    hide SendControl;
    hide Codec.DecodeIds;
    hide Codec.EncodeIds;
    if acks[n..] == [] {
      FlushStep(first.state, [], 0, now);
      ChunksMore(first.out[0], [], s.window, s.nextSequence, acks, n);
      assert first.out + [] == [first.out[0]] + [];
    } else {
      FlushExact(first.state, acks[n..], now);
      var rest := Flush(first.state, acks[n..], now);
      ChunksMore(first.out[0], rest.out, s.window, s.nextSequence, acks, n);
      assert first.out + rest.out == [first.out[0]] + rest.out;
      WrapsAgain(s.nextSequence, |first.out + rest.out|);
    }
  }

  /** Acknowledging: the queue goes out as RICH_ACKs, 256 ids in each but the last, or, when it is
      empty, one plain ACK does; nothing else changes but the counter and the timers. */
  lemma SendAckExact(s: State, now: nat)
    ensures var o := SendAck(s, now);
            && AreAcks(o.out, s.window, s.nextSequence, s.pending)
            && o.state == s.(nextSequence := (s.nextSequence + |o.out|) % TWO_TO_THE_32, pending := [],
                             sinceAck := if s.window.hasRemote then 0 else s.sinceAck,
                             unsentAck := false, lastAckTime := now)
  {
    if s.pending != [] {
      FlushExact(s, s.pending, now);
      hide Flush;
      hide AreAcks;
    } else {
      ControlExact(s, ACK_PACKET, now);
      hide SendControl;
      hide IsControl;
    }
  }
}
