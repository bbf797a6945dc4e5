/** The mutable session object, proved to do what `SessionSpec` says. */
module Session {
  import opened Numbers
  import opened Packets
  import opened AckWindow
  import opened Header
  import opened SessionSpec
  import Codec
  import Reorder
  import PacketBuffer

  function Datagrams(frames: seq<Frame>): seq<Bytes> {
    if frames == [] then [] else [Datagram(frames[0])] + Datagrams(frames[1..])
  }

  lemma {:induction false} DatagramsAppend(a: seq<Frame>, b: seq<Frame>)
    ensures Datagrams(a + b) == Datagrams(a) + Datagrams(b)
  {
    hide Datagram;
    if a == [] {
      assert a + b == b;
      assert Datagrams(a) + Datagrams(b) == Datagrams(b);
    } else {
      assert (a + b)[0] == a[0] && (a + b)[1..] == a[1..] + b;
      DatagramsAppend(a[1..], b);
    }
  }

  class Session {
    var hasReceivedRemotePacket: bool
    var localSequenceId: u32
    var remoteAcknowledgeId: u32
    var remoteAcknowledgeBitfield: u32
    var localOrderIds: map<u8, u32>
    var nextExpectedOrderIds: map<u8, u32>
    var reorderBuffers: map<u8, map<u32, Packet>>
    var sentPackets: map<u32, SentInfo>
    var oldPacketHistory: seq<u32>
    var pendingRichAcks: seq<u32>
    var packetsSinceLastAck: nat
    var hasUnsentAck: bool
    var lastAckTime: nat
    var closing: bool

    /** Everything handed to `_sendToPeerFunction` so far. */
    var outbox: seq<Bytes>

    function View(): State
      reads this
    {
      State(localSequenceId, localOrderIds, sentPackets,
            Window(hasReceivedRemotePacket, remoteAcknowledgeId, remoteAcknowledgeBitfield, oldPacketHistory),
            nextExpectedOrderIds, reorderBuffers, pendingRichAcks, packetsSinceLastAck,
            hasUnsentAck, lastAckTime, closing)
    }

    constructor ()
      ensures View() == INITIAL && outbox == []
    {
      hasReceivedRemotePacket := false;
      localSequenceId, remoteAcknowledgeId, remoteAcknowledgeBitfield := 0, 0, 0;
      localOrderIds, nextExpectedOrderIds, reorderBuffers, sentPackets := map[], map[], map[], map[];
      oldPacketHistory, pendingRichAcks := [], [];
      packetsSinceLastAck, hasUnsentAck, lastAckTime := 0, false, 0;
      closing, outbox := false, [];
    }

    // ---- Sending ----

    method RawSend(p: Packet, sequenceId: u32, orderId: u32, now: nat)
      modifies this
      ensures View() == AfterRawSend(old(View()), now)
      ensures outbox == old(outbox) + [Datagram(FrameOf(old(View()).window, p, sequenceId, orderId))]
    {
      hide StructImage;
      hide ConvertEndianness;
      hide MarkAck;
      var flags := p.flag;
      if hasReceivedRemotePacket {
        flags := MarkAck(flags);
        packetsSinceLastAck := 0;
      }
      var header := Header(PROTOCOL_ID, PROTOCOL_VER, sequenceId, p.channelId, orderId,
                           remoteAcknowledgeId, remoteAcknowledgeBitfield, p.messageId, flags,
                           |p.payload| % 0x1_0000);
      outbox := outbox + [StructImage(ConvertEndianness(header), p.payload)];
      hasUnsentAck := false;
      lastAckTime := now;
    }

    method Send(p: Packet, now: nat)
      modifies this
      ensures View() == SessionSpec.Send(old(View()), p, now).state
      ensures outbox == old(outbox) + Datagrams(SessionSpec.Send(old(View()), p, now).out)
    {
      hide Datagram;
      hide FrameOf;
      hide IsOrdered;
      var sequenceId := localSequenceId;
      localSequenceId := Increment(localSequenceId);
      var orderId: u32 := 0;
      if IsOrdered(p.flag) {
        orderId := OrderOf(localOrderIds, p.channelId);
        localOrderIds := localOrderIds[p.channelId := Increment(orderId)];
      }
      if IsTracked(p.flag) {
        sentPackets := sentPackets[sequenceId := SentInfo(p, now, sequenceId, orderId, 0)];
      }
      RawSend(p, sequenceId, orderId, now);
    }

    method SendControl(p: Packet, now: nat)
      modifies this
      ensures View() == SessionSpec.SendControl(old(View()), p, now).state
      ensures outbox == old(outbox) + Datagrams(SessionSpec.SendControl(old(View()), p, now).out)
      ensures pendingRichAcks == old(pendingRichAcks)
    {
      hide Datagram;
      hide FrameOf;
      var sequenceId := localSequenceId;
      localSequenceId := Increment(localSequenceId);
      RawSend(p, sequenceId, 0, now);
    }

    /** The loop that sends every queued id, 256 at a time. */
    method FlushChunks(now: nat)
      modifies this
      ensures View() == Flush(old(View()), old(pendingRichAcks), now).state
      ensures outbox == old(outbox) + Datagrams(Flush(old(View()), old(pendingRichAcks), now).out)
    {
      hide Datagram;
      hide Datagrams;
      hide SessionSpec.SendControl;
      hide Flush;
      hide RichAckPacket;
      ghost var whole, emitted := Flush(View(), pendingRichAcks, now), [];
      var totalAcks, processed := |pendingRichAcks|, 0;
      assert pendingRichAcks[0..] == pendingRichAcks && [] + whole.out == whole.out;
      NoDatagrams();
      while processed < totalAcks
        invariant totalAcks == |pendingRichAcks| && pendingRichAcks == old(pendingRichAcks)
        invariant 0 <= processed <= totalAcks
        invariant Flush(View(), pendingRichAcks[processed..], now).state == whole.state
        invariant emitted + Flush(View(), pendingRichAcks[processed..], now).out == whole.out
        invariant outbox == old(outbox) + Datagrams(emitted)
      {
        var left := totalAcks - processed;
        var chunkSize := if left < MAX_ACK_PER_PACKET then left else MAX_ACK_PER_PACKET;
        var acksToSerialize := pendingRichAcks[processed..processed + chunkSize];
        ghost var queued := pendingRichAcks[processed..];
        assert queued[..chunkSize] == acksToSerialize;
        assert queued[chunkSize..] == pendingRichAcks[processed + chunkSize..];
        FlushStep(View(), queued, chunkSize, now);
        var p := RichAckPacket(acksToSerialize);
        ghost var first := SessionSpec.SendControl(View(), p, now);
        ghost var rest := Flush(first.state, queued[chunkSize..], now).out;
        assert emitted + (first.out + rest) == emitted + first.out + rest;
        DatagramsAppend(emitted, first.out);
        SendControl(p, now);
        emitted := emitted + first.out;
        processed := processed + chunkSize;
      }
      assert pendingRichAcks[processed..] == [] && emitted + [] == emitted;
      FlushStep(View(), [], 0, now);
    }

    /** `_internal_sendAck` */
    method SendAck(now: nat)
      modifies this
      ensures View() == SessionSpec.SendAck(old(View()), now).state
      ensures outbox == old(outbox) + Datagrams(SessionSpec.SendAck(old(View()), now).out)
    {
      hide Flush;
      hide Datagrams;
      hide SessionSpec.SendControl;
      if pendingRichAcks != [] {
        FlushChunks(now);
        pendingRichAcks := [];
      } else {
        SendControl(ACK_PACKET, now);
      }
    }

    // ---- The receive window ----

    method IsDuplicate(sequenceId: u32) returns (r: bool)
      ensures r == AckWindow.IsDuplicate(View().window, sequenceId)
    {
      if !hasReceivedRemotePacket {
        return false;
      }
      if sequenceId == remoteAcknowledgeId {
        return true;
      }
      if sequenceId > remoteAcknowledgeId {
        return false;
      }
      var diff := remoteAcknowledgeId - sequenceId;
      if diff <= WINDOW_BITS {
        return BitAt(remoteAcknowledgeBitfield, diff - 1);
      }
      return sequenceId in oldPacketHistory;
    }

    /** The loop that moves the set bits from `lo` up into the history. */
    method PushDisplaced(lo: nat)
      requires lo <= WINDOW_BITS
      modifies this`oldPacketHistory
      ensures oldPacketHistory
           == old(oldPacketHistory) + Displaced(remoteAcknowledgeId, remoteAcknowledgeBitfield, lo)
    {
      ghost var all := Displaced(remoteAcknowledgeId, remoteAcknowledgeBitfield, lo);
      var i := lo;
      while i < WINDOW_BITS
        invariant lo <= i <= WINDOW_BITS
        invariant oldPacketHistory + Displaced(remoteAcknowledgeId, remoteAcknowledgeBitfield, i)
                  == old(oldPacketHistory) + all
      {
        ghost var rest := Displaced(remoteAcknowledgeId, remoteAcknowledgeBitfield, i + 1);
        ghost var before := oldPacketHistory;
        if BitAt(remoteAcknowledgeBitfield, i) {
          oldPacketHistory := oldPacketHistory + [Subtract(remoteAcknowledgeId, i + 1)];
          assert before + ([Subtract(remoteAcknowledgeId, i + 1)] + rest) == oldPacketHistory + rest;
        } else {
          assert [] + rest == rest;
        }
        i := i + 1;
      }
      assert oldPacketHistory + [] == oldPacketHistory;
    }

    method UpdateAcknowledgeInfo(sequenceId: u32)
      modifies this
      ensures View() == old(View()).(window := Accept(old(View()).window, sequenceId), unsentAck := true)
      ensures outbox == old(outbox)
    {
      hide Displaced;
      hide ShiftLeft;
      hide SetBit;
      if !hasReceivedRemotePacket {
        remoteAcknowledgeId := sequenceId;
        hasReceivedRemotePacket := true;
        hasUnsentAck := true;
        return;
      }
      if sequenceId > remoteAcknowledgeId {
        var shift := sequenceId - remoteAcknowledgeId;
        if shift > WINDOW_BITS {
          PushDisplaced(0);
          oldPacketHistory := oldPacketHistory + [remoteAcknowledgeId];
          remoteAcknowledgeBitfield := 0;
        } else {
          PushDisplaced(WINDOW_BITS - shift);
          remoteAcknowledgeBitfield := ShiftLeft(remoteAcknowledgeBitfield, shift);
          remoteAcknowledgeBitfield := SetBit(remoteAcknowledgeBitfield, shift - 1);
        }
        remoteAcknowledgeId := sequenceId;
      } else if sequenceId < remoteAcknowledgeId {
        var diff := remoteAcknowledgeId - sequenceId;
        if diff <= WINDOW_BITS {
          remoteAcknowledgeBitfield := SetBit(remoteAcknowledgeBitfield, diff - 1);
        } else if sequenceId !in oldPacketHistory {
          oldPacketHistory := oldPacketHistory + [sequenceId];
          if |oldPacketHistory| > MAX_HISTORY {
            oldPacketHistory := oldPacketHistory[1..];
          }
        }
      }
      hasUnsentAck := true;
    }

    // ---- Receiving ----

    /** Erases from the sent packets what the header acknowledges. */
    method Acknowledge(header: Header)
      modifies this`sentPackets
      ensures View() == SessionSpec.Acknowledge(old(View()), header)
    {
      if HasAck(header.flags) && sentPackets != map[] {
        var ackId, bits := header.acknowledgeId, header.acknowledgeBitfield;
        sentPackets := sentPackets - {ackId};
        for i := 0 to WINDOW_BITS
          invariant sentPackets == old(sentPackets) - NamedUpTo(ackId, bits, i)
        {
          if BitAt(bits, i) {
            sentPackets := sentPackets - {Subtract(ackId, i + 1)};
            assert NamedUpTo(ackId, bits, i + 1) == NamedUpTo(ackId, bits, i) + {Subtract(ackId, i + 1)};
          } else {
            assert NamedUpTo(ackId, bits, i + 1) == NamedUpTo(ackId, bits, i);
          }
        }
        assert NamedUpTo(ackId, bits, WINDOW_BITS) == Named(ackId, bits);
      }
      assert sentPackets == SessionSpec.Acknowledge(old(View()), header).sent;
    }

    static ghost function NamedUpTo(ackId: u32, bits: u32, n: nat): set<u32>
      requires n <= WINDOW_BITS
    {
      {ackId} + set i | 0 <= i < n && BitAt(bits, i) :: Subtract(ackId, i + 1)
    }

    /** Reads the list in a RICH_ACK and erases the ids it names. */
    method CheckForOldPackets(payload: Bytes)
      modifies this`sentPackets
      ensures View() == old(View()).(sent := old(sentPackets) - Members(Codec.DecodeIds(payload)))
    {
      hide Codec.Decode;
      hide Codec.Ids;
      Codec.NothingToDecode();
      if |payload| > 0 {
        var incoming := new PacketBuffer.Packet(payload);
        assert incoming.Unread() == payload;
        var richAck := incoming.Read(Codec.RICH_ACK_TYPE);
        if richAck != None && richAck.value.List? {
          var ids := Codec.Ids(richAck.value.items);
          for i := 0 to |ids|
            invariant sentPackets == old(sentPackets) - Members(ids[..i])
          {
            sentPackets := sentPackets - {ids[i]};
            assert ids[..i + 1] == ids[..i] + [ids[i]];
            assert Members(ids[..i + 1]) == Members(ids[..i]) + {ids[i]};
          }
          assert ids[..|ids|] == ids;
        }
      }
      assert sentPackets == old(sentPackets) - Members(Codec.DecodeIds(payload));
    }

    /** The loop that empties the buffer as far as it can. */
    method Drain(ch: Reorder.Channel) returns (channel: Reorder.Channel, ready: seq<Packet>)
      ensures Reorder.Arrival(channel, ready) == Reorder.Drain(ch)
    {
      var nextExpected, buffer := ch.next, ch.buffer;
      ready := [];
      while nextExpected in buffer
        invariant Reorder.Drain(Reorder.Channel(nextExpected, buffer)).channel == Reorder.Drain(ch).channel
        invariant ready + Reorder.Drain(Reorder.Channel(nextExpected, buffer)).ready == Reorder.Drain(ch).ready
        decreases |buffer|
      {
        ghost var rest := buffer - {nextExpected};
        ghost var tail := Reorder.Drain(Reorder.Channel(Increment(nextExpected), rest)).ready;
        assert buffer.Keys == rest.Keys + {nextExpected};
        assert ready + ([buffer[nextExpected]] + tail) == ready + [buffer[nextExpected]] + tail;
        ready := ready + [buffer[nextExpected]];
        buffer := buffer - {nextExpected};
        nextExpected := Increment(nextExpected);
      }
      assert ready + [] == ready;
      channel := Reorder.Channel(nextExpected, buffer);
    }

    /** Ordered delivery on one channel. */
    method Order(c: u8, orderId: u32, incoming: Packet) returns (ready: seq<Packet>)
      modifies this`nextExpectedOrderIds, this`reorderBuffers
      ensures var a := Reorder.Receive(ChannelOf(old(View()), c), orderId, incoming);
              View() == WithChannel(old(View()), c, a.channel) && ready == a.ready
    {
      hide Reorder.Drain;
      var channel := Reorder.Channel(OrderOf(nextExpectedOrderIds, c),
                                     if c in reorderBuffers then reorderBuffers[c] else map[]);
      ready := [];
      if orderId == channel.next {
        var more;
        channel, more := Drain(channel.(next := Increment(channel.next)));
        ready := [incoming] + more;
      } else if orderId > channel.next {
        channel := channel.(buffer := channel.buffer[orderId := incoming]);
      }
      nextExpectedOrderIds := nextExpectedOrderIds[c := channel.next];
      reorderBuffers := reorderBuffers[c := channel.buffer];
    }

    method HandleIncoming(rawData: Bytes, now: nat) returns (ready: seq<Packet>)
      modifies this
      ensures var r := SessionSpec.HandleIncoming(old(View()), rawData, now);
              && View() == r.state && ready == r.ready
              && outbox == old(outbox) + Datagrams(r.out)
    {
      ready := [];
      var parsed := Parse(rawData);
      if parsed.Failure? {
        return;
      }
      var header := parsed.header;
      var payload := rawData[HEADER_SIZE..];
      ghost var f := Frame(header, payload);
      assert Receive(rawData) == Some(f);
      ready := HandleParsed(header, payload, now);
    }

    method HandleParsed(header: Header, payload: Bytes, now: nat) returns (ready: seq<Packet>)
      modifies this
      ensures var r := HandleFrame(old(View()), Frame(header, payload), now);
              && View() == r.state && ready == r.ready
              && outbox == old(outbox) + Datagrams(r.out)
    {
      hide Datagram;
      hide SessionSpec.SendAck;
      hide Reorder.Receive;
      hide IsOrdered;
      hide AckWindow.IsDuplicate;
      hide SessionSpec.Acknowledge;
      hide Accept;
      hide Codec.DecodeIds;
      ready := [];
      Acknowledge(header);
      var isDuplicate := IsDuplicate(header.sequenceId);
      if isDuplicate {
        pendingRichAcks := pendingRichAcks + [header.sequenceId];
        hasUnsentAck := true;
        return;
      }
      UpdateAcknowledgeInfo(header.sequenceId);
      packetsSinceLastAck := packetsSinceLastAck + 1;
      assert View() == NoteArrival(SessionSpec.Acknowledge(old(View()), header), header.sequenceId);
      if packetsSinceLastAck >= ACK_PACKET_THRESHOLD {
        SendAck(now);
      }
      hide SessionSpec.Dispatch;
      ready := Dispatch(header, payload);
    }

    /** The rest of `handleIncoming`: what becomes of an accepted frame. */
    method Dispatch(header: Header, payload: Bytes) returns (ready: seq<Packet>)
      modifies this
      ensures var r := SessionSpec.Dispatch(old(View()), Frame(header, payload));
              View() == r.state && ready == r.ready
      ensures outbox == old(outbox)
    {
      hide Reorder.Receive;
      hide IsOrdered;
      hide Codec.DecodeIds;
      if header.messageId == RICH_ACK_ID {
        CheckForOldPackets(payload);
        return [];
      }
      if |payload| == 0 && header.messageId == ACK_ID {
        return [];
      }
      var incoming := Packet(header.messageId, header.flags, 0, payload);
      if !IsOrdered(incoming.flag) {
        return [incoming];
      }
      ready := Order(header.channelId, header.orderId, incoming);
    }

    // ---- Timers ----

    /** The resend loop; `dead` when a packet had used up its attempts. */
    method ResendExpired(now: nat) returns (dead: bool)
      modifies this
      ensures var r := ResendAll(old(View()), now);
              && View() == r.state && dead == r.dead
              && outbox == old(outbox) + Datagrams(r.out)
    {
      hide Datagrams;
      hide Datagram;
      hide FrameOf;
      ghost var whole, emitted := ResendAll(View(), now), [];
      assert [] + whole.out == whole.out;
      NoDatagrams();
      var todo := sentPackets.Keys;
      while todo != {}
        invariant todo <= sentPackets.Keys
        invariant Resend(View(), todo, now).state == whole.state
        invariant Resend(View(), todo, now).dead == whole.dead
        invariant emitted + Resend(View(), todo, now).out == whole.out
        invariant outbox == old(outbox) + Datagrams(emitted)
        decreases |todo|
      {
        var k := Least(todo);
        var info := sentPackets[k];
        if now - info.sentTime > RESEND_TIMEOUT {
          if info.retries >= MAX_RESEND_ATTEMPTS {
            closing := true;
            assert emitted + [] == emitted;
            return true;
          }
          ghost var o := Resend1(View(), k, now);
          ghost var rest := Resend(o.state, todo - {k}, now).out;
          assert emitted + (o.out + rest) == emitted + o.out + rest;
          DatagramsAppend(emitted, o.out);
          Transmit(k, now);
          emitted := emitted + o.out;
        }
        todo := todo - {k};
      }
      assert emitted + [] == emitted;
      dead := false;
    }

    /** Sends one kept packet again. */
    method Transmit(k: u32, now: nat)
      requires k in sentPackets
      modifies this
      ensures View() == Resend1(old(View()), k, now).state
      ensures outbox == old(outbox) + Datagrams(Resend1(old(View()), k, now).out)
    {
      hide Datagram;
      hide FrameOf;
      var info := sentPackets[k];
      RawSend(info.packet, info.sequenceId, info.orderId, now);
      sentPackets := sentPackets[k := info.(sentTime := now, retries := info.retries + 1)];
    }

    method Update(now: nat)
      modifies this
      ensures View() == SessionSpec.Update(old(View()), now).state
      ensures outbox == old(outbox) + Datagrams(SessionSpec.Update(old(View()), now).out)
    {
      hide ResendAll;
      hide SessionSpec.SendAck;
      hide Datagrams;
      ghost var whole := ResendAll(View(), now);
      ghost var late := AckIfLate(whole, now);
      DatagramsAppend(whole.out, late.out);
      var dead := ResendExpired(now);
      if !dead && hasUnsentAck && now - lastAckTime > ACK_TIMEOUT {
        SendAck(now);
        assert late == SessionSpec.SendAck(whole.state, now);
      } else {
        assert late == Output(whole.state, []);
        NoDatagrams();
      }
      assert outbox == old(outbox) + Datagrams(whole.out) + Datagrams(late.out);
    }
  }

  lemma NoDatagrams()
    ensures Datagrams([]) == []
  {
  }
}
