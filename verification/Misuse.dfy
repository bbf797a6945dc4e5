/** What becomes of a link whose user does not observe `MaySend`: packets that the receiver
    takes for acknowledgements, with lists that are not true or places in a channel. */
module Misuse {
  import opened Numbers
  import opened Packets
  import opened AckWindow
  import opened Header
  import opened SessionSpec
  import opened Link
  import opened LinkEmit
  import opened LinkSteps
  import opened Network
  import opened Outgoing
  import opened Receipt
  import opened Resending
  import Codec
  import Reorder
  import Unordered

  // ---- Lists of ids ----

  /** The order id `send` gives a packet. */
  function OrderIdOf(s: State, p: Packet): u32 {
    if IsOrdered(p.flag) then OrderOf(s.localOrder, p.channelId) else 0
  }

  /** `DoSend` at a glance. */
  lemma SendParts(e: Endpoint, p: Packet, now: nat)
    ensures var e', orderId := DoSend(e, p, now), OrderIdOf(e.s, p);
            && |e'.log| == |e.log| + 1
            && e'.wire == e.wire + [FrameOf(e.s.window, p, e.s.nextSequence, orderId)]
            && e'.s.sent == (if IsTracked(p.flag)
                             then e.s.sent[e.s.nextSequence := SentInfo(p, now, e.s.nextSequence, orderId, 0)]
                             else e.s.sent)
            && e'.s.localOrder == (if IsOrdered(p.flag)
                                   then e.s.localOrder[p.channelId := Increment(orderId)] else e.s.localOrder)
            && e'.s.nextExpected == e.s.nextExpected && e'.s.reorder == e.s.reorder
            && e'.delivered == e.delivered && e'.accepted == e.accepted
  {
    hide IsOrdered;
    hide FrameOf;
  }

  /** What a frame leaves of the kept packets: neither those its header claims nor, when it is a
      new RICH_ACK, those it lists. */
  lemma KeptAfter(s: State, f: Frame, now: nat)
    ensures HandleFrame(s, f, now).state.sent.Keys
         == s.sent.Keys - Claims(f)
            - if !IsDuplicate(s.window, f.header.sequenceId) && f.header.messageId == RICH_ACK_ID
              then Members(Codec.DecodeIds(f.payload)) else {}
  {
    HandleExact(s, f, now);
    hide HandleFrame;
    hide Notes;
    hide PassesOn;
    hide Answers;
    hide IsDuplicate;
    hide Codec.DecodeIds;
    forall k ensures k in Claims(f) <==> Acknowledges(f.header, k) {
      ClaimedIff(f, k);
    }
    hide Claims;
    hide Acknowledges;
  }

  lemma ClaimedIff(f: Frame, k: u32)
    ensures k in Claims(f) <==> Acknowledges(f.header, k)
  {
    var h := f.header;
    NamedIs(h, k);
    assert HasAck(h.flags) <==> BitAt(h.flags, 3);
    hide Named;
    hide BitAt;
    hide HasAck;
  }

  lemma NextIsFresh(e: Endpoint, peer: Endpoint)
    requires Good(e, peer) && Good(peer, e) && |e.log| < TWO_TO_THE_32
    ensures e.s.nextSequence == |e.log| && !IsDuplicate(peer.s.window, |e.log|)
  {
    Unordered.AcceptedSent(peer, e);
    Unordered.WindowFacts(peer, e);
    DuplicateIffRemembered(peer.s.window, peer.accepted, peer.evicted, |e.log|);
    NextIsLogSize(e, peer.accepted);
    hide Represents;
    hide IsDuplicate;
  }

  /** What a side has transmitted last is delivered to the other. */
  ghost function DeliverLast(n: Net, side: Side, now: nat): Action
    requires n.End(side).wire != []
  {
    DeliverFrame(Other(side), n.End(side).wire[|n.End(side).wire| - 1], now)
  }

  /** The frame a send puts on the wire, and what it claims. */
  lemma SentFrame(e: Endpoint, p: Packet, now: nat)
    requires Represents(e.s.window, e.accepted, e.evicted)
    requires e.s.nextSequence == |e.log| && |e.log| + 1 < TWO_TO_THE_32
    requires e.s.window.hasRemote || !HasAck(p.flag)
    ensures var e' := DoSend(e, p, now);
            && |e'.wire| > 0 && e'.accepted == e.accepted
            && var f := e'.wire[|e'.wire| - 1];
               && Receive(Datagram(f)) == Some(f) && f.header.sequenceId == |e.log|
               && f.header.messageId == p.messageId && f.payload == p.payload && Claims(f) <= e.accepted
  {
    SendParts(e, p, now);
    hide *;
    HeaderClaims(e.s.window, e.accepted, e.evicted, p, |e.log|, OrderIdOf(e.s, p));
    ClaimsAccepted(e.accepted, e.s.window.ackId);
    FrameArrives(e.s.window, p, |e.log|, OrderIdOf(e.s, p));
  }

  lemma ClaimsAccepted(accepted: set<u32>, ackId: u32)
    ensures (set k | k in accepted && k + WINDOW_BITS >= ackId) <= accepted
  {
  }

  lemma FrameArrives(w: Window, p: Packet, sequenceId: u32, orderId: u32)
    ensures var f := FrameOf(w, p, sequenceId, orderId);
            && Receive(Datagram(f)) == Some(f) && f.header.sequenceId == sequenceId
            && f.header.messageId == p.messageId && f.payload == p.payload
  {
    DatagramRoundTrip(FrameOf(w, p, sequenceId, orderId));
    hide Receive;
    hide Datagram;
    hide MarkAck;
  }

  ghost function Posed(n: Net, side: Side, p: Packet, now: nat, later: nat): Net
    requires Apply(n, SendPacket(side, p, now)).End(side).wire != []
  {
    var n1 := Apply(n, SendPacket(side, p, now));
    Apply(n1, DeliverLast(n1, side, later))
  }

  /** The two endpoints after that. */
  lemma PosedEnds(n: Net, side: Side, p: Packet, now: nat, later: nat)
    ensures Apply(n, SendPacket(side, p, now)).End(side) == DoSend(n.End(side), p, now)
    ensures var e' := DoSend(n.End(side), p, now);
            e'.wire != [] ==>
              && Posed(n, side, p, now, later).End(side) == e'
              && Posed(n, side, p, now, later).End(Other(side))
                 == DoReceive(n.End(Other(side)), Datagram(e'.wire[|e'.wire| - 1]), later)
  {
    hide DoSend;
    hide DoReceive;
    hide Datagram;
    var n1 := Apply(n, SendPacket(side, p, now));
    ApplyEnds(n, SendPacket(side, p, now));
    if n1.End(side).wire != [] {
      ApplyEnds(n1, DeliverLast(n1, side, later));
    }
  }

  lemma PosedKeeps(e: Endpoint, peer: Endpoint, p: Packet, now: nat, later: nat)
    requires Good(e, peer) && Good(peer, e) && p.messageId == RICH_ACK_ID && |e.log| + 1 < TWO_TO_THE_32
    requires e.s.window.hasRemote || !HasAck(p.flag)
    ensures var e' := DoSend(e, p, now);
            && e'.accepted == e.accepted && e'.wire != []
            && var f := e'.wire[|e'.wire| - 1];
               && Claims(f) <= e.accepted
               && DoReceive(peer, Datagram(f), later).s.sent.Keys
                  == peer.s.sent.Keys - Claims(f) - Members(Codec.DecodeIds(p.payload))
  {
    NextIsFresh(e, peer);
    Unordered.WindowFacts(e, peer);
    hide *;
    SentFrame(e, p, now);
    var f := DoSend(e, p, now).wire[|DoSend(e, p, now).wire| - 1];
    KeptAfter(peer.s, f, later);
    KeptByEndpoint(peer, f, later);
  }

  lemma EndsGood(n: Net, side: Side)
    requires Inv(n)
    ensures Good(n.End(side), n.End(Other(side))) && Good(n.End(Other(side)), n.End(side))
  {
    hide Good;
  }

  /** A user's packet that poses as a RICH_ACK is sent and arrives: the peer stops keeping only
      accepted packets exactly when each listed id that it still keeps was accepted. */
  lemma RichAckSoundIff(n: Net, side: Side, p: Packet, now: nat, later: nat)
    requires Inv(n) && p.messageId == RICH_ACK_ID && |n.End(side).log| + 1 < TWO_TO_THE_32
    requires n.End(side).s.window.hasRemote || !HasAck(p.flag)
    ensures Apply(n, SendPacket(side, p, now)).End(side).wire != []
    ensures var n' := Posed(n, side, p, now, later);
            var kept, kept' := n.End(Other(side)).s.sent, n'.End(Other(side)).s.sent;
            ((forall k :: k in kept && k !in kept' ==> k in n'.End(side).accepted)
             <==> Members(Codec.DecodeIds(p.payload)) * kept.Keys <= n.End(side).accepted)
  {
    hide *;
    var e, peer := n.End(side), n.End(Other(side));
    EndsGood(n, side);
    PosedEnds(n, side, p, now, later);
    PosedKeeps(e, peer, p, now, later);
    var e' := DoSend(e, p, now);
    var claims, gone := Claims(e'.wire[|e'.wire| - 1]), Members(Codec.DecodeIds(p.payload));
    var kept, kept' := peer.s.sent.Keys, Posed(n, side, p, now, later).End(Other(side)).s.sent.Keys;
    assert kept' == kept - claims - gone && claims <= e.accepted;
    assert forall k :: k in gone * kept ==> k in kept && k !in kept';
  }

  lemma KeptByEndpoint(e: Endpoint, f: Frame, now: nat)
    requires Receive(Datagram(f)) == Some(f)
    ensures DoReceive(e, Datagram(f), now).s == HandleFrame(e.s, f, now).state
  {
    hide Receive;
    hide Datagram;
    hide HandleFrame;
    hide IsDuplicate;
    hide Evicted;
    hide IsOrdered;
  }

  // ---- Ordered packets that are taken for acknowledgements ----

  /** The frame does not fill place `o` of channel `c`: it belongs elsewhere, or the receiver
      consumes it. */
  ghost predicate Swallowed(f: Frame, c: u8, o: u32) {
    IsOrdered(f.header.flags) && f.header.channelId == c && f.header.orderId == o ==>
      IsAckShaped(f.header.messageId, f.payload)
  }

  ghost predicate InfoSwallowed(info: SentInfo, c: u8, o: u32) {
    IsOrdered(info.packet.flag) && info.packet.channelId == c && info.orderId == o ==>
      IsAckShaped(info.packet.messageId, info.packet.payload)
  }

  ghost predicate WireSwallowed(wire: seq<Frame>, c: u8, o: u32) {
    forall f :: f in wire ==> Swallowed(f, c, o)
  }

  ghost predicate SentSwallowed(sent: map<u32, SentInfo>, c: u8, o: u32) {
    forall k :: k in sent ==> InfoSwallowed(sent[k], c, o)
  }

  /** Place `o` of the channel is used up, and nothing transmitted or kept will fill it. */
  ghost predicate SenderBlocked(e: Endpoint, c: u8, o: u32) {
    && o < OrderOf(e.s.localOrder, c) <= |e.log|
    && WireSwallowed(e.wire, c, o)
    && SentSwallowed(e.s.sent, c, o)
  }

  /** The channel has not got past place `o`. */
  ghost predicate ReceiverBlocked(e: Endpoint, c: u8, o: u32) {
    && ChannelOf(e.s, c).next <= o && o !in ChannelOf(e.s, c).buffer
    && |DeliveredOn(e.delivered, c)| == ChannelOf(e.s, c).next
  }

  /** A copy is on the channel, and at the place, that its packet is. */
  lemma FrameSwallowed(f: Frame, w: Window, p: Packet, sequenceId: u32, orderId: u32, c: u8, o: u32)
    requires IsFrame(f, w, p, sequenceId, orderId) && InfoSwallowed(SentInfo(p, 0, 0, orderId, 0), c, o)
    ensures Swallowed(f, c, o)
  {
    assert IsOrdered(f.header.flags) <==> IsOrdered(p.flag);
    hide BitAt;
    hide FlagsOf;
  }

  lemma AcksSwallowed(wire: seq<Frame>, out: seq<Frame>, c: u8, o: u32)
    requires WireSwallowed(wire, c, o) && Unordered.AllAcks(out)
    ensures WireSwallowed(wire + out, c, o)
  {
    hide IsOrdered;
    forall f | f in wire + out ensures Swallowed(f, c, o) {
      if f !in wire {
        var i :| 0 <= i < |out| && out[i] == f;
        assert IsAckShaped(out[i].header.messageId, out[i].payload);
      }
    }
  }

  // ---- The sender ----

  lemma SendStaysBlocked(e: Endpoint, p: Packet, now: nat, c: u8, o: u32)
    requires SenderBlocked(e, c, o) && |e.log| + 1 < TWO_TO_THE_32
    ensures SenderBlocked(DoSend(e, p, now), c, o)
  {
    SendParts(e, p, now);
    hide DoSend;
    OtherPlace(e.s.localOrder, p, OrderIdOf(e.s, p), c, o);
    SendAddsSwallowed(e, p, now, c, o);
    hide FrameOf;
    hide IsOrdered;
    hide Swallowed;
    hide InfoSwallowed;
  }

  lemma SendAddsSwallowed(e: Endpoint, p: Packet, now: nat, c: u8, o: u32)
    requires InfoSwallowed(SentInfo(p, 0, 0, OrderIdOf(e.s, p), 0), c, o)
    ensures Swallowed(FrameOf(e.s.window, p, e.s.nextSequence, OrderIdOf(e.s, p)), c, o)
    ensures InfoSwallowed(SentInfo(p, now, e.s.nextSequence, OrderIdOf(e.s, p), 0), c, o)
  {
    var f := FrameOf(e.s.window, p, e.s.nextSequence, OrderIdOf(e.s, p));
    FrameExact(e.s.window, p, e.s.nextSequence, OrderIdOf(e.s, p));
    FrameSwallowed(f, e.s.window, p, e.s.nextSequence, OrderIdOf(e.s, p), c, o);
    hide IsFrame;
    hide FrameOf;
    hide Swallowed;
    hide IsOrdered;
  }

  lemma OtherPlace(localOrder: map<u8, u32>, p: Packet, orderId: u32, c: u8, o: u32)
    requires o < OrderOf(localOrder, c)
    requires IsOrdered(p.flag) ==> orderId == OrderOf(localOrder, p.channelId)
    ensures InfoSwallowed(SentInfo(p, 0, 0, orderId, 0), c, o)
  {
    hide IsOrdered;
  }

  lemma SameInfo(a: SentInfo, b: SentInfo, c: u8, o: u32)
    requires InfoSwallowed(a, c, o) && a.packet == b.packet && a.orderId == b.orderId
    ensures InfoSwallowed(b, c, o)
  {
    hide IsOrdered;
  }

  lemma CopiesSwallowed(out: seq<Frame>, ids: seq<u32>, s: State, c: u8, o: u32)
    requires AreCopies(out, ids, s) && SentSwallowed(s.sent, c, o)
    ensures WireSwallowed(out, c, o)
  {
    hide IsFrame;
    hide InfoSwallowed;
    hide Swallowed;
    forall f | f in out ensures Swallowed(f, c, o) {
      var i :| 0 <= i < |out| && out[i] == f;
      var info := s.sent[ids[i]];
      SameInfo(info, SentInfo(info.packet, 0, 0, info.orderId, 0), c, o);
      FrameSwallowed(f, s.window, info.packet, info.sequenceId, info.orderId, c, o);
    }
  }

  lemma AgainSwallowed(sent: map<u32, SentInfo>, sent': map<u32, SentInfo>, ids: seq<u32>, now: nat, c: u8, o: u32)
    requires SentSwallowed(sent, c, o) && SentAgain(sent, sent', ids, now)
    ensures SentSwallowed(sent', c, o)
  {
    hide InfoSwallowed;
    forall k | k in sent' ensures InfoSwallowed(sent'[k], c, o) {
      SameInfo(sent[k], sent'[k], c, o);
    }
  }

  lemma UpdateStaysBlocked(e: Endpoint, now: nat, c: u8, o: u32)
    requires SenderBlocked(e, c, o)
    ensures SenderBlocked(DoUpdate(e, now), c, o)
  {
    UpdateGrows(e, now);
    UpdateExact(e.s, now);
    UpdateParts(e, now);
    hide DoUpdate;
    hide Update;
    hide Updates;
    hide WireSwallowed;
    hide SentSwallowed;
    var ids: seq<u32> :| Updates(e.s, Update(e.s, now), ids, now);
    UpdateSwallowed(e.s, Update(e.s, now), ids, now, e.wire, c, o);
  }

  lemma UpdateSwallowed(s: State, out: Output, ids: seq<u32>, now: nat, wire: seq<Frame>, c: u8, o: u32)
    requires Updates(s, out, ids, now) && WireSwallowed(wire, c, o) && SentSwallowed(s.sent, c, o)
    ensures WireSwallowed(wire + out.out, c, o) && SentSwallowed(out.state.sent, c, o)
    ensures out.state.localOrder == s.localOrder
  {
    hide IsFrame;
    hide AcksLate;
    hide Swallowed;
    hide InfoSwallowed;
    hide SentAgain;
    hide Closes;
    hide ToResend;
    hide AreAcks;
    var resent, acks := out.out[..|ids|], out.out[|ids|..];
    CopiesSwallowed(resent, ids, s, c, o);
    hide AreCopies;
    AgainSwallowed(s.sent, out.state.sent, ids, now, c, o);
    assert WireSwallowed(wire + resent, c, o);
    if AcksLate(s, now) {
      AreAcksAcks(acks, s.window, s.nextSequence, s.pending);
    } else {
      Unordered.NoAcks();
    }
    hide SentSwallowed;
    AcksSwallowed(wire + resent, acks, c, o);
    hide Unordered.AllAcks;
    assert wire + resent + acks == wire + out.out;
  }

  lemma AreAcksAcks(out: seq<Frame>, w: Window, first: u32, ids: seq<u32>)
    requires AreAcks(out, w, first, ids)
    ensures Unordered.AllAcks(out)
  {
    hide IsControl;
    hide Codec.DecodeIds;
  }

  /** `DoReceive` at a glance. */
  lemma ReceiveParts(e: Endpoint, data: Bytes, now: nat)
    ensures var r, e' := HandleIncoming(e.s, data, now), DoReceive(e, data, now);
            && e'.s == r.state && e'.log == e.log + Controls(r.out) && e'.wire == e.wire + r.out
  {
    hide IsOrdered;
    hide Receive;
    hide HandleFrame;
    hide IsDuplicate;
    hide Evicted;
    assert e.log + [] == e.log && e.wire + [] == e.wire;
  }

  lemma ReceiveLeavesSender(e: Endpoint, data: Bytes, now: nat, c: u8, o: u32)
    requires SenderBlocked(e, c, o)
    ensures SenderBlocked(DoReceive(e, data, now), c, o)
  {
    ReceiveParts(e, data, now);
    Unordered.IncomingAcks(e.s, data, now);
    hide DoReceive;
    IncomingLeavesSender(e.s, data, now);
    hide HandleIncoming;
    AcksSwallowed(e.wire, HandleIncoming(e.s, data, now).out, c, o);
    hide WireSwallowed;
    hide Unordered.AllAcks;
    hide InfoSwallowed;
  }

  lemma IncomingLeavesSender(s: State, data: Bytes, now: nat)
    ensures var s' := HandleIncoming(s, data, now).state;
            && s'.localOrder == s.localOrder
            && forall k :: k in s'.sent ==> k in s.sent && s'.sent[k] == s.sent[k]
  {
    hide Receive;
    match Receive(data)
    case None =>
    case Some(f) => HandleLeavesSender(s, f, now);
    hide HandleFrame;
  }

  lemma HandleLeavesSender(s: State, f: Frame, now: nat)
    ensures var s' := HandleFrame(s, f, now).state;
            && s'.localOrder == s.localOrder
            && forall k :: k in s'.sent ==> k in s.sent && s'.sent[k] == s.sent[k]
  {
    HandleExact(s, f, now);
    hide HandleFrame;
    hide Notes;
    hide PassesOn;
    hide AreAcks;
    hide Acknowledges;
    hide Lists;
    hide IsDuplicate;
  }

  // ---- The receiver ----

  lemma {:induction false} DrainBelow(ch: Reorder.Channel, o: u32)
    requires ch.next <= o && o !in ch.buffer
    ensures var a := Reorder.Drain(ch);
            && ch.next <= a.channel.next <= o && o !in a.channel.buffer && |a.ready| == a.channel.next - ch.next
    decreases |ch.buffer|
  {
    if ch.next in ch.buffer {
      var rest := ch.buffer - {ch.next};
      assert ch.buffer.Keys == rest.Keys + {ch.next};
      DrainBelow(Reorder.Channel(Increment(ch.next), rest), o);
    }
  }

  lemma ReceiveBelow(ch: Reorder.Channel, at: u32, p: Packet, o: u32)
    requires ch.next <= o && o !in ch.buffer && at != o
    ensures var a := Reorder.Receive(ch, at, p);
            && a.channel.next <= o && o !in a.channel.buffer && |a.ready| == a.channel.next - ch.next
  {
    if at == ch.next {
      DrainBelow(ch.(next := Increment(ch.next)), o);
    }
  }

  lemma HandleBelow(s: State, f: Frame, now: nat, c: u8, o: u32)
    requires ChannelOf(s, c).next <= o && o !in ChannelOf(s, c).buffer && Swallowed(f, c, o)
    ensures var r := HandleFrame(s, f, now);
            && ChannelOf(r.state, c).next <= o && o !in ChannelOf(r.state, c).buffer
            && ChannelOf(r.state, c).next - ChannelOf(s, c).next
               == if IsOrdered(f.header.flags) && f.header.channelId == c then |r.ready| else 0
    ensures IsDuplicate(s.window, f.header.sequenceId) ==> HandleFrame(s, f, now).ready == []
  {
    HandleExact(s, f, now);
    hide HandleFrame;
    hide Frees;
    hide Notes;
    hide Answers;
    hide IsDuplicate;
    hide ChannelOf;
    assert IsOrdered(f.header.flags) <==> BitAt(f.header.flags, 2);
    hide BitAt;
    if Carried(s, f) && IsOrdered(f.header.flags) && f.header.channelId == c {
      ReceiveBelow(ChannelOf(s, c), f.header.orderId, Packet(f.header.messageId, f.header.flags, 0, f.payload), o);
    }
    hide Reorder.Receive;
  }

  lemma DeliveredPart(e: Endpoint, f: Frame, now: nat, c: u8)
    requires Receive(Datagram(f)) == Some(f)
    ensures var e' := DoReceive(e, Datagram(f), now);
            (DeliveredOn(e'.delivered, c)
             == if IsDuplicate(e.s.window, f.header.sequenceId) || !IsOrdered(f.header.flags) || f.header.channelId != c
                then DeliveredOn(e.delivered, c)
                else DeliveredOn(e.delivered, c) + HandleFrame(e.s, f, now).ready)
  {
    hide HandleFrame;
    hide Receive;
    hide Datagram;
    hide IsDuplicate;
    hide Evicted;
    hide IsOrdered;
  }

  lemma ReceiveStaysBlocked(e: Endpoint, f: Frame, now: nat, c: u8, o: u32)
    requires ReceiverBlocked(e, c, o) && Swallowed(f, c, o) && Receive(Datagram(f)) == Some(f)
    ensures ReceiverBlocked(DoReceive(e, Datagram(f), now), c, o)
  {
    HandleBelow(e.s, f, now, c, o);
    DeliveredPart(e, f, now, c);
    KeptByEndpoint(e, f, now);
    hide DoReceive;
    hide HandleFrame;
    hide Receive;
    hide Datagram;
    hide IsDuplicate;
    hide IsOrdered;
    hide Swallowed;
    hide ChannelOf;
    hide DeliveredOn;
  }

  // ---- Whole runs ----

  ghost predicate Blocked(n: Net, side: Side, c: u8, o: u32) {
    SenderBlocked(n.End(side), c, o) && ReceiverBlocked(n.End(Other(side)), c, o)
  }

  /** An action of a run in which users send what they like. */
  ghost predicate Loose(n: Net, act: Action) {
    && (match act
        case SendPacket(_, _, _) => true
        case DeliverFrame(side, f, _) => f in n.End(Other(side)).wire
        case Noise(_, data, _) => Receive(data) == None
        case Tick(_, _) => true)
    && |Step(n.End(act.side), act).log| < TWO_TO_THE_32
  }

  ghost predicate LooseStep(n: Net, act: Action, n': Net) {
    Loose(n, act) && n' == Apply(n, act)
  }

  ghost predicate LooseRun(run: seq<Net>, acts: seq<Action>) {
    |run| == |acts| + 1 && forall t :: 0 <= t < |acts| ==> LooseStep(run[t], acts[t], run[t + 1])
  }

  lemma SenderStays(e: Endpoint, act: Action, c: u8, o: u32)
    requires SenderBlocked(e, c, o) && |Step(e, act).log| < TWO_TO_THE_32
    ensures SenderBlocked(Step(e, act), c, o)
  {
    hide SenderBlocked;
    hide DoReceive;
    hide DoUpdate;
    hide Datagram;
    match act
    case SendPacket(_, p, now) =>
      SendLogGrows(e, p, now);
      hide DoSend;
      SendStaysBlocked(e, p, now, c, o);
    case DeliverFrame(_, f, now) => ReceiveLeavesSender(e, Datagram(f), now, c, o);
    case Noise(_, data, now) => ReceiveLeavesSender(e, data, now, c, o);
    case Tick(_, now) => UpdateStaysBlocked(e, now, c, o);
  }

  lemma ReceiverStays(e: Endpoint, act: Action, c: u8, o: u32)
    requires ReceiverBlocked(e, c, o)
    requires act.Noise? ==> Receive(act.data) == None
    requires act.DeliverFrame? ==> Swallowed(act.frame, c, o)
    ensures ReceiverBlocked(Step(e, act), c, o)
  {
    hide Receive;
    hide Datagram;
    hide Swallowed;
    match act
    case SendPacket(_, p, now) =>
      SendParts(e, p, now);
      hide DoSend;
    case DeliverFrame(_, f, now) =>
      hide ReceiverBlocked;
      DatagramRoundTrip(f);
      if Receive(Datagram(f)) == None {
        NoiseIgnored(e, Datagram(f), now);
      } else {
        ReceiveStaysBlocked(e, f, now, c, o);
      }
      hide DoReceive;
    case Noise(_, data, now) =>
      NoiseIgnored(e, data, now);
      hide DoReceive;
    case Tick(_, now) =>
      UpdateLeavesReceiver(e, now);
      hide DoUpdate;
  }

  lemma UpdateLeavesReceiver(e: Endpoint, now: nat)
    ensures var e' := DoUpdate(e, now);
            e'.s.nextExpected == e.s.nextExpected && e'.s.reorder == e.s.reorder && e'.delivered == e.delivered
  {
    UpdateParts(e, now);
    UpdateExact(e.s, now);
    hide DoUpdate;
    hide Update;
    hide AcksLate;
    hide AreCopies;
    hide AreAcks;
    hide SentAgain;
    hide ToResend;
    hide Closes;
  }

  lemma StaysBlocked(n: Net, act: Action, side: Side, c: u8, o: u32)
    requires Blocked(n, side, c, o) && Loose(n, act)
    ensures Blocked(Apply(n, act), side, c, o)
  {
    ApplyEnds(n, act);
    hide Apply;
    hide Step;
    hide ReceiverBlocked;
    hide Swallowed;
    if act.side == side {
      SenderStays(n.End(side), act, c, o);
    } else {
      assert Other(Other(side)) == side;
      ReceiverStays(n.End(Other(side)), act, c, o);
    }
  }

  /** A place in a channel given to a packet that the receiver takes for an acknowledgement. */
  lemma PlaceLost(n: Net, side: Side, p: Packet, now: nat)
    requires Inv(n) && Loose(n, SendPacket(side, p, now))
    requires IsOrdered(p.flag) && IsAckShaped(p.messageId, p.payload)
    ensures var o := OrderOf(n.End(side).s.localOrder, p.channelId);
            && o == |Stream(n.End(side).log, p.channelId)|
            && Blocked(Apply(n, SendPacket(side, p, now)), side, p.channelId, o)
  {
    var e, peer := n.End(side), n.End(Other(side));
    assert Good(e, peer) && Good(peer, e);
    ApplyEnds(n, SendPacket(side, p, now));
    SendLogGrows(e, p, now);
    hide Apply;
    hide Inv;
    hide DoSend;
    hide Good;
    hide IsOrdered;
    hide Stream;
    PlacesBefore(e, peer, p.channelId);
    PlaceTaken(e, p, now);
    PlaceAwaited(e, peer, p.channelId);
  }

  /** So far every ordered frame and kept packet of the channel has an earlier place. */
  lemma PlacesBefore(e: Endpoint, peer: Endpoint, c: u8)
    requires Good(e, peer)
    ensures OrderOf(e.s.localOrder, c) == |Stream(e.log, c)| <= |e.log|
    ensures WireSwallowed(e.wire, c, OrderOf(e.s.localOrder, c))
    ensures SentSwallowed(e.s.sent, c, OrderOf(e.s.localOrder, c))
  {
    SenderParts(e, peer);
    CounterOf(e.log, e.s.localOrder, c);
    hide Good;
    hide IsOrdered;
    hide Stream;
    hide OrdersInv;
    hide IsAckShaped;
    var o := OrderOf(e.s.localOrder, c);
    forall f | f in e.wire ensures Swallowed(f, c, o) {
      var i :| 0 <= i < |e.wire| && e.wire[i] == f;
      assert FrameOk(e.wire[i], e.log, e.accepted);
      FramePlace(f, e.log, e.accepted);
    }
    forall k | k in e.s.sent ensures InfoSwallowed(e.s.sent[k], c, o) {
      if IsOrdered(e.log[k].packet.flag) {
        StreamAt(e.log, k);
      }
    }
  }

  lemma SenderParts(e: Endpoint, peer: Endpoint)
    requires Good(e, peer)
    ensures WireInv(e.wire, e.log, e.accepted) && SentInv(e.s.sent, e.log) && OrdersInv(e.log)
    ensures CountersInv(e.log, e.s.localOrder)
  {
    hide ChannelsInv;
    hide WindowInv;
    hide OnceInv;
    hide AnnounceInv;
    hide WireInv;
    hide SentInv;
    hide OrdersInv;
    hide CountersInv;
    hide RichInv;
    hide NothingLost;
    hide CopiesInv;
    hide EntryOk;
  }

  lemma FramePlace(f: Frame, log: seq<Entry>, accepted: set<u32>)
    requires FrameOk(f, log, accepted) && OrdersInv(log)
    ensures IsOrdered(f.header.flags) ==> f.header.orderId < |Stream(log, f.header.channelId)|
  {
    var en := log[f.header.sequenceId];
    MarkAckKeepsMode(en.packet.flag);
    hide MarkAck;
    hide IsOrdered;
    hide Stream;
    hide OrdersInv;
    hide Claims;
    if IsOrdered(en.packet.flag) {
      StreamAt(log, f.header.sequenceId);
    }
  }

  lemma PlaceTaken(e: Endpoint, p: Packet, now: nat)
    requires IsOrdered(p.flag) && IsAckShaped(p.messageId, p.payload)
    requires |e.log| + 1 < TWO_TO_THE_32 && OrderOf(e.s.localOrder, p.channelId) <= |e.log|
    requires WireSwallowed(e.wire, p.channelId, OrderOf(e.s.localOrder, p.channelId))
    requires SentSwallowed(e.s.sent, p.channelId, OrderOf(e.s.localOrder, p.channelId))
    ensures SenderBlocked(DoSend(e, p, now), p.channelId, OrderOf(e.s.localOrder, p.channelId))
  {
    SendParts(e, p, now);
    hide DoSend;
    assert InfoSwallowed(SentInfo(p, 0, 0, OrderIdOf(e.s, p), 0), p.channelId, OrderOf(e.s.localOrder, p.channelId));
    SendAddsSwallowed(e, p, now, p.channelId, OrderOf(e.s.localOrder, p.channelId));
    hide FrameOf;
    hide IsOrdered;
    hide Swallowed;
    hide InfoSwallowed;
  }

  lemma PlaceAwaited(e: Endpoint, peer: Endpoint, c: u8)
    requires Good(peer, e) && OrderOf(e.s.localOrder, c) == |Stream(e.log, c)|
    ensures ReceiverBlocked(peer, c, OrderOf(e.s.localOrder, c))
  {
    hide Steady;
    assert ChannelOk(peer.s, peer.delivered, peer.accepted, e.log, c);
    hide Stream;
    hide Got;
    hide Content;
    hide Reorder.DeliversPrefix;
  }

  /** An ordered packet that the receiver takes for an acknowledgement stops its channel: from
      then on, whatever is sent, resent, lost or repeated, the peer never returns more packets
      on that channel than were submitted before it. */
  lemma {:induction false} ChannelStalls(run: seq<Net>, acts: seq<Action>, t: nat, side: Side, p: Packet, now: nat)
    requires LooseRun(run, acts) && Inv(run[0]) && 1 <= t <= |acts|
    requires acts[0] == SendPacket(side, p, now) && IsOrdered(p.flag) && IsAckShaped(p.messageId, p.payload)
    ensures Blocked(run[t], side, p.channelId, OrderOf(run[0].End(side).s.localOrder, p.channelId))
    ensures |DeliveredOn(run[t].End(Other(side)).delivered, p.channelId)| <= |Stream(run[0].End(side).log, p.channelId)|
    decreases t
  {
    assert LooseStep(run[t - 1], acts[t - 1], run[t - 1 + 1]);
    assert LooseStep(run[0], acts[0], run[0 + 1]);
    PlaceLost(run[0], side, p, now);
    hide Inv;
    hide Stream;
    hide Loose;
    hide Apply;
    hide SenderBlocked;
    if t > 1 {
      ChannelStalls(run, acts, t - 1, side, p, now);
      StaysBlocked(run[t - 1], acts[t - 1], side, p.channelId,
                   OrderOf(run[0].End(side).s.localOrder, p.channelId));
    }
  }
}
