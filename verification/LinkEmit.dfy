/** Transmitting frames keeps the invariants of an endpoint. */
module LinkEmit {
  import opened Numbers
  import opened Packets
  import opened AckWindow
  import opened Header
  import opened SessionSpec
  import opened Link
  import Codec

  // ---- The shape of a session's own frames ----

  /** The frame is an ACK, or a RICH_ACK for some of `pending`, under this sequence id. */
  ghost predicate ControlOk(f: Frame, w: Window, sequenceId: u32, pending: set<u32>) {
    && f == FrameOf(w, ControlPacket(f), sequenceId, 0)
    && (if f.header.messageId == RICH_ACK_ID
        then Members(Codec.DecodeIds(f.payload)) <= pending
        else f.header.messageId == ACK_ID && f.payload == [])
  }

  ghost predicate ControlsOk(out: seq<Frame>, w: Window, first: nat, pending: set<u32>) {
    first + |out| < TWO_TO_THE_32
    && forall i :: 0 <= i < |out| ==> ControlOk(out[i], w, first + i, pending)
  }

  lemma RichAckOk(w: Window, ids: seq<u32>, sequenceId: u32)
    requires |ids| <= MAX_ACK_PER_PACKET
    ensures ControlOk(FrameOf(w, RichAckPacket(ids), sequenceId, 0), w, sequenceId, Members(ids))
  {
    Codec.IdsRoundTrip(ids);
    hide Codec.EncodeIds;
    hide Codec.DecodeIds;
    hide MarkAck;
  }

  lemma {:induction false} FlushShape(s: State, acks: seq<u32>, now: nat)
    requires acks != [] && s.nextSequence + |Flush(s, acks, now).out| < TWO_TO_THE_32
    ensures var o := Flush(s, acks, now);
            && ControlsOk(o.out, s.window, s.nextSequence, Members(acks))
            && o.state == AfterRawSend(s.(nextSequence := s.nextSequence + |o.out|), now)
    decreases |acks|
  {
    hide Flush;
    hide ControlOk;
    hide SendControl;
    hide Members;
    var n := if |acks| < MAX_ACK_PER_PACKET then |acks| else MAX_ACK_PER_PACKET;
    FlushStep(s, acks, n, now);
    var first := SendControl(s, RichAckPacket(acks[..n]), now);
    var rest := Flush(first.state, acks[n..], now);
    FirstChunk(s, acks[..n], now);
    hide RichAckPacket;
    ChunkMembers(acks, n);
    if acks[n..] == [] {
      FlushStep(first.state, [], 0, now);
    } else {
      FlushShape(first.state, acks[n..], now);
    }
    OneMoreControl(first.out[0], rest.out, s.window, s.nextSequence, Members(acks[..n]), Members(acks[n..]),
                   Members(acks));
    assert first.out == [first.out[0]];
  }

  lemma FirstChunk(s: State, ids: seq<u32>, now: nat)
    requires |ids| <= MAX_ACK_PER_PACKET
    ensures var first := SendControl(s, RichAckPacket(ids), now);
            && |first.out| == 1 && ControlOk(first.out[0], s.window, s.nextSequence, Members(ids))
            && first.state == AfterRawSend(s.(nextSequence := Increment(s.nextSequence)), now)
  {
    RichAckOk(s.window, ids, s.nextSequence);
    hide ControlOk;
    hide FrameOf;
  }

  lemma ChunkMembers(acks: seq<u32>, n: nat)
    requires n <= |acks|
    ensures Members(acks[..n]) <= Members(acks) && Members(acks[n..]) <= Members(acks)
  {
  }

  lemma OneMoreControl(f: Frame, out: seq<Frame>, w: Window, first: nat, a: set<u32>, b: set<u32>, pending: set<u32>)
    requires first + 1 + |out| < TWO_TO_THE_32 && a <= pending && b <= pending
    requires ControlOk(f, w, first, a) && ControlsOk(out, w, first + 1, b)
    ensures ControlsOk([f] + out, w, first, pending)
  {
  }

  lemma SendAckShape(s: State, now: nat)
    requires s.nextSequence + |SendAck(s, now).out| < TWO_TO_THE_32
    ensures var o := SendAck(s, now);
            && |o.out| > 0
            && ControlsOk(o.out, s.window, s.nextSequence, Members(s.pending))
            && o.state == AfterRawSend(s.(nextSequence := s.nextSequence + |o.out|, pending := []), now)
  {
    if s.pending != [] {
      FlushShape(s, s.pending, now);
    }
  }

  // ---- Frames against the window ----

  /** A header acknowledges exactly the accepted ids from the head down to 32 below it. */
  lemma HeaderClaims(w: Window, accepted: set<u32>, evicted: set<u32>, p: Packet, sequenceId: u32, orderId: u32)
    requires Represents(w, accepted, evicted) && (w.hasRemote || !HasAck(p.flag))
    ensures Claims(FrameOf(w, p, sequenceId, orderId))
         == set k | k in accepted && k + WINDOW_BITS >= w.ackId
  {
    hide Represents;
    hide HasAck;
    hide MarkAck;
    if w.hasRemote {
      MarkAckKeepsMode(p.flag);
      NamedExactly(w, accepted, evicted);
    } else {
      EmptyWindow(w, accepted, evicted);
    }
  }

  lemma EmptyWindow(w: Window, accepted: set<u32>, evicted: set<u32>)
    requires Represents(w, accepted, evicted)
    ensures w.hasRemote <==> accepted != {}
  {
  }

  lemma FrameOfOk(w: Window, accepted: set<u32>, evicted: set<u32>, log: seq<Entry>, sequenceId: u32)
    requires Represents(w, accepted, evicted)
    requires sequenceId < |log| && (w.hasRemote || !HasAck(log[sequenceId].packet.flag))
    ensures var en := log[sequenceId];
            FrameOk(FrameOf(w, en.packet, sequenceId, en.orderId), log, accepted)
  {
    var en := log[sequenceId];
    HeaderClaims(w, accepted, evicted, en.packet, sequenceId, en.orderId);
    hide Represents;
    hide HasAck;
    hide MarkAck;
    hide Claims;
  }

  lemma WireExtends(wire: seq<Frame>, log: seq<Entry>, more: seq<Entry>, accepted: set<u32>)
    requires WireInv(wire, log, accepted)
    ensures WireInv(wire, log + more, accepted)
  {
    hide Carries;
    hide Claims;
  }

  lemma WireOfControls(wire: seq<Frame>, log: seq<Entry>, out: seq<Frame>, w: Window, accepted: set<u32>,
                       evicted: set<u32>)
    requires WireInv(wire, log, accepted) && Represents(w, accepted, evicted)
    requires ControlsOk(out, w, |log|, accepted)
    ensures WireInv(wire + out, log + Controls(out), accepted)
  {
    hide Represents;
    hide FrameOf;
    hide FrameOk;
    hide HasAck;
    hide EntryOk;
    hide Codec.DecodeIds;
    var log' := log + Controls(out);
    WireExtends(wire, log, Controls(out), accepted);
    forall i | 0 <= i < |out| ensures FrameOk(out[i], log', accepted) {
      assert ControlOk(out[i], w, |log| + i, accepted);
      assert log'[|log| + i] == Entry(ControlPacket(out[i]), 0);
      ControlEntryOk(ControlPacket(out[i]));
      FrameOfOk(w, accepted, evicted, log', |log| + i);
    }
  }

  lemma ControlEntryOk(p: Packet)
    requires p.flag == UNRELIABLE
    ensures EntryOk(Entry(p, 0)) && !IsOrdered(p.flag) && !IsTracked(p.flag) && !HasAck(p.flag)
  {
  }

  // ---- The sending half ----

  lemma CountersOfControls(log: seq<Entry>, localOrder: map<u8, u32>, out: seq<Frame>)
    requires CountersInv(log, localOrder)
    ensures CountersInv(log + Controls(out), localOrder)
  {
    forall c: u8 ensures OrderOf(localOrder, c) == |Stream(log + Controls(out), c)| {
      StreamOfControls(log, out, c);
      hide Stream;
      assert OrderOf(localOrder, c) == |Stream(log, c)|;
    }
  }

  lemma LogOfControls(log: seq<Entry>, localOrder: map<u8, u32>, out: seq<Frame>)
    requires LogInv(log, |log|, localOrder) && |log| + |out| < TWO_TO_THE_32
    ensures LogInv(log + Controls(out), |log| + |out|, localOrder)
  {
    hide EntryOk;
    hide OrdersInv;
    hide CountersInv;
    forall i | 0 <= i < |out| ensures EntryOk(Controls(out)[i]) {
      ControlEntryOk(ControlPacket(out[i]));
    }
    OrdersOfControls(log, out);
    CountersOfControls(log, localOrder, out);
  }

  lemma FlagsOfControls(log: seq<Entry>, out: seq<Frame>, hasRemote: bool)
    requires FlagsInv(log, hasRemote)
    ensures FlagsInv(log + Controls(out), hasRemote)
  {
    hide HasAck;
    forall i | 0 <= i < |out| ensures !HasAck(Controls(out)[i].packet.flag) {
      ControlEntryOk(ControlPacket(out[i]));
    }
  }

  lemma RichOfControls(log: seq<Entry>, out: seq<Frame>, w: Window, accepted: set<u32>)
    requires RichInv(log, accepted) && ControlsOk(out, w, |log|, accepted)
    ensures RichInv(log + Controls(out), accepted)
  {
    hide FrameOf;
    hide Codec.DecodeIds;
    var log' := log + Controls(out);
    forall k | 0 <= k < |log'| && log'[k].packet.messageId == RICH_ACK_ID
      ensures Members(Codec.DecodeIds(log'[k].packet.payload)) <= accepted
    {
      if k >= |log| {
        assert ControlOk(out[k - |log|], w, |log| + (k - |log|), accepted);
      }
    }
  }

  lemma {:induction false} CopiesAppend(wire: seq<Frame>, out: seq<Frame>, k: u32)
    ensures Copies(wire + out, k) == Copies(wire, k) + Copies(out, k)
    decreases |out|
  {
    if out == [] {
      assert wire + out == wire;
    } else {
      var n := |out| - 1;
      assert (wire + out)[..|wire + out| - 1] == wire + out[..n];
      CopiesAppend(wire, out[..n], k);
    }
  }

  lemma {:induction false} CopiesOfFresh(out: seq<Frame>, first: nat, k: u32)
    requires forall i :: 0 <= i < |out| ==> out[i].header.sequenceId == first + i
    ensures Copies(out, k) == if first <= k < first + |out| then 1 else 0
    decreases |out|
  {
    if out != [] {
      CopiesOfFresh(out[..|out| - 1], first, k);
    }
  }

  lemma CopiesOfControls(wire: seq<Frame>, count: nat, sent: map<u32, SentInfo>, out: seq<Frame>, w: Window,
                         pending: set<u32>)
    requires CopiesInv(wire, count, sent) && ControlsOk(out, w, count, pending)
    requires forall k :: k in sent ==> k < count
    ensures CopiesInv(wire + out, count + |out|, sent)
  {
    forall i | 0 <= i < |out| ensures out[i].header.sequenceId == count + i {
      assert ControlOk(out[i], w, count + i, pending);
    }
    forall k: u32
      ensures Copies(wire + out, k) <= (if k < count + |out| then 1 + MAX_RESEND_ATTEMPTS else 0)
      ensures k in sent ==> Copies(wire + out, k) == 1 + sent[k].retries
    {
      CopiesAppend(wire, out, k);
      CopiesOfFresh(out, count, k);
    }
  }

  lemma NothingLostOfControls(log: seq<Entry>, out: seq<Frame>, kept: set<u32>, peerAccepted: set<u32>)
    requires NothingLost(log, kept, peerAccepted)
    ensures NothingLost(log + Controls(out), kept, peerAccepted)
  {
  }

  /** The endpoint after its session has sent itself-made frames. */
  ghost function Emitted(e: Endpoint, out: seq<Frame>, now: nat): Endpoint
    requires e.s.nextSequence + |out| < TWO_TO_THE_32
  {
    e.(s := AfterRawSend(e.s.(nextSequence := e.s.nextSequence + |out|, pending := []), now),
       log := e.log + Controls(out), wire := e.wire + out)
  }

  lemma SenderOfControls(e: Endpoint, out: seq<Frame>, now: nat, peerAccepted: set<u32>)
    requires SenderInv(e, peerAccepted) && Represents(e.s.window, e.accepted, e.evicted)
    requires ControlsOk(out, e.s.window, e.s.nextSequence, e.accepted)
    ensures SenderInv(Emitted(e, out, now), peerAccepted)
  {
    hide Represents;
    hide ControlOk;
    LogOfControls(e.log, e.s.localOrder, out);
    RichOfControls(e.log, out, e.s.window, e.accepted);
    WireOfControls(e.wire, e.log, out, e.s.window, e.accepted, e.evicted);
    NothingLostOfControls(e.log, out, e.s.sent.Keys, peerAccepted);
    CopiesOfControls(e.wire, |e.log|, e.s.sent, out, e.s.window, e.accepted);
    SentExtends(e.s.sent, e.log, Controls(out));
    hide RichInv;
    hide WireInv;
    hide NothingLost;
    hide CopiesInv;
    hide OrdersInv;
    hide EntryOk;
    hide SentInv;
  }

  lemma SentExtends(sent: map<u32, SentInfo>, log: seq<Entry>, more: seq<Entry>)
    requires SentInv(sent, log)
    ensures SentInv(sent, log + more)
    ensures forall k :: k in sent ==> k < |log|
  {
  }

  // ---- Announcements ----

  /** A frame names everything the announcements were still owing. */
  lemma AnnounceByFrame(e: Endpoint, out: seq<Frame>, s': State)
    requires AnnounceInv(e) && Represents(e.s.window, e.accepted, e.evicted)
    requires e.s.sinceAck <= ACK_PACKET_THRESHOLD && |out| > 0
    requires s'.window == e.s.window && s'.sinceAck == (if e.s.window.hasRemote then 0 else e.s.sinceAck)
    requires Claims(out[0]) == set k | k in e.accepted && k + WINDOW_BITS >= e.s.window.ackId
    ensures AnnounceInv(e.(s := s', wire := e.wire + out))
  {
    EmptyWindow(e.s.window, e.accepted, e.evicted);
    hide Represents;
    hide Claims;
    var wire' := e.wire + out;
    if e.inOrder {
      forall id | id in e.accepted && id + s'.sinceAck <= e.s.window.ackId ensures Announced(wire', id) {
        if id + WINDOW_BITS >= e.s.window.ackId {
          assert wire'[|e.wire|] == out[0] && id in Claims(wire'[|e.wire|]);
        } else {
          AnnouncedStays(e.wire, out, id);
        }
      }
    }
  }

  lemma AnnouncedStays(wire: seq<Frame>, out: seq<Frame>, id: u32)
    requires Announced(wire, id)
    ensures Announced(wire + out, id)
  {
    hide Claims;
    var i :| 0 <= i < |wire| && id in Claims(wire[i]);
    assert (wire + out)[i] == wire[i];
  }
}
