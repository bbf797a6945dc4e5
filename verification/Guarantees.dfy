/** What a user of two linked sessions may rely on in every run. */
module Guarantees {
  import opened Numbers
  import opened Packets
  import opened AckWindow
  import opened Header
  import opened SessionSpec
  import opened Link
  import opened LinkEmit
  import opened LinkSteps
  import opened Network
  import Budget
  import LinkReceive
  import Codec
  import Reorder

  /** Both ends satisfy the invariants at every point of a run. */
  lemma RunGood(run: seq<Net>, acts: seq<Action>, t: nat, side: Side)
    requires IsRun(run, acts) && t <= |acts|
    ensures Good(run[t].End(side), run[t].End(Other(side)))
  {
    RunKeeps(run, acts, t);
    hide Good;
    hide Taken;
  }

  // ---- Acknowledgements ----

  /** Everything any transmitted frame acknowledges, in its header or as a RICH_ACK, its
      sender had accepted. */
  lemma ClaimsAreAccepted(run: seq<Net>, acts: seq<Action>, t: nat, side: Side, f: Frame)
    requires IsRun(run, acts) && t <= |acts| && f in run[t].End(side).wire
    ensures Claims(f) <= run[t].End(side).accepted
    ensures f.header.messageId == RICH_ACK_ID ==>
              Members(Codec.DecodeIds(f.payload)) <= run[t].End(side).accepted
  {
    var e, peer := run[t].End(side), run[t].End(Other(side));
    RunGood(run, acts, t, side);
    hide IsRun;
    hide Codec.DecodeIds;
    hide Claims;
    hide ChannelsInv;
    WireOf(e, f, |peer.log|, peer.accepted, ACK_PACKET_THRESHOLD - 1);
    hide Steady;
  }

  /** What was logged or accepted stays so. */
  lemma {:induction false} RunGrows(run: seq<Net>, acts: seq<Action>, t: nat, u: nat, side: Side)
    requires IsRun(run, acts) && t <= u <= |acts|
    ensures run[t].End(side).log <= run[u].End(side).log
    ensures run[t].End(side).accepted <= run[u].End(side).accepted
    decreases u
  {
    hide Step;
    hide Apply;
    hide Enabled;
    if t < u {
      RunGrows(run, acts, t, u - 1, side);
      assert Taken(run[u - 1], acts[u - 1], run[u - 1 + 1]);
      ApplyEnds(run[u - 1], acts[u - 1]);
      StepGrows(run[u - 1].End(acts[u - 1].side), acts[u - 1]);
    }
  }

  /** A packet stops being kept for retransmission only when the peer has accepted it. */
  lemma AckSoundness(run: seq<Net>, acts: seq<Action>, t: nat, u: nat, side: Side, k: u32)
    requires IsRun(run, acts) && t <= u <= |acts|
    requires k in run[t].End(side).s.sent && k !in run[u].End(side).s.sent
    ensures k in run[u].End(Other(side)).accepted
  {
    RunGood(run, acts, t, side);
    RunGood(run, acts, u, side);
    RunGrows(run, acts, t, u, side);
    hide IsRun;
    hide Good;
    LeavesOnlyAccepted(run[t].End(side), run[t].End(Other(side)), run[u].End(side), run[u].End(Other(side)), k);
  }

  lemma LeavesOnlyAccepted(e: Endpoint, peer: Endpoint, e': Endpoint, peer': Endpoint, k: u32)
    requires Good(e, peer) && Good(e', peer') && e.log <= e'.log
    requires k in e.s.sent && k !in e'.s.sent
    ensures k in peer'.accepted
  {
    hide Good;
    KeptIsTracked(e, peer, k);
    assert e'.log[k] == e.log[k];
    TrackedIsSafe(e', peer', k);
  }

  lemma KeptIsTracked(e: Endpoint, peer: Endpoint, k: u32)
    requires Good(e, peer) && k in e.s.sent
    ensures k < |e.log| && IsTracked(e.log[k].packet.flag) && e.s.sent[k].packet == e.log[k].packet
  {
    hide ChannelsInv;
    hide WindowInv;
    hide OnceInv;
    hide AnnounceInv;
    hide LogInv;
    hide RichInv;
    hide WireInv;
    hide CopiesInv;
  }

  lemma TrackedIsSafe(e: Endpoint, peer: Endpoint, k: u32)
    requires Good(e, peer) && k < |e.log| && IsTracked(e.log[k].packet.flag)
    ensures k in e.s.sent || k in peer.accepted
  {
    hide ChannelsInv;
    hide WindowInv;
    hide OnceInv;
    hide AnnounceInv;
    hide LogInv;
    hide RichInv;
    hide WireInv;
    hide CopiesInv;
  }

  /** A frame claims only what was accepted exactly when something was accepted or the
      packet did not itself carry `kHasAck`: otherwise it would acknowledge id 0. */
  lemma ClaimsSoundIff(w: Window, accepted: set<u32>, evicted: set<u32>, p: Packet, sequenceId: u32, orderId: u32)
    requires Represents(w, accepted, evicted)
    ensures Claims(FrameOf(w, p, sequenceId, orderId)) <= accepted
       <==> w.hasRemote || !HasAck(p.flag)
  {
    if w.hasRemote {
      NamedExactly(w, accepted, evicted);
    } else if HasAck(p.flag) {
      assert 0 in Claims(FrameOf(w, p, sequenceId, orderId));
      assert 0 !in accepted;
    } else {
      HeaderClaims(w, accepted, evicted, p, sequenceId, orderId);
    }
  }

  // ---- Ordered delivery ----

  /** The ordered packets the user of a side gave to `send` on a channel. */
  function Submitted(acts: seq<Action>, side: Side, c: u8): seq<Message> {
    if acts == [] then []
    else
      var n := |acts| - 1;
      Submitted(acts[..n], side, c)
      + (if acts[n].SendPacket? && acts[n].side == side
            && IsOrdered(acts[n].packet.flag) && acts[n].packet.channelId == c
         then [Content(acts[n].packet)] else [])
  }

  lemma StreamOfStep(e: Endpoint, act: Action, c: u8)
    ensures Stream(Step(e, act).log, c)
         == Stream(e.log, c)
            + (if act.SendPacket? && IsOrdered(act.packet.flag) && act.packet.channelId == c
               then [Content(act.packet)] else [])
  {
    hide Content;
    hide IsOrdered;
    hide Stream;
    hide Datagram;
    match act
    case SendPacket(_, p, now) => StreamAppend(e.log, Entry(p, OrderIdIn(Send(e.s, p, now).out)), c);
    case DeliverFrame(_, f, now) => StreamOfReceive(e, Datagram(f), now, c);
    case Noise(_, data, now) => StreamOfReceive(e, data, now, c);
    case Tick(_, now) => StreamOfControls(e.log, AckIfLate(ResendAll(e.s, now), now).out, c);
  }

  lemma StreamOfReceive(e: Endpoint, data: Bytes, now: nat, c: u8)
    ensures Stream(DoReceive(e, data, now).log, c) == Stream(e.log, c) + []
  {
    StreamOfControls(e.log, HandleIncoming(e.s, data, now).out, c);
    hide Stream;
    hide HandleIncoming;
    hide Receive;
    hide IsDuplicate;
    hide Evicted;
    hide IsOrdered;
  }

  lemma EmptyStream(c: u8)
    ensures Stream([], c) == []
  {
  }

  lemma {:induction false} StreamIsSubmitted(run: seq<Net>, acts: seq<Action>, t: nat, side: Side, c: u8)
    requires IsRun(run, acts) && t <= |acts|
    ensures Stream(run[t].End(side).log, c) == Submitted(acts[..t], side, c)
    decreases t
  {
    hide Step;
    hide Stream;
    hide IsOrdered;
    hide Content;
    hide Apply;
    hide Enabled;
    if t == 0 {
      EmptyStream(c);
    } else {
      var e, act := run[t - 1].End(side), acts[t - 1];
      StreamIsSubmitted(run, acts, t - 1, side, c);
      assert Taken(run[t - 1], act, run[t - 1 + 1]);
      StreamOfStep(e, act, c);
      ApplyEnds(run[t - 1], act);
      assert acts[..t][..t - 1] == acts[..t - 1] && acts[..t][t - 1] == act;
      assert Submitted(acts[..t - 1], side, c) + [] == Submitted(acts[..t - 1], side, c);
    }
  }

  /** On every channel, what `handleIncoming` has returned is a prefix of what the peer gave
      to `send`: no gap, no repetition, no exchange, whatever the network did. */
  lemma OrderedDelivery(run: seq<Net>, acts: seq<Action>, t: nat, side: Side, c: u8)
    requires IsRun(run, acts) && t <= |acts|
    ensures Reorder.DeliversPrefix(DeliveredOn(run[t].End(Other(side)).delivered, c),
                                   Submitted(acts[..t], side, c))
  {
    RunGood(run, acts, t, Other(side));
    StreamIsSubmitted(run, acts, t, side, c);
    var e, peer := run[t].End(Other(side)), run[t].End(side);
    hide IsRun;
    hide Steady;
    hide Stream;
    hide Submitted;
    hide Reorder.DeliversPrefix;
    assert Other(Other(side)) == side;
    assert ChannelOk(e.s, e.delivered, e.accepted, peer.log, c);
  }

  /** The next expected order id of a channel is the least that has not been accepted. */
  lemma NextIsLeastMissing(run: seq<Net>, acts: seq<Action>, t: nat, side: Side, c: u8)
    requires IsRun(run, acts) && t <= |acts|
    ensures var e, peer := run[t].End(side), run[t].End(Other(side));
            var next := OrderOf(e.s.nextExpected, c);
            && next !in Got(peer.log, e.accepted, c)
            && (forall o :: 0 <= o < next ==> o in Got(peer.log, e.accepted, c))
            && |DeliveredOn(e.delivered, c)| == next
  {
    RunGood(run, acts, t, side);
    var e, peer := run[t].End(side), run[t].End(Other(side));
    hide IsRun;
    hide Steady;
    hide Stream;
    hide Got;
    hide Reorder.DeliversPrefix;
    assert ChannelOk(e.s, e.delivered, e.accepted, peer.log, c);
  }

  /** What a channel has delivered depends only on what was submitted on it and which of its
      packets were accepted: two runs that agree on those agree on the deliveries, whatever else
      the runs did, on this channel's timing or on the other channels. */
  lemma ChannelIndependence(run: seq<Net>, acts: seq<Action>, t: nat, run': seq<Net>, acts': seq<Action>, t': nat,
                            side: Side, c: u8)
    requires IsRun(run, acts) && t <= |acts| && IsRun(run', acts') && t' <= |acts'|
    requires Submitted(acts[..t], Other(side), c) == Submitted(acts'[..t'], Other(side), c)
    requires Got(run[t].End(Other(side)).log, run[t].End(side).accepted, c)
          == Got(run'[t'].End(Other(side)).log, run'[t'].End(side).accepted, c)
    ensures var d, d' := DeliveredOn(run[t].End(side).delivered, c), DeliveredOn(run'[t'].End(side).delivered, c);
            && |d| == |d'|
            && forall o :: 0 <= o < |d| ==> Content(d[o]) == Content(d'[o])
  {
    assert Other(Other(side)) == side;
    NextIsLeastMissing(run, acts, t, side, c);
    NextIsLeastMissing(run', acts', t', side, c);
    OrderedDelivery(run, acts, t, Other(side), c);
    OrderedDelivery(run', acts', t', Other(side), c);
    hide IsRun;
    hide Got;
    hide Submitted;
    hide Content;
  }

  // ---- Nothing is lost ----

  /** The packet has been delivered at its place in its channel, or waits there. */
  ghost predicate HeldOrDelivered(e: Endpoint, en: Entry) {
    var c, o := en.packet.channelId, en.orderId;
    var delivered, buffer := DeliveredOn(e.delivered, c), ChannelOf(e.s, c).buffer;
    if o < OrderOf(e.s.nextExpected, c)
    then o < |delivered| && Content(delivered[o]) == Content(en.packet)
    else o in buffer && Content(buffer[o]) == Content(en.packet)
  }

  /** A tracked packet is still kept, unchanged, or was accepted; an accepted ordered packet
      has been delivered or is buffered under its own order id. */
  lemma NothingIsLost(run: seq<Net>, acts: seq<Action>, t: nat, side: Side, k: u32)
    requires IsRun(run, acts) && t <= |acts| && k < |run[t].End(side).log|
    ensures var e, peer := run[t].End(side), run[t].End(Other(side));
            var en := e.log[k];
            && (IsTracked(en.packet.flag) ==>
                  (k in e.s.sent && e.s.sent[k].packet == en.packet) || k in peer.accepted)
            && (k in peer.accepted && IsOrdered(en.packet.flag) ==> HeldOrDelivered(peer, en))
  {
    var e, peer := run[t].End(side), run[t].End(Other(side));
    RunGood(run, acts, t, side);
    RunGood(run, acts, t, Other(side));
    assert Other(Other(side)) == side;
    hide IsRun;
    var en := e.log[k];
    if IsTracked(en.packet.flag) {
      TrackedIsSafe(e, peer, k);
      if k in e.s.sent {
        KeptIsTracked(e, peer, k);
      }
    }
    if k in peer.accepted && IsOrdered(en.packet.flag) {
      AcceptedIsHeld(peer, e, k);
    }
  }

  lemma OrdersOf(e: Endpoint, peer: Endpoint)
    requires Good(e, peer)
    ensures OrdersInv(e.log)
  {
    hide OrdersInv;
    hide ChannelsInv;
  }

  lemma AcceptedIsHeld(e: Endpoint, peer: Endpoint, k: u32)
    requires Good(e, peer) && Good(peer, e)
    requires k in e.accepted && k < |peer.log| && IsOrdered(peer.log[k].packet.flag)
    ensures HeldOrDelivered(e, peer.log[k])
  {
    OrdersOf(peer, e);
    StreamAt(peer.log, k);
    var c := peer.log[k].packet.channelId;
    hide Steady;
    hide OrdersInv;
    hide Stream;
    hide Content;
    hide IsOrdered;
    assert ChannelOk(e.s, e.delivered, e.accepted, peer.log, c);
    assert OnChannel(peer.log[k], c);
    assert peer.log[k].orderId in Got(peer.log, e.accepted, c);
  }

  // ---- The receive window ----

  /** Duplicate detection is exact up to eviction. */
  lemma WindowExact(run: seq<Net>, acts: seq<Action>, t: nat, side: Side, id: u32)
    requires IsRun(run, acts) && t <= |acts|
    ensures var e := run[t].End(side);
            && (IsDuplicate(e.s.window, id) <==> id in e.accepted - e.evicted)
            && (e.evicted != {} ==> |e.accepted| > MAX_HISTORY)
  {
    RunGood(run, acts, t, side);
    var e := run[t].End(side);
    hide IsRun;
    hide SenderInv;
    hide AnnounceInv;
    hide ChannelsInv;
    DuplicateIffRemembered(e.s.window, e.accepted, e.evicted, id);
    if e.evicted != {} {
      var gone :| gone in e.evicted;
      LinkReceive.EvictedCounts(e, gone);
    }
    hide Represents;
  }

  /** An id is accepted as often as the history dropped it, and once more while it counts as a
      duplicate; and nothing is dropped before more than 2^15 ids were accepted. */
  lemma AcceptedOnce(run: seq<Net>, acts: seq<Action>, t: nat, side: Side, id: u32)
    requires IsRun(run, acts) && t <= |acts|
    ensures var e := run[t].End(side);
            && multiset(e.acceptLog)[id] == e.evictions[id] + (if IsDuplicate(e.s.window, id) then 1 else 0)
            && (e.evictions != multiset{} ==> |e.accepted| > MAX_HISTORY)
  {
    RunGood(run, acts, t, side);
    WindowExact(run, acts, t, side, id);
    hide IsRun;
    hide SenderInv;
    hide AnnounceInv;
    hide WindowInv;
    hide ChannelsInv;
    hide IsDuplicate;
  }

  /** What `handleIncoming` makes of an unordered frame: the packet itself exactly when the
      id is not remembered and the frame is not a session's own acknowledgement. */
  lemma UnorderedReturnedIff(s: State, f: Frame, now: nat)
    requires !IsOrdered(f.header.flags)
    ensures var r := HandleFrame(s, f, now);
            var p := Packet(f.header.messageId, f.header.flags, 0, f.payload);
            r.ready == if IsDuplicate(s.window, f.header.sequenceId)
                          || IsAckShaped(f.header.messageId, f.payload) then [] else [p]
  {
    hide IsDuplicate;
    hide Named;
    hide AckIfDue;
    hide NoteArrival;
    hide IsOrdered;
    hide HasAck;
  }

  // ---- Acknowledgement timing ----

  /** Fewer than 16 arrivals are ever owing an acknowledgement; and in a gap-free in-order
      run every accepted id is announced before 16 more have followed it, well before it
      leaves the 32-bit window. */
  lemma AnnouncedInTime(run: seq<Net>, acts: seq<Action>, t: nat, side: Side)
    requires IsRun(run, acts) && t <= |acts|
    ensures var e := run[t].End(side);
            && e.s.sinceAck < ACK_PACKET_THRESHOLD
            && (e.inOrder ==>
                  forall id :: id in e.accepted && id + (ACK_PACKET_THRESHOLD - 1) <= e.s.window.ackId ==>
                    Announced(e.wire, id))
  {
    RunGood(run, acts, t, side);
    hide IsRun;
    hide SenderInv;
    hide WindowInv;
    hide OnceInv;
    hide ChannelsInv;
    hide Announced;
  }

  // ---- Retransmission ----

  /** A sequence id goes out at most nine times, every time with the same message under the
      same channel and order id. */
  lemma RetransmissionBound(run: seq<Net>, acts: seq<Action>, t: nat, side: Side, k: u32)
    requires IsRun(run, acts) && t <= |acts|
    ensures Copies(run[t].End(side).wire, k) <= 1 + MAX_RESEND_ATTEMPTS
  {
    RunGood(run, acts, t, side);
    hide IsRun;
    hide WindowInv;
    hide OnceInv;
    hide ChannelsInv;
    hide AnnounceInv;
    hide LogInv;
    hide RichInv;
    hide WireInv;
    hide SentInv;
    hide NothingLost;
    hide Copies;
  }

  lemma CopiesAlike(run: seq<Net>, acts: seq<Action>, t: nat, side: Side, f: Frame, g: Frame)
    requires IsRun(run, acts) && t <= |acts| && f in run[t].End(side).wire && g in run[t].End(side).wire
    requires f.header.sequenceId == g.header.sequenceId
    ensures f.payload == g.payload && f.header.messageId == g.header.messageId
    ensures f.header.channelId == g.header.channelId && f.header.orderId == g.header.orderId
    ensures Content(Packet(f.header.messageId, f.header.flags, 0, f.payload))
         == Content(Packet(g.header.messageId, g.header.flags, 0, g.payload))
  {
    var e, peer := run[t].End(side), run[t].End(Other(side));
    RunGood(run, acts, t, side);
    hide IsRun;
    hide ChannelsInv;
    WireOf(e, f, |peer.log|, peer.accepted, ACK_PACKET_THRESHOLD - 1);
    WireOf(e, g, |peer.log|, peer.accepted, ACK_PACKET_THRESHOLD - 1);
    hide Steady;
    hide Claims;
    LinkReceive.CarriedContent(f, e.log[f.header.sequenceId]);
    LinkReceive.CarriedContent(g, e.log[g.header.sequenceId]);
    hide Content;
    hide EntryOk;
    hide IsOrdered;
  }

  function TrackedSends(acts: seq<Action>, side: Side): nat {
    if acts == [] then 0
    else
      var n := |acts| - 1;
      TrackedSends(acts[..n], side)
      + if acts[n].SendPacket? && acts[n].side == side && IsTracked(acts[n].packet.flag) then 1 else 0
  }

  lemma FreshId(e: Endpoint, peer: Endpoint)
    requires Good(e, peer)
    ensures e.s.nextSequence !in e.s.sent && e.s.nextSequence == |e.log|
  {
    if e.s.nextSequence in e.s.sent {
      KeptIsTracked(e, peer, e.s.nextSequence);
    }
    hide ChannelsInv;
    hide OrdersInv;
    hide CountersInv;
  }

  lemma StepPotential(e: Endpoint, peer: Endpoint, act: Action)
    requires Good(e, peer)
    ensures Budget.Potential(Step(e, act))
         <= Budget.Potential(e)
            + if act.SendPacket? && IsTracked(act.packet.flag) then MAX_RESEND_ATTEMPTS else 0
  {
    hide Budget.Potential;
    hide Datagram;
    match act
    case SendPacket(_, p, now) =>
      FreshId(e, peer);
      Budget.SendPotential(e, p, now);
    case DeliverFrame(_, f, now) => Budget.ReceivePotential(e, Datagram(f), now);
    case Noise(_, data, now) => Budget.ReceivePotential(e, data, now);
    case Tick(_, now) => Budget.UpdatePotential(e, now);
  }

  lemma {:induction false} PotentialBound(run: seq<Net>, acts: seq<Action>, t: nat, u: nat, side: Side)
    requires IsRun(run, acts) && t <= u <= |acts|
    ensures Budget.Potential(run[u].End(side))
         <= Budget.Potential(run[t].End(side)) + MAX_RESEND_ATTEMPTS * TrackedSends(acts[t..u], side)
    decreases u
  {
    hide Budget.Potential;
    hide Step;
    hide Good;
    hide Enabled;
    hide Apply;
    if t == u {
      assert acts[t..u] == [];
    } else {
      var n, act := run[u - 1], acts[u - 1];
      assert acts[t..u][..u - t - 1] == acts[t..u - 1] && acts[t..u][u - t - 1] == act;
      PotentialBound(run, acts, t, u - 1, side);
      RunGood(run, acts, u - 1, side);
      assert Taken(n, act, run[u - 1 + 1]);
      ApplyEnds(n, act);
      if act.side == side {
        StepPotential(n.End(side), n.End(Other(side)), act);
      } else {
        assert run[u].End(side) == n.End(side);
      }
    }
  }

  /** Over a whole run there are at most eight retransmissions for each tracked packet sent. */
  lemma TotalRetransmissions(run: seq<Net>, acts: seq<Action>, side: Side)
    requires IsRun(run, acts)
    ensures Budget.Retransmissions(run[|acts|].End(side)) <= MAX_RESEND_ATTEMPTS * TrackedSends(acts, side)
  {
    assert acts[0..|acts|] == acts;
    PotentialBound(run, acts, 0, |acts|, side);
    assert Budget.Potential(FRESH) == 0;
  }

  /** From any point on, without further tracked sends, no more retransmissions happen than
      the attempts left to the packets kept at that point. */
  lemma RetransmissionsRunOut(run: seq<Net>, acts: seq<Action>, t: nat, u: nat, side: Side)
    requires IsRun(run, acts) && t <= u <= |acts| && TrackedSends(acts[t..u], side) == 0
    ensures Budget.Retransmissions(run[u].End(side)) - Budget.Retransmissions(run[t].End(side))
         <= Budget.Attempts(run[t].End(side).s.sent)
  {
    PotentialBound(run, acts, t, u, side);
    hide IsRun;
    hide Budget.Attempts;
  }

  // ---- RICH_ACK ----

  /** Handles RICH_ACK frames one after another. */
  function DispatchAll(s: State, frames: seq<Frame>): State
    decreases |frames|
  {
    if frames == [] then s else DispatchAll(Dispatch(s, frames[0]).state, frames[1..])
  }

  /** The chunks of one flush erase from the peer's kept packets exactly the queued ids. */
  lemma RichAcksEraseQueue(sender: State, now: nat, peer: State)
    requires sender.pending != []
    ensures DispatchAll(peer, SendAck(sender, now).out)
         == peer.(sent := peer.sent - Members(sender.pending))
    ensures SendAck(sender, now).state.pending == []
  {
    SendAckEmptiesQueue(sender, now);
    FlushConserves(sender, sender.pending, now);
    DispatchRich(peer, SendAck(sender, now).out);
  }

  lemma {:induction false} DispatchRich(s: State, frames: seq<Frame>)
    requires forall i :: 0 <= i < |frames| ==> frames[i].header.messageId == RICH_ACK_ID
    ensures DispatchAll(s, frames) == s.(sent := s.sent - Members(RichIds(frames)))
    decreases |frames|
  {
    hide Codec.DecodeIds;
    if frames == [] {
      assert s.sent - Members([]) == s.sent;
    } else {
      var ids, rest := Codec.DecodeIds(frames[0].payload), RichIds(frames[1..]);
      DispatchRich(Dispatch(s, frames[0]).state, frames[1..]);
      assert Members(ids + rest) == Members(ids) + Members(rest);
      assert s.sent - Members(ids) - Members(rest) == s.sent - Members(ids + rest);
    }
  }
}
