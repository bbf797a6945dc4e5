/** What `handleIncoming` returns of the unordered packets, over whole runs. */
module Unordered {
  import opened Numbers
  import opened Packets
  import opened AckWindow
  import opened Header
  import opened SessionSpec
  import opened Link
  import opened LinkSteps
  import opened Network
  import Codec
  import Guarantees
  import LinkReceive

  /** A packet returned to the user, with the sequence id of the frame that carried it. */
  datatype Handed = Handed(id: u32, packet: Packet)

  function Tag(id: u32, packets: seq<Packet>): (hs: seq<Handed>)
    ensures |hs| == |packets| && forall i :: 0 <= i < |hs| ==> hs[i] == Handed(id, packets[i])
  {
    if packets == [] then [] else Tag(id, packets[..|packets| - 1]) + [Handed(id, packets[|packets| - 1])]
  }

  /** What one datagram makes the session return that is not ordered. */
  function HandedBy(s: State, data: Bytes, now: nat): seq<Handed> {
    match Receive(data)
    case None => []
    case Some(f) =>
      if IsOrdered(f.header.flags) then []
      else Tag(f.header.sequenceId, HandleIncoming(s, data, now).ready)
  }

  /** What an action makes the session of a side return that is not ordered. */
  function HandedIn(n: Net, act: Action, side: Side): seq<Handed> {
    if act.side != side then []
    else
      match act
      case DeliverFrame(_, f, now) => HandedBy(n.End(side).s, Datagram(f), now)
      case Noise(_, data, now) => HandedBy(n.End(side).s, data, now)
      case _ => []
  }

  /** All unordered packets returned on a side up to a point of a run, in order. */
  function Returned(run: seq<Net>, acts: seq<Action>, t: nat, side: Side): seq<Handed>
    requires t <= |acts| && |run| == |acts| + 1
  {
    if t == 0 then [] else Returned(run, acts, t - 1, side) + HandedIn(run[t - 1], acts[t - 1], side)
  }

  /** An unordered packet a session does not consume itself. */
  ghost predicate ForUser(en: Entry) {
    !IsOrdered(en.packet.flag) && !IsAckShaped(en.packet.messageId, en.packet.payload)
  }

  ghost predicate IsCopy(h: Handed, e: Endpoint, peerLog: seq<Entry>) {
    && h.id in e.accepted && h.id < |peerLog|
    && ForUser(peerLog[h.id]) && Content(h.packet) == Content(peerLog[h.id].packet)
  }

  /** How many of the returned packets came under a sequence id. */
  function Times(hs: seq<Handed>, id: u32): nat {
    if hs == [] then 0
    else Times(hs[..|hs| - 1], id) + if hs[|hs| - 1].id == id then 1 else 0
  }

  lemma TimesMore(hs: seq<Handed>, h: Handed, id: u32)
    ensures Times(hs + [h], id) == Times(hs, id) + if h.id == id then 1 else 0
  {
    assert (hs + [h])[..|hs|] == hs;
  }

  /** Returned packets are copies of accepted ones, and each acceptance returned one. */
  ghost predicate Exact(hs: seq<Handed>, e: Endpoint, peerLog: seq<Entry>) {
    && (forall i :: 0 <= i < |hs| ==> IsCopy(hs[i], e, peerLog))
    && (forall k: u32 :: k < |peerLog| && ForUser(peerLog[k]) ==> Times(hs, k) == multiset(e.acceptLog)[k])
  }

  // ---- Steps ----

  /** The acceptances that concern the user stay as they are. */
  ghost predicate SameAcceptances(e: Endpoint, e': Endpoint, peerLog: seq<Entry>) {
    && e.accepted <= e'.accepted
    && forall k: u32 :: k < |peerLog| && ForUser(peerLog[k]) ==>
         multiset(e'.acceptLog)[k] == multiset(e.acceptLog)[k]
  }

  lemma ExactStays(hs: seq<Handed>, e: Endpoint, e': Endpoint, peerLog: seq<Entry>)
    requires Exact(hs, e, peerLog) && SameAcceptances(e, e', peerLog)
    ensures Exact(hs, e', peerLog)
  {
    hide ForUser;
    hide Content;
    hide Times;
    forall i | 0 <= i < |hs| ensures IsCopy(hs[i], e', peerLog) {
      assert IsCopy(hs[i], e, peerLog);
    }
  }

  lemma ExactMore(hs: seq<Handed>, h: Handed, e: Endpoint, e': Endpoint, peerLog: seq<Entry>)
    requires Exact(hs, e, peerLog) && IsCopy(h, e', peerLog)
    requires e'.accepted == e.accepted + {h.id} && e'.acceptLog == e.acceptLog + [h.id]
    ensures Exact(hs + [h], e', peerLog)
  {
    hide ForUser;
    hide Content;
    hide Times;
    var hs' := hs + [h];
    forall i | 0 <= i < |hs'| ensures IsCopy(hs'[i], e', peerLog) {
      if i < |hs| {
        assert IsCopy(hs[i], e, peerLog);
      }
    }
    forall k: u32 | k < |peerLog| && ForUser(peerLog[k]) ensures Times(hs', k) == multiset(e'.acceptLog)[k] {
      TimesMore(hs, h, k);
    }
  }

  lemma SwallowedStays(e: Endpoint, e': Endpoint, id: u32, peerLog: seq<Entry>)
    requires e'.accepted == e.accepted + {id} && e'.acceptLog == e.acceptLog + [id]
    requires id < |peerLog| && !ForUser(peerLog[id])
    ensures SameAcceptances(e, e', peerLog)
  {
    hide ForUser;
  }

  lemma FreshFacts(e: Endpoint, f: Frame, now: nat)
    ensures var e' := LinkReceive.Arrived(e, f, now);
            && e'.accepted == e.accepted + {f.header.sequenceId}
            && e'.acceptLog == e.acceptLog + [f.header.sequenceId]
  {
    hide HandleFrame;
    hide Evicted;
    hide IsOrdered;
  }

  lemma WindowFacts(e: Endpoint, peer: Endpoint)
    requires Good(e, peer)
    ensures Represents(e.s.window, e.accepted, e.evicted) && OnceInv(e)
  {
    hide SenderInv;
    hide AnnounceInv;
    hide ChannelsInv;
    hide Represents;
  }

  lemma AcceptedSent(e: Endpoint, peer: Endpoint)
    requires Good(e, peer)
    ensures forall k :: k in e.accepted ==> k < |peer.log|
  {
    hide SenderInv;
    hide AnnounceInv;
    hide ChannelsInv;
    hide OnceInv;
    hide Represents;
  }

  lemma HandedByFrame(s: State, f: Frame, now: nat)
    requires Receive(Datagram(f)) == Some(f)
    ensures HandedBy(s, Datagram(f), now)
         == if IsOrdered(f.header.flags) || IsDuplicate(s.window, f.header.sequenceId)
               || IsAckShaped(f.header.messageId, f.payload) then []
            else [Handed(f.header.sequenceId, Packet(f.header.messageId, f.header.flags, 0, f.payload))]
  {
    hide Receive;
    hide Datagram;
    hide IsDuplicate;
    if !IsOrdered(f.header.flags) {
      Guarantees.UnorderedReturnedIff(s, f, now);
    }
    hide IsOrdered;
    hide HandleFrame;
  }

  lemma DeliverExact(hs: seq<Handed>, e: Endpoint, peer: Endpoint, f: Frame, now: nat)
    requires Good(e, peer) && Good(peer, e) && f in peer.wire && Exact(hs, e, peer.log)
    ensures Exact(hs + HandedBy(e.s, Datagram(f), now), DoReceive(e, Datagram(f), now), peer.log)
  {
    hide Steady;
    hide ChannelsInv;
    hide OrdersInv;
    hide RichInv;
    hide Claims;
    hide Receive;
    hide Datagram;
    WireOf(peer, f, |e.log|, e.accepted, ACK_PACKET_THRESHOLD - 1);
    var id := f.header.sequenceId;
    LinkReceive.CarriedContent(f, peer.log[id]);
    HandedByFrame(e.s, f, now);
    ReceiveForm(e, f, now);
    AcceptedSent(e, peer);
    hide HandedBy;
    hide DoReceive;
    hide Content;
    hide IsOrdered;
    hide EntryOk;
    hide IsDuplicate;
    hide Exact;
    assert hs + [] == hs;
    if IsDuplicate(e.s.window, id) {
      ExactStays(hs, e, e.(s := HandleFrame(e.s, f, now).state), peer.log);
    } else {
      FreshFacts(e, f, now);
      var e' := LinkReceive.Arrived(e, f, now);
      hide LinkReceive.Arrived;
      if ForUser(peer.log[id]) {
        ExactMore(hs, Handed(id, Packet(f.header.messageId, f.header.flags, 0, f.payload)), e, e', peer.log);
      } else {
        SwallowedStays(e, e', id, peer.log);
        ExactStays(hs, e, e', peer.log);
      }
    }
  }

  /** An action of the session itself, or unparsable noise, accepts nothing. */
  lemma QuietExact(hs: seq<Handed>, e: Endpoint, peer: Endpoint, act: Action)
    requires Good(e, peer) && Exact(hs, e, peer.log)
    requires match act
             case DeliverFrame(_, _, _) => false
             case Noise(_, data, _) => Receive(data) == None
             case _ => true
    ensures Exact(hs, Step(e, act), peer.log)
  {
    AcceptedSent(e, peer);
    hide Good;
    hide Exact;
    match act {
      case SendPacket(_, p, now) => SendLogGrows(e, p, now);
      case Noise(_, data, now) => NoiseIgnored(e, data, now);
      case Tick(_, now) => UpdateGrows(e, now);
    }
    hide Send;
    hide Update;
    hide ResendAll;
    hide AckIfLate;
    hide Receive;
    ExactStays(hs, e, Step(e, act), peer.log);
  }

  lemma {:induction false} ReturnedExact(run: seq<Net>, acts: seq<Action>, t: nat, side: Side)
    requires IsRun(run, acts) && t <= |acts|
    ensures Exact(Returned(run, acts, t, side), run[t].End(side), run[t].End(Other(side)).log)
    decreases t
  {
    hide Exact;
    hide Good;
    hide HandedIn;
    hide Enabled;
    hide Apply;
    if t == 0 {
      ExactFresh();
    } else {
      ReturnedExact(run, acts, t - 1, side);
      Guarantees.RunGood(run, acts, t - 1, side);
      Guarantees.RunGood(run, acts, t - 1, Other(side));
      assert Taken(run[t - 1], acts[t - 1], run[t - 1 + 1]);
      StepExact(Returned(run, acts, t - 1, side), run[t - 1], acts[t - 1], side);
    }
  }

  lemma ExactFresh()
    ensures Exact([], FRESH, FRESH.log)
  {
  }

  lemma StepExact(hs: seq<Handed>, n: Net, act: Action, side: Side)
    requires Good(n.End(side), n.End(Other(side))) && Good(n.End(Other(side)), n.End(side))
    requires Enabled(n, act) && Exact(hs, n.End(side), n.End(Other(side)).log)
    ensures Exact(hs + HandedIn(n, act, side), Apply(n, act).End(side), Apply(n, act).End(Other(side)).log)
  {
    hide Good;
    hide Exact;
    hide HandedBy;
    hide Apply;
    hide Step;
    hide HasAck;
    hide IsAckShaped;
    var e, peer := n.End(side), n.End(Other(side));
    ApplyEnds(n, act);
    AcceptedSent(e, peer);
    assert hs + [] == hs;
    if act.side != side {
      StepGrows(peer, act);
      AcceptedMembers(e, peer);
      PeerGrows(hs, e, peer.log, Step(peer, act).log);
    } else {
      match act
      case DeliverFrame(_, f, now) =>
        DeliverExact(hs, e, peer, f, now);
        StepOfDelivery(e, act);
      case Noise(_, data, now) =>
        NoneFromNoise(e.s, data, now);
        QuietExact(hs, e, peer, act);
      case SendPacket(_, _, _) =>
        QuietExact(hs, e, peer, act);
      case Tick(_, _) =>
        QuietExact(hs, e, peer, act);
    }
  }

  lemma StepOfDelivery(e: Endpoint, act: Action)
    requires act.DeliverFrame?
    ensures Step(e, act) == DoReceive(e, Datagram(act.frame), act.now)
  {
    hide DoReceive;
    hide Datagram;
  }

  lemma {:induction false} TimesNone(hs: seq<Handed>, k: u32)
    requires forall i :: 0 <= i < |hs| ==> hs[i].id != k
    ensures Times(hs, k) == 0
  {
    if hs != [] {
      TimesNone(hs[..|hs| - 1], k);
    }
  }

  lemma AcceptedMembers(e: Endpoint, peer: Endpoint)
    requires Good(e, peer)
    ensures Members(e.acceptLog) == e.accepted
  {
    WindowFacts(e, peer);
    hide Good;
    hide Represents;
    hide Members;
  }

  lemma PeerGrows(hs: seq<Handed>, e: Endpoint, peerLog: seq<Entry>, peerLog': seq<Entry>)
    requires Exact(hs, e, peerLog) && peerLog <= peerLog' && (forall k :: k in e.accepted ==> k < |peerLog|)
    requires Members(e.acceptLog) == e.accepted
    ensures Exact(hs, e, peerLog')
  {
    hide ForUser;
    hide Content;
    hide Times;
    forall i | 0 <= i < |hs| ensures IsCopy(hs[i], e, peerLog') && hs[i].id < |peerLog| {
      assert IsCopy(hs[i], e, peerLog);
    }
    forall k: u32 | k < |peerLog'| && ForUser(peerLog'[k]) ensures Times(hs, k) == multiset(e.acceptLog)[k] {
      if k >= |peerLog| {
        TimesNone(hs, k);
        assert k !in Members(e.acceptLog);
      }
    }
  }

  lemma NoneFromNoise(s: State, data: Bytes, now: nat)
    requires Receive(data) == None
    ensures HandedBy(s, data, now) == []
  {
    hide Receive;
  }

  // ---- Where the packets come from ----

  ghost predicate AllAcks(out: seq<Frame>) {
    forall i :: 0 <= i < |out| ==> IsAckShaped(out[i].header.messageId, out[i].payload)
  }

  lemma SendAckAcks(s: State, now: nat)
    ensures AllAcks(SendAck(s, now).out)
  {
    if s.pending != [] {
      FlushConserves(s, s.pending, now);
      hide Codec.DecodeIds;
      hide Flush;
      forall i | 0 <= i < |SendAck(s, now).out|
        ensures IsAckShaped(SendAck(s, now).out[i].header.messageId, SendAck(s, now).out[i].payload)
      {
        assert SendAck(s, now).out[i] in SendAck(s, now).out;
      }
    }
  }

  lemma IncomingAcks(s: State, data: Bytes, now: nat)
    ensures AllAcks(HandleIncoming(s, data, now).out)
  {
    match Receive(data)
    case None =>
      hide Receive;
    case Some(f) =>
      SendAckAcks(NoteArrival(Acknowledge(s, f.header), f.header.sequenceId), now);
      hide AllAcks;
      hide Receive;
      hide SendAck;
      hide Acknowledge;
      hide NoteArrival;
      hide IsDuplicate;
      NoAcks();
  }

  lemma LateAcks(r: Resent, now: nat)
    ensures AllAcks(AckIfLate(r, now).out)
  {
    SendAckAcks(r.state, now);
    hide SendAck;
  }

  lemma NoAcks()
    ensures AllAcks([])
  {
  }

  /** A log only grows by acknowledgements and by what the user sends. */
  lemma LogAdds(e: Endpoint, act: Action, k: nat)
    requires |e.log| <= k < |Step(e, act).log|
    ensures var en := Step(e, act).log[k];
            || IsAckShaped(en.packet.messageId, en.packet.payload)
            || (act.SendPacket? && k == |e.log| && en.packet == act.packet)
  {
    match act
    case SendPacket(_, p, now) =>
      SendLogGrows(e, p, now);
      hide Send;
    case DeliverFrame(_, f, now) => ReceiveAdds(e, Datagram(f), now, k);
    case Noise(_, data, now) => ReceiveAdds(e, data, now, k);
    case Tick(_, now) =>
      LateAcks(ResendAll(e.s, now), now);
      hide ResendAll;
      hide AckIfLate;
      hide Update;
  }

  lemma ReceiveAdds(e: Endpoint, data: Bytes, now: nat, k: nat)
    requires |e.log| <= k < |DoReceive(e, data, now).log|
    ensures var en := DoReceive(e, data, now).log[k];
            IsAckShaped(en.packet.messageId, en.packet.payload)
  {
    IncomingAcks(e.s, data, now);
    hide HandleIncoming;
    hide Receive;
    hide IsDuplicate;
    hide Evicted;
    hide IsOrdered;
  }

  /** A user of the side gave this packet to `send`, under this sequence id. */
  ghost predicate SentAs(run: seq<Net>, acts: seq<Action>, t: nat, side: Side, id: nat, m: Message)
    requires t <= |acts| && |run| == |acts| + 1
  {
    exists u :: 0 <= u < t && IsSend(run[u], acts[u], side, id, m)
  }

  ghost predicate IsSend(n: Net, act: Action, side: Side, id: nat, m: Message) {
    && act.SendPacket? && act.side == side && !IsOrdered(act.packet.flag)
    && |n.End(side).log| == id && Content(act.packet) == m
  }

  lemma {:induction false} LoggedWasSent(run: seq<Net>, acts: seq<Action>, t: nat, side: Side, k: nat)
    requires IsRun(run, acts) && t <= |acts| && k < |run[t].End(side).log| && ForUser(run[t].End(side).log[k])
    ensures SentAs(run, acts, t, side, k, Content(run[t].End(side).log[k].packet))
    decreases t
  {
    hide Content;
    hide IsOrdered;
    hide Step;
    hide Enabled;
    if t > 0 {
      var n, act := run[t - 1], acts[t - 1];
      assert Taken(n, act, run[t - 1 + 1]);
      ApplyEnds(n, act);
      hide Apply;
      StepGrows(n.End(act.side), act);
      if k < |n.End(side).log| {
        LoggedWasSent(run, acts, t - 1, side, k);
        var u :| 0 <= u < t - 1 && IsSend(run[u], acts[u], side, k, Content(n.End(side).log[k].packet));
      } else {
        LogAdds(n.End(side), act, k);
        assert IsSend(run[t - 1], acts[t - 1], side, k, Content(run[t].End(side).log[k].packet));
      }
    }
  }

  /** Unordered delivery, in every run: each packet returned is one that the peer's user sent
      under that sequence id; each accepted one was returned; and a sequence id returns its packet
      as often as the history dropped it, and once more while it counts as a duplicate. */
  lemma UnorderedDelivery(run: seq<Net>, acts: seq<Action>, t: nat, side: Side)
    requires IsRun(run, acts) && t <= |acts|
    ensures var e, peer, hs := run[t].End(side), run[t].End(Other(side)), Returned(run, acts, t, side);
            && (forall i :: 0 <= i < |hs| ==> SentAs(run, acts, t, Other(side), hs[i].id, Content(hs[i].packet)))
            && (forall k: u32 :: k < |peer.log| && ForUser(peer.log[k]) ==>
                  && (k in e.accepted ==> Times(hs, k) >= 1)
                  && Times(hs, k) == e.evictions[k] + if IsDuplicate(e.s.window, k) then 1 else 0)
  {
    ReturnedExact(run, acts, t, side);
    var e, peer, hs := run[t].End(side), run[t].End(Other(side)), Returned(run, acts, t, side);
    hide Returned;
    hide Content;
    hide SentAs;
    hide ForUser;
    hide Times;
    hide IsDuplicate;
    forall i | 0 <= i < |hs| ensures SentAs(run, acts, t, Other(side), hs[i].id, Content(hs[i].packet)) {
      assert IsCopy(hs[i], e, peer.log);
      LoggedWasSent(run, acts, t, Other(side), hs[i].id);
    }
    forall k: u32 | k < |peer.log| && ForUser(peer.log[k])
      ensures k in e.accepted ==> Times(hs, k) >= 1
      ensures Times(hs, k) == e.evictions[k] + if IsDuplicate(e.s.window, k) then 1 else 0
    {
      Guarantees.AcceptedOnce(run, acts, t, side, k);
      AcceptedListed(run, acts, t, side, k);
    }
  }

  lemma AcceptedListed(run: seq<Net>, acts: seq<Action>, t: nat, side: Side, k: u32)
    requires IsRun(run, acts) && t <= |acts|
    ensures k in run[t].End(side).accepted ==> multiset(run[t].End(side).acceptLog)[k] >= 1
  {
    Guarantees.RunGood(run, acts, t, side);
    hide IsRun;
    AcceptedMembers(run[t].End(side), run[t].End(Other(side)));
    hide Good;
    assert k in run[t].End(side).accepted ==> k in Members(run[t].End(side).acceptLog);
  }
}
