/** Two sessions over a network that may lose, duplicate, delay and reorder datagrams, and
    the guarantees that hold in every run. */
module Network {
  import opened Numbers
  import opened Packets
  import opened AckWindow
  import opened Header
  import opened SessionSpec
  import opened Link
  import opened LinkSteps
  import opened LinkReceive
  import Reorder

  datatype Side = Left | Right

  function Other(side: Side): Side {
    if side == Left then Right else Left
  }

  datatype Net = Net(left: Endpoint, right: Endpoint) {
    function End(side: Side): Endpoint {
      if side == Left then left else right
    }

    function With(side: Side, e: Endpoint): Net {
      if side == Left then this.(left := e) else this.(right := e)
    }
  }

  /** A frame once transmitted can be delivered at any later time, any number of times, or
      never. Noise is any datagram that does not parse. */
  datatype Action =
    | SendPacket(side: Side, packet: Packet, now: nat)
    | DeliverFrame(side: Side, frame: Frame, now: nat)
    | Noise(side: Side, data: Bytes, now: nat)
    | Tick(side: Side, now: nat)

  function Step(e: Endpoint, act: Action): Endpoint {
    match act
    case SendPacket(_, p, now) => DoSend(e, p, now)
    case DeliverFrame(_, f, now) => DoReceive(e, Datagram(f), now)
    case Noise(_, data, now) => DoReceive(e, data, now)
    case Tick(_, now) => DoUpdate(e, now)
  }

  function Apply(n: Net, act: Action): Net {
    n.With(act.side, Step(n.End(act.side), act))
  }

  /** Callers observe `MaySend`, exactly what it takes to keep the invariants (`SendKeepsIff`), and
      a session uses fewer than 2^32 sequence ids. */
  ghost predicate Enabled(n: Net, act: Action) {
    && (match act
        case SendPacket(side, p, _) => MaySend(n.End(side), p)
        case DeliverFrame(side, f, _) => f in n.End(Other(side)).wire
        case Noise(_, data, _) => Receive(data) == None
        case Tick(_, _) => true)
    && |Step(n.End(act.side), act).log| < TWO_TO_THE_32
  }

  ghost predicate Taken(n: Net, act: Action, n': Net) {
    Enabled(n, act) && n' == Apply(n, act)
  }

  /** The states a run goes through, from two fresh sessions on, one action after another. */
  ghost predicate IsRun(run: seq<Net>, acts: seq<Action>) {
    && |run| == |acts| + 1
    && run[0] == Net(FRESH, FRESH)
    && forall t :: 0 <= t < |acts| ==> Taken(run[t], acts[t], run[t + 1])
  }

  ghost predicate Good(e: Endpoint, peer: Endpoint) {
    && Steady(e, |peer.log|, peer.accepted, ACK_PACKET_THRESHOLD - 1)
    && ChannelsInv(e.s, e.delivered, e.accepted, peer.log)
  }

  ghost predicate Inv(n: Net) {
    Good(n.left, n.right) && Good(n.right, n.left)
  }

  // ---- Seen from the other side ----

  lemma {:induction false} StreamPrefix(log: seq<Entry>, more: seq<Entry>, c: u8)
    ensures Stream(log, c) <= Stream(log + more, c)
    decreases |more|
  {
    if more == [] {
      assert log + more == log;
    } else {
      var n := |more| - 1;
      assert log + more == log + more[..n] + [more[n]];
      StreamPrefix(log, more[..n], c);
      StreamAppend(log + more[..n], more[n], c);
    }
  }

  lemma ChannelsGrow(e: Endpoint, log: seq<Entry>, more: seq<Entry>)
    requires ChannelsInv(e.s, e.delivered, e.accepted, log)
    requires (forall k :: k in e.accepted ==> k < |log|) && |log + more| < TWO_TO_THE_32
    ensures ChannelsInv(e.s, e.delivered, e.accepted, log + more)
  {
    forall c: u8 ensures ChannelOk(e.s, e.delivered, e.accepted, log + more, c) {
      assert ChannelOk(e.s, e.delivered, e.accepted, log, c);
      StreamPrefix(log, more, c);
      var st, st' := Stream(log, c), Stream(log + more, c);
      assert st' == st + st'[|st|..];
      hide Reorder.ChannelInv;
      hide Stream;
      hide IsOrdered;
      assert Got(log + more, e.accepted, c) == Got(log, e.accepted, c);
      Reorder.StreamGrows(ChannelOf(e.s, c), DeliveredOn(e.delivered, c), Got(log, e.accepted, c), st, st'[|st|..]);
    }
  }

  lemma SteadyGrows(e: Endpoint, peerCount: nat, peerCount': nat, peerAccepted: set<u32>, peerAccepted': set<u32>,
                    limit: nat)
    requires Steady(e, peerCount, peerAccepted, limit)
    requires peerCount <= peerCount' && peerAccepted <= peerAccepted'
    ensures Steady(e, peerCount', peerAccepted', limit)
    ensures forall k :: k in e.accepted ==> k < peerCount
  {
    hide LogInv;
    hide RichInv;
    hide WireInv;
    hide SentInv;
    hide CopiesInv;
    hide Represents;
    hide OnceInv;
    hide AnnounceInv;
  }

  lemma PeerKeeps(e: Endpoint, peer: Endpoint, peer': Endpoint)
    requires Good(e, peer) && peer.log <= peer'.log && peer.accepted <= peer'.accepted
    requires |peer'.log| < TWO_TO_THE_32
    ensures Good(e, peer')
  {
    hide Steady;
    hide ChannelsInv;
    SteadyGrows(e, |peer.log|, |peer'.log|, peer.accepted, peer'.accepted, ACK_PACKET_THRESHOLD - 1);
    ChannelsGrow(e, peer.log, peer'.log[|peer.log|..]);
    assert peer.log + peer'.log[|peer.log|..] == peer'.log;
  }

  // ---- Every step ----

  lemma StepGrows(e: Endpoint, act: Action)
    ensures e.log <= Step(e, act).log && e.accepted <= Step(e, act).accepted
  {
    hide DoSend;
    hide DoReceive;
    hide DoUpdate;
    hide Datagram;
    match act
    case SendPacket(_, p, now) => SendLogGrows(e, p, now);
    case DeliverFrame(_, f, now) => ReceiveGrows(e, Datagram(f), now);
    case Noise(_, data, now) => ReceiveGrows(e, data, now);
    case Tick(_, now) => UpdateGrows(e, now);
  }

  lemma ReceiveGrows(e: Endpoint, data: Bytes, now: nat)
    ensures e.log <= DoReceive(e, data, now).log && e.accepted <= DoReceive(e, data, now).accepted
  {
    hide HandleIncoming;
    hide IsDuplicate;
    hide Evicted;
    hide Receive;
    hide IsOrdered;
  }

  lemma UpdateGrows(e: Endpoint, now: nat)
    ensures e.log <= DoUpdate(e, now).log && e.accepted == DoUpdate(e, now).accepted
  {
    hide AckIfLate;
    hide ResendAll;
  }

  lemma WireOf(e: Endpoint, f: Frame, peerCount: nat, peerAccepted: set<u32>, limit: nat)
    requires Steady(e, peerCount, peerAccepted, limit) && f in e.wire
    ensures FrameOk(f, e.log, e.accepted) && OrdersInv(e.log) && RichInv(e.log, e.accepted)
    ensures EntryOk(e.log[f.header.sequenceId])
    ensures Receive(Datagram(f)) == Some(f)
  {
    var i :| 0 <= i < |e.wire| && e.wire[i] == f;
    assert FrameOk(e.wire[i], e.log, e.accepted);
    hide Steady;
    hide OrdersInv;
    hide RichInv;
    hide EntryOk;
    CopyReceived(f, e.log, e.accepted);
    hide Receive;
    hide Datagram;
    hide Claims;
    hide Carries;
  }

  lemma WireReceives(e: Endpoint, peer: Endpoint, f: Frame)
    requires Good(e, peer) && f in e.wire
    ensures Receive(Datagram(f)) == Some(f)
  {
    hide Receive;
    hide Datagram;
    hide ChannelsInv;
    hide Steady;
    WireOf(e, f, |peer.log|, peer.accepted, ACK_PACKET_THRESHOLD - 1);
    hide *;
  }

  /** `DoUpdate` at a glance. */
  lemma UpdateParts(e: Endpoint, now: nat)
    ensures var o, e' := Update(e.s, now), DoUpdate(e, now);
            e'.s == o.state && e'.wire == e.wire + o.out
            && e'.acceptLog == e.acceptLog && e'.delivered == e.delivered
  {
    hide ResendAll;
    hide AckIfLate;
  }

  lemma CopyReceived(f: Frame, log: seq<Entry>, accepted: set<u32>)
    requires FrameOk(f, log, accepted)
    ensures Receive(Datagram(f)) == Some(f)
  {
    DatagramRoundTrip(f);
    hide Receive;
    hide Datagram;
    hide Claims;
  }

  lemma DeliverKeeps(e: Endpoint, peer: Endpoint, f: Frame, now: nat)
    requires Good(e, peer) && Good(peer, e) && f in peer.wire
    requires |DoReceive(e, Datagram(f), now).log| < TWO_TO_THE_32
    ensures Good(DoReceive(e, Datagram(f), now), peer)
  {
    hide Steady;
    hide ChannelsInv;
    hide Datagram;
    hide Receive;
    hide FrameOk;
    hide OrdersInv;
    hide RichInv;
    hide EntryOk;
    WireOf(peer, f, |e.log|, e.accepted, ACK_PACKET_THRESHOLD - 1);
    ReceiveForm(e, f, now);
    hide DoReceive;
    hide IsDuplicate;
    if IsDuplicate(e.s.window, f.header.sequenceId) {
      ReceiveDuplicate(e, f, now, peer.log, peer.accepted);
    } else {
      ReceiveFresh(e, f, now, peer.log, peer.accepted);
    }
  }

  /** What `DoReceive` amounts to for the datagram of a frame. */
  lemma ReceiveForm(e: Endpoint, f: Frame, now: nat)
    requires Receive(Datagram(f)) == Some(f)
    ensures DoReceive(e, Datagram(f), now)
         == if IsDuplicate(e.s.window, f.header.sequenceId) then e.(s := HandleFrame(e.s, f, now).state)
            else Arrived(e, f, now)
  {
    hide Receive;
    hide Datagram;
    hide IsDuplicate;
    hide HandleFrame;
    hide Evicted;
    hide IsOrdered;
    DuplicateSilent(e.s, f, now);
    assert e.log + Controls([]) == e.log && e.wire + [] == e.wire;
  }

  lemma DuplicateSilent(s: State, f: Frame, now: nat)
    ensures IsDuplicate(s.window, f.header.sequenceId) ==>
      HandleFrame(s, f, now).out == [] && HandleFrame(s, f, now).ready == []
  {
    hide IsDuplicate;
    hide Named;
    hide HasAck;
    hide AckIfDue;
    hide Dispatch;
  }

  lemma NoiseIgnored(e: Endpoint, data: Bytes, now: nat)
    requires Receive(data) == None
    ensures DoReceive(e, data, now) == e
  {
    hide Receive;
  }

  lemma SendChannels(e: Endpoint, p: Packet, now: nat, peer: Endpoint)
    requires ChannelsInv(e.s, e.delivered, e.accepted, peer.log)
    ensures ChannelsInv(DoSend(e, p, now).s, e.delivered, e.accepted, peer.log)
  {
    hide IsOrdered;
    hide MarkAck;
    hide ChannelsInv;
    SameChannels(e.s, DoSend(e, p, now).s, e.delivered, e.accepted, peer.log);
  }

  lemma StepKeeps(e: Endpoint, peer: Endpoint, act: Action, n: Net)
    requires Good(e, peer) && Good(peer, e) && Enabled(n, act)
    requires e == n.End(act.side) && peer == n.End(Other(act.side))
    ensures Good(Step(e, act), peer)
  {
    match act
    case SendPacket(_, p, now) =>
      SendLogGrows(e, p, now);
      SendKeeps(e, p, now, |peer.log|, peer.accepted, ACK_PACKET_THRESHOLD - 1);
      SendChannels(e, p, now, peer);
    case DeliverFrame(_, f, now) =>
      hide Good;
      DeliverKeeps(e, peer, f, now);
    case Noise(_, data, now) =>
      hide Good;
      NoiseIgnored(e, data, now);
    case Tick(_, now) =>
      hide Steady;
      hide ChannelsInv;
      UpdateKeeps(e, now, |peer.log|, peer.accepted, ACK_PACKET_THRESHOLD - 1);
      hide ResendAll;
      hide AckIfLate;
      SameChannels(e.s, DoUpdate(e, now).s, e.delivered, e.accepted, peer.log);
  }

  lemma SendLogGrows(e: Endpoint, p: Packet, now: nat)
    ensures e.log <= DoSend(e, p, now).log && |DoSend(e, p, now).log| == |e.log| + 1
    ensures DoSend(e, p, now).delivered == e.delivered && DoSend(e, p, now).accepted == e.accepted
  {
    hide Send;
  }

  lemma ApplyEnds(n: Net, act: Action)
    ensures Apply(n, act).End(act.side) == Step(n.End(act.side), act)
    ensures Apply(n, act).End(Other(act.side)) == n.End(Other(act.side))
  {
    hide Step;
  }

  lemma ActionKeeps(n: Net, act: Action)
    requires Inv(n) && Enabled(n, act)
    ensures Inv(Apply(n, act))
  {
    var e, peer := n.End(act.side), n.End(Other(act.side));
    var e' := Step(e, act);
    hide Good;
    StepKeeps(e, peer, act, n);
    StepGrows(e, act);
    PeerKeeps(peer, e, e');
  }

  lemma FreshGood()
    ensures Good(FRESH, FRESH)
  {
    forall i | 0 <= i < WINDOW_BITS ensures !BitAt(0, i) {
      NoBitsInZero(i);
    }
    assert Represents(EMPTY_WINDOW, {}, {});
  }

  /** The invariants hold at every point of every run. */
  lemma {:induction false} RunKeeps(run: seq<Net>, acts: seq<Action>, t: nat)
    requires IsRun(run, acts) && t <= |acts|
    ensures Inv(run[t])
  {
    hide Inv;
    hide Enabled;
    hide Apply;
    if t == 0 {
      FreshInv();
    } else {
      RunKeeps(run, acts, t - 1);
      assert Taken(run[t - 1], acts[t - 1], run[t - 1 + 1]);
      ActionKeeps(run[t - 1], acts[t - 1]);
    }
  }

  lemma FreshInv()
    ensures Inv(Net(FRESH, FRESH))
  {
    hide Good;
    FreshGood();
  }
}
