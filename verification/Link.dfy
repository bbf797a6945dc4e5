/** One end of a link: a session together with the history of what it was asked to send,
    what it transmitted, accepted and delivered, and what must hold of them. */
module Link {
  import opened Numbers
  import opened Packets
  import opened AckWindow
  import opened Header
  import opened SessionSpec
  import Codec
  import Reorder

  /** What first went out under a sequence id. */
  datatype Entry = Entry(packet: Packet, orderId: u32)

  datatype Endpoint = Endpoint(
    s: State,
    /** indexed by sequence id: the packets given to `send` and the session's own ACKs */
    log: seq<Entry>,
    /** every frame transmitted, copies included */
    wire: seq<Frame>,
    /** sequence ids that `handleIncoming` let through, as a set and in order */
    accepted: set<u32>,
    acceptLog: seq<u32>,
    /** accepted ids the history has dropped and not seen again, and how often it dropped each */
    evicted: set<u32>,
    evictions: multiset<u32>,
    /** ordered packets returned by `handleIncoming`, by channel */
    delivered: map<u8, seq<Packet>>,
    /** every accepted id so far was the successor of the one before */
    inOrder: bool)

  const FRESH: Endpoint := Endpoint(INITIAL, [], [], {}, [], {}, multiset{}, map[], true)

  // ---- Operations ----

  /** The packet a session's own ACK frame was made from. */
  function ControlPacket(f: Frame): Packet {
    Packet(f.header.messageId, UNRELIABLE, INTERNAL_CHANNEL, f.payload)
  }

  function Controls(out: seq<Frame>): (es: seq<Entry>)
    ensures |es| == |out|
    ensures forall i :: 0 <= i < |out| ==> es[i] == Entry(ControlPacket(out[i]), 0)
  {
    if out == [] then [] else [Entry(ControlPacket(out[0]), 0)] + Controls(out[1..])
  }

  function DeliveredOn(delivered: map<u8, seq<Packet>>, c: u8): seq<Packet> {
    if c in delivered then delivered[c] else []
  }

  function OrderIdIn(out: seq<Frame>): u32 {
    if out == [] then 0 else out[0].header.orderId
  }

  function DoSend(e: Endpoint, p: Packet, now: nat): Endpoint {
    var o := Send(e.s, p, now);
    e.(s := o.state, log := e.log + [Entry(p, OrderIdIn(o.out))], wire := e.wire + o.out)
  }

  function DoUpdate(e: Endpoint, now: nat): Endpoint {
    var r := ResendAll(e.s, now);
    var a := AckIfLate(r, now);
    e.(s := Update(e.s, now).state, log := e.log + Controls(a.out),
       wire := e.wire + Update(e.s, now).out)
  }

  function DoReceive(e: Endpoint, rawData: Bytes, now: nat): Endpoint {
    var r := HandleIncoming(e.s, rawData, now);
    match Receive(rawData)
    case None => e.(s := r.state)
    case Some(f) =>
      var w, id := e.s.window, f.header.sequenceId;
      var e' := e.(s := r.state, log := e.log + Controls(r.out), wire := e.wire + r.out);
      if IsDuplicate(w, id) then e'
      else
        Deliver(e'.(accepted := e.accepted + {id},
                    acceptLog := e.acceptLog + [id],
                    evicted := e.evicted - {id} + Evicted(w, id),
                    evictions := e.evictions + multiset(Evicted(w, id)),
                    inOrder := e.inOrder && (!w.hasRemote || id == w.ackId + 1)),
                f.header, r.ready)
  }

  /** Ordered packets are recorded under the channel their frame came on. */
  function Deliver(e: Endpoint, h: Header, ready: seq<Packet>): Endpoint {
    if IsOrdered(h.flags)
    then e.(delivered := e.delivered[h.channelId := DeliveredOn(e.delivered, h.channelId) + ready])
    else e
  }

  // ---- Streams ----

  predicate OnChannel(en: Entry, c: u8) {
    IsOrdered(en.packet.flag) && en.packet.channelId == c
  }

  /** The ordered packets sent on a channel, in the order they were given to `send`. */
  function Stream(log: seq<Entry>, c: u8): (ms: seq<Message>)
    ensures |ms| <= |log|
  {
    if log == [] then []
    else
      var n := |log| - 1;
      Stream(log[..n], c) + (if OnChannel(log[n], c) then [Content(log[n].packet)] else [])
  }

  /** The order ids of a channel among the accepted ids. */
  function Got(log: seq<Entry>, accepted: set<u32>, c: u8): set<nat> {
    set k | k in accepted && k < |log| && OnChannel(log[k], c) :: log[k].orderId
  }

  // ---- Invariants ----

  /** The log matches the counters; order ids count the channel's earlier packets. */
  ghost predicate LogInv(log: seq<Entry>, nextSequence: nat, localOrder: map<u8, u32>) {
    && |log| == nextSequence
    && (forall k :: 0 <= k < |log| ==> EntryOk(log[k]))
    && OrdersInv(log)
    && CountersInv(log, localOrder)
  }

  ghost predicate CountersInv(log: seq<Entry>, localOrder: map<u8, u32>) {
    forall c: u8 :: OrderOf(localOrder, c) == |Stream(log, c)|
  }

  /** The receiver never passes an acknowledgement on, so none may need a place in a channel. */
  ghost predicate EntryOk(en: Entry) {
    IsAckShaped(en.packet.messageId, en.packet.payload) ==> !IsOrdered(en.packet.flag)
  }

  /** A packet claims an acknowledgement of its own only once there is one to make. */
  ghost predicate FlagsInv(log: seq<Entry>, hasRemote: bool) {
    forall k :: 0 <= k < |log| && HasAck(log[k].packet.flag) ==> hasRemote
  }

  ghost predicate OrdersInv(log: seq<Entry>) {
    forall k :: 0 <= k < |log| && IsOrdered(log[k].packet.flag) ==>
      log[k].orderId == |Stream(log[..k], log[k].packet.channelId)|
  }

  /** A RICH_ACK names only accepted ids. */
  ghost predicate RichInv(log: seq<Entry>, accepted: set<u32>) {
    forall k :: 0 <= k < |log| && log[k].packet.messageId == RICH_ACK_ID ==>
      Members(Codec.DecodeIds(log[k].packet.payload)) <= accepted
  }

  /** The frame is a copy of the entry. */
  ghost predicate Carries(f: Frame, en: Entry) {
    && f.header.protocolId == PROTOCOL_ID
    && f.header.packetSize <= |f.payload|
    && f.header.channelId == en.packet.channelId
    && f.header.orderId == en.orderId
    && f.header.messageId == en.packet.messageId
    && f.payload == en.packet.payload
    && (f.header.flags == en.packet.flag || f.header.flags == MarkAck(en.packet.flag))
  }

  function Claims(f: Frame): set<u32> {
    if HasAck(f.header.flags) then Named(f.header.acknowledgeId, f.header.acknowledgeBitfield) else {}
  }

  /** Every frame is a copy of what the log has under its sequence id, and every id its
      header acknowledges was accepted. */
  ghost predicate FrameOk(f: Frame, log: seq<Entry>, accepted: set<u32>) {
    && f.header.sequenceId < |log|
    && Carries(f, log[f.header.sequenceId])
    && Claims(f) <= accepted
  }

  ghost predicate WireInv(wire: seq<Frame>, log: seq<Entry>, accepted: set<u32>) {
    forall i :: 0 <= i < |wire| ==> FrameOk(wire[i], log, accepted)
  }

  /** Kept packets are the ones that were sent, each under its own ids. */
  ghost predicate SentInv(sent: map<u32, SentInfo>, log: seq<Entry>) {
    forall k :: k in sent ==>
      && k < |log|
      && IsTracked(log[k].packet.flag)
      && sent[k].packet == log[k].packet
      && sent[k].orderId == log[k].orderId
      && sent[k].sequenceId == k
      && sent[k].retries <= MAX_RESEND_ATTEMPTS
  }

  /** A tracked packet is still kept, or the peer has accepted it. */
  ghost predicate NothingLost(log: seq<Entry>, kept: set<u32>, peerAccepted: set<u32>) {
    forall k :: 0 <= k < |log| && IsTracked(log[k].packet.flag) ==> k in kept || k in peerAccepted
  }

  ghost predicate WindowInv(e: Endpoint, peerCount: nat) {
    && Represents(e.s.window, e.accepted, e.evicted)
    && (forall k :: k in e.accepted ==> k < peerCount)
    && Members(e.s.pending) <= e.accepted
    && FlagsInv(e.log, e.s.window.hasRemote)
    && (!e.s.window.hasRemote ==> e.s.sinceAck == 0)
  }

  function Remembered(e: Endpoint, id: u32): nat {
    if id in e.accepted - e.evicted then 1 else 0
  }

  /** An id was accepted as often as the history dropped it, and once more while it is remembered. */
  ghost predicate OnceInv(e: Endpoint) {
    && Members(e.acceptLog) == e.accepted
    && (e.evictions != multiset{} ==> |e.accepted| > MAX_HISTORY)
    && forall id: u32 :: multiset(e.acceptLog)[id] == e.evictions[id] + Remembered(e, id)
  }

  /** Each channel has delivered its stream up to the first packet not yet accepted, and
      holds the accepted ones after it. */
  ghost predicate ChannelsInv(s: State, delivered: map<u8, seq<Packet>>, accepted: set<u32>, peerLog: seq<Entry>) {
    forall c: u8 :: ChannelOk(s, delivered, accepted, peerLog, c)
  }

  ghost predicate ChannelOk(s: State, delivered: map<u8, seq<Packet>>, accepted: set<u32>, peerLog: seq<Entry>, c: u8) {
    Reorder.ChannelInv(ChannelOf(s, c), DeliveredOn(delivered, c), Got(peerLog, accepted, c), Stream(peerLog, c))
  }

  function Copies(wire: seq<Frame>, k: u32): nat {
    if wire == [] then 0
    else Copies(wire[..|wire| - 1], k) + if wire[|wire| - 1].header.sequenceId == k then 1 else 0
  }

  /** Transmissions of each sequence id: one, plus the retries so far. */
  ghost predicate CopiesInv(wire: seq<Frame>, count: nat, sent: map<u32, SentInfo>) {
    forall k: u32 ::
      && Copies(wire, k) <= (if k < count then 1 + MAX_RESEND_ATTEMPTS else 0)
      && (k in sent ==> Copies(wire, k) == 1 + sent[k].retries)
  }

  /** Some transmitted header acknowledges the id. */
  ghost predicate Announced(wire: seq<Frame>, id: u32) {
    exists i :: 0 <= i < |wire| && id in Claims(wire[i])
  }

  /** In a gap-free run every accepted id but the last few has been announced. */
  ghost predicate AnnounceInv(e: Endpoint) {
    e.inOrder ==>
      forall id :: id in e.accepted && id + e.s.sinceAck <= e.s.window.ackId ==> Announced(e.wire, id)
  }

  /** The sending half. */
  ghost predicate SenderInv(e: Endpoint, peerAccepted: set<u32>) {
    && LogInv(e.log, e.s.nextSequence, e.s.localOrder)
    && RichInv(e.log, e.accepted)
    && WireInv(e.wire, e.log, e.accepted)
    && SentInv(e.s.sent, e.log)
    && NothingLost(e.log, e.s.sent.Keys, peerAccepted)
    && CopiesInv(e.wire, |e.log|, e.s.sent)
  }

  // ---- Streams under a growing log ----

  lemma StreamAppend(log: seq<Entry>, en: Entry, c: u8)
    ensures Stream(log + [en], c)
         == Stream(log, c) + (if OnChannel(en, c) then [Content(en.packet)] else [])
  {
    assert (log + [en])[..|log|] == log;
  }

  lemma {:induction false} StreamOfControls(log: seq<Entry>, out: seq<Frame>, c: u8)
    ensures Stream(log + Controls(out), c) == Stream(log, c)
    decreases |out|
  {
    if out == [] {
      assert log + Controls(out) == log;
    } else {
      var n := |out| - 1;
      ControlsSplit(out[..n], out[n]);
      assert out[..n] + [out[n]] == out;
      assert log + Controls(out) == log + Controls(out[..n]) + [Controls(out)[n]];
      StreamAppend(log + Controls(out[..n]), Controls(out)[n], c);
      StreamOfControls(log, out[..n], c);
    }
  }

  lemma {:induction false} ControlsSplit(out: seq<Frame>, f: Frame)
    ensures Controls(out + [f]) == Controls(out) + [Entry(ControlPacket(f), 0)]
  {
  }

  /** A packet's order id is its position in its channel's stream. */
  lemma {:induction false} StreamAt(log: seq<Entry>, k: nat)
    requires OrdersInv(log) && k < |log| && IsOrdered(log[k].packet.flag)
    ensures var st := Stream(log, log[k].packet.channelId);
            log[k].orderId < |st| && st[log[k].orderId] == Content(log[k].packet)
    decreases |log|
  {
    var n, c := |log| - 1, log[k].packet.channelId;
    if k < n {
      forall j | 0 <= j < n ensures log[..n][..j] == log[..j] {
      }
      assert OrdersInv(log[..n]);
      StreamAt(log[..n], k);
    }
  }

  lemma OrdersAppend(log: seq<Entry>, en: Entry)
    requires OrdersInv(log)
    requires IsOrdered(en.packet.flag) ==> en.orderId == |Stream(log, en.packet.channelId)|
    ensures OrdersInv(log + [en])
  {
    forall j | 0 <= j <= |log| ensures (log + [en])[..j] == log[..j] {
    }
    assert log[..|log|] == log;
  }

  lemma OrdersOfControls(log: seq<Entry>, out: seq<Frame>)
    requires OrdersInv(log)
    ensures OrdersInv(log + Controls(out))
  {
    forall j | 0 <= j <= |log| ensures (log + Controls(out))[..j] == log[..j] {
    }
    assert !IsOrdered(UNRELIABLE);
  }
}
