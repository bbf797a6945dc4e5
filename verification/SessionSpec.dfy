/** What each public operation of a session does to its state and which frames it emits.
    One reading of the clock, `now`, serves a whole operation. */
module SessionSpec {
  import opened Numbers
  import opened Packets
  import opened AckWindow
  import opened Header
  import Codec
  import Reorder

  const ACK_PACKET_THRESHOLD: nat := 16
  const MAX_ACK_PER_PACKET: nat := 256
  const MAX_RESEND_ATTEMPTS: nat := 8

  /** Milliseconds */
  const ACK_TIMEOUT: nat := 100
  const RESEND_TIMEOUT: nat := 200

  datatype SentInfo = SentInfo(
    packet: Packet,
    sentTime: nat,
    sequenceId: u32,
    orderId: u32,
    retries: nat)

  datatype State = State(
    nextSequence: u32,
    localOrder: map<u8, u32>,
    sent: map<u32, SentInfo>,
    window: Window,
    nextExpected: map<u8, u32>,
    reorder: map<u8, map<u32, Packet>>,
    pending: seq<u32>,
    sinceAck: nat,
    unsentAck: bool,
    lastAckTime: nat,
    shouldClose: bool)

  const INITIAL: State :=
    State(0, map[], map[], EMPTY_WINDOW, map[], map[], [], 0, false, 0, false)

  function OrderOf(ids: map<u8, u32>, c: u8): u32 {
    if c in ids then ids[c] else 0
  }

  function ChannelOf(s: State, c: u8): Reorder.Channel {
    Reorder.Channel(OrderOf(s.nextExpected, c), if c in s.reorder then s.reorder[c] else map[])
  }

  function WithChannel(s: State, c: u8, ch: Reorder.Channel): State {
    s.(nextExpected := s.nextExpected[c := ch.next], reorder := s.reorder[c := ch.buffer])
  }

  datatype Output = Output(state: State, out: seq<Frame>)

  // ---- Sending ----

  /** The frame `rawSend` builds: every frame carries the current acknowledgement. */
  function FrameOf(w: Window, p: Packet, sequenceId: u32, orderId: u32): Frame {
    Frame(
      Header(PROTOCOL_ID, PROTOCOL_VER, sequenceId, p.channelId, orderId, w.ackId, w.bits,
             p.messageId, if w.hasRemote then MarkAck(p.flag) else p.flag,
             |p.payload| % 0x1_0000),
      p.payload)
  }

  function AfterRawSend(s: State, now: nat): State {
    s.(sinceAck := if s.window.hasRemote then 0 else s.sinceAck, unsentAck := false, lastAckTime := now)
  }

  function Send(s: State, p: Packet, now: nat): Output {
    var sequenceId := s.nextSequence;
    var s1 := s.(nextSequence := Increment(sequenceId));
    var orderId := if IsOrdered(p.flag) then OrderOf(s.localOrder, p.channelId) else 0;
    var s2 := if IsOrdered(p.flag)
              then s1.(localOrder := s.localOrder[p.channelId := Increment(orderId)]) else s1;
    var s3 := if IsTracked(p.flag)
              then s2.(sent := s.sent[sequenceId := SentInfo(p, now, sequenceId, orderId, 0)]) else s2;
    Output(AfterRawSend(s3, now), [FrameOf(s.window, p, sequenceId, orderId)])
  }

  const ACK_PACKET: Packet := Packet(ACK_ID, UNRELIABLE, INTERNAL_CHANNEL, [])

  function RichAckPacket(ids: seq<u32>): Packet
    requires |ids| <= MAX_ACK_PER_PACKET
  {
    Packet(RICH_ACK_ID, UNRELIABLE, INTERNAL_CHANNEL, Codec.EncodeIds(ids))
  }

  /** A packet the session sends for itself. */
  function SendControl(s: State, p: Packet, now: nat): Output {
    Output(AfterRawSend(s.(nextSequence := Increment(s.nextSequence)), now),
           [FrameOf(s.window, p, s.nextSequence, 0)])
  }

  /** RICH_ACKs for all of `acks`, at most 256 in each. */
  function Flush(s: State, acks: seq<u32>, now: nat): Output
    decreases |acks|
  {
    if acks == [] then Output(s, [])
    else
      var n := if |acks| < MAX_ACK_PER_PACKET then |acks| else MAX_ACK_PER_PACKET;
      var first := SendControl(s, RichAckPacket(acks[..n]), now);
      var rest := Flush(first.state, acks[n..], now);
      Output(rest.state, first.out + rest.out)
  }

  lemma FlushStep(s: State, acks: seq<u32>, n: nat, now: nat)
    requires n == (if |acks| < MAX_ACK_PER_PACKET then |acks| else MAX_ACK_PER_PACKET)
    ensures acks == [] ==> Flush(s, acks, now) == Output(s, [])
    ensures acks != [] ==>
      var first := SendControl(s, RichAckPacket(acks[..n]), now);
      var rest := Flush(first.state, acks[n..], now);
      Flush(s, acks, now) == Output(rest.state, first.out + rest.out)
  {
  }

  /** `_internal_sendAck` */
  function SendAck(s: State, now: nat): Output {
    if s.pending != [] then
      var o := Flush(s, s.pending, now);
      Output(o.state.(pending := []), o.out)
    else
      SendControl(s, ACK_PACKET, now)
  }

  // ---- Receiving ----

  datatype Incoming = Incoming(state: State, ready: seq<Packet>, out: seq<Frame>)

  function Acknowledge(s: State, h: Header): State {
    if HasAck(h.flags)
    then s.(sent := s.sent - Named(h.acknowledgeId, h.acknowledgeBitfield))
    else s
  }

  /** A sequence id seen for the first time, as far as the window remembers. */
  function NoteArrival(s: State, id: u32): State {
    s.(window := Accept(s.window, id), unsentAck := true, sinceAck := s.sinceAck + 1)
  }

  function AckIfDue(s: State, now: nat): Output {
    if s.sinceAck >= ACK_PACKET_THRESHOLD then SendAck(s, now) else Output(s, [])
  }

  /** What becomes of an accepted frame: which packets are ready for the user. */
  function Dispatch(s: State, f: Frame): Incoming {
    var h := f.header;
    if h.messageId == RICH_ACK_ID then
      Incoming(s.(sent := s.sent - Members(Codec.DecodeIds(f.payload))), [], [])
    else if f.payload == [] && h.messageId == ACK_ID then
      Incoming(s, [], [])
    else
      var p := Packet(h.messageId, h.flags, 0, f.payload);
      if !IsOrdered(p.flag) then Incoming(s, [p], [])
      else
        var a := Reorder.Receive(ChannelOf(s, h.channelId), h.orderId, p);
        Incoming(WithChannel(s, h.channelId, a.channel), a.ready, [])
  }

  function HandleFrame(s: State, f: Frame, now: nat): Incoming {
    var id := f.header.sequenceId;
    var s1 := Acknowledge(s, f.header);
    if IsDuplicate(s1.window, id) then
      Incoming(s1.(pending := s1.pending + [id], unsentAck := true), [], [])
    else
      var o := AckIfDue(NoteArrival(s1, id), now);
      var d := Dispatch(o.state, f);
      Incoming(d.state, d.ready, o.out)
  }

  /** `handleIncoming`: datagrams that do not parse change nothing. */
  function HandleIncoming(s: State, rawData: Bytes, now: nat): Incoming {
    match Receive(rawData)
    case None => Incoming(s, [], [])
    case Some(f) => HandleFrame(s, f, now)
  }

  // ---- Timers ----

  function Least(ids: set<u32>): (k: u32)
    requires ids != {}
    ensures k in ids && forall j :: j in ids ==> k <= j
  {
    LeastExists(ids);
    var k :| k in ids && forall j :: j in ids ==> k <= j;
    k
  }

  lemma LeastExists(ids: set<u32>)
    requires ids != {}
    ensures exists k :: k in ids && forall j :: j in ids ==> k <= j
  {
    var k :| k in ids;
    while exists j :: j in ids && j < k
      invariant k in ids
      decreases k
    {
      var j :| j in ids && j < k;
      k := j;
    }
  }

  datatype Resent = Resent(state: State, out: seq<Frame>, dead: bool)

  function Resend1(s: State, k: u32, now: nat): Output
    requires k in s.sent
  {
    var info := s.sent[k];
    Output(AfterRawSend(s, now).(sent := s.sent[k := info.(sentTime := now, retries := info.retries + 1)]),
           [FrameOf(s.window, info.packet, info.sequenceId, info.orderId)])
  }

  /** The resend loop over the entries `todo`, in ascending order of sequence id. */
  function Resend(s: State, todo: set<u32>, now: nat): Resent
    requires todo <= s.sent.Keys
    decreases |todo|
  {
    if todo == {} then Resent(s, [], false)
    else
      var k := Least(todo);
      if now - s.sent[k].sentTime > RESEND_TIMEOUT then
        if s.sent[k].retries >= MAX_RESEND_ATTEMPTS then
          Resent(s.(shouldClose := true), [], true)
        else
          var o := Resend1(s, k, now);
          var rest := Resend(o.state, todo - {k}, now);
          Resent(rest.state, o.out + rest.out, rest.dead)
      else
        Resend(s, todo - {k}, now)
  }

  lemma Resend1Frame(s: State, k: u32, now: nat)
    requires k in s.sent
    ensures var s' := Resend1(s, k, now).state;
            && s'.sent.Keys == s.sent.Keys && s'.window == s.window
            && s'.nextExpected == s.nextExpected && s'.reorder == s.reorder
            && s'.nextSequence == s.nextSequence
  {
  }

  lemma ResendNothing(s: State, now: nat)
    ensures Resend(s, {}, now) == Resent(s, [], false)
  {
  }

  lemma ResendStep(s: State, todo: set<u32>, k: u32, now: nat)
    requires todo <= s.sent.Keys && todo != {} && k == Least(todo)
    ensures Resend(s, todo, now) ==
      if now - s.sent[k].sentTime > RESEND_TIMEOUT then
        if s.sent[k].retries >= MAX_RESEND_ATTEMPTS then Resent(s.(shouldClose := true), [], true)
        else
          var o := Resend1(s, k, now);
          var rest := Resend(o.state, todo - {k}, now);
          Resent(rest.state, o.out + rest.out, rest.dead)
      else Resend(s, todo - {k}, now)
  {
  }

  function ResendAll(s: State, now: nat): Resent {
    Resend(s, s.sent.Keys, now)
  }

  /** The delayed acknowledgement at the end of `update`. */
  function AckIfLate(r: Resent, now: nat): Output {
    if !r.dead && r.state.unsentAck && now - r.state.lastAckTime > ACK_TIMEOUT
    then SendAck(r.state, now)
    else Output(r.state, [])
  }

  function Update(s: State, now: nat): Output {
    var r := ResendAll(s, now);
    var a := AckIfLate(r, now);
    Output(a.state, r.out + a.out)
  }

  // ---- RICH_ACK conservation ----

  /** All ids the frames name in RICH_ACK payloads, in order. */
  function RichIds(frames: seq<Frame>): seq<u32> {
    if frames == [] then []
    else (if frames[0].header.messageId == RICH_ACK_ID then Codec.DecodeIds(frames[0].payload) else [])
         + RichIds(frames[1..])
  }

  /** Flushing loses, repeats and reorders no id, and no chunk is empty or over-long. */
  lemma {:induction false} FlushConserves(s: State, acks: seq<u32>, now: nat)
    ensures RichIds(Flush(s, acks, now).out) == acks
    ensures forall f :: f in Flush(s, acks, now).out ==>
              f.header.messageId == RICH_ACK_ID
              && 1 <= |Codec.DecodeIds(f.payload)| <= MAX_ACK_PER_PACKET
    decreases |acks|
  {
    if acks != [] {
      var n := if |acks| < MAX_ACK_PER_PACKET then |acks| else MAX_ACK_PER_PACKET;
      var first := SendControl(s, RichAckPacket(acks[..n]), now);
      var rest := Flush(first.state, acks[n..], now);
      FlushConserves(first.state, acks[n..], now);
      Codec.IdsRoundTrip(acks[..n]);
      assert (first.out + rest.out)[0] == first.out[0];
      assert (first.out + rest.out)[1..] == rest.out;
      assert acks == acks[..n] + acks[n..];
    }
  }

  /** Sending acknowledgements empties the queue: every queued id is in exactly one chunk. */
  lemma SendAckEmptiesQueue(s: State, now: nat)
    ensures SendAck(s, now).state.pending == []
    ensures RichIds(SendAck(s, now).out) == s.pending
  {
    if s.pending != [] {
      FlushConserves(s, s.pending, now);
    } else {
      assert SendAck(s, now).out[1..] == [];
    }
  }
}
