/** Each operation of a session keeps the invariants of its end of the link. */
module LinkSteps {
  import opened Numbers
  import opened Packets
  import opened AckWindow
  import opened Header
  import opened SessionSpec
  import opened Link
  import opened LinkEmit
  import Codec

  /** All of an endpoint's invariants except those of its channels; `limit` bounds the
      arrivals not yet acknowledged. */
  ghost predicate Steady(e: Endpoint, peerCount: nat, peerAccepted: set<u32>, limit: nat) {
    && SenderInv(e, peerAccepted)
    && WindowInv(e, peerCount)
    && e.s.sinceAck <= limit <= ACK_PACKET_THRESHOLD
    && OnceInv(e)
    && AnnounceInv(e)
  }

  // ---- The session's own acknowledgements ----

  lemma SendAckKeeps(e: Endpoint, peerCount: nat, peerAccepted: set<u32>, limit: nat, now: nat)
    requires Steady(e, peerCount, peerAccepted, limit)
    requires |e.log| + |SendAck(e.s, now).out| < TWO_TO_THE_32
    ensures var o := SendAck(e.s, now);
            && Steady(e.(s := o.state, log := e.log + Controls(o.out), wire := e.wire + o.out),
                      peerCount, peerAccepted, if e.s.window.hasRemote then 0 else limit)
            && o.state.nextExpected == e.s.nextExpected && o.state.reorder == e.s.reorder
            && o.state.window == e.s.window && o.state.pending == []
  {
    hide SendAck;
    hide SenderInv;
    hide AnnounceInv;
    hide Represents;
    hide Claims;
    hide FrameOf;
    hide OnceInv;
    hide Codec.DecodeIds;
    var o := SendAck(e.s, now);
    NextIsLogSize(e, peerAccepted);
    SendAckShape(e.s, now);
    PendingBound(o.out, e.s.window, e.s.nextSequence, Members(e.s.pending), e.accepted);
    SenderOfControls(e, o.out, now, peerAccepted);
    FlagsOfControls(e.log, o.out, e.s.window.hasRemote);
    hide FlagsInv;
    var p := ControlPacket(o.out[0]);
    assert ControlOk(o.out[0], e.s.window, e.s.nextSequence, e.accepted);
    assert o.out[0] == FrameOf(e.s.window, p, e.s.nextSequence, 0);
    ControlEntryOk(p);
    HeaderClaims(e.s.window, e.accepted, e.evicted, p, e.s.nextSequence, 0);
    AnnounceByFrame(e, o.out, o.state);
    hide ControlOk;
    assert Emitted(e, o.out, now)
        == e.(s := o.state, log := e.log + Controls(o.out), wire := e.wire + o.out);
    SameAnnouncements(e.(s := o.state, wire := e.wire + o.out), Emitted(e, o.out, now));
    SameOnce(e, Emitted(e, o.out, now));
  }

  lemma NextIsLogSize(e: Endpoint, peerAccepted: set<u32>)
    requires SenderInv(e, peerAccepted)
    ensures e.s.nextSequence == |e.log|
  {
  }

  lemma SameOnce(e: Endpoint, e': Endpoint)
    requires OnceInv(e) && e'.acceptLog == e.acceptLog && e'.accepted == e.accepted
    requires e'.evicted == e.evicted && e'.evictions == e.evictions
    ensures OnceInv(e')
  {
  }

  lemma PendingBound(out: seq<Frame>, w: Window, first: nat, pending: set<u32>, accepted: set<u32>)
    requires ControlsOk(out, w, first, pending) && pending <= accepted
    ensures ControlsOk(out, w, first, accepted)
  {
    hide FrameOf;
    hide Codec.DecodeIds;
    forall i | 0 <= i < |out| ensures ControlOk(out[i], w, first + i, accepted) {
      assert ControlOk(out[i], w, first + i, pending);
    }
  }

  lemma SameAnnouncements(e: Endpoint, e': Endpoint)
    requires AnnounceInv(e)
    requires e'.inOrder == e.inOrder && e'.accepted == e.accepted && e'.wire == e.wire
    requires e'.s.sinceAck == e.s.sinceAck && e'.s.window == e.s.window
    ensures AnnounceInv(e')
  {
    hide Announced;
  }

  // ---- send ----

  lemma CountersOfSend(log: seq<Entry>, localOrder: map<u8, u32>, en: Entry, localOrder': map<u8, u32>)
    requires CountersInv(log, localOrder)
    requires if IsOrdered(en.packet.flag)
             then en.orderId == OrderOf(localOrder, en.packet.channelId)
                  && en.orderId + 1 < TWO_TO_THE_32
                  && localOrder' == localOrder[en.packet.channelId := en.orderId + 1]
             else localOrder' == localOrder
    ensures CountersInv(log + [en], localOrder')
  {
    forall c: u8 ensures OrderOf(localOrder', c) == |Stream(log + [en], c)| {
      StreamAppend(log, en, c);
      hide Stream;
      hide IsOrdered;
      assert OrderOf(localOrder, c) == |Stream(log, c)|;
    }
  }

  lemma CounterOf(log: seq<Entry>, localOrder: map<u8, u32>, c: u8)
    requires CountersInv(log, localOrder)
    ensures OrderOf(localOrder, c) == |Stream(log, c)| <= |log|
  {
  }

  /** What callers must observe: a packet claims no acknowledgement before there is one to make;
      one that the receiver will take for an acknowledgement is not ordered; and one that it will
      take for a RICH_ACK lists only ids that this session accepted. */
  ghost predicate MaySend(e: Endpoint, p: Packet) {
    && (e.s.window.hasRemote || !HasAck(p.flag))
    && (IsAckShaped(p.messageId, p.payload) ==> !IsOrdered(p.flag))
    && (p.messageId == RICH_ACK_ID ==> Members(Codec.DecodeIds(p.payload)) <= e.accepted)
  }

  lemma SendLog(e: Endpoint, p: Packet, now: nat)
    requires LogInv(e.log, e.s.nextSequence, e.s.localOrder)
    requires EntryOk(Entry(p, 0)) && |e.log| + 1 < TWO_TO_THE_32
    ensures var e' := DoSend(e, p, now);
            LogInv(e'.log, e'.s.nextSequence, e'.s.localOrder)
  {
    hide EntryOk;
    hide IsOrdered;
    hide FrameOf;
    hide OrdersInv;
    hide CountersInv;
    hide HasAck;
    var o := Send(e.s, p, now);
    SendEffect(e.s, p, now);
    hide Send;
    var e', en := DoSend(e, p, now), Entry(p, OrderIdIn(o.out));
    SameEntryOk(p, en.orderId);
    CounterOf(e.log, e.s.localOrder, p.channelId);
    CountersOfSend(e.log, e.s.localOrder, en, e'.s.localOrder);
    OrdersAppend(e.log, en);
  }

  lemma SameEntryOk(p: Packet, orderId: u32)
    requires EntryOk(Entry(p, 0))
    ensures EntryOk(Entry(p, orderId))
  {
  }

  lemma SendCopies(wire: seq<Frame>, count: nat, sent: map<u32, SentInfo>, sent': map<u32, SentInfo>, f: Frame)
    requires CopiesInv(wire, count, sent) && f.header.sequenceId == count
    requires forall k :: k in sent ==> k < count
    requires forall k :: k in sent' ==> (k == count && sent'[k].retries == 0) || (k in sent && sent'[k] == sent[k])
    ensures CopiesInv(wire + [f], count + 1, sent')
  {
    forall k: u32
      ensures Copies(wire + [f], k) <= (if k < count + 1 then 1 + MAX_RESEND_ATTEMPTS else 0)
      ensures k in sent' ==> Copies(wire + [f], k) == 1 + sent'[k].retries
    {
      CopiesAppend(wire, [f], k);
      CopiesOfFresh([f], count, k);
    }
  }

  lemma SentOfSend(log: seq<Entry>, en: Entry, sent: map<u32, SentInfo>, sent': map<u32, SentInfo>, now: nat,
                   peerAccepted: set<u32>)
    requires SentInv(sent, log) && NothingLost(log, sent.Keys, peerAccepted) && |log| < TWO_TO_THE_32
    requires sent' == if IsTracked(en.packet.flag)
                      then sent[|log| := SentInfo(en.packet, now, |log|, en.orderId, 0)] else sent
    ensures SentInv(sent', log + [en]) && NothingLost(log + [en], sent'.Keys, peerAccepted)
  {
  }

  lemma RichOfSend(log: seq<Entry>, en: Entry, accepted: set<u32>)
    requires RichInv(log, accepted)
    requires en.packet.messageId == RICH_ACK_ID ==> Members(Codec.DecodeIds(en.packet.payload)) <= accepted
    ensures RichInv(log + [en], accepted)
  {
    hide Codec.DecodeIds;
  }

  lemma FlagsOfSend(log: seq<Entry>, en: Entry, hasRemote: bool)
    requires FlagsInv(log, hasRemote) && (hasRemote || !HasAck(en.packet.flag))
    ensures FlagsInv(log + [en], hasRemote)
  {
    hide HasAck;
  }

  lemma WireOfSend(wire: seq<Frame>, log: seq<Entry>, en: Entry, w: Window, accepted: set<u32>, evicted: set<u32>)
    requires WireInv(wire, log, accepted) && Represents(w, accepted, evicted)
    requires (w.hasRemote || !HasAck(en.packet.flag)) && |log| < TWO_TO_THE_32
    ensures WireInv(wire + [FrameOf(w, en.packet, |log|, en.orderId)], log + [en], accepted)
  {
    hide Represents;
    hide FrameOf;
    hide FrameOk;
    hide HasAck;
    WireExtends(wire, log, [en], accepted);
    FrameOfOk(w, accepted, evicted, log + [en], |log|);
  }

  lemma SendSender(e: Endpoint, p: Packet, now: nat, peerAccepted: set<u32>)
    requires SenderInv(e, peerAccepted) && Represents(e.s.window, e.accepted, e.evicted)
    requires MaySend(e, p) && |e.log| + 1 < TWO_TO_THE_32
    ensures SenderInv(DoSend(e, p, now), peerAccepted)
  {
    var o := Send(e.s, p, now);
    var en := Entry(p, OrderIdIn(o.out));
    NextIsLogSize(e, peerAccepted);
    SendEffect(e.s, p, now);
    SendLeaves(e, p, now);
    AllowedEntry(e, p);
    hide Send;
    hide MaySend;
    hide FrameOf;
    hide EntryOk;
    hide HasAck;
    hide IsOrdered;
    hide Represents;
    hide LogInv;
    hide RichInv;
    hide WireInv;
    hide SentInv;
    hide NothingLost;
    hide CopiesInv;
    hide Members;
    hide Codec.DecodeIds;
    SendLog(e, p, now);
    RichOfSend(e.log, en, e.accepted);
    WireOfSend(e.wire, e.log, en, e.s.window, e.accepted, e.evicted);
    SentOfSend(e.log, en, e.s.sent, o.state.sent, now, peerAccepted);
    SentBound(e.s.sent, e.log);
    SendCopies(e.wire, |e.log|, e.s.sent, o.state.sent, o.out[0]);
  }

  lemma AllowedEntry(e: Endpoint, p: Packet)
    requires MaySend(e, p)
    ensures EntryOk(Entry(p, 0)) && (e.s.window.hasRemote || !HasAck(p.flag))
    ensures p.messageId == RICH_ACK_ID ==> Members(Codec.DecodeIds(p.payload)) <= e.accepted
  {
    hide HasAck;
    hide IsOrdered;
    hide Members;
    hide Codec.DecodeIds;
  }

  lemma SentBound(sent: map<u32, SentInfo>, log: seq<Entry>)
    requires SentInv(sent, log)
    ensures forall k :: k in sent ==> k < |log|
  {
  }

  lemma SendEffect(s: State, p: Packet, now: nat)
    requires s.nextSequence + 1 < TWO_TO_THE_32
    ensures OrderIdIn(Send(s, p, now).out) == if IsOrdered(p.flag) then OrderOf(s.localOrder, p.channelId) else 0
    ensures Send(s, p, now).state.localOrder
         == if IsOrdered(p.flag)
            then s.localOrder[p.channelId := Increment(OrderOf(s.localOrder, p.channelId))] else s.localOrder
    ensures var o := Send(s, p, now);
            && o.out == [FrameOf(s.window, p, s.nextSequence, OrderIdIn(o.out))]
            && o.out[0].header.sequenceId == s.nextSequence
            && o.state.nextSequence == s.nextSequence + 1 && o.state.window == s.window
            && o.state.sent == (if IsTracked(p.flag)
                                then s.sent[s.nextSequence := SentInfo(p, now, s.nextSequence, OrderIdIn(o.out), 0)]
                                else s.sent)
  {
    hide MarkAck;
    hide IsOrdered;
  }

  lemma SendAnnounces(e: Endpoint, p: Packet, now: nat)
    requires AnnounceInv(e) && Represents(e.s.window, e.accepted, e.evicted)
    requires e.s.sinceAck <= ACK_PACKET_THRESHOLD && e.s.nextSequence + 1 < TWO_TO_THE_32
    requires e.s.window.hasRemote || !HasAck(p.flag)
    ensures AnnounceInv(DoSend(e, p, now))
    ensures DoSend(e, p, now).s.sinceAck == if e.s.window.hasRemote then 0 else e.s.sinceAck
  {
    hide Represents;
    hide FrameOf;
    hide IsOrdered;
    hide HasAck;
    hide AnnounceInv;
    hide Claims;
    var o := Send(e.s, p, now);
    SendEffect(e.s, p, now);
    HeaderClaims(e.s.window, e.accepted, e.evicted, p, e.s.nextSequence, OrderIdIn(o.out));
    AnnounceByFrame(e, o.out, o.state);
    SameAnnouncements(e.(s := o.state, wire := e.wire + o.out), DoSend(e, p, now));
  }

  lemma SendWindow(e: Endpoint, p: Packet, now: nat, peerCount: nat)
    requires WindowInv(e, peerCount) && (e.s.window.hasRemote || !HasAck(p.flag))
    requires e.s.nextSequence + 1 < TWO_TO_THE_32
    requires DoSend(e, p, now).s.sinceAck == if e.s.window.hasRemote then 0 else e.s.sinceAck
    ensures WindowInv(DoSend(e, p, now), peerCount)
  {
    SendLeaves(e, p, now);
    hide DoSend;
    hide Represents;
    hide HasAck;
    hide FlagsInv;
    FlagsOfSend(e.log, Entry(p, OrderIdIn(Send(e.s, p, now).out)), e.s.window.hasRemote);
    hide Send;
    hide Members;
  }

  lemma SendLeaves(e: Endpoint, p: Packet, now: nat)
    ensures var e' := DoSend(e, p, now);
            && e'.log == e.log + [Entry(p, OrderIdIn(Send(e.s, p, now).out))]
            && e'.accepted == e.accepted && e'.evicted == e.evicted
            && e'.s.window == e.s.window && e'.s.pending == e.s.pending
  {
    hide FrameOf;
    hide IsOrdered;
  }

  lemma SendKeeps(e: Endpoint, p: Packet, now: nat, peerCount: nat, peerAccepted: set<u32>, limit: nat)
    requires Steady(e, peerCount, peerAccepted, limit)
    requires MaySend(e, p) && |e.log| + 1 < TWO_TO_THE_32
    ensures Steady(DoSend(e, p, now), peerCount, peerAccepted, limit)
  {
    hide SenderInv;
    hide Represents;
    hide Send;
    hide OnceInv;
    hide AnnounceInv;
    hide HasAck;
    NextIsLogSize(e, peerAccepted);
    SendSender(e, p, now, peerAccepted);
    SendAnnounces(e, p, now);
    SendWindow(e, p, now, peerCount);
    SameOnce(e, DoSend(e, p, now));
    hide WindowInv;
  }

  /** The entry of a send, when the invariants hold afterwards. */
  lemma SentEntry(log: seq<Entry>, en: Entry, e': Endpoint, peerCount: nat, peerAccepted: set<u32>, limit: nat)
    requires Steady(e', peerCount, peerAccepted, limit) && e'.log == log + [en]
    ensures EntryOk(en) && (e'.s.window.hasRemote || !HasAck(en.packet.flag))
    ensures en.packet.messageId == RICH_ACK_ID ==> Members(Codec.DecodeIds(en.packet.payload)) <= e'.accepted
  {
    hide WireInv;
    hide SentInv;
    hide NothingLost;
    hide CopiesInv;
    hide OrdersInv;
    hide CountersInv;
    hide EntryOk;
    hide Represents;
    hide OnceInv;
    hide AnnounceInv;
    hide Members;
    hide HasAck;
    hide Codec.DecodeIds;
    assert e'.log[|log|] == en;
  }

  /** `MaySend` is exactly what it takes that a send keeps the invariants. */
  lemma SendKeepsIff(e: Endpoint, p: Packet, now: nat, peerCount: nat, peerAccepted: set<u32>, limit: nat)
    requires Steady(e, peerCount, peerAccepted, limit) && |e.log| + 1 < TWO_TO_THE_32
    ensures MaySend(e, p) <==> Steady(DoSend(e, p, now), peerCount, peerAccepted, limit)
  {
    hide Steady;
    SendLeaves(e, p, now);
    if MaySend(e, p) {
      SendKeeps(e, p, now, peerCount, peerAccepted, limit);
    } else if Steady(DoSend(e, p, now), peerCount, peerAccepted, limit) {
      SentEntry(e.log, Entry(p, OrderIdIn(Send(e.s, p, now).out)), DoSend(e, p, now), peerCount, peerAccepted, limit);
    }
    hide DoSend;
    hide Send;
    hide HasAck;
    hide IsOrdered;
    hide Members;
  }

  // ---- update ----

  ghost function AfterResend1(e: Endpoint, k: u32, now: nat): Endpoint
    requires k in e.s.sent
  {
    e.(s := Resend1(e.s, k, now).state, wire := e.wire + Resend1(e.s, k, now).out)
  }

  lemma Resend1Copies(wire: seq<Frame>, count: nat, sent: map<u32, SentInfo>, k: u32, info: SentInfo, f: Frame)
    requires CopiesInv(wire, count, sent) && k in sent && k < count
    requires sent[k].retries < MAX_RESEND_ATTEMPTS && info.retries == sent[k].retries + 1
    requires f.header.sequenceId == k
    ensures CopiesInv(wire + [f], count, sent[k := info])
  {
    forall j: u32
      ensures Copies(wire + [f], j) <= (if j < count then 1 + MAX_RESEND_ATTEMPTS else 0)
      ensures j in sent[k := info] ==> Copies(wire + [f], j) == 1 + sent[k := info][j].retries
    {
      CopiesAppend(wire, [f], j);
      CopiesOfFresh([f], k, j);
    }
  }

  lemma Resend1Wire(wire: seq<Frame>, log: seq<Entry>, w: Window, accepted: set<u32>, evicted: set<u32>, k: u32)
    requires WireInv(wire, log, accepted) && Represents(w, accepted, evicted)
    requires k < |log| && (w.hasRemote || !HasAck(log[k].packet.flag))
    ensures WireInv(wire + [FrameOf(w, log[k].packet, k, log[k].orderId)], log, accepted)
  {
    hide Represents;
    hide FrameOf;
    hide FrameOk;
    hide HasAck;
    FrameOfOk(w, accepted, evicted, log, k);
  }

  lemma Resend1Sent(sent: map<u32, SentInfo>, log: seq<Entry>, k: u32, now: nat)
    requires SentInv(sent, log) && k in sent && sent[k].retries < MAX_RESEND_ATTEMPTS
    ensures var info := sent[k];
            && k < |log| && info.packet == log[k].packet && info.orderId == log[k].orderId
            && info.sequenceId == k
            && SentInv(sent[k := info.(sentTime := now, retries := info.retries + 1)], log)
  {
  }

  lemma EntryAt(log: seq<Entry>, n: nat, localOrder: map<u8, u32>, k: nat)
    requires LogInv(log, n, localOrder) && k < |log|
    ensures EntryOk(log[k]) && n == |log|
  {
    hide EntryOk;
    hide OrdersInv;
  }

  lemma Resend1Sender(e: Endpoint, k: u32, now: nat, peerAccepted: set<u32>)
    requires SenderInv(e, peerAccepted) && Represents(e.s.window, e.accepted, e.evicted)
    requires FlagsInv(e.log, e.s.window.hasRemote)
    requires k in e.s.sent && e.s.sent[k].retries < MAX_RESEND_ATTEMPTS
    ensures SenderInv(AfterResend1(e, k, now), peerAccepted)
    ensures k < |e.log| && EntryOk(e.log[k])
    ensures Resend1(e.s, k, now).out == [FrameOf(e.s.window, e.log[k].packet, k, e.log[k].orderId)]
  {
    hide LogInv;
    hide RichInv;
    hide WireInv;
    hide SentInv;
    hide NothingLost;
    hide CopiesInv;
    hide Represents;
    hide EntryOk;
    var o := Resend1(e.s, k, now);
    Resend1Sent(e.s.sent, e.log, k, now);
    EntryAt(e.log, e.s.nextSequence, e.s.localOrder, k);
    Resend1Wire(e.wire, e.log, e.s.window, e.accepted, e.evicted, k);
    Resend1Copies(e.wire, |e.log|, e.s.sent, k, o.state.sent[k], o.out[0]);
    hide FrameOf;
    assert o.state.sent.Keys == e.s.sent.Keys;
  }

  lemma Resend1Keeps(e: Endpoint, k: u32, now: nat, peerCount: nat, peerAccepted: set<u32>, limit: nat)
    requires Steady(e, peerCount, peerAccepted, limit)
    requires k in e.s.sent && e.s.sent[k].retries < MAX_RESEND_ATTEMPTS
    ensures Steady(AfterResend1(e, k, now), peerCount, peerAccepted, limit)
  {
    hide SenderInv;
    hide Represents;
    hide FrameOf;
    hide HasAck;
    hide Claims;
    hide AnnounceInv;
    var o := Resend1(e.s, k, now);
    Resend1Sender(e, k, now, peerAccepted);
    var en := e.log[k];
    HeaderClaims(e.s.window, e.accepted, e.evicted, en.packet, k, en.orderId);
    AnnounceByFrame(e, o.out, o.state);
  }

  lemma {:induction false} ResendKeeps(e: Endpoint, todo: set<u32>, now: nat, peerCount: nat, peerAccepted: set<u32>,
                                       limit: nat)
    requires Steady(e, peerCount, peerAccepted, limit) && todo <= e.s.sent.Keys
    ensures var r := Resend(e.s, todo, now);
            && Steady(e.(s := r.state, wire := e.wire + r.out), peerCount, peerAccepted, limit)
            && r.state.nextExpected == e.s.nextExpected && r.state.reorder == e.s.reorder
            && r.state.nextSequence == e.s.nextSequence && r.state.window == e.s.window
            && r.state.sent.Keys == e.s.sent.Keys
    decreases |todo|
  {
    hide Steady;
    hide Resend;
    hide Resend1;
    if todo == {} {
      ResendNothing(e.s, now);
      assert e.wire + [] == e.wire;
    } else {
      var k := Least(todo);
      ResendStep(e.s, todo, k, now);
      if now - e.s.sent[k].sentTime > RESEND_TIMEOUT {
        if e.s.sent[k].retries >= MAX_RESEND_ATTEMPTS {
          assert e.wire + [] == e.wire;
          CloseKeeps(e, peerCount, peerAccepted, limit);
        } else {
          var o, e1 := Resend1(e.s, k, now), AfterResend1(e, k, now);
          Resend1Frame(e.s, k, now);
          Resend1Keeps(e, k, now, peerCount, peerAccepted, limit);
          ResendKeeps(e1, todo - {k}, now, peerCount, peerAccepted, limit);
          var rest := Resend(e1.s, todo - {k}, now).out;
          assert e.wire + o.out + rest == e.wire + (o.out + rest);
        }
      } else {
        ResendKeeps(e, todo - {k}, now, peerCount, peerAccepted, limit);
      }
    }
  }

  lemma CloseKeeps(e: Endpoint, peerCount: nat, peerAccepted: set<u32>, limit: nat)
    requires Steady(e, peerCount, peerAccepted, limit)
    ensures Steady(e.(s := e.s.(shouldClose := true)), peerCount, peerAccepted, limit)
  {
    hide LogInv;
    hide RichInv;
    hide WireInv;
    hide SentInv;
    hide NothingLost;
    hide CopiesInv;
    hide Represents;
  }

  lemma UpdateKeeps(e: Endpoint, now: nat, peerCount: nat, peerAccepted: set<u32>, limit: nat)
    requires Steady(e, peerCount, peerAccepted, limit)
    requires |DoUpdate(e, now).log| < TWO_TO_THE_32
    ensures Steady(DoUpdate(e, now), peerCount, peerAccepted, limit)
    ensures DoUpdate(e, now).s.nextExpected == e.s.nextExpected
    ensures DoUpdate(e, now).s.reorder == e.s.reorder
  {
    hide Steady;
    hide Resend;
    hide SendAck;
    var r := ResendAll(e.s, now);
    var a := AckIfLate(r, now);
    var e1 := e.(s := r.state, wire := e.wire + r.out);
    ResendKeeps(e, e.s.sent.Keys, now, peerCount, peerAccepted, limit);
    assert e.wire + (r.out + a.out) == e1.wire + a.out;
    if !r.dead && r.state.unsentAck && now - r.state.lastAckTime > ACK_TIMEOUT {
      SendAckKeeps(e1, peerCount, peerAccepted, limit, now);
      LimitBound(e, peerCount, peerAccepted, limit);
      LooserLimit(DoUpdate(e, now), peerCount, peerAccepted, if e.s.window.hasRemote then 0 else limit, limit);
    } else {
      assert e1.wire + [] == e1.wire && e1.log + Controls([]) == e1.log;
    }
  }

  lemma LimitBound(e: Endpoint, peerCount: nat, peerAccepted: set<u32>, limit: nat)
    requires Steady(e, peerCount, peerAccepted, limit)
    ensures limit <= ACK_PACKET_THRESHOLD
  {
  }

  lemma LooserLimit(e: Endpoint, peerCount: nat, peerAccepted: set<u32>, limit: nat, limit': nat)
    requires Steady(e, peerCount, peerAccepted, limit) && limit <= limit' <= ACK_PACKET_THRESHOLD
    ensures Steady(e, peerCount, peerAccepted, limit')
  {
    hide SenderInv;
    hide WindowInv;
    hide OnceInv;
    hide AnnounceInv;
  }
}
