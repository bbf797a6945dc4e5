/** `handleIncoming` keeps the invariants of the receiving end of a link. */
module LinkReceive {
  import opened Numbers
  import opened Packets
  import opened AckWindow
  import opened Header
  import opened SessionSpec
  import opened Link
  import opened LinkEmit
  import opened LinkSteps
  import Codec
  import Reorder

  // ---- Everything but the channels ----

  /** Erasing acknowledged packets is harmless when the peer did accept them. */
  lemma ForgetKeeps(e: Endpoint, gone: set<u32>, peerCount: nat, peerAccepted: set<u32>, limit: nat)
    requires Steady(e, peerCount, peerAccepted, limit) && gone <= peerAccepted
    ensures Steady(e.(s := e.s.(sent := e.s.sent - gone)), peerCount, peerAccepted, limit)
  {
    hide LogInv;
    hide RichInv;
    hide WireInv;
    hide Represents;
    hide Announced;
    hide Copies;
    assert CopiesInv(e.wire, |e.log|, e.s.sent - gone);
    hide CopiesInv;
  }

  lemma AcknowledgeKeeps(e: Endpoint, h: Header, peerCount: nat, peerAccepted: set<u32>, limit: nat)
    requires Steady(e, peerCount, peerAccepted, limit)
    requires HasAck(h.flags) ==> Named(h.acknowledgeId, h.acknowledgeBitfield) <= peerAccepted
    ensures Steady(e.(s := Acknowledge(e.s, h)), peerCount, peerAccepted, limit)
  {
    hide Steady;
    hide Named;
    hide HasAck;
    if HasAck(h.flags) {
      ForgetKeeps(e, Named(h.acknowledgeId, h.acknowledgeBitfield), peerCount, peerAccepted, limit);
    }
  }

  lemma DuplicateKeeps(e: Endpoint, id: u32, peerCount: nat, peerAccepted: set<u32>, limit: nat)
    requires Steady(e, peerCount, peerAccepted, limit) && IsDuplicate(e.s.window, id)
    ensures Steady(e.(s := e.s.(pending := e.s.pending + [id], unsentAck := true)),
                   peerCount, peerAccepted, limit)
  {
    DuplicateIffRemembered(e.s.window, e.accepted, e.evicted, id);
    hide SenderInv;
    hide Represents;
    hide IsDuplicate;
    hide Announced;
    assert Members(e.s.pending + [id]) == Members(e.s.pending) + {id};
  }

  /** The endpoint after `updateAcknowledgeInfo`, before anything is made of the frame. */
  ghost function Noted(e: Endpoint, id: u32): Endpoint {
    e.(s := NoteArrival(e.s, id),
       accepted := e.accepted + {id},
       acceptLog := e.acceptLog + [id],
       evicted := e.evicted - {id} + Evicted(e.s.window, id),
       evictions := e.evictions + multiset(Evicted(e.s.window, id)),
       inOrder := e.inOrder && (!e.s.window.hasRemote || id == e.s.window.ackId + 1))
  }

  /** The history is full only after more acceptances than it can hold. */
  lemma EvictionNeedsMany(w: Window, accepted: set<u32>, evicted: set<u32>, id: u32)
    requires Represents(w, accepted, evicted) && Evicted(w, id) != {}
    ensures |accepted| > MAX_HISTORY
  {
    DistinctSize(w.history);
    SubsetSize(Members(w.history), accepted - {w.ackId});
  }

  lemma {:induction false} SubsetSize(a: set<u32>, b: set<u32>)
    requires a <= b
    ensures |a| <= |b|
  {
    if a != {} {
      var x :| x in a;
      SubsetSize(a - {x}, b - {x});
    }
  }

  lemma NoteOnce(e: Endpoint, id: u32)
    requires OnceInv(e) && Represents(e.s.window, e.accepted, e.evicted) && !IsDuplicate(e.s.window, id)
    ensures OnceInv(Noted(e, id))
  {
    NewAcceptance(e.s.window, e.accepted, e.evicted, id);
    NotedRecords(e, id);
    hide Represents;
    hide IsDuplicate;
    hide Evicted;
    hide Noted;
    hide Remembered;
    MembersMore(e.acceptLog, id);
    hide Members;
    forall x: u32
      ensures multiset(Noted(e, id).acceptLog)[x] == Noted(e, id).evictions[x] + Remembered(Noted(e, id), x)
    {
      CountOne(e, Noted(e, id), id, Evicted(e.s.window, id), x);
    }
  }

  lemma NotedRecords(e: Endpoint, id: u32)
    ensures var e', gone := Noted(e, id), Evicted(e.s.window, id);
            && e'.accepted == e.accepted + {id} && e'.acceptLog == e.acceptLog + [id]
            && e'.evicted == e.evicted - {id} + gone && e'.evictions == e.evictions + multiset(gone)
  {
    hide Evicted;
    hide NoteArrival;
  }

  lemma MembersMore(ids: seq<u32>, id: u32)
    ensures Members(ids + [id]) == Members(ids) + {id}
  {
  }

  lemma NewAcceptance(w: Window, accepted: set<u32>, evicted: set<u32>, id: u32)
    requires Represents(w, accepted, evicted) && !IsDuplicate(w, id)
    ensures id !in accepted - evicted && Evicted(w, id) <= accepted - evicted
    ensures Evicted(w, id) != {} ==> |accepted| > MAX_HISTORY
    ensures |accepted| <= |accepted + {id}|
  {
    DuplicateIffRemembered(w, accepted, evicted, id);
    EvictedRemembered(w, accepted, evicted, id);
    if Evicted(w, id) != {} {
      EvictionNeedsMany(w, accepted, evicted, id);
    }
    hide *;
    SubsetSize(accepted, accepted + {id});
  }

  lemma CountOne(e: Endpoint, e': Endpoint, id: u32, gone: set<u32>, x: u32)
    requires id !in e.accepted - e.evicted && gone <= e.accepted - e.evicted
    requires e'.accepted == e.accepted + {id} && e'.evicted == e.evicted - {id} + gone
    requires multiset(e.acceptLog)[x] == e.evictions[x] + Remembered(e, x)
    ensures multiset(e.acceptLog + [id])[x] == (e.evictions + multiset(gone))[x] + Remembered(e', x)
  {
    assert multiset(e.acceptLog + [id])[x] == multiset(e.acceptLog)[x] + if x == id then 1 else 0;
    assert multiset(gone)[x] == if x in gone then 1 else 0;
  }

  /** An accepted id that is not remembered has been dropped. */
  lemma EvictedCounts(e: Endpoint, id: u32)
    requires OnceInv(e) && id in e.accepted && id in e.evicted
    ensures id in e.evictions && |e.accepted| > MAX_HISTORY
  {
    assert id in Members(e.acceptLog);
    assert multiset(e.acceptLog)[id] == e.evictions[id] + Remembered(e, id);
  }

  lemma NoteAnnounce(e: Endpoint, id: u32)
    requires AnnounceInv(e) && Represents(e.s.window, e.accepted, e.evicted)
    requires !e.s.window.hasRemote ==> e.s.sinceAck == 0
    ensures AnnounceInv(Noted(e, id))
  {
    EmptyWindow(e.s.window, e.accepted, e.evicted);
    hide Represents;
    hide Announced;
    hide Evicted;
    hide SetBit;
    hide ShiftLeft;
    hide Displaced;
  }

  lemma NoteSender(e: Endpoint, id: u32, peerAccepted: set<u32>)
    requires SenderInv(e, peerAccepted)
    ensures SenderInv(Noted(e, id), peerAccepted)
  {
    hide LogInv;
    hide SentInv;
    hide NothingLost;
    hide CopiesInv;
    hide Codec.DecodeIds;
    hide Carries;
    hide Claims;
    hide Accept;
    hide Evicted;
  }

  lemma NoteKeeps(e: Endpoint, id: u32, peerCount: nat, peerAccepted: set<u32>, limit: nat)
    requires Steady(e, peerCount, peerAccepted, limit) && limit < ACK_PACKET_THRESHOLD
    requires !IsDuplicate(e.s.window, id) && id < peerCount
    ensures Steady(Noted(e, id), peerCount, peerAccepted, limit + 1)
    ensures Noted(e, id).s.window.hasRemote
  {
    NoteSender(e, id, peerAccepted);
    NoteOnce(e, id);
    NoteAnnounce(e, id);
    NoteWindow(e, id, peerCount);
    hide SenderInv;
    hide OnceInv;
    hide AnnounceInv;
    hide WindowInv;
    hide IsDuplicate;
    hide Accept;
    hide Evicted;
  }

  lemma NoteWindow(e: Endpoint, id: u32, peerCount: nat)
    requires WindowInv(e, peerCount) && !IsDuplicate(e.s.window, id) && id < peerCount
    ensures WindowInv(Noted(e, id), peerCount) && Noted(e, id).s.window.hasRemote
  {
    AcceptKeeps(e.s.window, e.accepted, e.evicted, id);
    hide Represents;
    hide IsDuplicate;
    hide Accept;
    hide Evicted;
  }

  /** `_packetsSinceLastAck` is back below the threshold after the acknowledgement. */
  lemma AckIfDueKeeps(e: Endpoint, peerCount: nat, peerAccepted: set<u32>, now: nat)
    requires Steady(e, peerCount, peerAccepted, ACK_PACKET_THRESHOLD) && e.s.window.hasRemote
    requires |e.log| + |AckIfDue(e.s, now).out| < TWO_TO_THE_32
    ensures var o := AckIfDue(e.s, now);
            && Steady(e.(s := o.state, log := e.log + Controls(o.out), wire := e.wire + o.out),
                      peerCount, peerAccepted, ACK_PACKET_THRESHOLD - 1)
            && o.state.nextExpected == e.s.nextExpected && o.state.reorder == e.s.reorder
  {
    hide SendAck;
    if e.s.sinceAck >= ACK_PACKET_THRESHOLD {
      SendAckKeeps(e, peerCount, peerAccepted, ACK_PACKET_THRESHOLD, now);
      var o := SendAck(e.s, now);
      LooserLimit(e.(s := o.state, log := e.log + Controls(o.out), wire := e.wire + o.out),
                  peerCount, peerAccepted, 0, ACK_PACKET_THRESHOLD - 1);
    } else {
      assert e.log + Controls([]) == e.log && e.wire + [] == e.wire;
      TighterLimit(e, peerCount, peerAccepted, ACK_PACKET_THRESHOLD, ACK_PACKET_THRESHOLD - 1);
      hide Steady;
    }
  }

  lemma TighterLimit(e: Endpoint, peerCount: nat, peerAccepted: set<u32>, limit: nat, limit': nat)
    requires Steady(e, peerCount, peerAccepted, limit) && e.s.sinceAck <= limit' <= limit
    ensures Steady(e, peerCount, peerAccepted, limit')
  {
    hide SenderInv;
    hide WindowInv;
    hide OnceInv;
    hide AnnounceInv;
  }

  /** The channel maps and the delivery record are no part of these invariants. */
  lemma SameSteady(e: Endpoint, e': Endpoint, peerCount: nat, peerAccepted: set<u32>, limit: nat)
    requires Steady(e, peerCount, peerAccepted, limit)
    requires e'.s == e.s.(nextExpected := e'.s.nextExpected, reorder := e'.s.reorder)
    requires e' == e.(s := e'.s, delivered := e'.delivered)
    ensures Steady(e', peerCount, peerAccepted, limit)
  {
    hide LogInv;
    hide RichInv;
    hide WireInv;
    hide SentInv;
    hide NothingLost;
    hide CopiesInv;
    hide Represents;
    hide Announced;
  }

  lemma DispatchKeeps(e: Endpoint, f: Frame, peerCount: nat, peerAccepted: set<u32>, limit: nat)
    requires Steady(e, peerCount, peerAccepted, limit)
    requires f.header.messageId == RICH_ACK_ID ==> Members(Codec.DecodeIds(f.payload)) <= peerAccepted
    ensures var d := Dispatch(e.s, f);
            Steady(Deliver(e.(s := d.state), f.header, d.ready), peerCount, peerAccepted, limit)
  {
    hide Steady;
    hide Codec.DecodeIds;
    hide IsOrdered;
    hide Reorder.Receive;
    var d := Dispatch(e.s, f);
    var e' := Deliver(e.(s := d.state), f.header, d.ready);
    if f.header.messageId == RICH_ACK_ID {
      var gone := Members(Codec.DecodeIds(f.payload));
      ForgetKeeps(e, gone, peerCount, peerAccepted, limit);
      SameSteady(e.(s := e.s.(sent := e.s.sent - gone)), e', peerCount, peerAccepted, limit);
    } else {
      SameSteady(e, e', peerCount, peerAccepted, limit);
    }
  }

  // ---- The channels ----

  lemma GotAdd(log: seq<Entry>, accepted: set<u32>, id: u32, c: u8)
    requires id < |log|
    ensures Got(log, accepted + {id}, c)
         == Got(log, accepted, c) + if OnChannel(log[id], c) then {log[id].orderId} else {}
  {
    hide IsOrdered;
  }

  /** A copy is ordered exactly when its original is, and carries the same message. */
  lemma CarriedContent(f: Frame, en: Entry)
    requires Carries(f, en) && EntryOk(en)
    ensures IsOrdered(f.header.flags) == IsOrdered(en.packet.flag)
    ensures Content(Packet(f.header.messageId, f.header.flags, 0, f.payload)) == Content(en.packet)
    ensures IsOrdered(f.header.flags) ==> !IsAckShaped(f.header.messageId, f.payload)
  {
    MarkAckKeepsMode(en.packet.flag);
    assert !IsOrdered(UNRELIABLE);
    hide MarkAck;
    hide IsOrdered;
  }

  lemma OrderedArrival(s: State, delivered: map<u8, seq<Packet>>, accepted: set<u32>, peerLog: seq<Entry>, id: u32,
                       f: Frame)
    requires ChannelsInv(s, delivered, accepted, peerLog) && OrdersInv(peerLog)
    requires id < |peerLog| && EntryOk(peerLog[id]) && Carries(f, peerLog[id])
    requires IsOrdered(f.header.flags)
    ensures var d := Dispatch(s, f);
            var c := f.header.channelId;
            ChannelsInv(d.state, delivered[c := DeliveredOn(delivered, c) + d.ready], accepted + {id}, peerLog)
  {
    hide IsOrdered;
    hide Content;
    hide EntryOk;
    hide OrdersInv;
    hide Stream;
    hide Got;
    hide Reorder.ChannelInv;
    hide Reorder.Receive;
    var d, c, o := Dispatch(s, f), f.header.channelId, f.header.orderId;
    var p := Packet(f.header.messageId, f.header.flags, 0, f.payload);
    ArrivalFits(peerLog, id, f);
    var a := Reorder.Receive(ChannelOf(s, c), o, p);
    var delivered' := delivered[c := DeliveredOn(delivered, c) + d.ready];
    assert ChannelOk(s, delivered, accepted, peerLog, c);
    Reorder.ReceiveKeeps(ChannelOf(s, c), DeliveredOn(delivered, c), Got(peerLog, accepted, c),
                         Stream(peerLog, c), o, p);
    assert d.state == WithChannel(s, c, a.channel) && d.ready == a.ready;
    hide Dispatch;
    forall c': u8 ensures ChannelOk(d.state, delivered', accepted + {id}, peerLog, c') {
      GotAdd(peerLog, accepted, id, c');
      assert ChannelOk(s, delivered, accepted, peerLog, c');
      if c' != c {
        assert ChannelOf(d.state, c') == ChannelOf(s, c');
        assert Got(peerLog, accepted, c') + {} == Got(peerLog, accepted, c');
      } else {
        assert ChannelOf(d.state, c) == a.channel;
      }
    }
  }

  /** An ordered copy belongs at its order id in the stream of its channel, and is not
      taken for an acknowledgement. */
  lemma ArrivalFits(peerLog: seq<Entry>, id: u32, f: Frame)
    requires OrdersInv(peerLog) && id < |peerLog| && EntryOk(peerLog[id]) && Carries(f, peerLog[id])
    requires IsOrdered(f.header.flags)
    ensures var st := Stream(peerLog, f.header.channelId);
            && f.header.orderId < |st|
            && st[f.header.orderId] == Content(Packet(f.header.messageId, f.header.flags, 0, f.payload))
    ensures OnChannel(peerLog[id], f.header.channelId) && peerLog[id].orderId == f.header.orderId
    ensures !IsAckShaped(f.header.messageId, f.payload)
  {
    CarriedContent(f, peerLog[id]);
    StreamAt(peerLog, id);
    hide IsOrdered;
    hide Content;
    hide OrdersInv;
    hide Stream;
  }

  lemma UnorderedArrival(s: State, s': State, delivered: map<u8, seq<Packet>>, accepted: set<u32>, peerLog: seq<Entry>,
                         id: u32)
    requires ChannelsInv(s, delivered, accepted, peerLog)
    requires id < |peerLog| && !IsOrdered(peerLog[id].packet.flag)
    requires s'.nextExpected == s.nextExpected && s'.reorder == s.reorder
    ensures ChannelsInv(s', delivered, accepted + {id}, peerLog)
  {
    hide IsOrdered;
    hide Reorder.ChannelInv;
    hide Stream;
    forall c: u8 ensures ChannelOk(s', delivered, accepted + {id}, peerLog, c) {
      GotAdd(peerLog, accepted, id, c);
      assert ChannelOk(s, delivered, accepted, peerLog, c);
      hide Got;
      assert Got(peerLog, accepted, c) + {} == Got(peerLog, accepted, c);
    }
  }

  lemma SameChannels(s: State, s': State, delivered: map<u8, seq<Packet>>, accepted: set<u32>, peerLog: seq<Entry>)
    requires ChannelsInv(s, delivered, accepted, peerLog)
    requires s'.nextExpected == s.nextExpected && s'.reorder == s.reorder
    ensures ChannelsInv(s', delivered, accepted, peerLog)
  {
    hide Reorder.ChannelInv;
    hide Stream;
    hide Got;
    forall c: u8 ensures ChannelOk(s', delivered, accepted, peerLog, c) {
      assert ChannelOk(s, delivered, accepted, peerLog, c);
    }
  }

  lemma ArrivalChannels(s: State, delivered: map<u8, seq<Packet>>, accepted: set<u32>, peerLog: seq<Entry>, id: u32,
                        f: Frame)
    requires ChannelsInv(s, delivered, accepted, peerLog) && OrdersInv(peerLog)
    requires id < |peerLog| && EntryOk(peerLog[id]) && Carries(f, peerLog[id])
    ensures var d, c := Dispatch(s, f), f.header.channelId;
            var delivered' := if IsOrdered(f.header.flags)
                              then delivered[c := DeliveredOn(delivered, c) + d.ready] else delivered;
            ChannelsInv(d.state, delivered', accepted + {id}, peerLog)
  {
    CarriedContent(f, peerLog[id]);
    if IsOrdered(f.header.flags) {
      OrderedArrival(s, delivered, accepted, peerLog, id, f);
    } else {
      hide IsOrdered;
      UnorderedArrival(s, Dispatch(s, f).state, delivered, accepted, peerLog, id);
    }
  }

  // ---- The whole of handleIncoming ----

  lemma ReceiveDuplicate(e: Endpoint, f: Frame, now: nat, peerLog: seq<Entry>, peerAccepted: set<u32>)
    requires Steady(e, |peerLog|, peerAccepted, ACK_PACKET_THRESHOLD - 1)
    requires ChannelsInv(e.s, e.delivered, e.accepted, peerLog)
    requires FrameOk(f, peerLog, peerAccepted) && IsDuplicate(e.s.window, f.header.sequenceId)
    ensures var e' := e.(s := HandleFrame(e.s, f, now).state);
            Steady(e', |peerLog|, peerAccepted, ACK_PACKET_THRESHOLD - 1)
            && ChannelsInv(e'.s, e'.delivered, e'.accepted, peerLog)
  {
    hide Steady;
    hide IsDuplicate;
    hide Carries;
    hide Named;
    hide HasAck;
    hide ChannelsInv;
    AcknowledgeKeeps(e, f.header, |peerLog|, peerAccepted, ACK_PACKET_THRESHOLD - 1);
    var e1 := e.(s := Acknowledge(e.s, f.header));
    DuplicateKeeps(e1, f.header.sequenceId, |peerLog|, peerAccepted, ACK_PACKET_THRESHOLD - 1);
    SameChannels(e.s, HandleFrame(e.s, f, now).state, e.delivered, e.accepted, peerLog);
  }

  /** The endpoint after an accepted frame. */
  ghost function Arrived(e: Endpoint, f: Frame, now: nat): Endpoint {
    var r := HandleFrame(e.s, f, now);
    Deliver(Noted(e, f.header.sequenceId).(s := r.state, log := e.log + Controls(r.out), wire := e.wire + r.out),
            f.header, r.ready)
  }

  /** Acknowledged, noted, answered if due and dispatched. */
  lemma ArrivedSteps(e: Endpoint, f: Frame, now: nat)
    requires !IsDuplicate(e.s.window, f.header.sequenceId)
    ensures var e2 := Noted(e.(s := Acknowledge(e.s, f.header)), f.header.sequenceId);
            var o := AckIfDue(e2.s, now);
            var e3 := e2.(s := o.state, log := e2.log + Controls(o.out), wire := e2.wire + o.out);
            Arrived(e, f, now) == Deliver(e3.(s := Dispatch(e3.s, f).state), f.header, Dispatch(e3.s, f).ready)
  {
    hide IsDuplicate;
    hide Named;
    hide HasAck;
    hide Accept;
    hide Evicted;
    hide IsOrdered;
    hide AckIfDue;
    hide Dispatch;
  }

  lemma ReceiveFresh(e: Endpoint, f: Frame, now: nat, peerLog: seq<Entry>, peerAccepted: set<u32>)
    requires Steady(e, |peerLog|, peerAccepted, ACK_PACKET_THRESHOLD - 1)
    requires ChannelsInv(e.s, e.delivered, e.accepted, peerLog)
    requires FrameOk(f, peerLog, peerAccepted) && !IsDuplicate(e.s.window, f.header.sequenceId)
    requires OrdersInv(peerLog) && RichInv(peerLog, peerAccepted) && EntryOk(peerLog[f.header.sequenceId])
    requires |Arrived(e, f, now).log| < TWO_TO_THE_32
    ensures var e' := Arrived(e, f, now);
            Steady(e', |peerLog|, peerAccepted, ACK_PACKET_THRESHOLD - 1)
            && ChannelsInv(e'.s, e'.delivered, e'.accepted, peerLog)
  {
    hide Steady;
    hide IsDuplicate;
    hide Carries;
    hide Named;
    hide HasAck;
    hide ChannelsInv;
    hide OrdersInv;
    hide EntryOk;
    hide Accept;
    hide Evicted;
    hide IsOrdered;
    hide AckIfDue;
    hide Dispatch;
    hide Codec.DecodeIds;
    var n, id := |peerLog|, f.header.sequenceId;
    ArrivedSteps(e, f, now);
    hide Arrived;
    AcknowledgeKeeps(e, f.header, n, peerAccepted, ACK_PACKET_THRESHOLD - 1);
    var e1 := e.(s := Acknowledge(e.s, f.header));
    NoteKeeps(e1, id, n, peerAccepted, ACK_PACKET_THRESHOLD - 1);
    var e2 := Noted(e1, id);
    var o := AckIfDue(e2.s, now);
    AckIfDueKeeps(e2, n, peerAccepted, now);
    var e3 := e2.(s := o.state, log := e2.log + Controls(o.out), wire := e2.wire + o.out);
    PayloadRich(f, peerLog, peerAccepted);
    DispatchKeeps(e3, f, n, peerAccepted, ACK_PACKET_THRESHOLD - 1);
    SameChannels(e.s, o.state, e.delivered, e.accepted, peerLog);
    ArrivalChannels(o.state, e.delivered, e.accepted, peerLog, id, f);
  }

  lemma PayloadRich(f: Frame, peerLog: seq<Entry>, peerAccepted: set<u32>)
    requires FrameOk(f, peerLog, peerAccepted) && RichInv(peerLog, peerAccepted)
    ensures f.header.messageId == RICH_ACK_ID ==> Members(Codec.DecodeIds(f.payload)) <= peerAccepted
  {
    hide Claims;
    hide Codec.DecodeIds;
  }
}
