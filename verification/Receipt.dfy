/** What `handleIncoming` makes of a frame, for every state: what it frees, queues, answers,
    passes on and leaves alone. */
module Receipt {
  import opened Numbers
  import opened Packets
  import opened AckWindow
  import opened Header
  import opened SessionSpec
  import opened Outgoing
  import Codec
  import Reorder

  /** The header names the id: the acknowledge id itself, or one of the 32 before it by its bit. */
  ghost predicate Acknowledges(h: Header, k: u32) {
    && BitAt(h.flags, 3)
    && (k == h.acknowledgeId
        || exists i :: 0 <= i < 32 && BitAt(h.acknowledgeBitfield, i)
                    && k == (h.acknowledgeId - (i + 1)) % TWO_TO_THE_32)
  }

  /** The frame is a RICH_ACK that lists the id. */
  ghost predicate Lists(f: Frame, k: u32) {
    f.header.messageId == 1 && k in Codec.DecodeIds(f.payload)
  }

  /** The sixteenth new arrival is answered at once. */
  predicate AnsweredAtOnce(s: State, f: Frame) {
    !IsDuplicate(s.window, f.header.sequenceId) && s.sinceAck + 1 >= 16
  }

  /** Erased are exactly the kept packets that the header acknowledges, whatever the frame carries,
      and for a new RICH_ACK those it lists. */
  ghost predicate Frees(s: State, f: Frame, s': State) {
    && (forall k :: k in s'.sent <==>
          k in s.sent && !Acknowledges(f.header, k)
          && (Lists(f, k) ==> IsDuplicate(s.window, f.header.sequenceId)))
    && (forall k :: k in s'.sent ==> s'.sent[k] == s.sent[k])
  }

  /** A duplicate is queued for a RICH_ACK; a new arrival moves the window; either owes an
      acknowledgement until the sixteenth new one is answered. */
  ghost predicate Notes(s: State, f: Frame, s': State, now: nat) {
    var id := f.header.sequenceId;
    if IsDuplicate(s.window, id) then
      && s'.window == s.window && s'.pending == s.pending + [id] && s'.unsentAck
      && s'.sinceAck == s.sinceAck && s'.lastAckTime == s.lastAckTime
    else
      && s'.window == Accept(s.window, id)
      && (if s.sinceAck + 1 >= 16
          then s'.pending == [] && !s'.unsentAck && s'.sinceAck == 0 && s'.lastAckTime == now
          else s'.pending == s.pending && s'.unsentAck && s'.sinceAck == s.sinceAck + 1
               && s'.lastAckTime == s.lastAckTime)
  }

  /** The frame carries a packet for the user, or for its channel. */
  predicate Carried(s: State, f: Frame) {
    && !IsDuplicate(s.window, f.header.sequenceId)
    && f.header.messageId != 1 && (f.header.messageId != 0 || f.payload != [])
  }

  /** A new packet is returned at once when it is not ordered and goes through its channel when it
      is; no other channel changes. */
  ghost predicate PassesOn(s: State, f: Frame, r: Incoming) {
    var h := f.header;
    var p := Packet(h.messageId, h.flags, 0, f.payload);
    if Carried(s, f) && BitAt(h.flags, 2) then
      var a := Reorder.Receive(ChannelOf(s, h.channelId), h.orderId, p);
      && r.ready == a.ready && ChannelOf(r.state, h.channelId) == a.channel
      && forall c: u8 :: c != h.channelId ==> ChannelOf(r.state, c) == ChannelOf(s, c)
    else
      && r.ready == (if Carried(s, f) then [p] else [])
      && forall c: u8 :: ChannelOf(r.state, c) == ChannelOf(s, c)
  }

  /** Frames go out only for the sixteenth new arrival, and acknowledge it along with the rest. */
  ghost predicate Answers(s: State, f: Frame, r: Incoming) {
    && (if AnsweredAtOnce(s, f)
        then AreAcks(r.out, Accept(s.window, f.header.sequenceId), s.nextSequence, s.pending)
        else r.out == [])
    && r.state.nextSequence == (s.nextSequence + |r.out|) % TWO_TO_THE_32
    && r.state.localOrder == s.localOrder && r.state.shouldClose == s.shouldClose
  }

  // ---- One stage after the other ----

  lemma SubtractWraps(x: u32, i: nat)
    requires i < 32
    ensures Subtract(x, i + 1) == (x - (i + 1)) % TWO_TO_THE_32
  {
  }

  lemma NamedIs(h: Header, k: u32)
    ensures k in Named(h.acknowledgeId, h.acknowledgeBitfield) <==>
            k == h.acknowledgeId
            || exists i :: 0 <= i < 32 && BitAt(h.acknowledgeBitfield, i)
                        && k == (h.acknowledgeId - (i + 1)) % TWO_TO_THE_32
  {
    hide BitAt;
    hide Subtract;
    if k in Named(h.acknowledgeId, h.acknowledgeBitfield) && k != h.acknowledgeId {
      var i :| 0 <= i < 32 && BitAt(h.acknowledgeBitfield, i) && k == Subtract(h.acknowledgeId, i + 1);
      SubtractWraps(h.acknowledgeId, i);
    }
    if i :| 0 <= i < 32 && BitAt(h.acknowledgeBitfield, i) && k == (h.acknowledgeId - (i + 1)) % TWO_TO_THE_32 {
      SubtractWraps(h.acknowledgeId, i);
      SubtractNamed(h.acknowledgeId, h.acknowledgeBitfield, i);
    }
  }

  lemma SubtractNamed(ackId: u32, bits: u32, i: nat)
    requires i < 32 && BitAt(bits, i)
    ensures Subtract(ackId, i + 1) in Named(ackId, bits)
  {
    hide BitAt;
    hide Subtract;
  }

  lemma AcknowledgeExact(s: State, h: Header)
    ensures var s1 := Acknowledge(s, h);
            && s1 == s.(sent := s1.sent)
            && (forall k :: k in s1.sent <==> k in s.sent && !Acknowledges(h, k))
            && (forall k :: k in s1.sent ==> s1.sent[k] == s.sent[k])
  {
    forall k ensures HasAck(h.flags) && k in Named(h.acknowledgeId, h.acknowledgeBitfield) <==> Acknowledges(h, k) {
      NamedIs(h, k);
      hide Named;
      hide BitAt;
    }
    hide Named;
    hide HasAck;
    hide Acknowledges;
  }

  lemma DispatchExact(s: State, f: Frame)
    ensures var d, h, p := Dispatch(s, f), f.header, Packet(f.header.messageId, f.header.flags, 0, f.payload);
            var mine := h.messageId != 1 && (h.messageId != 0 || f.payload != []);
            && d.out == [] && d.state == s.(sent := d.state.sent, nextExpected := d.state.nextExpected,
                                           reorder := d.state.reorder)
            && (forall k :: k in d.state.sent <==> k in s.sent && !Lists(f, k))
            && (forall k :: k in d.state.sent ==> d.state.sent[k] == s.sent[k])
            && (if mine && BitAt(h.flags, 2) then
                  var a := Reorder.Receive(ChannelOf(s, h.channelId), h.orderId, p);
                  d.ready == a.ready && d.state == WithChannel(s, h.channelId, a.channel)
                else d.ready == (if mine then [p] else []) && d.state == s.(sent := d.state.sent))
  {
    hide Codec.DecodeIds;
    hide Reorder.Receive;
    hide BitAt;
  }

  lemma NoteExact(s: State, id: u32, now: nat)
    ensures var o := AckIfDue(NoteArrival(s, id), now);
            if s.sinceAck + 1 >= 16 then
              && AreAcks(o.out, Accept(s.window, id), s.nextSequence, s.pending)
              && o.state == s.(window := Accept(s.window, id), pending := [], unsentAck := false, lastAckTime := now,
                               sinceAck := if Accept(s.window, id).hasRemote then 0 else s.sinceAck + 1,
                               nextSequence := (s.nextSequence + |o.out|) % TWO_TO_THE_32)
            else
              o.out == []
              && o.state == s.(window := Accept(s.window, id), unsentAck := true, sinceAck := s.sinceAck + 1)
  {
    SendAckExact(NoteArrival(s, id), now);
    hide SendAck;
    hide Accept;
    hide AreAcks;
  }

  lemma AcceptHasRemote(w: Window, id: u32)
    ensures Accept(w, id).hasRemote
  {
    hide Displaced;
    hide ShiftLeft;
    hide SetBit;
  }

  lemma SameChannels(s: State, s': State, c: u8)
    requires s'.nextExpected == s.nextExpected && s'.reorder == s.reorder
    ensures ChannelOf(s', c) == ChannelOf(s, c)
  {
  }

  /** `handleIncoming` on a frame that parses, in full. */
  lemma HandleExact(s: State, f: Frame, now: nat)
    ensures var r := HandleFrame(s, f, now);
            && Frees(s, f, r.state) && Notes(s, f, r.state, now)
            && PassesOn(s, f, r) && Answers(s, f, r)
  {
    hide *;
    if IsDuplicate(s.window, f.header.sequenceId) {
      DuplicateExact(s, f, now);
    } else {
      NewNoted(s, f, now);
      NewPassed(s, f, now);
    }
  }

  lemma DuplicateExact(s: State, f: Frame, now: nat)
    requires IsDuplicate(s.window, f.header.sequenceId)
    ensures var r := HandleFrame(s, f, now);
            && Frees(s, f, r.state) && Notes(s, f, r.state, now)
            && PassesOn(s, f, r) && Answers(s, f, r)
  {
    AcknowledgeExact(s, f.header);
    hide Acknowledge;
    hide Acknowledges;
    hide Lists;
    hide IsDuplicate;
    hide BitAt;
    hide Accept;
    hide Dispatch;
    hide AckIfDue;
    hide Reorder.Receive;
  }

  lemma NewNoted(s: State, f: Frame, now: nat)
    requires !IsDuplicate(s.window, f.header.sequenceId)
    ensures var r := HandleFrame(s, f, now);
            Frees(s, f, r.state) && Notes(s, f, r.state, now)
  {
    var id := f.header.sequenceId;
    var s1 := Acknowledge(s, f.header);
    var o := AckIfDue(NoteArrival(s1, id), now);
    AcknowledgeExact(s, f.header);
    NoteExact(s1, id, now);
    DispatchExact(o.state, f);
    AcceptHasRemote(s.window, id);
    hide Acknowledge;
    hide Acknowledges;
    hide Lists;
    hide IsDuplicate;
    hide BitAt;
    hide Accept;
    hide Dispatch;
    hide AckIfDue;
    hide AreAcks;
    hide Reorder.Receive;
  }

  lemma NewPassed(s: State, f: Frame, now: nat)
    requires !IsDuplicate(s.window, f.header.sequenceId)
    ensures var r := HandleFrame(s, f, now);
            PassesOn(s, f, r) && Answers(s, f, r)
  {
    var id := f.header.sequenceId;
    var s1 := Acknowledge(s, f.header);
    var o := AckIfDue(NoteArrival(s1, id), now);
    AcknowledgeExact(s, f.header);
    NoteExact(s1, id, now);
    DispatchExact(o.state, f);
    AcceptHasRemote(s.window, id);
    hide Acknowledge;
    hide Acknowledges;
    hide Lists;
    hide IsDuplicate;
    hide BitAt;
    hide Accept;
    hide Dispatch;
    hide AckIfDue;
    hide AreAcks;
    hide Reorder.Receive;
    forall c: u8 ensures ChannelOf(o.state, c) == ChannelOf(s, c) {
      SameChannels(s, o.state, c);
    }
  }
}
