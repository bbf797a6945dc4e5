/** The retransmission budget: what the kept packets may still be resent. */
module Budget {
  import opened Numbers
  import opened Packets
  import opened SessionSpec
  import opened Link
  import opened Network
  import AckWindow
  import Codec
  import Header

  function Left(info: SentInfo): nat {
    if info.retries <= MAX_RESEND_ATTEMPTS then MAX_RESEND_ATTEMPTS - info.retries else 0
  }

  /** The sum over the kept packets of the attempts each has left. */
  function Attempts(sent: map<u32, SentInfo>): nat
    decreases |sent|
  {
    if sent == map[] then 0
    else
      var k := Least(sent.Keys);
      Smaller(sent, k);
      Left(sent[k]) + Attempts(sent - {k})
  }

  lemma Smaller(sent: map<u32, SentInfo>, k: u32)
    requires k in sent
    ensures |sent - {k}| < |sent|
  {
    assert sent.Keys == (sent - {k}).Keys + {k};
  }

  lemma {:induction false} AttemptsRemove(sent: map<u32, SentInfo>, k: u32)
    requires k in sent
    ensures Attempts(sent) == Left(sent[k]) + Attempts(sent - {k})
    decreases |sent|
  {
    var l := Least(sent.Keys);
    if l != k {
      Smaller(sent, l);
      AttemptsRemove(sent - {l}, k);
      assert sent - {l} - {k} == sent - {k} - {l};
      var l' := Least((sent - {k}).Keys);
      assert l in (sent - {k}).Keys && l' in sent.Keys;
      assert l' == l;
    }
  }

  lemma AttemptsUpdate(sent: map<u32, SentInfo>, k: u32, info: SentInfo)
    ensures Attempts(sent[k := info]) == Left(info) + Attempts(sent - {k})
    ensures k !in sent ==> sent - {k} == sent
  {
    AttemptsRemove(sent[k := info], k);
    assert sent[k := info] - {k} == sent - {k};
  }

  lemma {:induction false} AttemptsForget(sent: map<u32, SentInfo>, gone: set<u32>)
    ensures Attempts(sent - gone) <= Attempts(sent)
    decreases |sent|
  {
    if sent != map[] {
      var l := Least(sent.Keys);
      Smaller(sent, l);
      AttemptsForget(sent - {l}, gone);
      if l in gone {
        assert sent - gone == sent - {l} - gone;
      } else {
        assert sent - gone - {l} == sent - {l} - gone;
        AttemptsRemove(sent - gone, l);
      }
    } else {
      assert sent - gone == sent;
    }
  }

  // ---- Steps ----

  /** Every retransmission uses up exactly one attempt. */
  lemma {:induction false} ResendSpends(s: State, todo: set<u32>, now: nat)
    requires todo <= s.sent.Keys
    ensures |Resend(s, todo, now).out| + Attempts(Resend(s, todo, now).state.sent) == Attempts(s.sent)
    decreases |todo|
  {
    hide Resend;
    hide FrameOf;
    if todo == {} {
      ResendNothing(s, now);
    } else {
      var k := Least(todo);
      ResendStep(s, todo, k, now);
      if now - s.sent[k].sentTime > RESEND_TIMEOUT {
        if s.sent[k].retries < MAX_RESEND_ATTEMPTS {
          var o := Resend1(s, k, now);
          ResendSpends(o.state, todo - {k}, now);
          AttemptsRemove(s.sent, k);
          AttemptsUpdate(s.sent, k, o.state.sent[k]);
        }
      } else {
        ResendSpends(s, todo - {k}, now);
      }
    }
  }

  /** Retransmissions so far plus those still possible. */
  function Potential(e: Endpoint): int {
    |e.wire| - |e.log| + Attempts(e.s.sent)
  }

  function Retransmissions(e: Endpoint): int {
    |e.wire| - |e.log|
  }

  lemma {:induction false} FlushSent(s: State, acks: seq<u32>, now: nat)
    ensures Flush(s, acks, now).state.sent == s.sent
    decreases |acks|
  {
    var n := if |acks| < MAX_ACK_PER_PACKET then |acks| else MAX_ACK_PER_PACKET;
    FlushStep(s, acks, n, now);
    hide Flush;
    hide FrameOf;
    if acks != [] {
      FlushSent(SendControl(s, RichAckPacket(acks[..n]), now).state, acks[n..], now);
    }
  }

  lemma SendAckSent(s: State, now: nat)
    ensures SendAck(s, now).state.sent == s.sent
  {
    FlushSent(s, s.pending, now);
    hide Flush;
    hide FrameOf;
  }

  lemma DispatchSent(s: State, f: Header.Frame)
    ensures Attempts(Dispatch(s, f).state.sent) <= Attempts(s.sent)
    ensures Dispatch(s, f).out == []
  {
    AttemptsForget(s.sent, Members(Codec.DecodeIds(f.payload)));
    hide Attempts;
    hide IsOrdered;
    hide Codec.DecodeIds;
  }

  lemma HandleSpends(s: State, f: Header.Frame, now: nat)
    ensures Attempts(HandleFrame(s, f, now).state.sent) <= Attempts(s.sent)
  {
    var s1 := Acknowledge(s, f.header);
    AttemptsForget(s.sent, AckWindow.Named(f.header.acknowledgeId, f.header.acknowledgeBitfield));
    var s2 := NoteArrival(s1, f.header.sequenceId);
    SendAckSent(s2, now);
    DispatchSent(AckIfDue(s2, now).state, f);
    hide Attempts;
    hide SendAck;
    hide Dispatch;
    hide AckWindow.IsDuplicate;
    hide AckWindow.Named;
    hide AckWindow.Accept;
    hide HasAck;
  }

  lemma ReceivePotential(e: Endpoint, data: Bytes, now: nat)
    ensures Potential(DoReceive(e, data, now)) <= Potential(e)
  {
    match Header.Receive(data)
    case None =>
      hide Header.Receive;
      hide Attempts;
    case Some(f) =>
      HandleSpends(e.s, f, now);
      DuplicateSilent(e.s, f, now);
      hide Attempts;
      hide HandleFrame;
      hide Header.Receive;
      hide AckWindow.IsDuplicate;
      hide AckWindow.Evicted;
      hide IsOrdered;
  }

  lemma UpdatePotential(e: Endpoint, now: nat)
    ensures Potential(DoUpdate(e, now)) == Potential(e)
  {
    var r := ResendAll(e.s, now);
    ResendSpends(e.s, e.s.sent.Keys, now);
    SendAckSent(r.state, now);
    hide Attempts;
    hide Resend;
    hide SendAck;
  }

  lemma SendPotential(e: Endpoint, p: Packet, now: nat)
    requires e.s.nextSequence !in e.s.sent
    ensures Potential(DoSend(e, p, now))
         == Potential(e) + if IsTracked(p.flag) then MAX_RESEND_ATTEMPTS else 0
  {
    hide FrameOf;
    hide IsOrdered;
    var o := Send(e.s, p, now);
    if IsTracked(p.flag) {
      AttemptsUpdate(e.s.sent, e.s.nextSequence, o.state.sent[e.s.nextSequence]);
    }
    hide Attempts;
  }
}
