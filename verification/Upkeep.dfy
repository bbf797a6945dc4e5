/** What the timers and counters of a session amount to over whole runs: what is sent again and
    what never again, when an acknowledgement goes out, and when the connection is given up. */
module Upkeep {
  import opened Numbers
  import opened Packets
  import opened AckWindow
  import opened Header
  import opened SessionSpec
  import opened Link
  import opened LinkSteps
  import opened Network
  import opened Outgoing
  import opened Resending
  import opened Receipt
  import Codec
  import Guarantees
  import LinkEmit
  import Misuse
  import Unordered

  // ---- One endpoint ----

  /** What is needed of the sender's invariants here. */
  ghost predicate Tidy(e: Endpoint) {
    && e.s.nextSequence == |e.log|
    && (forall k :: k in e.s.sent ==> k < |e.log| && e.s.sent[k].sequenceId == k && e.s.sent[k].retries <= 8)
    && (forall k :: k in e.s.sent ==> Copies(e.wire, k) == 1 + e.s.sent[k].retries)
    && (!e.s.window.hasRemote ==> e.s.sinceAck == 0)
  }

  lemma GoodTidy(e: Endpoint, peer: Endpoint)
    requires Good(e, peer)
    ensures Tidy(e)
  {
    hide ChannelsInv;
    hide Represents;
    hide FlagsInv;
    hide OnceInv;
    hide AnnounceInv;
    hide LogInv;
    NextIsLogSize(e, peer.accepted);
    hide RichInv;
    hide WireInv;
    hide NothingLost;
    hide Copies;
    hide IsTracked;
  }

  lemma RunTidy(run: seq<Net>, acts: seq<Action>, t: nat, side: Side)
    requires IsRun(run, acts) && t <= |acts|
    ensures Tidy(run[t].End(side))
  {
    Guarantees.RunGood(run, acts, t, side);
    GoodTidy(run[t].End(side), run[t].End(Other(side)));
    hide IsRun;
    hide Good;
    hide Tidy;
  }

  /** What a delivered frame does to the session. */
  lemma DeliveryParts(e: Endpoint, f: Frame, now: nat)
    requires Receive(Datagram(f)) == Some(f)
    ensures var r, e' := HandleFrame(e.s, f, now), DoReceive(e, Datagram(f), now);
            && e'.s == r.state && e'.wire == e.wire + r.out && |e'.log| == |e.log| + |r.out|
            && e'.acceptLog == (if IsDuplicate(e.s.window, f.header.sequenceId) then e.acceptLog
                                else e.acceptLog + [f.header.sequenceId])
  {
    hide Receive;
    hide Datagram;
    hide HandleFrame;
    hide IsDuplicate;
    hide Evicted;
    hide IsOrdered;
  }

  lemma UpdateLog(e: Endpoint, now: nat)
    ensures AcksLate(e.s, now) ==> |DoUpdate(e, now).log| == |e.log| + |Update(e.s, now).out|
  {
    LateLog(e, now);
    if AcksLate(e.s, now) {
      QuietLoop(e.s, now);
      hide ToResend;
      hide Closes;
    }
    hide ResendAll;
    hide AckIfLate;
  }

  lemma LateLog(e: Endpoint, now: nat)
    ensures |DoUpdate(e, now).log| - |e.log| == |AckIfLate(ResendAll(e.s, now), now).out|
    ensures Update(e.s, now).out == ResendAll(e.s, now).out + AckIfLate(ResendAll(e.s, now), now).out
  {
    hide ResendAll;
    hide AckIfLate;
  }

  // ---- How often a frame goes out ----

  lemma {:induction false} NoCopies(out: seq<Frame>, k: u32)
    requires forall i :: 0 <= i < |out| ==> out[i].header.sequenceId != k
    ensures Copies(out, k) == 0
  {
    if out != [] {
      NoCopies(out[..|out| - 1], k);
    }
  }

  /** Acknowledgements go out under ids of their own. */
  lemma AcksElsewhere(out: seq<Frame>, w: Window, first: u32, ids: seq<u32>, k: u32)
    requires AreAcks(out, w, first, ids) && k < first && first + |out| < TWO_TO_THE_32
    ensures Copies(out, k) == 0
  {
    hide AreAcks;
    forall i: nat | i < |out| ensures out[i].header.sequenceId != k {
      AckSequence(out, w, first, ids, i);
    }
    NoCopies(out, k);
  }

  lemma AckSequence(out: seq<Frame>, w: Window, first: u32, ids: seq<u32>, i: nat)
    requires AreAcks(out, w, first, ids) && i < |out| && first + |out| < TWO_TO_THE_32
    ensures out[i].header.sequenceId == first + i
  {
    hide FlagsOf;
    hide Codec.DecodeIds;
    NoWrap(first, i);
  }

  lemma NoWrap(first: u32, i: nat)
    requires first + i < TWO_TO_THE_32
    ensures (first + i) % TWO_TO_THE_32 == first + i
  {
  }

  /** One copy of each listed packet. */
  lemma {:induction false} CopiesListed(out: seq<Frame>, ids: seq<u32>, s: State, k: u32)
    requires AreCopies(out, ids, s) && Ascending(ids) && forall j :: j in s.sent ==> s.sent[j].sequenceId == j
    ensures Copies(out, k) == if k in ids then 1 else 0
    decreases |out|
  {
    if out != [] {
      var n := |out| - 1;
      LastListed(out, ids, s);
      CopiesListed(out[..n], ids[..n], s, k);
      assert ids == ids[..n] + [ids[n]];
      assert forall i :: 0 <= i < n ==> ids[..n][i] == ids[i];
      hide AreCopies;
    }
  }

  lemma LastListed(out: seq<Frame>, ids: seq<u32>, s: State)
    requires AreCopies(out, ids, s) && Ascending(ids) && out != []
    requires forall j :: j in s.sent ==> s.sent[j].sequenceId == j
    ensures var n := |out| - 1;
            && AreCopies(out[..n], ids[..n], s) && Ascending(ids[..n])
            && out[n].header.sequenceId == ids[n]
  {
    hide FlagsOf;
  }

  /** What one step adds of a sequence id already used: a tick, one copy exactly when it is to be
      sent again; anything else, nothing. */
  lemma StepCopies(e: Endpoint, act: Action, k: u32)
    requires Tidy(e) && k < |e.log| && |Step(e, act).log| < TWO_TO_THE_32
    requires act.DeliverFrame? ==> Receive(Datagram(act.frame)) == Some(act.frame)
    requires act.Noise? ==> Receive(act.data) == None
    ensures Copies(Step(e, act).wire, k)
         == Copies(e.wire, k) + if act.Tick? && ToResend(e.s, k, act.now) then 1 else 0
  {
    hide Copies;
    hide ToResend;
    match act
    case SendPacket(_, p, now) => SendCopies(e, p, now, k);
    case DeliverFrame(_, f, now) => DeliverCopies(e, f, now, k);
    case Noise(_, data, now) =>
      NoiseIgnored(e, data, now);
      hide DoReceive;
    case Tick(_, now) => TickCopies(e, now, k);
  }

  lemma SendCopies(e: Endpoint, p: Packet, now: nat, k: u32)
    requires Tidy(e) && k < |e.log|
    ensures Copies(DoSend(e, p, now).wire, k) == Copies(e.wire, k)
  {
    SendExact(e.s, p, now);
    LinkEmit.CopiesAppend(e.wire, Send(e.s, p, now).out, k);
    hide Send;
    hide FlagsOf;
    NoCopies(Send(e.s, p, now).out, k);
    hide Copies;
  }

  lemma DeliverCopies(e: Endpoint, f: Frame, now: nat, k: u32)
    requires Tidy(e) && k < |e.log| && Receive(Datagram(f)) == Some(f)
    requires |DoReceive(e, Datagram(f), now).log| < TWO_TO_THE_32
    ensures Copies(DoReceive(e, Datagram(f), now).wire, k) == Copies(e.wire, k)
  {
    DeliveryParts(e, f, now);
    var r := HandleFrame(e.s, f, now);
    assert e.s.nextSequence == |e.log|;
    hide *;
    LinkEmit.CopiesAppend(e.wire, r.out, k);
    AnswerCopies(e.s, f, now, k);
  }

  lemma AnswerCopies(s: State, f: Frame, now: nat, k: u32)
    requires k < s.nextSequence && s.nextSequence + |HandleFrame(s, f, now).out| < TWO_TO_THE_32
    ensures Copies(HandleFrame(s, f, now).out, k) == 0
  {
    HandleExact(s, f, now);
    var r := HandleFrame(s, f, now);
    hide HandleFrame;
    hide Frees;
    hide Notes;
    hide PassesOn;
    hide AreAcks;
    hide Accept;
    hide IsDuplicate;
    if AnsweredAtOnce(s, f) {
      AcksElsewhere(r.out, Accept(s.window, f.header.sequenceId), s.nextSequence, s.pending, k);
    } else {
      NoCopies(r.out, k);
    }
    hide Copies;
  }

  lemma TickCopies(e: Endpoint, now: nat, k: u32)
    requires Tidy(e) && k < |e.log| && |DoUpdate(e, now).log| < TWO_TO_THE_32
    ensures Copies(DoUpdate(e, now).wire, k) == Copies(e.wire, k) + if ToResend(e.s, k, now) then 1 else 0
  {
    UpdateExact(e.s, now);
    UpdateParts(e, now);
    UpdateLog(e, now);
    hide DoUpdate;
    var o := Update(e.s, now);
    hide Update;
    hide ToResend;
    hide Closes;
    var ids: seq<u32> :| Updates(e.s, o, ids, now);
    OutCopies(e, o, ids, now, k);
    LinkEmit.CopiesAppend(e.wire, o.out, k);
    hide Copies;
  }

  lemma OutCopies(e: Endpoint, o: Output, ids: seq<u32>, now: nat, k: u32)
    requires Tidy(e) && k < |e.log| && Updates(e.s, o, ids, now)
    requires |e.log| < TWO_TO_THE_32 && (AcksLate(e.s, now) ==> |e.log| + |o.out| < TWO_TO_THE_32)
    ensures Copies(o.out, k) == if ToResend(e.s, k, now) then 1 else 0
  {
    var resent, acks := o.out[..|ids|], o.out[|ids|..];
    assert o.out == resent + acks;
    LinkEmit.CopiesAppend(resent, acks, k);
    CopiesListed(resent, ids, e.s, k);
    hide AreCopies;
    hide SentAgain;
    hide ToResend;
    hide AreAcks;
    if AcksLate(e.s, now) {
      AcksElsewhere(acks, e.s.window, e.s.nextSequence, e.s.pending, k);
    } else {
      NoCopies(acks, k);
    }
    hide Copies;
  }

  // ---- Acknowledged packets ----

  lemma StepSent(e: Endpoint, act: Action, k: u32)
    requires Tidy(e) && k < |e.log| && k !in e.s.sent
    requires act.DeliverFrame? ==> Receive(Datagram(act.frame)) == Some(act.frame)
    requires act.Noise? ==> Receive(act.data) == None
    ensures k !in Step(e, act).s.sent
  {
    match act
    case SendPacket(_, p, now) =>
      SendExact(e.s, p, now);
      hide Send;
      hide FlagsOf;
      hide Copies;
    case DeliverFrame(_, f, now) =>
      DeliveryParts(e, f, now);
      FreesOnly(e.s, f, now, k);
      hide Tidy;
      hide HandleFrame;
      hide DoReceive;
      hide IsDuplicate;
      hide Receive;
      hide Datagram;
    case Noise(_, data, now) =>
      NoiseIgnored(e, data, now);
      hide DoReceive;
    case Tick(_, now) =>
      UpdateParts(e, now);
      UpdateExact(e.s, now);
      hide Tidy;
      hide DoUpdate;
      hide Update;
      hide AreCopies;
      hide AreAcks;
      hide ToResend;
      hide Closes;
  }

  lemma FreesOnly(s: State, f: Frame, now: nat, k: u32)
    ensures k in HandleFrame(s, f, now).state.sent ==> k in s.sent && !Acknowledges(f.header, k)
  {
    HandleExact(s, f, now);
    hide HandleFrame;
    hide Notes;
    hide PassesOn;
    hide Answers;
    hide Acknowledges;
    hide Lists;
    hide IsDuplicate;
  }

  /** The frames of a step of a run. */
  lemma Sendable(run: seq<Net>, acts: seq<Action>, t: nat)
    requires IsRun(run, acts) && t < |acts|
    ensures acts[t].DeliverFrame? ==> Receive(Datagram(acts[t].frame)) == Some(acts[t].frame)
    ensures acts[t].Noise? ==> Receive(acts[t].data) == None
    ensures var side := acts[t].side;
            && run[t + 1].End(side) == Step(run[t].End(side), acts[t])
            && run[t + 1].End(Other(side)) == run[t].End(Other(side))
            && |run[t + 1].End(side).log| < TWO_TO_THE_32
  {
    ApplyEnds(run[t], acts[t]);
    hide Apply;
    hide Step;
    hide Receive;
    hide Datagram;
    hide MaySend;
    var side := acts[t].side;
    assert Taken(run[t], acts[t], run[t + 1]);
    if acts[t].DeliverFrame? {
      Guarantees.RunGood(run, acts, t, Other(side));
      hide IsRun;
      assert Other(Other(side)) == side;
      hide Good;
      WireReceives(run[t].End(Other(side)), run[t].End(side), acts[t].frame);
    }
  }

  lemma Claimed(run: seq<Net>, acts: seq<Action>, t: nat, side: Side, f: Frame, k: u32)
    requires IsRun(run, acts) && t <= |acts| && f in run[t].End(Other(side)).wire && Acknowledges(f.header, k)
    ensures k < |run[t].End(side).log|
  {
    hide Taken;
    hide Good;
    hide Claims;
    hide Acknowledges;
    hide Codec.DecodeIds;
    var e, peer := run[t].End(side), run[t].End(Other(side));
    Guarantees.ClaimsAreAccepted(run, acts, t, Other(side), f);
    Guarantees.RunGood(run, acts, t, Other(side));
    assert Other(Other(side)) == side;
    Unordered.AcceptedSent(peer, e);
    Misuse.ClaimedIff(f, k);
  }

  /** Delivered once, a header frees what it names. */
  lemma FreedNow(run: seq<Net>, acts: seq<Action>, t: nat, k: u32)
    requires IsRun(run, acts) && t < |acts| && acts[t].DeliverFrame? && Acknowledges(acts[t].frame.header, k)
    ensures var e, e' := run[t].End(acts[t].side), run[t + 1].End(acts[t].side);
            k < |e.log| && k !in e'.s.sent && Copies(e'.wire, k) == Copies(e.wire, k)
  {
    hide Tidy;
    hide Step;
    hide Copies;
    hide Acknowledges;
    hide ToResend;
    var side, f := acts[t].side, acts[t].frame;
    assert Taken(run[t], acts[t], run[t + 1]);
    assert f in run[t].End(Other(side)).wire;
    hide Taken;
    Sendable(run, acts, t);
    RunTidy(run, acts, t, side);
    Claimed(run, acts, t, side, f, k);
    StepCopies(run[t].End(side), acts[t], k);
    DeliveryFrees(run[t].End(side), acts[t], k);
  }

  /** What is not kept stays so. */
  lemma StillFreed(run: seq<Net>, acts: seq<Action>, u: nat, side: Side, k: u32)
    requires IsRun(run, acts) && u < |acts|
    requires k < |run[u].End(side).log| && k !in run[u].End(side).s.sent
    ensures k !in run[u + 1].End(side).s.sent
    ensures Copies(run[u + 1].End(side).wire, k) == Copies(run[u].End(side).wire, k)
  {
    hide Taken;
    hide Tidy;
    hide Step;
    hide Copies;
    hide ToResend;
    Sendable(run, acts, u);
    RunTidy(run, acts, u, side);
    var e, act := run[u].End(side), acts[u];
    if act.side == side {
      StepCopies(e, act, k);
      StepSent(e, act, k);
      NotKept(e.s, k, if act.Tick? then act.now else 0);
    }
  }

  /** Whatever a delivered frame's header names is no longer kept, whatever else the frame carries,
      and is never kept or transmitted again. */
  lemma {:induction false} FreedForGood(run: seq<Net>, acts: seq<Action>, t: nat, u: nat, k: u32)
    requires IsRun(run, acts) && t < u <= |acts|
    requires acts[t].DeliverFrame? && Acknowledges(acts[t].frame.header, k)
    ensures var e, e' := run[t].End(acts[t].side), run[u].End(acts[t].side);
            k < |e.log| <= |e'.log| && k !in e'.s.sent && Copies(e'.wire, k) == Copies(e.wire, k)
    decreases u
  {
    hide *;
    Guarantees.RunGrows(run, acts, t, u, acts[t].side);
    if u == t + 1 {
      FreedNow(run, acts, t, k);
    } else {
      FreedForGood(run, acts, t, u - 1, k);
      StillFreed(run, acts, u - 1, acts[t].side, k);
    }
  }

  lemma NotKept(s: State, k: u32, now: nat)
    requires k !in s.sent
    ensures !ToResend(s, k, now)
  {
  }

  lemma DeliveryFrees(e: Endpoint, act: Action, k: u32)
    requires act.DeliverFrame? && Receive(Datagram(act.frame)) == Some(act.frame)
    requires Acknowledges(act.frame.header, k)
    ensures k !in Step(e, act).s.sent
  {
    DeliveryParts(e, act.frame, act.now);
    FreesOnly(e.s, act.frame, act.now, k);
    hide HandleFrame;
    hide DoReceive;
    hide Receive;
    hide Datagram;
    hide Acknowledges;
    hide IsDuplicate;
  }

  // ---- When acknowledgements go out ----

  ghost predicate Transmitted(n: Net, n': Net, side: Side) {
    |n.End(side).wire| < |n'.End(side).wire|
  }

  /** The time of the side's last transmission so far. */
  ghost function LastSent(run: seq<Net>, acts: seq<Action>, t: nat, side: Side): nat
    requires t <= |acts| && |run| == |acts| + 1
  {
    if t == 0 then 0
    else if acts[t - 1].side == side && Transmitted(run[t - 1], run[t], side) then acts[t - 1].now
    else LastSent(run, acts, t - 1, side)
  }

  /** Something has arrived since then. */
  ghost predicate Owing(run: seq<Net>, acts: seq<Action>, t: nat, side: Side)
    requires t <= |acts| && |run| == |acts| + 1
  {
    && t > 0
    && !(acts[t - 1].side == side && Transmitted(run[t - 1], run[t], side))
    && ((acts[t - 1].side == side && acts[t - 1].DeliverFrame?) || Owing(run, acts, t - 1, side))
  }

  /** How many new ids have been accepted since then. */
  ghost function Unanswered(run: seq<Net>, acts: seq<Action>, t: nat, side: Side): int
    requires t <= |acts| && |run| == |acts| + 1
  {
    if t == 0 || (acts[t - 1].side == side && Transmitted(run[t - 1], run[t], side)) then 0
    else Unanswered(run, acts, t - 1, side) + |run[t].End(side).acceptLog| - |run[t - 1].End(side).acceptLog|
  }

  /** The timers after a step. */
  ghost predicate TimersFollow(e: Endpoint, e': Endpoint, arrival: bool, now: nat) {
    if |e.wire| < |e'.wire| then e'.s.lastAckTime == now && !e'.s.unsentAck && e'.s.sinceAck == 0
    else
      && e'.s.lastAckTime == e.s.lastAckTime && e'.s.unsentAck == (arrival || e.s.unsentAck)
      && e'.s.sinceAck == e.s.sinceAck + |e'.acceptLog| - |e.acceptLog|
  }

  lemma StepTimers(e: Endpoint, act: Action)
    requires Tidy(e)
    requires act.DeliverFrame? ==> Receive(Datagram(act.frame)) == Some(act.frame)
    requires act.Noise? ==> Receive(act.data) == None
    ensures TimersFollow(e, Step(e, act), act.DeliverFrame?, act.now)
  {
    match act
    case SendPacket(_, p, now) =>
      Misuse.SendParts(e, p, now);
      SendTimers(e, p, now);
    case DeliverFrame(_, f, now) =>
      DeliverTimers(e, f, now);
      hide DoReceive;
    case Noise(_, data, now) =>
      NoiseIgnored(e, data, now);
      hide DoReceive;
    case Tick(_, now) =>
      TickTimers(e, now);
      hide DoUpdate;
  }

  lemma SendTimers(e: Endpoint, p: Packet, now: nat)
    requires Tidy(e)
    ensures TimersFollow(e, DoSend(e, p, now), false, now)
  {
    SendExact(e.s, p, now);
    hide Send;
    hide FlagsOf;
    hide Copies;
  }

  lemma DeliverTimers(e: Endpoint, f: Frame, now: nat)
    requires Receive(Datagram(f)) == Some(f)
    ensures TimersFollow(e, DoReceive(e, Datagram(f), now), true, now)
  {
    DeliveryParts(e, f, now);
    HandleExact(e.s, f, now);
    hide HandleFrame;
    hide DoReceive;
    hide Receive;
    hide Datagram;
    hide Frees;
    hide PassesOn;
    hide Accept;
    hide IsDuplicate;
    var r := HandleFrame(e.s, f, now);
    if AnsweredAtOnce(e.s, f) {
      SomeAcks(r.out, Accept(e.s.window, f.header.sequenceId), e.s.nextSequence, e.s.pending);
    }
    hide AreAcks;
  }

  lemma TickTimers(e: Endpoint, now: nat)
    requires Tidy(e)
    ensures TimersFollow(e, DoUpdate(e, now), false, now)
  {
    UpdateParts(e, now);
    UpdateExact(e.s, now);
    var o := Update(e.s, now);
    hide DoUpdate;
    hide Update;
    var ids: seq<u32> :| Updates(e.s, o, ids, now);
    hide Copies;
    hide AreCopies;
    hide AreAcks;
    hide SentAgain;
    hide ToResend;
    hide AcksLate;
    hide Closes;
  }

  /** What the three timers of a session stand for, at every point of every run: when it last
      transmitted, whether anything has arrived since, and how many new ids. */
  lemma {:induction false} TimersTell(run: seq<Net>, acts: seq<Action>, t: nat, side: Side)
    requires IsRun(run, acts) && t <= |acts|
    ensures var s := run[t].End(side).s;
            && s.lastAckTime == LastSent(run, acts, t, side)
            && s.unsentAck == Owing(run, acts, t, side)
            && s.sinceAck == Unanswered(run, acts, t, side)
    decreases t
  {
    hide *;
    if t == 0 {
      FreshTimers(run, acts, side);
    } else {
      TimersTell(run, acts, t - 1, side);
      RunLength(run, acts);
      SideStep(run, acts, t - 1, side);
      TimersMore(run, acts, t - 1, side);
    }
  }

  lemma RunLength(run: seq<Net>, acts: seq<Action>)
    requires IsRun(run, acts)
    ensures |run| == |acts| + 1
  {
    hide Taken;
  }

  lemma FreshTimers(run: seq<Net>, acts: seq<Action>, side: Side)
    requires IsRun(run, acts)
    ensures var s := run[0].End(side).s;
            && s.lastAckTime == LastSent(run, acts, 0, side) && s.unsentAck == Owing(run, acts, 0, side)
            && s.sinceAck == Unanswered(run, acts, 0, side) && !s.shouldClose
  {
    hide Taken;
  }

  /** One step of a run as one of its sides sees it. */
  lemma SideStep(run: seq<Net>, acts: seq<Action>, t: nat, side: Side)
    requires IsRun(run, acts) && t < |acts|
    ensures var e, e', act := run[t].End(side), run[t + 1].End(side), acts[t];
            if act.side == side then
              TimersFollow(e, e', act.DeliverFrame?, act.now)
              && e'.s.shouldClose == (e.s.shouldClose || GivesUp(e, act))
            else e' == e
  {
    RunLength(run, acts);
    Sendable(run, acts, t);
    RunTidy(run, acts, t, side);
    hide *;
    if acts[t].side == side {
      StepTimers(run[t].End(side), acts[t]);
      StepCloses(run[t].End(side), acts[t]);
    } else {
      OtherSide(acts[t].side, side);
    }
  }

  lemma OtherSide(a: Side, b: Side)
    requires a != b
    ensures b == Other(a)
  {
  }

  lemma TimersMore(run: seq<Net>, acts: seq<Action>, t: nat, side: Side)
    requires t < |acts| && |run| == |acts| + 1
    requires var e, e', act := run[t].End(side), run[t + 1].End(side), acts[t];
             if act.side == side then TimersFollow(e, e', act.DeliverFrame?, act.now) else e' == e
    requires var s := run[t].End(side).s;
             && s.lastAckTime == LastSent(run, acts, t, side) && s.unsentAck == Owing(run, acts, t, side)
             && s.sinceAck == Unanswered(run, acts, t, side)
    ensures var s := run[t + 1].End(side).s;
            && s.lastAckTime == LastSent(run, acts, t + 1, side) && s.unsentAck == Owing(run, acts, t + 1, side)
            && s.sinceAck == Unanswered(run, acts, t + 1, side)
  {
  }

  ghost predicate AcksAt(s: State, act: Action) {
    || (act.DeliverFrame? && AnsweredAtOnce(s, act.frame))
    || (act.Tick? && AcksLate(s, act.now))
  }

  /** When a session sends an acknowledgement of its own. */
  ghost predicate OwnAck(run: seq<Net>, acts: seq<Action>, t: nat, side: Side)
    requires t < |acts| && |run| == |acts| + 1
  {
    var s, act := run[t].End(side).s, acts[t];
    || (act.DeliverFrame?
        && !IsDuplicate(s.window, act.frame.header.sequenceId) && Unanswered(run, acts, t, side) + 1 >= 16)
    || (act.Tick?
        && !Closes(s, act.now) && (forall k :: !ToResend(s, k, act.now))
        && Owing(run, acts, t, side) && act.now - LastSent(run, acts, t, side) > 100)
  }

  /** Exactly at the sixteenth new id accepted since its last transmission, and exactly at a tick
      that finds something to have arrived since then, more than 100 milliseconds after it, and
      neither sends anything again nor gives the connection up. */
  lemma AcksExactly(run: seq<Net>, acts: seq<Action>, t: nat)
    requires IsRun(run, acts) && t < |acts| && !acts[t].SendPacket?
    ensures var side := acts[t].side;
            |run[t].End(side).log| < |run[t + 1].End(side).log| <==> OwnAck(run, acts, t, side)
  {
    var side := acts[t].side;
    RunLength(run, acts);
    TimersTell(run, acts, t, side);
    Sendable(run, acts, t);
    hide *;
    OwnAckIs(run, acts, t, side);
    AcksOfStep(run[t].End(side), acts[t]);
  }

  lemma OwnAckIs(run: seq<Net>, acts: seq<Action>, t: nat, side: Side)
    requires t < |acts| && |run| == |acts| + 1
    requires var s := run[t].End(side).s;
             && s.lastAckTime == LastSent(run, acts, t, side) && s.unsentAck == Owing(run, acts, t, side)
             && s.sinceAck == Unanswered(run, acts, t, side)
    ensures OwnAck(run, acts, t, side) <==> AcksAt(run[t].End(side).s, acts[t])
  {
    hide LastSent;
    hide Owing;
    hide Unanswered;
    hide Closes;
    hide ToResend;
    hide IsDuplicate;
  }

  lemma AcksOfStep(e: Endpoint, act: Action)
    requires !act.SendPacket?
    requires act.DeliverFrame? ==> Receive(Datagram(act.frame)) == Some(act.frame)
    requires act.Noise? ==> Receive(act.data) == None
    ensures |e.log| < |Step(e, act).log| <==> AcksAt(e.s, act)
  {
    match act
    case DeliverFrame(_, f, now) =>
      DeliveryParts(e, f, now);
      AnsweredIff(e.s, f, now);
      hide DoReceive;
      hide HandleFrame;
      hide IsDuplicate;
      hide Receive;
      hide Datagram;
    case Noise(_, data, now) =>
      NoiseIgnored(e, data, now);
      hide DoReceive;
    case Tick(_, now) =>
      LateLog(e, now);
      LateOut(e.s, now);
      hide DoUpdate;
      hide AcksLate;
      hide ResendAll;
      hide AckIfLate;
  }

  lemma AnsweredIff(s: State, f: Frame, now: nat)
    ensures HandleFrame(s, f, now).out != [] <==> AnsweredAtOnce(s, f)
  {
    HandleExact(s, f, now);
    var r := HandleFrame(s, f, now);
    if AnsweredAtOnce(s, f) {
      SomeAcks(r.out, Accept(s.window, f.header.sequenceId), s.nextSequence, s.pending);
    }
    hide HandleFrame;
    hide Frees;
    hide Notes;
    hide PassesOn;
    hide AreAcks;
    hide IsDuplicate;
  }

  // ---- Giving up ----

  /** At this tick a packet that went out nine times was last sent over 200 milliseconds ago. */
  ghost predicate GivesUp(e: Endpoint, act: Action) {
    act.Tick?
    && exists k :: k in e.s.sent && Copies(e.wire, k) == 9 && act.now - e.s.sent[k].sentTime > 200
  }

  lemma ClosesIff(e: Endpoint, now: nat)
    requires Tidy(e)
    ensures Closes(e.s, now) <==>
            exists k :: k in e.s.sent && Copies(e.wire, k) == 9 && now - e.s.sent[k].sentTime > 200
  {
    hide Copies;
    if Closes(e.s, now) {
      var k :| Exhausted(e.s, k, now);
      assert k in e.s.sent && Copies(e.wire, k) == 9;
    }
    if k :| k in e.s.sent && Copies(e.wire, k) == 9 && now - e.s.sent[k].sentTime > 200 {
      assert Exhausted(e.s, k, now);
    }
  }

  lemma StepCloses(e: Endpoint, act: Action)
    requires Tidy(e)
    requires act.DeliverFrame? ==> Receive(Datagram(act.frame)) == Some(act.frame)
    requires act.Noise? ==> Receive(act.data) == None
    ensures Step(e, act).s.shouldClose == (e.s.shouldClose || GivesUp(e, act))
  {
    match act
    case SendPacket(_, p, now) =>
      SendExact(e.s, p, now);
      hide Send;
      hide FlagsOf;
    case DeliverFrame(_, f, now) =>
      DeliveryParts(e, f, now);
      NeverCloses(e.s, f, now);
      hide DoReceive;
      hide HandleFrame;
      hide Receive;
      hide Datagram;
    case Noise(_, data, now) =>
      NoiseIgnored(e, data, now);
      hide DoReceive;
    case Tick(_, now) =>
      UpdateParts(e, now);
      UpdateExact(e.s, now);
      ClosesIff(e, now);
      hide DoUpdate;
      hide Update;
      hide Copies;
      hide AreCopies;
      hide AreAcks;
      hide ToResend;
      hide SentAgain;
      hide Closes;
  }

  lemma NeverCloses(s: State, f: Frame, now: nat)
    ensures HandleFrame(s, f, now).state.shouldClose == s.shouldClose
  {
    HandleExact(s, f, now);
    hide HandleFrame;
    hide Frees;
    hide Notes;
    hide PassesOn;
    hide AreAcks;
    hide IsDuplicate;
  }

  /** A session asks for its connection to be closed exactly when some earlier tick of its own found
      a kept packet that had gone out nine times, the last time over 200 milliseconds before. */
  lemma {:induction false} GivenUpIff(run: seq<Net>, acts: seq<Action>, t: nat, side: Side)
    requires IsRun(run, acts) && t <= |acts|
    ensures run[t].End(side).s.shouldClose <==>
            exists u :: 0 <= u < t && acts[u].side == side && GivesUp(run[u].End(side), acts[u])
    decreases t
  {
    hide *;
    RunLength(run, acts);
    if t == 0 {
      FreshTimers(run, acts, side);
    } else {
      GivenUpIff(run, acts, t - 1, side);
      SideStep(run, acts, t - 1, side);
    }
  }

  /** At every step of every run: a sequence id already used goes out once more exactly at a tick at
      which its packet is kept, due, and before every exhausted one. */
  lemma RetransmitsExactly(run: seq<Net>, acts: seq<Action>, t: nat, k: u32)
    requires IsRun(run, acts) && t < |acts| && k < |run[t].End(acts[t].side).log|
    ensures var e, e' := run[t].End(acts[t].side), run[t + 1].End(acts[t].side);
            Copies(e'.wire, k) == Copies(e.wire, k) + if acts[t].Tick? && ToResend(e.s, k, acts[t].now) then 1 else 0
  {
    hide Taken;
    hide Tidy;
    hide Step;
    hide Copies;
    hide ToResend;
    Sendable(run, acts, t);
    RunTidy(run, acts, t, acts[t].side);
    StepCopies(run[t].End(acts[t].side), acts[t], k);
  }
}
