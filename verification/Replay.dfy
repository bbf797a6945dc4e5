/** A run that returns one unordered packet twice: more than 2^15 packets arrive with one held
    back, and the late one pushes the oldest id out of the history. */
module Replay {
  import opened Numbers
  import opened Packets
  import opened AckWindow
  import opened Header
  import opened SessionSpec
  import opened Link
  import opened LinkSteps
  import opened Network
  import opened Unordered
  import Codec
  import Guarantees
  import LinkEmit
  import LinkReceive
  import Reorder

  /** A user's packet without payload, order or retransmission. */
  const PLAIN: Packet := Packet(128, UNRELIABLE, 0, [])

  function FromOne(k: nat): (ids: set<u32>)
    requires k < TWO_TO_THE_32
    ensures forall id :: id in ids <==> 1 <= id <= k
  {
    if k == 0 then {} else FromOne(k - 1) + {k}
  }

  lemma {:induction false} FromOneSize(k: nat)
    requires k < TWO_TO_THE_32
    ensures |FromOne(k)| == k
  {
    if k > 0 {
      FromOneSize(k - 1);
    }
  }

  // ---- Sending ----

  /** The session has sent `PLAIN` under the ids below `count`, and nothing else. */
  ghost predicate SentPlain(e: Endpoint, count: nat) {
    && |e.log| == |e.wire| == e.s.nextSequence == count
    && forall i :: 0 <= i < count ==> e.log[i].packet == PLAIN && e.wire[i].header.sequenceId == i
  }

  lemma PlainFlags()
    ensures !IsOrdered(PLAIN.flag) && !HasAck(PLAIN.flag) && !IsAckShaped(PLAIN.messageId, PLAIN.payload)
  {
    LinkEmit.ControlEntryOk(PLAIN);
  }

  lemma SendsPlain(e: Endpoint, count: nat)
    requires SentPlain(e, count) && count + 1 < TWO_TO_THE_32
    ensures SentPlain(DoSend(e, PLAIN, 0), count + 1) && MaySend(e, PLAIN)
  {
    PlainFlags();
    SendEffect(e.s, PLAIN, 0);
    hide Send;
    hide FrameOf;
    hide IsOrdered;
    hide HasAck;
    hide IsAckShaped;
  }

  // ---- Arrivals ----

  /** A first arrival, or one that passes as such, as far as the receiver's records go; it sends
      one acknowledgement at most. */
  ghost predicate Took(e: Endpoint, e': Endpoint, id: u32) {
    && e'.accepted == e.accepted + {id}
    && e'.evicted == e.evicted - {id} + Evicted(e.s.window, id)
    && e'.evictions == e.evictions + multiset(Evicted(e.s.window, id))
    && e'.s.pending == [] && |e'.log| <= |e.log| + 1
  }

  lemma Arrives(e: Endpoint, peer: Endpoint, f: Frame)
    requires Good(e, peer) && Good(peer, e) && f in peer.wire && !IsDuplicate(e.s.window, f.header.sequenceId)
    requires e.s.pending == []
    ensures Took(e, DoReceive(e, Datagram(f), 0), f.header.sequenceId)
  {
    hide *;
    WireReceives(peer, e, f);
    ReceiveForm(e, f, 0);
    OneAckAtMost(e.s, f);
    ArrivedRecords(e, f);
  }

  lemma ArrivedRecords(e: Endpoint, f: Frame)
    requires |HandleFrame(e.s, f, 0).out| <= 1 && HandleFrame(e.s, f, 0).state.pending == []
    ensures Took(e, LinkReceive.Arrived(e, f, 0), f.header.sequenceId)
  {
    hide HandleFrame;
    hide Evicted;
    hide IsOrdered;
    hide Accept;
  }

  lemma OneAckAtMost(s: State, f: Frame)
    requires s.pending == [] && !IsDuplicate(s.window, f.header.sequenceId)
    ensures |HandleFrame(s, f, 0).out| <= 1 && HandleFrame(s, f, 0).state.pending == []
  {
    var s1 := NoteArrival(Acknowledge(s, f.header), f.header.sequenceId);
    AckIfDueOnce(s1);
    DispatchQueuesNothing(AckIfDue(s1, 0).state, f);
    hide IsDuplicate;
    hide HasAck;
    hide Named;
    hide Accept;
    hide AckIfDue;
    hide Dispatch;
  }

  lemma DispatchQueuesNothing(s: State, f: Frame)
    ensures Dispatch(s, f).out == [] && Dispatch(s, f).state.pending == s.pending
  {
    hide IsOrdered;
    hide Reorder.Receive;
    hide Codec.DecodeIds;
  }

  lemma AckIfDueOnce(s: State)
    requires s.pending == []
    ensures |AckIfDue(s, 0).out| <= 1 && AckIfDue(s, 0).state.pending == []
  {
    hide FrameOf;
  }

  /** Nothing is dropped for an id beyond the head, and nothing was accepted beyond it. */
  lemma AheadOfAll(e: Endpoint, peer: Endpoint, id: u32)
    requires Good(e, peer) && forall k :: k in e.accepted ==> k < id
    ensures !IsDuplicate(e.s.window, id) && Evicted(e.s.window, id) == {}
  {
    WindowFacts(e, peer);
    hide Good;
    DuplicateIffRemembered(e.s.window, e.accepted, e.evicted, id);
    hide IsDuplicate;
  }

  // ---- Filling the history ----

  /** The right session has sent the ids 0 to `k`; the left one has got all but the first, each
      once and in order. */
  ghost predicate Filled(n: Net, k: nat) {
    && k < TWO_TO_THE_32 && SentPlain(n.right, k + 1)
    && n.left.accepted == FromOne(k) && n.left.evicted == {} && n.left.evictions == multiset{}
    && n.left.s.pending == [] && |n.left.log| <= k
  }

  lemma Extend(run: seq<Net>, acts: seq<Action>, act: Action)
    requires IsRun(run, acts) && Enabled(run[|acts|], act)
    ensures IsRun(run + [Apply(run[|acts|], act)], acts + [act])
  {
    hide Enabled;
    hide Apply;
    var run', acts' := run + [Apply(run[|acts|], act)], acts + [act];
    forall t | 0 <= t < |acts'| ensures Taken(run'[t], acts'[t], run'[t + 1]) {
      if t < |acts| {
        assert Taken(run[t], acts[t], run[t + 1]);
      }
    }
  }

  /** The right session sends once more. */
  lemma SendStep(run: seq<Net>, acts: seq<Action>, count: nat) returns (run': seq<Net>, acts': seq<Action>)
    requires IsRun(run, acts) && SentPlain(run[|acts|].right, count) && count + 1 < TWO_TO_THE_32
    ensures IsRun(run', acts') && SentPlain(run'[|acts'|].right, count + 1)
    ensures run'[|acts'|].left == run[|acts|].left
  {
    var n, act := run[|acts|], SendPacket(Right, PLAIN, 0);
    SendsPlain(n.right, count);
    assert Step(n.right, act) == DoSend(n.right, PLAIN, 0);
    hide DoSend;
    hide MaySend;
    hide IsRun;
    Extend(run, acts, act);
    run', acts' := run + [Apply(n, act)], acts + [act];
  }

  lemma Delivers(n: Net, f: Frame)
    ensures var act, e' := DeliverFrame(Left, f, 0), DoReceive(n.left, Datagram(f), 0);
            && Apply(n, act) == Net(e', n.right)
            && (f in n.right.wire && |e'.log| < TWO_TO_THE_32 ==> Enabled(n, act))
  {
    hide DoReceive;
    hide Datagram;
  }

  lemma DeliverOne(n: Net, f: Frame)
    requires Good(n.left, n.right) && Good(n.right, n.left) && f in n.right.wire
    requires !IsDuplicate(n.left.s.window, f.header.sequenceId)
    requires n.left.s.pending == [] && |n.left.log| + 1 < TWO_TO_THE_32
    ensures var act := DeliverFrame(Left, f, 0);
            && Enabled(n, act) && Apply(n, act).right == n.right
            && Took(n.left, Apply(n, act).left, f.header.sequenceId)
  {
    hide *;
    Delivers(n, f);
    Arrives(n.left, n.right, f);
    TookLog(n.left, DoReceive(n.left, Datagram(f), 0), f.header.sequenceId);
  }

  lemma TookLog(e: Endpoint, e': Endpoint, id: u32)
    requires Took(e, e', id)
    ensures |e'.log| <= |e.log| + 1
  {
    hide Evicted;
  }

  lemma DeliverStep(run: seq<Net>, acts: seq<Action>, count: nat, id: u32)
    returns (run': seq<Net>, acts': seq<Action>)
    requires IsRun(run, acts) && SentPlain(run[|acts|].right, count) && id < count
    requires !IsDuplicate(run[|acts|].left.s.window, id)
    requires run[|acts|].left.s.pending == [] && |run[|acts|].left.log| + 1 < TWO_TO_THE_32
    ensures IsRun(run', acts') && run'[|acts'|].right == run[|acts|].right
    ensures Took(run[|acts|].left, run'[|acts'|].left, id)
  {
    hide Taken;
    hide Good;
    hide Took;
    hide IsDuplicate;
    hide Apply;
    var n, f := run[|acts|], run[|acts|].right.wire[id];
    assert f in n.right.wire;
    Guarantees.RunGood(run, acts, |acts|, Left);
    Guarantees.RunGood(run, acts, |acts|, Right);
    var act := DeliverFrame(Left, f, 0);
    run', acts' := run + [Apply(n, act)], acts + [act];
    assert run'[|acts'|] == Apply(n, act);
    hide *;
    DeliverOne(n, f);
    Extend(run, acts, act);
  }

  lemma FillNone() returns (run: seq<Net>, acts: seq<Action>)
    ensures IsRun(run, acts) && Filled(run[|acts|], 0)
  {
    run, acts := [Net(FRESH, FRESH)], [];
    assert SentPlain(run[0].right, 0);
    assert IsRun(run, acts);
    hide IsRun;
    run, acts := SendStep(run, acts, 0);
    assert FromOne(0) == {};
  }

  lemma FillOne(run: seq<Net>, acts: seq<Action>, k: nat) returns (run': seq<Net>, acts': seq<Action>)
    requires IsRun(run, acts) && Filled(run[|acts|], k) && k + 3 < TWO_TO_THE_32
    ensures IsRun(run', acts') && Filled(run'[|acts'|], k + 1)
  {
    LeftFacts(run[|acts|], k);
    hide Filled;
    run', acts' := SendStep(run, acts, k + 1);
    Guarantees.RunGood(run', acts', |acts'|, Left);
    var n := run'[|acts'|];
    hide IsRun;
    hide Good;
    hide SentPlain;
    AheadOfAll(n.left, n.right, k + 1);
    hide IsDuplicate;
    hide Evicted;
    run', acts' := DeliverStep(run', acts', k + 2, k + 1);
    FilledMore(run[|acts|], run'[|acts'|], k);
  }

  lemma LeftFacts(n: Net, k: nat)
    requires Filled(n, k)
    ensures SentPlain(n.right, k + 1) && n.left.s.pending == [] && |n.left.log| <= k
    ensures forall id :: id in n.left.accepted ==> id < k + 1
  {
    hide SentPlain;
    hide FromOne;
  }

  lemma FilledMore(n: Net, n': Net, k: nat)
    requires Filled(n, k) && k + 2 < TWO_TO_THE_32 && SentPlain(n'.right, k + 2)
    requires n'.left.accepted == n.left.accepted + {k + 1}
    requires n'.left.evicted == n.left.evicted - {k + 1} + {}
    requires n'.left.evictions == n.left.evictions + multiset({})
    requires n'.left.s.pending == [] && |n'.left.log| <= |n.left.log| + 1
    ensures Filled(n', k + 1)
  {
    hide SentPlain;
  }

  lemma {:induction false} Fill(k: nat) returns (run: seq<Net>, acts: seq<Action>)
    requires k + 2 < TWO_TO_THE_32
    ensures IsRun(run, acts) && Filled(run[|acts|], k)
  {
    hide *;
    if k == 0 {
      run, acts := FillNone();
    } else {
      run, acts := Fill(k - 1);
      run, acts := FillOne(run, acts, k - 1);
    }
  }

  // ---- The late arrival ----

  lemma HistoryMembers(w: Window, k: nat)
    requires WINDOW_BITS < k < TWO_TO_THE_32 && Represents(w, FromOne(k), {})
    ensures w.hasRemote && w.ackId == k && Distinct(w.history)
    ensures forall id :: id in w.history <==> 1 <= id < k - WINDOW_BITS
  {
    hide BitsMatch;
    hide Distinct;
    hide FromOne;
    assert (k as u32) in FromOne(k);
  }

  lemma HistoryLength(history: seq<u32>, k: nat)
    requires Distinct(history) && k < TWO_TO_THE_32 && forall id :: id in history <==> 1 <= id <= k
    ensures |history| == k
  {
    DistinctSize(history);
    FromOneSize(k);
    hide Distinct;
    assert Members(history) == FromOne(k);
  }

  /** The history then holds all that is further than 32 below the head. */
  lemma HistoryFull(e: Endpoint, peer: Endpoint)
    requires Good(e, peer) && e.accepted == FromOne(MAX_HISTORY + WINDOW_BITS + 1) && e.evicted == {}
    ensures !IsDuplicate(e.s.window, 0)
    ensures exists oldest: u32 :: 1 <= oldest <= MAX_HISTORY && Evicted(e.s.window, 0) == {oldest}
  {
    var w := e.s.window;
    WindowFacts(e, peer);
    hide Good;
    hide FromOne;
    DuplicateIffRemembered(w, e.accepted, e.evicted, 0);
    HistoryMembers(w, MAX_HISTORY + WINDOW_BITS + 1);
    hide IsDuplicate;
    hide Represents;
    hide OnceInv;
    HistoryLength(w.history, MAX_HISTORY);
    hide Distinct;
    assert w.history[0] in w.history;
    assert Evicted(w, 0) == {w.history[0]};
  }

  /** An id the history has dropped passes as new. */
  lemma DroppedPasses(e: Endpoint, peer: Endpoint, id: u32)
    requires Good(e, peer) && id in e.evicted
    ensures !IsDuplicate(e.s.window, id) && id !in Evicted(e.s.window, id)
  {
    WindowFacts(e, peer);
    hide Good;
    DuplicateIffRemembered(e.s.window, e.accepted, e.evicted, id);
    EvictedRemembered(e.s.window, e.accepted, e.evicted, id);
    hide IsDuplicate;
    hide Evicted;
    hide Represents;
  }

  ghost predicate ReturnsTwice(run: seq<Net>, acts: seq<Action>, id: u32) {
    IsRun(run, acts) && Times(Returned(run, acts, |acts|, Left), id) == 2
  }

  /** The id held back arrives, and then a copy of the one that it pushed out. */
  lemma LateArrivals() returns (run: seq<Net>, acts: seq<Action>, oldest: u32)
    ensures IsRun(run, acts) && 1 <= oldest <= MAX_HISTORY
    ensures SentPlain(run[|acts|].right, MAX_HISTORY + WINDOW_BITS + 2)
    ensures var e := run[|acts|].left;
            e.evictions[oldest] == 1 && oldest in e.accepted - e.evicted
  {
    var k := MAX_HISTORY + WINDOW_BITS + 1;
    run, acts := Fill(k);
    var e := run[|acts|].left;
    Guarantees.RunGood(run, acts, |acts|, Left);
    hide IsRun;
    hide Good;
    hide SentPlain;
    HistoryFull(e, run[|acts|].right);
    oldest :| 1 <= oldest <= MAX_HISTORY && Evicted(e.s.window, 0) == {oldest};
    hide Evicted;
    hide IsDuplicate;
    run, acts := DeliverStep(run, acts, k + 1, 0);
    hide Filled;
    var e1 := run[|acts|].left;
    assert e1.evictions == multiset{oldest} && oldest in e1.accepted;
    Guarantees.RunGood(run, acts, |acts|, Left);
    DroppedPasses(e1, run[|acts|].right, oldest);
    run, acts := DeliverStep(run, acts, k + 1, oldest);
  }

  /** Some run of unordered packets returns one of them twice. */
  lemma SomeRunReturnsTwice()
    ensures exists run, acts, id :: ReturnsTwice(run, acts, id)
  {
    var run, acts, oldest := LateArrivals();
    assert |run| == |acts| + 1;
    hide IsRun;
    assert run[|acts|].right.log[oldest].packet == PLAIN;
    PlainFlags();
    assert ForUser(run[|acts|].right.log[oldest]);
    hide ForUser;
    UnorderedDelivery(run, acts, |acts|, Left);
    Guarantees.WindowExact(run, acts, |acts|, Left, oldest);
    hide *;
    assert ReturnsTwice(run, acts, oldest) by {
      TwiceHolds(run, acts, oldest);
    }
  }

  lemma TwiceHolds(run: seq<Net>, acts: seq<Action>, id: u32)
    requires IsRun(run, acts) && Times(Returned(run, acts, |acts|, Left), id) == 2
    ensures ReturnsTwice(run, acts, id)
  {
    hide IsRun;
    hide Times;
    hide Returned;
  }
}
