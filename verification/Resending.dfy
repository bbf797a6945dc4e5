/** What `update` does: which kept packets it sends again, when it gives the connection up, and
    when the delayed acknowledgement goes out. */
module Resending {
  import opened Numbers
  import opened AckWindow
  import opened Header
  import opened SessionSpec
  import opened Outgoing

  /** Kept for more than 200 milliseconds since it was last sent. */
  ghost predicate Due(s: State, k: u32, now: nat) {
    k in s.sent && now - s.sent[k].sentTime > 200
  }

  /** Due, with all eight attempts used up. */
  ghost predicate Exhausted(s: State, k: u32, now: nat) {
    Due(s, k, now) && s.sent[k].retries >= 8
  }

  ghost predicate Closes(s: State, now: nat) {
    exists k :: Exhausted(s, k, now)
  }

  /** Due, and before every exhausted one. */
  ghost predicate ToResend(s: State, k: u32, now: nat) {
    Due(s, k, now) && forall j :: Exhausted(s, j, now) ==> k < j
  }

  function Again(info: SentInfo, now: nat): SentInfo {
    info.(sentTime := now, retries := info.retries + 1)
  }

  /** One copy of each packet, under its own ids. */
  ghost predicate AreCopies(out: seq<Frame>, ids: seq<u32>, s: State) {
    && |out| == |ids|
    && forall i :: 0 <= i < |ids| ==>
         && ids[i] in s.sent
         && IsFrame(out[i], s.window, s.sent[ids[i]].packet, s.sent[ids[i]].sequenceId, s.sent[ids[i]].orderId)
  }

  ghost predicate TimersAfter(s: State, s': State, transmitted: bool, now: nat) {
    if transmitted then TimersReset(s, s', now)
    else s'.sinceAck == s.sinceAck && s'.unsentAck == s.unsentAck && s'.lastAckTime == s.lastAckTime
  }

  /** The kept packets after those in `ids` have been sent again. */
  ghost predicate SentAgain(sent: map<u32, SentInfo>, sent': map<u32, SentInfo>, ids: seq<u32>, now: nat) {
    && sent'.Keys == sent.Keys
    && forall k :: k in sent ==> sent'[k] == if k in ids then Again(sent[k], now) else sent[k]
  }

  ghost predicate SameElse(s: State, s': State) {
    && s'.localOrder == s.localOrder && s'.window == s.window
    && s'.nextExpected == s.nextExpected && s'.reorder == s.reorder
  }

  // ---- The loop ----

  /** The ids among `todo` that are sent again. */
  ghost predicate Listed(ids: seq<u32>, s: State, todo: set<u32>, now: nat) {
    && Ascending(ids)
    && forall k :: k in ids <==>
         k in todo && Due(s, k, now) && forall j :: j in todo && Exhausted(s, j, now) ==> k < j
  }

  ghost predicate SomeExhausted(s: State, todo: set<u32>, now: nat) {
    exists k :: k in todo && Exhausted(s, k, now)
  }

  ghost predicate Looped(s: State, todo: set<u32>, r: Resent, ids: seq<u32>, now: nat) {
    && Listed(ids, s, todo, now) && AreCopies(r.out, ids, s)
    && (r.dead <==> SomeExhausted(s, todo, now))
    && SentAgain(s.sent, r.state.sent, ids, now)
    && SameElse(s, r.state) && TimersAfter(s, r.state, ids != [], now)
    && r.state.nextSequence == s.nextSequence && r.state.pending == s.pending
    && r.state.shouldClose == (s.shouldClose || r.dead)
  }

  lemma ListedNone(s: State, todo: set<u32>, k: u32, now: nat)
    requires k in todo && Exhausted(s, k, now) && forall j :: j in todo ==> k <= j
    ensures Listed([], s, todo, now)
  {
  }

  lemma ListedSkip(ids: seq<u32>, s: State, todo: set<u32>, k: u32, now: nat)
    requires k in todo && !Due(s, k, now) && Listed(ids, s, todo - {k}, now)
    ensures Listed(ids, s, todo, now)
    ensures SomeExhausted(s, todo, now) <==> SomeExhausted(s, todo - {k}, now)
  {
  }

  /** The least id comes first; sending it again leaves the others as they were. */
  lemma ListedMore(ids: seq<u32>, s: State, s1: State, todo: set<u32>, k: u32, now: nat)
    requires k in todo && Due(s, k, now) && !Exhausted(s, k, now) && forall j :: j in todo ==> k <= j
    requires s1.sent.Keys == s.sent.Keys && forall j :: j in s.sent && j != k ==> s1.sent[j] == s.sent[j]
    requires Listed(ids, s1, todo - {k}, now)
    ensures Listed([k] + ids, s, todo, now)
    ensures SomeExhausted(s, todo, now) <==> SomeExhausted(s1, todo - {k}, now)
  {
    assert forall j :: j in todo - {k} ==> (Due(s, j, now) <==> Due(s1, j, now));
    assert forall j :: j in todo - {k} ==> (Exhausted(s, j, now) <==> Exhausted(s1, j, now));
    hide Due;
    hide Exhausted;
    assert forall i :: 0 <= i < |ids| ==> ids[i] in ids;
  }

  lemma CopiesMore(f: Frame, out: seq<Frame>, ids: seq<u32>, s: State, s1: State, k: u32)
    requires k in s.sent
    requires IsFrame(f, s.window, s.sent[k].packet, s.sent[k].sequenceId, s.sent[k].orderId)
    requires s1.window == s.window && s1.sent.Keys == s.sent.Keys && k !in ids
    requires forall j :: j in s.sent && j != k ==> s1.sent[j] == s.sent[j]
    requires AreCopies(out, ids, s1)
    ensures AreCopies([f] + out, [k] + ids, s)
  {
    hide IsFrame;
    assert forall i :: 0 <= i < |ids| ==> ids[i] in ids;
  }

  lemma AgainMore(sent: map<u32, SentInfo>, mid: map<u32, SentInfo>, sent': map<u32, SentInfo>, ids: seq<u32>, k: u32,
                  now: nat)
    requires k in sent && mid == sent[k := Again(sent[k], now)] && k !in ids && SentAgain(mid, sent', ids, now)
    ensures SentAgain(sent, sent', [k] + ids, now)
  {
  }

  lemma TimersTwice(s: State, mid: State, s': State, more: bool, now: nat)
    requires TimersReset(s, mid, now) && mid.window == s.window && TimersAfter(mid, s', more, now)
    ensures TimersAfter(s, s', true, now)
  {
  }

  /** What sending one kept packet again does. */
  ghost predicate SentOnce(s: State, k: u32, o: Output, now: nat) {
    && k in s.sent && |o.out| == 1
    && IsFrame(o.out[0], s.window, s.sent[k].packet, s.sent[k].sequenceId, s.sent[k].orderId)
    && o.state.sent == s.sent[k := Again(s.sent[k], now)]
    && SameElse(s, o.state) && TimersReset(s, o.state, now)
    && o.state.nextSequence == s.nextSequence && o.state.pending == s.pending
    && o.state.shouldClose == s.shouldClose
  }

  lemma Resend1Exact(s: State, k: u32, now: nat)
    requires k in s.sent
    ensures SentOnce(s, k, Resend1(s, k, now), now)
  {
    FrameExact(s.window, s.sent[k].packet, s.sent[k].sequenceId, s.sent[k].orderId);
    hide FrameOf;
    hide IsFrame;
  }

  lemma LoopNone(s: State, now: nat)
    ensures Looped(s, {}, Resent(s, [], false), [], now)
  {
  }

  lemma LoopDead(s: State, todo: set<u32>, k: u32, now: nat)
    requires k in todo && Exhausted(s, k, now) && forall j :: j in todo ==> k <= j
    ensures Looped(s, todo, Resent(s.(shouldClose := true), [], true), [], now)
  {
    ListedNone(s, todo, k, now);
    hide Exhausted;
    hide Listed;
    hide SomeExhausted;
  }

  lemma LoopSkip(s: State, todo: set<u32>, k: u32, r: Resent, ids: seq<u32>, now: nat)
    requires k in todo && !Due(s, k, now) && Looped(s, todo - {k}, r, ids, now)
    ensures Looped(s, todo, r, ids, now)
  {
    ListedSkip(ids, s, todo, k, now);
    hide Due;
    hide Exhausted;
    hide Listed;
    hide SomeExhausted;
    hide AreCopies;
    hide SentAgain;
    hide TimersAfter;
    hide SameElse;
  }

  lemma OnceRest(s: State, k: u32, o: Output, rest: Resent, ids: seq<u32>, now: nat)
    requires SentOnce(s, k, o, now) && k !in ids
    requires AreCopies(rest.out, ids, o.state) && SentAgain(o.state.sent, rest.state.sent, ids, now)
    ensures AreCopies(o.out + rest.out, [k] + ids, s) && SentAgain(s.sent, rest.state.sent, [k] + ids, now)
  {
    hide IsFrame;
    hide TimersReset;
    hide SameElse;
    assert o.state.sent.Keys == s.sent.Keys && o.state.window == s.window by {
      OnceSame(s, k, o, now);
    }
    assert [o.out[0]] + rest.out == o.out + rest.out;
    AgainMore(s.sent, o.state.sent, rest.state.sent, ids, k, now);
    hide Again;
    hide SentAgain;
    CopiesMore(o.out[0], rest.out, ids, s, o.state, k);
    hide AreCopies;
  }

  lemma OnceSame(s: State, k: u32, o: Output, now: nat)
    requires SentOnce(s, k, o, now)
    ensures o.state.window == s.window && o.state.sent.Keys == s.sent.Keys
    ensures forall j :: j in s.sent && j != k ==> o.state.sent[j] == s.sent[j]
  {
    hide IsFrame;
    hide TimersReset;
  }

  lemma OnceElse(s: State, k: u32, o: Output, s': State, more: bool, now: nat)
    requires SentOnce(s, k, o, now) && SameElse(o.state, s') && TimersAfter(o.state, s', more, now)
    ensures SameElse(s, s') && TimersAfter(s, s', true, now)
    ensures o.state.nextSequence == s.nextSequence && o.state.pending == s.pending
    ensures o.state.shouldClose == s.shouldClose
  {
    hide IsFrame;
    TimersTwice(s, o.state, s', more, now);
    hide TimersReset;
  }

  lemma LoopMore(s: State, todo: set<u32>, k: u32, o: Output, rest: Resent, ids: seq<u32>, now: nat)
    requires k in todo && Due(s, k, now) && !Exhausted(s, k, now) && forall j :: j in todo ==> k <= j
    requires SentOnce(s, k, o, now) && Looped(o.state, todo - {k}, rest, ids, now)
    ensures Looped(s, todo, Resent(rest.state, o.out + rest.out, rest.dead), [k] + ids, now)
  {
    OnceSame(s, k, o, now);
    ListedMore(ids, s, o.state, todo, k, now);
    assert k !in ids by {
      hide Due;
      hide Exhausted;
    }
    hide Due;
    hide Exhausted;
    hide Listed;
    hide SomeExhausted;
    hide SentOnce;
    hide AreCopies;
    hide SentAgain;
    hide SameElse;
    hide TimersAfter;
    OnceRest(s, k, o, rest, ids, now);
    OnceElse(s, k, o, rest.state, ids != [], now);
  }

  lemma {:induction false} LoopExact(s: State, todo: set<u32>, now: nat) returns (ids: seq<u32>)
    requires todo <= s.sent.Keys
    ensures Looped(s, todo, Resend(s, todo, now), ids, now)
    decreases |todo|
  {
    hide Looped;
    hide Resend;
    hide Resend1;
    if todo == {} {
      ResendNothing(s, now);
      LoopNone(s, now);
      ids := [];
    } else {
      var k := Least(todo);
      ResendStep(s, todo, k, now);
      if now - s.sent[k].sentTime > RESEND_TIMEOUT {
        if s.sent[k].retries >= MAX_RESEND_ATTEMPTS {
          LoopDead(s, todo, k, now);
          ids := [];
        } else {
          Resend1Exact(s, k, now);
          Resend1Frame(s, k, now);
          hide SentOnce;
          ids := LoopExact(Resend1(s, k, now).state, todo - {k}, now);
          LoopMore(s, todo, k, Resend1(s, k, now), Resend(Resend1(s, k, now).state, todo - {k}, now), ids, now);
          ids := [k] + ids;
        }
      } else {
        ids := LoopExact(s, todo - {k}, now);
        LoopSkip(s, todo, k, Resend(s, todo - {k}, now), ids, now);
      }
    }
  }

  // ---- update ----

  /** The delayed acknowledgement goes out: the connection is not given up, nothing was sent
      again, and one has been owing for more than 100 milliseconds since the last transmission. */
  ghost predicate AcksLate(s: State, now: nat) {
    && !Closes(s, now) && (forall k :: !ToResend(s, k, now))
    && s.unsentAck && now - s.lastAckTime > 100
  }

  ghost predicate Updates(s: State, o: Output, ids: seq<u32>, now: nat) {
    && Ascending(ids) && (forall k :: k in ids <==> ToResend(s, k, now))
    && |ids| <= |o.out| && AreCopies(o.out[..|ids|], ids, s)
    && (if AcksLate(s, now) then AreAcks(o.out[|ids|..], s.window, s.nextSequence, s.pending) else |o.out| == |ids|)
    && SentAgain(s.sent, o.state.sent, ids, now)
    && o.state.shouldClose == (s.shouldClose || Closes(s, now))
    && SameElse(s, o.state) && TimersAfter(s, o.state, o.out != [], now)
    && (if AcksLate(s, now)
        then o.state.nextSequence == (s.nextSequence + |o.out|) % TWO_TO_THE_32 && o.state.pending == []
        else o.state.nextSequence == s.nextSequence && o.state.pending == s.pending)
  }

  lemma ListedAll(s: State, ids: seq<u32>, now: nat)
    requires Listed(ids, s, s.sent.Keys, now)
    ensures Ascending(ids) && (forall k :: k in ids <==> ToResend(s, k, now))
    ensures SomeExhausted(s, s.sent.Keys, now) <==> Closes(s, now)
    ensures ids == [] <==> forall k :: !ToResend(s, k, now)
  {
    assert forall j :: Exhausted(s, j, now) ==> j in s.sent;
    hide Exhausted;
    hide Ascending;
    assert ids != [] ==> ids[0] in ids;
  }

  /** Nothing follows the loop. */
  lemma UpdatesAlone(s: State, r: Resent, ids: seq<u32>, now: nat)
    requires Looped(s, s.sent.Keys, r, ids, now) && !AcksLate(s, now)
    ensures Updates(s, Output(r.state, r.out), ids, now)
  {
    ListedAll(s, ids, now);
    assert r.out[..|ids|] == r.out;
    hide Listed;
    hide SomeExhausted;
    hide Exhausted;
    hide Ascending;
    hide ToResend;
    hide SentAgain;
    hide SameElse;
    hide TimersAfter;
    hide AcksLate;
    hide IsFrame;
  }

  /** An acknowledgement follows the loop, which has sent nothing. */
  lemma UpdatesLate(s: State, r: Resent, ids: seq<u32>, a: Output, now: nat)
    requires Looped(s, s.sent.Keys, r, ids, now) && AcksLate(s, now)
    requires AreAcks(a.out, r.state.window, r.state.nextSequence, r.state.pending)
    requires a.state == r.state.(nextSequence := (r.state.nextSequence + |a.out|) % TWO_TO_THE_32, pending := [],
                                 sinceAck := if r.state.window.hasRemote then 0 else r.state.sinceAck,
                                 unsentAck := false, lastAckTime := now)
    ensures Updates(s, Output(a.state, r.out + a.out), ids, now)
  {
    ListedAll(s, ids, now);
    assert ids == [] && r.out == [] && r.out + a.out == a.out && a.out[..0] == [] && a.out[0..] == a.out;
    SomeAcks(a.out, s.window, s.nextSequence, s.pending);
    hide Listed;
    hide SomeExhausted;
    hide Exhausted;
    hide Ascending;
    hide ToResend;
    hide SentAgain;
    hide AreAcks;
    hide IsFrame;
  }

  lemma SomeAcks(out: seq<Frame>, w: Window, first: u32, ids: seq<u32>)
    requires AreAcks(out, w, first, ids)
    ensures out != []
  {
    hide IsRichAck;
    hide IsAck;
  }

  /** The condition at the end of `update`, read off the state it started from. */
  lemma LateIff(s: State, r: Resent, ids: seq<u32>, now: nat)
    requires Looped(s, s.sent.Keys, r, ids, now)
    ensures AcksLate(s, now) <==> !r.dead && r.state.unsentAck && now - r.state.lastAckTime > ACK_TIMEOUT
  {
    ListedAll(s, ids, now);
    hide Listed;
    hide SomeExhausted;
    hide Exhausted;
    hide Ascending;
    hide ToResend;
    hide Closes;
    hide SentAgain;
    hide AreCopies;
  }

  /** `update`: it gives the connection up exactly when some kept packet that is due has used up
      its attempts. It sends again, once each and in ascending order, exactly the due ones before
      any such, and notes the time and the attempt; no other kept packet changes. A delayed
      acknowledgement goes out exactly under `AcksLate`. */
  lemma UpdateExact(s: State, now: nat)
    ensures exists ids: seq<u32> :: Updates(s, Update(s, now), ids, now)
  {
    var ids := LoopExact(s, s.sent.Keys, now);
    var r := ResendAll(s, now);
    assert Looped(s, s.sent.Keys, r, ids, now);
    LateIff(s, r, ids, now);
    SendAckExact(r.state, now);
    hide ResendAll;
    hide SendAck;
    hide Looped;
    hide AcksLate;
    hide Updates;
    if AcksLate(s, now) {
      UpdatesLate(s, r, ids, SendAck(r.state, now), now);
    } else {
      UpdatesAlone(s, r, ids, now);
      assert r.out + [] == r.out;
    }
    assert Updates(s, Update(s, now), ids, now);
  }

  /** Where nothing is to be sent again, the loop sends nothing. */
  lemma QuietLoop(s: State, now: nat)
    requires forall k :: !ToResend(s, k, now)
    ensures ResendAll(s, now).out == []
  {
    var ids := LoopExact(s, s.sent.Keys, now);
    ListedAll(s, ids, now);
    hide ToResend;
    hide Resend;
    hide Listed;
    hide SentAgain;
    hide TimersAfter;
  }

  /** Whether `update` ends with an acknowledgement of its own. */
  lemma LateOut(s: State, now: nat)
    ensures AckIfLate(ResendAll(s, now), now).out != [] <==> AcksLate(s, now)
  {
    var ids := LoopExact(s, s.sent.Keys, now);
    var r := ResendAll(s, now);
    LateIff(s, r, ids, now);
    SendAckExact(r.state, now);
    hide Resend;
    hide Looped;
    hide AcksLate;
    hide SendAck;
    SomeAcks(SendAck(r.state, now).out, r.state.window, r.state.nextSequence, r.state.pending);
    hide AreAcks;
  }
}
