/** The receive window of a session: the newest sequence id, a 32-bit field for the ids
    just before it, and a bounded history of older ones. */
module AckWindow {
  import opened Numbers

  const WINDOW_BITS: nat := 32

  /** MAX_PACKET_HISTORY_SIZE */
  const MAX_HISTORY: nat := 0x8000

  datatype Window = Window(hasRemote: bool, ackId: u32, bits: u32, history: seq<u32>)

  const EMPTY_WINDOW: Window := Window(false, 0, 0, [])

  predicate IsDuplicate(w: Window, id: u32) {
    if !w.hasRemote then false
    else if id == w.ackId then true
    else if id > w.ackId then false
    else if w.ackId - id <= WINDOW_BITS then BitAt(w.bits, w.ackId - id - 1)
    else id in w.history
  }

  /** The ids of the set bits from position `lo` up, in the order the loops push them. */
  function Displaced(ackId: u32, bits: u32, lo: nat): seq<u32>
    decreases WINDOW_BITS - lo
  {
    if lo >= WINDOW_BITS then []
    else (if BitAt(bits, lo) then [Subtract(ackId, lo + 1)] else []) + Displaced(ackId, bits, lo + 1)
  }

  function SetBit(bits: u32, i: nat): u32
    requires i < WINDOW_BITS
  {
    WordLimit();
    WithBitBound(bits, i, 32);
    WithBit(bits, i)
  }

  lemma WordLimit()
    ensures Pow2(32) == TWO_TO_THE_32
  {
    assert Pow2(8) == 0x100 && Pow2(16) == 0x1_0000 && Pow2(24) == 0x100_0000;
  }

  /** `updateAcknowledgeInfo` on the window. */
  function Accept(w: Window, id: u32): Window {
    if !w.hasRemote then w.(hasRemote := true, ackId := id)
    else if id > w.ackId then
      var shift := id - w.ackId;
      if shift > WINDOW_BITS then
        Window(true, id, 0, w.history + Displaced(w.ackId, w.bits, 0) + [w.ackId])
      else
        Window(true, id, SetBit(ShiftLeft(w.bits, shift), shift - 1),
               w.history + Displaced(w.ackId, w.bits, WINDOW_BITS - shift))
    else if id < w.ackId then
      var diff := w.ackId - id;
      if diff <= WINDOW_BITS then w.(bits := SetBit(w.bits, diff - 1))
      else if id in w.history then w
      else w.(history := Remember(w.history, id))
    else w
  }

  /** Appends to the history and drops its oldest entry when it grew past the limit. */
  function Remember(history: seq<u32>, id: u32): seq<u32> {
    var grown := history + [id];
    if |grown| > MAX_HISTORY then grown[1..] else grown
  }

  /** What `Accept(w, id)` forgets. */
  function Evicted(w: Window, id: u32): set<u32> {
    if w.hasRemote && id + WINDOW_BITS < w.ackId && id !in w.history && |w.history| >= MAX_HISTORY
    then {w.history[0]}
    else {}
  }

  /** The ids a header carrying this acknowledge id and bitfield names. */
  function Named(ackId: u32, bits: u32): set<u32> {
    {ackId} + set i | 0 <= i < WINDOW_BITS && BitAt(bits, i) :: Subtract(ackId, i + 1)
  }

  ghost predicate Distinct(s: seq<u32>) {
    forall i, j :: 0 <= i < j < |s| ==> s[i] != s[j]
  }

  /** The window stands for the ids of `accepted` that are not in `evicted`. */
  ghost predicate Represents(w: Window, accepted: set<u32>, evicted: set<u32>) {
    && (w.hasRemote <==> accepted != {})
    && (!w.hasRemote ==> w == EMPTY_WINDOW)
    && (w.hasRemote ==> w.ackId in accepted)
    && (forall k :: k in accepted ==> k <= w.ackId)
    && BitsMatch(w.ackId, w.bits, 0, accepted)
    && (forall k :: k in evicted ==> k in accepted && k + WINDOW_BITS < w.ackId)
    && HistoryMatches(w.history, accepted - evicted, w.ackId)
  }

  /** The history lists once each what is remembered further than 32 below the head. */
  ghost predicate HistoryMatches(history: seq<u32>, remembered: set<u32>, ackId: u32) {
    && (forall k :: k in history <==> k in remembered && k + WINDOW_BITS < ackId)
    && Distinct(history)
  }

  /** The bits from `lo` up stand for the accepted ids of the matching distances. */
  ghost predicate BitsMatch(ackId: u32, bits: u32, lo: nat, accepted: set<u32>) {
    forall i :: lo <= i < WINDOW_BITS ==>
      (BitAt(bits, i) <==> i + 1 <= ackId && ackId - (i + 1) in accepted)
  }

  lemma {:induction false} DisplacedMembers(ackId: u32, bits: u32, lo: nat, accepted: set<u32>)
    requires lo <= WINDOW_BITS && BitsMatch(ackId, bits, lo, accepted)
    ensures forall k :: k in Displaced(ackId, bits, lo) <==>
              k in accepted && lo < ackId - k <= WINDOW_BITS
    ensures Distinct(Displaced(ackId, bits, lo))
    decreases WINDOW_BITS - lo
  {
    if lo < WINDOW_BITS {
      DisplacedMembers(ackId, bits, lo + 1, accepted);
      var rest := Displaced(ackId, bits, lo + 1);
      if BitAt(bits, lo) {
        assert Displaced(ackId, bits, lo) == [ackId - (lo + 1)] + rest;
        assert ackId - (lo + 1) !in rest;
      } else {
        assert Displaced(ackId, bits, lo) == rest;
      }
    }
  }

  lemma DistinctConcat(a: seq<u32>, b: seq<u32>)
    requires Distinct(a) && Distinct(b) && forall k :: k in a ==> k !in b
    ensures Distinct(a + b)
  {
    forall i, j | 0 <= i < j < |a + b| ensures (a + b)[i] != (a + b)[j] {
      if i < |a| <= j {
        assert a[i] in a && b[j - |a|] in b;
      }
    }
  }

  /** Duplicate detection is exactly membership in what has been accepted and not evicted. */
  lemma DuplicateIffRemembered(w: Window, accepted: set<u32>, evicted: set<u32>, id: u32)
    requires Represents(w, accepted, evicted)
    ensures IsDuplicate(w, id) <==> id in accepted - evicted
  {
    if w.hasRemote && id < w.ackId && w.ackId - id <= WINDOW_BITS {
      var i := w.ackId - id - 1;
      assert BitAt(w.bits, i) <==> i + 1 <= w.ackId && w.ackId - (i + 1) in accepted;
    }
  }

  /** A header names exactly the accepted ids from the head down to 32 below it. */
  lemma NamedExactly(w: Window, accepted: set<u32>, evicted: set<u32>)
    requires Represents(w, accepted, evicted) && w.hasRemote
    ensures Named(w.ackId, w.bits) == set k | k in accepted && k + WINDOW_BITS >= w.ackId
  {
    var near := set k | k in accepted && k + WINDOW_BITS >= w.ackId;
    forall k | k in near ensures k in Named(w.ackId, w.bits) {
      if k != w.ackId {
        var i := w.ackId - k - 1;
        assert BitAt(w.bits, i) && Subtract(w.ackId, i + 1) == k;
      }
    }
  }

  /** The head, the bitfield and the history partition what is remembered. */
  lemma WindowPartition(w: Window, accepted: set<u32>, evicted: set<u32>)
    requires Represents(w, accepted, evicted) && w.hasRemote
    ensures var inBits := Named(w.ackId, w.bits) - {w.ackId};
            var inHistory := Members(w.history);
            && {w.ackId} + inBits + inHistory == accepted - evicted
            && inBits !! inHistory && w.ackId !in inHistory
            && |inHistory| == |w.history|
  {
    NamedExactly(w, accepted, evicted);
    DistinctSize(w.history);
    hide Named;
  }

  lemma {:induction false} DistinctSize(s: seq<u32>)
    requires Distinct(s)
    ensures |Members(s)| == |s|
  {
    if s != [] {
      assert Distinct(s[1..]);
      DistinctSize(s[1..]);
      assert s == [s[0]] + s[1..];
      assert Members(s) == {s[0]} + Members(s[1..]);
      assert s[0] !in s[1..];
    }
  }

  // ---- Acceptance keeps the representation ----

  lemma AcceptFirst(w: Window, evicted: set<u32>, id: u32)
    requires Represents(w, {}, evicted)
    ensures Represents(Accept(w, id), {id}, evicted)
  {
    forall i | 0 <= i < WINDOW_BITS ensures !BitAt(w.bits, i) {
      NoBitsInZero(i);
    }
  }

  /** The head moves up; what leaves the bitfield enters the history. */
  lemma PushHistory(history: seq<u32>, pushed: seq<u32>, remembered: set<u32>, ackId: u32, id: u32)
    requires HistoryMatches(history, remembered, ackId) && Distinct(pushed) && ackId < id
    requires forall k :: k in pushed <==>
               k in remembered && ackId <= k + WINDOW_BITS && k + WINDOW_BITS < id
    ensures HistoryMatches(history + pushed, remembered + {id}, id)
  {
    DistinctConcat(history, pushed);
  }

  lemma AcceptFarAhead(w: Window, accepted: set<u32>, evicted: set<u32>, id: u32)
    requires Represents(w, accepted, evicted) && w.hasRemote && id > w.ackId + WINDOW_BITS
    ensures Represents(Accept(w, id), accepted + {id}, evicted)
  {
    hide BitsMatch;
    hide SetBit;
    hide ShiftLeft;
    hide Displaced;
    var displaced := Displaced(w.ackId, w.bits, 0);
    DisplacedMembers(w.ackId, w.bits, 0, accepted);
    PushAll(w.history, displaced, accepted, evicted, w.ackId, id);
    assert accepted - evicted + {id} == accepted + {id} - evicted;
    ClearedMatches(w.ackId, accepted, id);
  }

  lemma ClearedMatches(ackId: u32, accepted: set<u32>, id: u32)
    requires ackId + WINDOW_BITS < id && forall k :: k in accepted ==> k <= ackId
    ensures BitsMatch(id, 0, 0, accepted + {id})
  {
    forall i | 0 <= i < WINDOW_BITS ensures !BitAt(0, i) {
      NoBitsInZero(i);
    }
  }

  lemma PushAll(history: seq<u32>, displaced: seq<u32>, accepted: set<u32>, evicted: set<u32>, ackId: u32, id: u32)
    requires HistoryMatches(history, accepted - evicted, ackId) && Distinct(displaced)
    requires ackId + WINDOW_BITS < id && ackId in accepted && ackId !in evicted
    requires forall k :: k in accepted ==> k <= ackId
    requires forall k :: k in evicted ==> k + WINDOW_BITS < ackId
    requires forall k :: k in displaced <==> k in accepted && 0 < ackId - k <= WINDOW_BITS
    ensures HistoryMatches(history + displaced + [ackId], accepted - evicted + {id}, id)
  {
    DistinctConcat(displaced, [ackId]);
    PushHistory(history, displaced + [ackId], accepted - evicted, ackId, id);
    assert history + displaced + [ackId] == history + (displaced + [ackId]);
  }

  lemma AcceptAhead(w: Window, accepted: set<u32>, evicted: set<u32>, id: u32)
    requires Represents(w, accepted, evicted) && w.hasRemote
    requires w.ackId < id <= w.ackId + WINDOW_BITS
    ensures Represents(Accept(w, id), accepted + {id}, evicted)
  {
    hide BitsMatch;
    hide SetBit;
    hide ShiftLeft;
    var shift := id - w.ackId;
    var pushed := Displaced(w.ackId, w.bits, WINDOW_BITS - shift);
    TailMatches(w.ackId, w.bits, WINDOW_BITS - shift, accepted);
    DisplacedMembers(w.ackId, w.bits, WINDOW_BITS - shift, accepted);
    hide Displaced;
    PushHistory(w.history, pushed, accepted - evicted, w.ackId, id);
    assert accepted - evicted + {id} == accepted + {id} - evicted;
    ShiftMatches(w.ackId, w.bits, accepted, id);
  }

  lemma TailMatches(ackId: u32, bits: u32, lo: nat, accepted: set<u32>)
    requires BitsMatch(ackId, bits, 0, accepted)
    ensures BitsMatch(ackId, bits, lo, accepted)
  {
  }

  lemma ShiftMatches(ackId: u32, bits: u32, accepted: set<u32>, id: u32)
    requires BitsMatch(ackId, bits, 0, accepted) && ackId in accepted
    requires ackId < id <= ackId + WINDOW_BITS && forall k :: k in accepted ==> k <= ackId
    ensures BitsMatch(id, SetBit(ShiftLeft(bits, id - ackId), id - ackId - 1), 0, accepted + {id})
  {
    hide BitAt;
    var shift := id - ackId;
    var bits' := SetBit(ShiftLeft(bits, shift), shift - 1);
    forall i | 0 <= i < WINDOW_BITS
      ensures BitAt(bits', i) <==> i + 1 <= id && id - (i + 1) in accepted + {id}
    {
      WithBitAt(ShiftLeft(bits, shift), shift - 1, i);
      ShiftLeftAt(bits, shift, i);
      if shift <= i {
        var j := i - shift;
        assert BitAt(bits, j) <==> j + 1 <= ackId && ackId - (j + 1) in accepted;
      }
    }
  }

  lemma AcceptBehind(w: Window, accepted: set<u32>, evicted: set<u32>, id: u32)
    requires Represents(w, accepted, evicted) && w.hasRemote
    requires id < w.ackId <= id + WINDOW_BITS
    ensures Represents(Accept(w, id), accepted + {id}, evicted)
  {
    var w', accepted', diff := Accept(w, id), accepted + {id}, w.ackId - id;
    forall i | 0 <= i < WINDOW_BITS
      ensures BitAt(w'.bits, i) <==> i + 1 <= w.ackId && w.ackId - (i + 1) in accepted'
    {
      WithBitAt(w.bits, diff - 1, i);
    }
  }

  lemma RememberKeeps(history: seq<u32>, remembered: set<u32>, ackId: u32, id: u32)
    requires HistoryMatches(history, remembered, ackId)
    requires id + WINDOW_BITS < ackId && id !in history
    ensures HistoryMatches(Remember(history, id),
              remembered + {id} - (if |history| >= MAX_HISTORY then {history[0]} else {}), ackId)
  {
    var grown := history + [id];
    DistinctConcat(history, [id]);
    if |grown| > MAX_HISTORY {
      assert forall k :: k in grown <==> k == grown[0] || k in grown[1..];
    }
  }

  lemma AcceptOld(w: Window, accepted: set<u32>, evicted: set<u32>, id: u32)
    requires Represents(w, accepted, evicted) && w.hasRemote
    requires id + WINDOW_BITS < w.ackId && id !in w.history
    ensures Represents(Accept(w, id), accepted + {id}, evicted - {id} + Evicted(w, id))
  {
    var out := Evicted(w, id);
    RememberKeeps(w.history, accepted - evicted, w.ackId, id);
    assert |w.history| >= MAX_HISTORY ==> w.history[0] in w.history;
    assert accepted - evicted + {id} - out == accepted + {id} - (evicted - {id} + out);
  }

  /** Accepting an id the window does not remember adds exactly that id to what it stands
      for, up to the one id the history may evict. */
  lemma AcceptKeeps(w: Window, accepted: set<u32>, evicted: set<u32>, id: u32)
    requires Represents(w, accepted, evicted) && !IsDuplicate(w, id)
    ensures Represents(Accept(w, id), accepted + {id}, evicted - {id} + Evicted(w, id))
    ensures Accept(w, id).hasRemote
  {
    DuplicateIffRemembered(w, accepted, evicted, id);
    if !w.hasRemote {
      AcceptFirst(w, evicted, id);
      assert accepted + {id} == {id};
      assert evicted - {id} + Evicted(w, id) == evicted;
    } else if id + WINDOW_BITS < w.ackId {
      AcceptOld(w, accepted, evicted, id);
    } else {
      assert id !in evicted;
      assert evicted - {id} + Evicted(w, id) == evicted;
      if id > w.ackId + WINDOW_BITS {
        AcceptFarAhead(w, accepted, evicted, id);
      } else if id > w.ackId {
        AcceptAhead(w, accepted, evicted, id);
      } else {
        AcceptBehind(w, accepted, evicted, id);
      }
    }
  }

  /** A new arrival makes the window forget exactly what it evicts: the entry at the front of a
      full history, and only when it comes from beyond the window. */
  lemma ForgetsExactly(w: Window, accepted: set<u32>, evicted: set<u32>, id: u32, k: u32)
    requires Represents(w, accepted, evicted) && !IsDuplicate(w, id)
    ensures IsDuplicate(w, k) && !IsDuplicate(Accept(w, id), k) <==> k in Evicted(w, id)
    ensures k in Evicted(w, id) <==>
            w.hasRemote && id + 32 < w.ackId && |w.history| >= 0x8000 && k == w.history[0]
  {
    AcceptKeeps(w, accepted, evicted, id);
    DuplicateIffRemembered(w, accepted, evicted, id);
    DuplicateIffRemembered(w, accepted, evicted, k);
    DuplicateIffRemembered(Accept(w, id), accepted + {id}, evicted - {id} + Evicted(w, id), k);
    EvictedRemembered(w, accepted, evicted, id);
    hide Represents;
    hide IsDuplicate;
    hide Accept;
    hide Evicted;
  }

  lemma EvictedRemembered(w: Window, accepted: set<u32>, evicted: set<u32>, id: u32)
    requires Represents(w, accepted, evicted) && !IsDuplicate(w, id)
    ensures Evicted(w, id) <= accepted - evicted && id !in Evicted(w, id)
  {
    if Evicted(w, id) != {} {
      assert w.history[0] in w.history;
    }
  }

  ghost predicate Descending(s: seq<u32>) {
    forall i, j :: 0 <= i < j < |s| ==> s[i] > s[j]
  }

  lemma {:induction false} DisplacedDescends(ackId: u32, bits: u32, lo: nat, accepted: set<u32>)
    requires lo <= WINDOW_BITS && BitsMatch(ackId, bits, lo, accepted)
    ensures Descending(Displaced(ackId, bits, lo))
    decreases WINDOW_BITS - lo
  {
    if lo < WINDOW_BITS {
      DisplacedDescends(ackId, bits, lo + 1, accepted);
      DisplacedMembers(ackId, bits, lo + 1, accepted);
      var rest := Displaced(ackId, bits, lo + 1);
      assert forall i :: 0 <= i < |rest| ==> rest[i] in rest;
      hide BitAt;
    }
  }

  /** What joins the history when `id` arrives: the ids of the field that the window no longer
      covers, newest first, and then, when it moves past it, the head; or the arrival itself,
      when it comes from beyond the window. */
  ghost predicate Joining(w: Window, id: u32, joined: seq<u32>) {
    if !w.hasRemote then joined == []
    else if id + 32 < w.ackId then joined == [id]
    else if w.ackId + 32 < id then
      |joined| > 0 && joined[|joined| - 1] == w.ackId && Descending(joined[..|joined| - 1])
    else Descending(joined)
  }

  lemma OldJoins(w: Window, id: u32)
    requires w.hasRemote && id < w.ackId && !IsDuplicate(w, id)
    ensures var kept, grown := w.history[|Evicted(w, id)|..], Accept(w, id).history;
            kept <= grown && Joining(w, id, grown[|kept|..])
  {
    hide SetBit;
    hide BitAt;
  }

  lemma DisplacedJoins(w: Window, accepted: set<u32>, evicted: set<u32>, id: u32)
    requires Represents(w, accepted, evicted) && w.hasRemote && id > w.ackId
    ensures var grown := Accept(w, id).history;
            w.history <= grown && Joining(w, id, grown[|w.history|..])
  {
    var far := id - w.ackId > WINDOW_BITS;
    var lo := if far then 0 else WINDOW_BITS - (id - w.ackId);
    var left := Displaced(w.ackId, w.bits, lo);
    DisplacedDescends(w.ackId, w.bits, lo, accepted);
    var joined := if far then left + [w.ackId] else left;
    hide Represents;
    hide Displaced;
    hide SetBit;
    hide ShiftLeft;
    assert Accept(w, id).history == w.history + joined;
    hide Accept;
    assert far ==> joined[..|joined| - 1] == left;
    hide Descending;
  }

  /** The history is a queue: what is evicted leaves at its front, and what is no longer inside the
      window joins at its end. */
  lemma HistoryQueues(w: Window, accepted: set<u32>, evicted: set<u32>, id: u32)
    requires Represents(w, accepted, evicted) && !IsDuplicate(w, id)
    ensures var kept, grown := w.history[|Evicted(w, id)|..], Accept(w, id).history;
            kept <= grown && Joining(w, id, grown[|kept|..])
  {
    if w.hasRemote {
      if id > w.ackId {
        DisplacedJoins(w, accepted, evicted, id);
      } else {
        OldJoins(w, id);
      }
      hide Accept;
      hide Joining;
    }
    hide Represents;
  }

  /** Eviction does bite: with a full history, an arrival from beyond the window makes a
      retransmission of the oldest remembered packet pass as new. */
  lemma EvictionBites(w: Window, accepted: set<u32>, evicted: set<u32>, id: u32)
    requires Represents(w, accepted, evicted) && w.hasRemote && |w.history| >= MAX_HISTORY
    requires id + WINDOW_BITS < w.ackId && id !in w.history
    ensures w.history[0] in accepted
    ensures IsDuplicate(w, w.history[0]) && !IsDuplicate(Accept(w, id), w.history[0])
  {
    ForgetsExactly(w, accepted, evicted, id, w.history[0]);
    DuplicateIffRemembered(w, accepted, evicted, w.history[0]);
    hide Represents;
    hide Accept;
  }
}
