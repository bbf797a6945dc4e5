/** One channel's ordered delivery: the next expected order id and the buffer of packets
    that arrived ahead of it. */
module Reorder {
  import opened Numbers
  import opened Packets

  datatype Channel = Channel(next: u32, buffer: map<u32, Packet>)

  const EMPTY_CHANNEL: Channel := Channel(0, map[])

  datatype Arrival = Arrival(channel: Channel, ready: seq<Packet>)

  /** Delivers buffered packets for as long as the next expected one is there. */
  function Drain(ch: Channel): Arrival
    decreases |ch.buffer|
  {
    if ch.next in ch.buffer then
      var rest := ch.buffer - {ch.next};
      assert ch.buffer.Keys == rest.Keys + {ch.next};
      var tail := Drain(Channel(Increment(ch.next), rest));
      Arrival(tail.channel, [ch.buffer[ch.next]] + tail.ready)
    else
      Arrival(ch, [])
  }

  /** An ordered packet with order id `o` arrives. */
  function Receive(ch: Channel, o: u32, p: Packet): Arrival {
    if o == ch.next then
      var tail := Drain(ch.(next := Increment(ch.next)));
      Arrival(tail.channel, [p] + tail.ready)
    else if o > ch.next then
      Arrival(ch.(buffer := ch.buffer[o := p]), [])
    else
      Arrival(ch, [])
  }

  // ---- One arrival, on any channel ----

  /** Order id `o` is among the `n` that come next, counting past 2^32 - 1 from 0 again. */
  predicate Among(o: u32, next: u32, n: nat) {
    (o - next) % TWO_TO_THE_32 < n
  }

  /** Handed out are the buffered packets from the next expected one up to the first that is
      missing, in order; they leave the buffer, and nothing else does. */
  ghost predicate HandsOut(ch: Channel, ready: seq<Packet>, after: Channel) {
    && after.next == (ch.next + |ready|) % TWO_TO_THE_32 && after.next !in after.buffer
    && (forall i :: 0 <= i < |ready| ==> HandedAt(ch, ready, i))
    && (forall o: u32 :: o in after.buffer <==> o in ch.buffer && !Among(o, ch.next, |ready|))
    && forall o: u32 :: o in after.buffer ==> after.buffer[o] == ch.buffer[o]
  }

  predicate HandedAt(ch: Channel, ready: seq<Packet>, i: nat)
    requires i < |ready|
  {
    var o := (ch.next + i) % TWO_TO_THE_32;
    o in ch.buffer && ready[i] == ch.buffer[o]
  }

  lemma AmongMore(o: u32, next: u32, n: nat)
    ensures Among(o, next, n + 1) <==> o == next || Among(o, (next + 1) % TWO_TO_THE_32, n)
  {
  }

  lemma OneMore(next: u32, i: nat)
    ensures ((next + 1) % TWO_TO_THE_32 + i) % TWO_TO_THE_32 == (next + (i + 1)) % TWO_TO_THE_32
  {
  }

  lemma HandedLater(ch: Channel, ready: seq<Packet>, i: nat)
    requires ch.next in ch.buffer && 0 < i <= |ready|
    requires HandedAt(Channel((ch.next + 1) % TWO_TO_THE_32, ch.buffer - {ch.next}), ready, i - 1)
    ensures HandedAt(ch, [ch.buffer[ch.next]] + ready, i)
  {
    OneMore(ch.next, i - 1);
  }

  lemma HandsOutFirst(ch: Channel, ready: seq<Packet>, after: Channel)
    requires ch.next in ch.buffer
    requires HandsOut(Channel((ch.next + 1) % TWO_TO_THE_32, ch.buffer - {ch.next}), ready, after)
    ensures HandsOut(ch, [ch.buffer[ch.next]] + ready, after)
  {
    var all := [ch.buffer[ch.next]] + ready;
    OneMore(ch.next, |ready|);
    forall o: u32
      ensures Among(o, ch.next, |all|) <==> o == ch.next || Among(o, (ch.next + 1) % TWO_TO_THE_32, |ready|)
    {
      AmongMore(o, ch.next, |ready|);
    }
    hide Among;
    forall i: nat | i < |all| ensures HandedAt(ch, all, i) {
      if i > 0 {
        HandedLater(ch, ready, i);
      }
    }
    hide HandedAt;
  }

  lemma {:induction false} DrainExact(ch: Channel)
    ensures HandsOut(ch, Drain(ch).ready, Drain(ch).channel)
    decreases |ch.buffer|
  {
    if ch.next in ch.buffer {
      var rest := Channel(Increment(ch.next), ch.buffer - {ch.next});
      assert ch.buffer.Keys == rest.buffer.Keys + {ch.next};
      DrainExact(rest);
      IncrementWraps(ch.next);
      hide HandsOut;
      HandsOutFirst(ch, Drain(rest).ready, Drain(rest).channel);
    }
  }

  /** The expected packet is handed out and everything behind it that is waiting; one that is
      ahead replaces what is buffered under its order id; one from the past changes nothing. */
  lemma ReceiveExact(ch: Channel, o: u32, p: Packet)
    ensures var a := Receive(ch, o, p);
            if o == ch.next then
              |a.ready| > 0 && a.ready[0] == p
              && HandsOut(ch.(next := (ch.next + 1) % TWO_TO_THE_32), a.ready[1..], a.channel)
            else a.ready == [] && a.channel == if o < ch.next then ch else ch.(buffer := ch.buffer[o := p])
  {
    IncrementWraps(o);
    if o == ch.next {
      DrainExact(ch.(next := Increment(o)));
      hide Drain;
      hide HandsOut;
    }
  }

  // ---- Arrivals that agree with a stream ----

  /** The packets agree with the stream from its start. */
  ghost predicate DeliversPrefix(delivered: seq<Packet>, stream: seq<Message>) {
    |delivered| <= |stream| && forall o :: 0 <= o < |delivered| ==> Content(delivered[o]) == stream[o]
  }

  /** `stream` is what the sender ordered on the channel and `got` the order ids that have
      arrived: `next` may still be waiting in the buffer. */
  ghost predicate Consistent(ch: Channel, delivered: seq<Packet>, got: set<nat>, stream: seq<Message>) {
    && |stream| < TWO_TO_THE_32
    && (forall o :: o in got ==> o < |stream|)
    && |delivered| == ch.next && DeliversPrefix(delivered, stream)
    && (forall o :: 0 <= o < ch.next ==> o in got)
    && (forall o :: o in ch.buffer <==> o in got && ch.next <= o)
    && (forall o :: o in ch.buffer ==> Content(ch.buffer[o]) == stream[o])
  }

  /** Nothing deliverable is left waiting: `next` is the least order id that has not arrived. */
  ghost predicate ChannelInv(ch: Channel, delivered: seq<Packet>, got: set<nat>, stream: seq<Message>) {
    Consistent(ch, delivered, got, stream) && ch.next !in got
  }

  /** The next packet of the stream moves from the buffer, or straight from the wire, into
      what has been delivered. */
  lemma Advance(ch: Channel, delivered: seq<Packet>, got: set<nat>, stream: seq<Message>, p: Packet)
    requires Consistent(ch, delivered, got, stream)
    requires ch.next < |stream| && Content(p) == stream[ch.next]
    ensures Consistent(Channel(Increment(ch.next), ch.buffer - {ch.next}), delivered + [p], got + {ch.next}, stream)
  {
    hide Content;
  }

  lemma {:induction false} DrainKeeps(ch: Channel, delivered: seq<Packet>, got: set<nat>, stream: seq<Message>)
    requires Consistent(ch, delivered, got, stream)
    ensures ChannelInv(Drain(ch).channel, delivered + Drain(ch).ready, got, stream)
    decreases |ch.buffer|
  {
    hide Content;
    hide Consistent;
    hide Increment;
    if ch.next in ch.buffer {
      var p, ch' := ch.buffer[ch.next], Channel(Increment(ch.next), ch.buffer - {ch.next});
      AdvanceBuffered(ch, delivered, got, stream);
      assert ch.buffer.Keys == ch'.buffer.Keys + {ch.next};
      DrainKeeps(ch', delivered + [p], got, stream);
      assert Drain(ch) == Arrival(Drain(ch').channel, [p] + Drain(ch').ready);
      assert delivered + [p] + Drain(ch').ready == delivered + ([p] + Drain(ch').ready);
    } else {
      NextMissing(ch, delivered, got, stream);
      assert delivered + [] == delivered;
    }
  }

  lemma AdvanceBuffered(ch: Channel, delivered: seq<Packet>, got: set<nat>, stream: seq<Message>)
    requires Consistent(ch, delivered, got, stream) && ch.next in ch.buffer
    ensures Consistent(Channel(Increment(ch.next), ch.buffer - {ch.next}), delivered + [ch.buffer[ch.next]], got,
                       stream)
  {
    hide Content;
    hide DeliversPrefix;
    assert got + {ch.next} == got;
    Advance(ch, delivered, got, stream, ch.buffer[ch.next]);
  }

  lemma NextMissing(ch: Channel, delivered: seq<Packet>, got: set<nat>, stream: seq<Message>)
    requires Consistent(ch, delivered, got, stream) && ch.next !in ch.buffer
    ensures ch.next !in got
  {
    hide Content;
    hide DeliversPrefix;
  }

  /** Any arrival consistent with the stream, first copy or not, in or out of order, keeps
      the channel closed and delivers exactly the next stretch of the stream. */
  lemma ReceiveKeeps(ch: Channel, delivered: seq<Packet>, got: set<nat>, stream: seq<Message>, o: u32, p: Packet)
    requires ChannelInv(ch, delivered, got, stream)
    requires o < |stream| && Content(p) == stream[o]
    ensures ChannelInv(Receive(ch, o, p).channel, delivered + Receive(ch, o, p).ready, got + {o}, stream)
  {
    hide Content;
    if o == ch.next {
      var ch' := ch.(next := Increment(ch.next));
      assert ch.buffer - {ch.next} == ch.buffer;
      Advance(ch, delivered, got, stream, p);
      DrainKeeps(ch', delivered + [p], got + {o}, stream);
      assert delivered + [p] + Drain(ch').ready == delivered + Receive(ch, o, p).ready;
    } else {
      assert delivered + [] == delivered;
      assert o < ch.next ==> got + {o} == got;
    }
  }

  /** The stream may grow under a channel. */
  lemma StreamGrows(ch: Channel, delivered: seq<Packet>, got: set<nat>, stream: seq<Message>, more: seq<Message>)
    requires ChannelInv(ch, delivered, got, stream) && |stream + more| < TWO_TO_THE_32
    ensures ChannelInv(ch, delivered, got, stream + more)
  {
  }

  /** The next expected id depends only on which order ids have arrived. */
  lemma NextDetermined(ch: Channel, delivered: seq<Packet>, ch': Channel, delivered': seq<Packet>, got: set<nat>,
                       stream: seq<Message>)
    requires ChannelInv(ch, delivered, got, stream) && ChannelInv(ch', delivered', got, stream)
    ensures ch.next == ch'.next && ch.buffer.Keys == ch'.buffer.Keys
    ensures |delivered| == |delivered'|
    ensures forall i :: 0 <= i < |delivered| ==> Content(delivered[i]) == Content(delivered'[i])
  {
  }

  // ---- Whole arrival sequences ----

  datatype Copy = Copy(orderId: u32, packet: Packet)

  function ReceiveAll(copies: seq<Copy>): Arrival {
    if copies == [] then Arrival(EMPTY_CHANNEL, [])
    else
      var before := ReceiveAll(copies[..|copies| - 1]);
      var last := copies[|copies| - 1];
      var step := Receive(before.channel, last.orderId, last.packet);
      Arrival(step.channel, before.ready + step.ready)
  }

  ghost predicate CopiesOf(copies: seq<Copy>, stream: seq<Message>) {
    forall i :: 0 <= i < |copies| ==>
      copies[i].orderId < |stream| && Content(copies[i].packet) == stream[copies[i].orderId]
  }

  ghost function OrderIds(copies: seq<Copy>): set<nat> {
    set i | 0 <= i < |copies| :: copies[i].orderId
  }

  lemma {:induction false} ReceiveAllKeeps(copies: seq<Copy>, stream: seq<Message>)
    requires CopiesOf(copies, stream) && |stream| < TWO_TO_THE_32
    ensures ChannelInv(ReceiveAll(copies).channel, ReceiveAll(copies).ready, OrderIds(copies), stream)
  {
    hide Content;
    hide Receive;
    hide ChannelInv;
    if copies == [] {
      NothingArrived(stream);
    } else {
      var before, last := copies[..|copies| - 1], copies[|copies| - 1];
      ReceiveAllKeeps(before, stream);
      var r := ReceiveAll(before);
      ReceiveKeeps(r.channel, r.ready, OrderIds(before), stream, last.orderId, last.packet);
      assert OrderIds(copies) == OrderIds(before) + {last.orderId} by {
        assert copies == before + [last];
      }
    }
  }

  lemma NothingArrived(stream: seq<Message>)
    requires |stream| < TWO_TO_THE_32
    ensures ChannelInv(EMPTY_CHANNEL, [], OrderIds([]), stream)
  {
  }

  /** What a channel delivers depends only on which of its packets have arrived: not on the
      order of arrival, nor on how many copies of each there were. */
  lemma ArrivalOrderIrrelevant(copies: seq<Copy>, copies': seq<Copy>, stream: seq<Message>)
    requires CopiesOf(copies, stream) && CopiesOf(copies', stream) && |stream| < TWO_TO_THE_32
    requires OrderIds(copies) == OrderIds(copies')
    ensures var a, b := ReceiveAll(copies), ReceiveAll(copies');
            && a.channel.next == b.channel.next
            && |a.ready| == |b.ready| == a.channel.next <= |stream|
            && forall i :: 0 <= i < |a.ready| ==> Content(a.ready[i]) == Content(b.ready[i]) == stream[i]
  {
    hide Content;
    ReceiveAllKeeps(copies, stream);
    ReceiveAllKeeps(copies', stream);
    NextDetermined(ReceiveAll(copies).channel, ReceiveAll(copies).ready,
                   ReceiveAll(copies').channel, ReceiveAll(copies').ready, OrderIds(copies), stream);
  }
}
