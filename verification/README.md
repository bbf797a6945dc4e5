# A verified model of the game's networking and entity core

This project models, and proves properties of, the parts of the game that everything else stands on.

* **The RUDP session** (`Session`, `SessionSpec`, `AckWindow`, `Reorder`, `Packets`). A session numbers every
  frame, piggybacks an acknowledge id and a 32-bit field on each, answers duplicates with RICH_ACKs, retransmits,
  and reorders packets per channel. `Session.Session` has the mutable fields of the original class and is proved,
  operation by operation, to do what `SessionSpec` says; the bitfield is kept as the integer it is, with shifts and
  masks written as arithmetic (`Numbers`). What `SessionSpec` computes is then said in full without its loops:
  which frames a send and an acknowledgement put out (`Outgoing`), what an arrival frees, records, hands out and
  answers (`Receipt`), and what a timer tick sends again, closes or acknowledges (`Resending`).
* **Two sessions over a bad network** (`Link`, `LinkEmit`, `LinkSteps`, `LinkReceive`, `Network`, `Budget`,
  `Guarantees`, `Unordered`, `Upkeep`, `Misuse`, `Replay`). Sends, timer ticks and deliveries happen in any order;
  every frame ever transmitted may be delivered never, once or many times, at any later point, and unparsable noise
  may arrive. One inductive invariant is kept by every action; `Guarantees` and `Unordered` draw from it what a user
  may rely on at every point of every run, `Upkeep` says exactly when packets are freed, sent again and acknowledged
  and connections given up, `Misuse` shows what goes wrong for callers that break the rules the invariant needs, and
  `Replay` exhibits a run at the limit of what is promised.
* **The codec and the header** (`Endian`, `Codec`, `PacketBuffer`, `Header`). A type-directed printer and parser for
  primitives, strings, vectors, deques and nested structs, the two byte streams that use it, and the 26-byte packed
  header.
* **The entity-component storage** (`BitSet`, `SparseSet`, `SparseGroup`, `EcsSpec`, `Ecs`). A growable bitset, paged
  sparse sets with swap-remove, groups as intersections, and the registry that keeps masks and sets in agreement.
  `Ecs.Ecs` is an object over those sets, proved against the finite maps of `EcsSpec`.
* **The world snapshot and the client replica** (`Snapshot`, `Engine`, `Replica`, `Join`, `Handlers`, `Follow`). The
  server writes each entity as a mask list and component bytes; the client rebuilds it and binds its id. The theorems
  need the registry invariant, the codec inverse and the bitset index lists together.
* **The wave picker** (`WavePicker`, `Binary32`). A budgeted weighted selection loop. Its credits are a `float`:
  `Binary32` is rounding to the nearest IEEE 754 binary32 value, ties to even, proved to be just that.

Components are numbered by their position in the components list, the floats in components and enums are carried as bit
patterns, and time is a number of milliseconds given to each operation.

## Findings

* Runs ask three things of a caller (`LinkSteps.MaySend`), exactly what it takes that a send keeps the invariants
  (`LinkSteps.SendKeepsIff`), and each is needed. A frame acknowledges only accepted ids **if and only if** something
  was accepted or the packet does not itself carry `kHasAck`; otherwise it acknowledges id 0
  (`Guarantees.ClaimsSoundIff`). A packet that poses as ACK or RICH_ACK is swallowed by the receiver
  (`Guarantees.UnorderedReturnedIff`): if it is ordered, its order id is used up and never delivered, and the channel
  returns nothing that was submitted behind it (`Misuse.ChannelStalls`). A list of ids in a RICH_ACK that is sent and
  arrives is harmless **if and only if** the sender accepted the listed ids that the peer still keeps
  (`Misuse.RichAckSoundIff`); the caller cannot see those, so the rule is that it lists accepted ids.
* Duplicate detection is exact up to history eviction (`Guarantees.WindowExact`). An arrival makes the window forget
  exactly what it evicts, and with a full history an arrival from beyond the window makes a copy of the oldest
  remembered packet pass as new (`AckWindow.ForgetsExactly`, `AckWindow.EvictionBites`). A sequence id returns its
  unordered packet as often as it was evicted, and once more while it is remembered (`Unordered.UnorderedDelivery`);
  and some run does return one twice: 2^15 + 33 packets arrive in order, then one held back from before them, then a
  copy of the oldest (`Replay.SomeRunReturnsTwice`). The history is trimmed only when an id arrives from beyond the
  window, so 2^15 bounds neither its size nor the ids accepted before eviction.
* A client can handle a snapshot **if and only if** no server entity that it has not bound is without components: an
  empty index list is out of bounds in `deserialize` (`Join.SnapshotReadableIff`, `Snapshot.ReadableIffNotEmpty`,
  `BitSet.ReadableIff`).
* Which server ids a client has bound is decided by the last packets about them: an id is bound **if and only if** some
  packet bound it and no later one destroyed it (`Replica.BoundIff`). Its bindings are the server's live entities
  **if and only if** every live id was bound by some packet and every dead one was destroyed after each packet that
  bound it (`Follow.FollowsIff`). Handling every packet in the order sent is enough (`Follow.StaysInStep`), but the
  packets do not promise that: Destroy is sent unreliably (`common/packets/server/destroy.hpp:15`), and one that is
  lost leaves its entity for ever even when everything else arrives in order (`Replica.LostDestroyStays`); and Spawn is
  reliable but unordered, so a Destroy may overtake it and be dropped (`Follow.DestroyOvertakesSpawn`).
* Where no wave gives credits, the wave picker ends from given ones, however the draws fall, **if and only if** no
  round that can be reached offers a wave whose cost the credits absorb when it is subtracted (`WavePicker.EndsIff`).
  Up to 2^24 credits such a wave is a free one (`WavePicker.EndsIffNothingFree`), so that the picking ends from all of
  them **if and only if** every wave of positive weight has a positive cost (`WavePicker.EndsIffPriced`), and with
  costs from 0 to 2^24 what is spent is what the waves cost (`WavePicker.SpendsExactly`). Beyond 2^24 neither holds:
  with one wave of cost 1, at 2^25 and at every other float from 2^24 + 4 up to there, each draw leaves the credits as
  they are and the loop never ends (`WavePicker.PricedStalls`).
* The code and its documents differ, and the model follows the code: `Header::parse` checks neither the version nor
  that the payload ends where announced (`docs/rtntp.txt` section 6 asks for both), the version constant is 0x0003;
  `_internal_sendAck` chooses by the pending RICH_ACK ids and not by the old-packet history
  (`lib/rtnt/include/rtnt/core/session.hpp:201-205`); only duplicates are queued for RICH_ACK, not every packet from
  beyond the window (section 4.2.3).

## Model

| member | source | states |
|---|---|---|
| Guarantees.ClaimsAreAccepted | lib/rtnt/src/core/session.cpp:180-199 | At every point of every run, all ids that any frame ever transmitted acknowledges, in its header or as a RICH_ACK, had been accepted by its sender |
| Guarantees.AckSoundness | lib/rtnt/src/core/session.cpp:53-77 | A sequence id that left the retransmission buffer between two points of a run, by any of the three ways, had been accepted by the peer |
| Guarantees.ClaimsSoundIff | lib/rtnt/src/core/session.cpp:189-199 | Exactly when a frame's header claims only accepted ids: something was accepted, or the packet does not carry kHasAck itself |
| Guarantees.OrderedDelivery | lib/rtnt/src/core/session.cpp:118-156 | On every channel the packets returned so far are a prefix of those given to the peer's send: no gap, repeat or swap, under loss, duplication, reordering, retransmission and eviction |
| Guarantees.StreamIsSubmitted | lib/rtnt/src/core/session.cpp:161-178 | The order ids of a channel number exactly the ordered packets its user submitted, in order |
| Guarantees.NextIsLeastMissing | lib/rtnt/src/core/session.cpp:133-156 | The next expected order id of a channel is always the least not accepted there, and as many packets were delivered |
| Guarantees.NothingIsLost | lib/rtnt/src/core/session.cpp:161-178 | Every reliable or ordered packet is still kept unchanged or was accepted by the peer; every accepted ordered packet was delivered at its place or is buffered under its own order id with its own content |
| Guarantees.WindowExact | lib/rtnt/src/core/session.cpp:398-420 | An id is seen as a duplicate exactly when it was accepted and not evicted, and nothing is evicted before more than 2^15 ids were accepted |
| Guarantees.AcceptedOnce | lib/rtnt/src/core/session.cpp:79-89 | At every point of every run an id was accepted exactly as often as the history dropped it, and once more while it counts as a duplicate; nothing is dropped before more than 2^15 ids were accepted |
| Unordered.UnorderedDelivery | lib/rtnt/src/core/session.cpp:79-126 | At every point of every run each unordered packet returned is one the peer's user sent under that sequence id, each accepted one was returned, and a sequence id returned one exactly as often as it was evicted, and once more while it is remembered |
| Unordered.LoggedWasSent | lib/rtnt/src/core/session.cpp:161-178 | Whatever a session holds under a sequence id and is not its own acknowledgement was given to send when that id was next |
| AckWindow.ForgetsExactly | lib/rtnt/src/core/session.cpp:382-391 | A new arrival makes the duplicate check forget exactly what it evicts: the front entry of a history of at least 2^15, when it comes itself from beyond the window |
| AckWindow.HistoryQueues | lib/rtnt/src/core/session.cpp:341-394 | The history is a queue: the evicted entry leaves at its front; the ids that fall out of the field join at its end, newest first, then a head that is left behind, or the out-of-window arrival itself |
| AckWindow.EvictionBites | lib/rtnt/src/core/session.cpp:387-391 | With a full history an out-of-window arrival makes the oldest remembered accepted id pass as new |
| Replay.SomeRunReturnsTwice | lib/rtnt/src/core/session.cpp:382-391 | There is a run from two fresh sessions that returns one unordered packet twice |
| Guarantees.ChannelIndependence | docs/rtntp.txt:192-201 | Two runs with the same submissions and the same accepted packets on a channel deliver the same there, whatever else happened in them |
| Misuse.RichAckSoundIff | lib/rtnt/src/core/session.cpp:422-448 | A user's packet posing as a RICH_ACK is sent and arrives, at any point of any run: the peer stops keeping only packets the sender accepted exactly when each listed id that it still keeps was accepted |
| Misuse.ChannelStalls | lib/rtnt/src/core/session.cpp:98-116 | After an ordered packet that the receiver takes for an acknowledgement, whatever is sent, resent, lost or repeated later, the peer never returns more packets on that channel than were submitted before it |
| LinkSteps.SendKeepsIff | lib/rtnt/src/core/session.cpp:161-178 | What the model asks of callers of send is exactly what it takes that the send keeps the invariants of its end |
| Guarantees.UnorderedReturnedIff | lib/rtnt/src/core/session.cpp:98-126 | An unordered frame returns its packet exactly when it is neither a remembered duplicate nor shaped like a session's own acknowledgement |
| Guarantees.AnnouncedInTime | lib/rtnt/src/core/session.cpp:89-96 | Fewer than 16 arrivals ever await an acknowledgement; in gap-free in-order runs each accepted id was named by some outgoing header before 16 more followed it |
| Guarantees.RetransmissionBound | lib/rtnt/src/core/session.cpp:258-282 | No sequence id is transmitted more than nine times |
| Guarantees.CopiesAlike | lib/rtnt/src/core/session.cpp:269-278 | All frames ever sent under one sequence id agree in message, channel, order id and payload |
| Guarantees.TotalRetransmissions | lib/rtnt/include/rtnt/common/constants.hpp:62-70 | A whole run has at most eight retransmissions for each tracked packet sent |
| Guarantees.RetransmissionsRunOut | lib/rtnt/src/core/session.cpp:258-282 | From any point on, without new tracked sends, at most as many retransmissions happen as attempts were left then |
| Resending.UpdateExact | lib/rtnt/src/core/session.cpp:250-287 | A tick gives the connection up exactly when some packet kept for more than 200 ms has used up eight attempts; it sends again, once each under their own ids, exactly the due packets before any such, notes time and attempt on them and on no other; the delayed acknowledgement goes out exactly when nothing was sent or given up, something is unacknowledged and 100 ms have passed |
| Receipt.HandleExact | lib/rtnt/src/core/session.cpp:53-159 | Every frame in full: the kept packets erased, the window or the queue of duplicates it enters, the packets handed out, and the acknowledgements sent for the sixteenth new arrival |
| Misuse.KeptAfter | lib/rtnt/src/core/session.cpp:53-77 | A frame of any kind leaves exactly the kept packets that its header does not name and, when it is a new RICH_ACK, that it does not list |
| Outgoing.SendExact | lib/rtnt/src/core/session.cpp:161-248 | A send makes one frame with the current acknowledgement and the next sequence and order ids, keeps it exactly when its flag is not kUnreliable, and advances no other counter |
| Outgoing.SendAckExact | lib/rtnt/src/core/session.cpp:295-337 | Acknowledging sends the queue as RICH_ACKs of 256 ids and a remainder, or one plain ACK when it is empty, each with its own sequence id and the current acknowledgement |
| Outgoing.FrameBytes | lib/rtnt/src/core/session.cpp:186-248 | Byte for byte what goes on the wire for a packet: the protocol's four bytes, its ids, the current acknowledgement, its flags and size, and its payload |
| Upkeep.FreedForGood | lib/rtnt/src/core/session.cpp:53-77 | Once a frame is delivered, what its header names is never kept or transmitted again, at any later point of the run |
| Upkeep.RetransmitsExactly | lib/rtnt/src/core/session.cpp:258-281 | At each step of each run a used sequence id goes out once more exactly at a tick that finds it kept, due and before every exhausted packet |
| Upkeep.GivenUpIff | lib/rtnt/src/core/session.cpp:263-267 | A session is closed exactly when an earlier tick of its own found a kept packet sent nine times, the last time over 200 ms before |
| Upkeep.AcksExactly | lib/rtnt/src/core/session.cpp:89-96 | A session acknowledges of its own accord exactly at the sixteenth new id since it last transmitted, or at a quiet tick over 100 ms after that with something arrived since |
| Upkeep.TimersTell | lib/rtnt/src/core/session.cpp:284-286 | The timers are functions of the run: the time of the last transmission, whether anything arrived after it, and how many new ids |
| Guarantees.RichAcksEraseQueue | lib/rtnt/src/core/session.cpp:422-448 | The chunks of one flush make the peer erase exactly the queued ids and nothing else |
| Network.ActionKeeps | lib/rtnt/src/core/session.cpp:22-287 | Every send, delivery of any old frame, noise datagram or timer tick keeps the invariant linking both endpoints |
| Network.RunKeeps | lib/rtnt/src/core/session.cpp:22-287 | That invariant holds at every point of every run from two fresh sessions |
| LinkEmit.HeaderClaims | lib/rtnt/src/core/session.cpp:186-199 | Each outgoing header names exactly the accepted ids from the head down to 32 below it |
| LinkReceive.ReceiveFresh | lib/rtnt/src/core/session.cpp:79-159 | Accepting any frame of the peer for the first time keeps every invariant of the receiving end |
| LinkReceive.ReceiveDuplicate | lib/rtnt/src/core/session.cpp:79-87 | So does a remembered duplicate, which only queues its id |
| Budget.ResendSpends | lib/rtnt/src/core/session.cpp:258-282 | Each retransmission lowers the sum of attempts left over the kept packets by exactly one |
| SessionSpec.FlushConserves | lib/rtnt/src/core/session.cpp:297-326 | Flushing splits the queue into chunks of 1 to 256 ids whose concatenation is the whole queue |
| SessionSpec.SendAckEmptiesQueue | lib/rtnt/src/core/session.cpp:295-337 | Sending acknowledgements leaves the queue empty and puts every queued id in exactly one chunk |
| Session.Session.Send | lib/rtnt/src/core/session.cpp:161-178 | The mutable session ends in the specified state and emits the specified datagram |
| Session.Session.RawSend | lib/rtnt/src/core/session.cpp:180-248 | One datagram with the current acknowledgement goes out; counters and clock change as specified |
| Session.Session.HandleIncoming | lib/rtnt/src/core/session.cpp:22-159 | State, returned packets and emitted datagrams are those of the specification, for any bytes |
| Session.Session.Update | lib/rtnt/src/core/session.cpp:250-287 | The resend loop and the delayed acknowledgement match the specification, including the abort when attempts are exhausted |
| Session.Session.SendAck | lib/rtnt/src/core/session.cpp:295-337 | The chunk loop terminates and emits the specified frames |
| Session.Session.FlushChunks | lib/rtnt/src/core/session.cpp:297-326 | Cutting the queue in place by an offset equals the recursive specification of the chunks |
| Session.Session.UpdateAcknowledgeInfo | lib/rtnt/src/core/session.cpp:341-396 | The in-place shifts and history pushes realise acceptance of one id by the abstract window |
| Session.Session.IsDuplicate | lib/rtnt/src/core/session.cpp:398-420 | The check equals the abstract window's |
| Session.Session.Acknowledge | lib/rtnt/src/core/session.cpp:53-77 | Exactly the ids the header names are erased from the kept packets |
| Session.Session.CheckForOldPackets | lib/rtnt/src/core/session.cpp:422-448 | Exactly the ids a decodable RICH_ACK lists are erased; an undecodable one changes nothing |
| Session.Session.Drain | lib/rtnt/src/core/session.cpp:142-146 | The loop terminates and hands out exactly the consecutive run of buffered packets |
| Session.Session.Order | lib/rtnt/src/core/session.cpp:128-156 | Only the packet's own channel changes, as the reorder specification says |
| AckWindow.AcceptKeeps | lib/rtnt/src/core/session.cpp:341-396 | Accepting a new id, in any of the branches, keeps head, bitfield and history standing for exactly the accepted ids minus the evicted ones |
| AckWindow.DuplicateIffRemembered | lib/rtnt/src/core/session.cpp:398-420 | Duplicate detection is membership in that set |
| AckWindow.NamedExactly | lib/rtnt/src/core/session.cpp:70-76 | The header fields decode to exactly the accepted ids within 32 of the head |
| AckWindow.WindowPartition | lib/rtnt/include/rtnt/core/session.hpp:176-195 | Head, bitfield and history are pairwise disjoint, list nothing twice and together are what is remembered |
| Reorder.ReceiveKeeps | lib/rtnt/src/core/session.cpp:128-156 | Any arrival of the stream keeps delivery a prefix, the buffer faithful and the next id the least missing |
| Reorder.ReceiveExact | lib/rtnt/src/core/session.cpp:133-156 | On any channel: the expected packet is handed out with the whole consecutive stretch buffered behind it, one ahead replaces what is buffered under its order id, one from the past changes nothing, ids counted modulo 2^32 |
| Reorder.DrainKeeps | lib/rtnt/src/core/session.cpp:142-146 | Draining closes the gap: afterwards the next id has not arrived |
| Reorder.NextDetermined | docs/rtntp.txt:192-201 | Two channels that saw the same order ids agree on the next id, the buffered ids and everything delivered |
| Reorder.ArrivalOrderIrrelevant | docs/rtntp.txt:192-201 | Over whole arrival sequences, what a channel delivers depends only on the set of packets that arrived |
| Endian.SwapTwice | lib/rtnt/include/rtnt/common/utils.hpp:20-36 | The swap is its own inverse on values of the width |
| Endian.SwappedImage | lib/rtnt/include/rtnt/core/packet.hpp:418-426 | A swapped value lies in memory in network byte order |
| Endian.BigEndianIff | lib/rtnt/include/rtnt/common/utils.hpp:20-36 | The network order of a number is the only byte sequence of its width whose value to base 256, most significant byte first, is that number |
| Codec.RoundTrip | lib/rtnt/include/rtnt/core/packet.hpp:418-650 | Reading back any written value, nested however deep, gives it with over-long strings truncated and leaves what follows |
| Codec.ExactRoundTrip | lib/rtnt/include/rtnt/core/packet.hpp:418-650 | The value comes back unchanged exactly when no list and no string is over 65535 long |
| Codec.EncodeLayout | lib/rtnt/include/rtnt/core/packet.hpp:418-440 | The bytes of every value: numbers and 16-bit counts in network order, as many characters as the count says, items and members one behind the other |
| Codec.DecodeIff | lib/rtnt/include/rtnt/core/packet.hpp:450-484 | A read succeeds exactly on the bytes that writing a value puts there, and then gives that value and the rest |
| Codec.EncodesIffShortLists | lib/rtnt/include/rtnt/core/packet.hpp:575-632 | The writer throws exactly on values holding an over-long vector or deque |
| Codec.ClipIdentity | lib/rtnt/include/rtnt/core/packet.hpp:433-440 | The 16-bit string length loses nothing exactly when all strings are short enough |
| Codec.StrictPrefixUnderflows | lib/rtnt/include/rtnt/core/packet.hpp:450-484 | Reading any strict prefix of an encoding underflows |
| Codec.DecodeExtends | lib/rtnt/include/rtnt/core/packet.hpp:450-484 | More bytes behind a successful read change neither value nor position |
| Codec.IdsRoundTrip | lib/rtnt/src/core/session.cpp:312-318 | A RICH_ACK payload decodes to the ids it was built from |
| PacketBuffer.Packet.Write | lib/rtnt/include/rtnt/core/packet.hpp:418-440 | The stream appends the encoding of the value, or reports the over-long list |
| PacketBuffer.Packet.Read | lib/rtnt/include/rtnt/core/packet.hpp:450-484 | The reader returns what the decoder finds in the unread bytes and stands behind it, or reports the underflow |
| PacketBuffer.EntityContent.Write | lib/rteng/include/EntityContent.hpp:44-132 | The engine's writer appends the same bytes as the packet's |
| PacketBuffer.ReadBackEntity | lib/rteng/include/EntityContent.hpp:34-91 | Whatever the engine's writer wrote, the packet reader reads back |
| Header.DatagramRoundTrip | lib/rtnt/src/core/packet.cpp:13-32 | A datagram is parsed as the frame it was made from exactly when it names the protocol and announces no more bytes than it carries, and never as another frame |
| Header.DatagramLayout | lib/rtnt/include/rtnt/core/packet.hpp:117-130 | Every datagram is the eleven header fields in their order and widths, each in network order, and the payload |
| Header.ParseExact | lib/rtnt/src/core/packet.cpp:13-31 | Any data of at least 26 bytes is the layout of a header; that header is what is read, refused for another protocol id or a shorter payload than announced |
| Header.ReceiveExact | lib/rtnt/src/core/packet.cpp:13-31 | A datagram is received as a frame exactly when it is laid out as that frame, of this protocol and with at least the payload announced |
| Header.TruncatedDatagramDropped | lib/rtnt/src/core/packet.cpp:15-29 | A datagram cut inside the header or the announced payload is dropped |
| BitSet.DynamicBitSet.LeftShift | lib/rtecs/src/bitset/DynamicBitSet.cpp:82-92 | The carrying block loop equals the flat shift by any count |
| BitSet.DynamicBitSet.RightShift | lib/rtecs/src/bitset/DynamicBitSet.cpp:94-104 | So does the other direction, dropping bits at the capacity |
| BitSet.DynamicBitSet.ApplyOperation | lib/rtecs/src/bitset/DynamicBitSet.cpp:65-80 | The result is pointwise on operands of any capacities, also when it is this bitset or the other operand |
| BitSet.CombinesUnique | lib/rtecs/src/bitset/DynamicBitSet.cpp:177-235 | There is one such result, so the copying and the in-place operators agree |
| BitSet.DynamicBitSet.Set | lib/rtecs/src/bitset/DynamicBitSet.cpp:237-246 | Writing a bit grows the bitset as needed and changes no other bit |
| BitSet.DynamicBitSet.Any | lib/rtecs/src/bitset/DynamicBitSet.cpp:149-168 | True exactly when some logical bit is set |
| BitSet.DynamicBitSet.Equals | lib/rtecs/src/bitset/DynamicBitSet.cpp:256-270 | True exactly for the same bits, whatever the capacities |
| BitSet.IndexesExact | lib/rtecs/src/bitset/DynamicBitSet.cpp:106-116 | The index list is strictly increasing and names exactly the set bits |
| BitSet.ReadableIff | lib/rtecs/src/bitset/DynamicBitSet.cpp:52-63 | A serialized bitset stays inside the memory deserialize allocates exactly when some bit above 0 is set |
| BitSet.ReadBack | lib/rtecs/src/bitset/DynamicBitSet.cpp:52-63 | Deserializing a serialized bitset gives an equal one at any capacity |
| SparseSet.SparseSet.Put | lib/rtecs/include/rtecs/sparse/set/SparseSet.hpp:198-222 | The set stands for the old map with one entry written; dense slots and pages stay inverse to each other |
| SparseSet.SparseSet.Remove | lib/rtecs/include/rtecs/sparse/set/SparseSet.hpp:224-260 | Swap and pop remove exactly one entry of the map, across page borders |
| SparseSet.SparseSet.Clear | lib/rtecs/include/rtecs/sparse/set/SparseSet.hpp:262-268 | The map is empty afterwards |
| SparseSet.SparseSet.Get | lib/rtecs/include/rtecs/sparse/set/SparseSet.hpp:138-172 | The map's value for the id, or none |
| SparseSet.SparseSet.Has | lib/rtecs/include/rtecs/sparse/set/SparseSet.hpp:180-190 | True exactly for the map's keys |
| SparseSet.SparseSet.Size | lib/rtecs/include/rtecs/sparse/set/SparseSet.hpp:192-196 | The dense length is the number of distinct entities |
| SparseSet.RemoveSwap | lib/rtecs/include/rtecs/sparse/set/SparseSet.hpp:239-259 | After swap, pop and both page writes the arrays are aligned and only the removed entity's component is gone |
| SparseGroup.SparseGroup.constructor | lib/rtecs/include/rtecs/sparse/group/SparseGroup.hpp:80-108 | The group lists exactly once each entity present in all sets, each view leading to that set's component |
| SparseGroup.SparseGroup.Views | lib/rtecs/include/rtecs/sparse/group/SparseGroup.hpp:99-107 | The scan over the smallest set finds exactly the entities of the intersection |
| SparseGroup.GroupsAgree | lib/rtecs/include/rtecs/sparse/group/SparseGroup.hpp:84-92 | Whichever set drives the scan, any two groups over the same sets hold the same entities and components |
| SparseGroup.SparseGroup.GetEntity | lib/rtecs/include/rtecs/sparse/group/SparseGroup.hpp:119-123 | The reference of the view, or none |
| SparseGroup.SparseGroup.Apply | lib/rtecs/include/rtecs/sparse/group/SparseGroup.hpp:168-179 | Each entity of the group gets, in every set, what the callback makes of its own old components; no other entity changes |
| SparseGroup.SparseView.Put | lib/rtecs/include/rtecs/sparse/view/SparseView.hpp:36-42 | The whole new state; for a fresh key the view stands for the old map with one more entry |
| SparseGroup.PutInView | lib/rtecs/include/rtecs/sparse/view/SparseView.hpp:36-42 | For a fresh key the view stays a consistent map with one more entry |
| EcsSpec.RunSound | lib/rtecs/include/rtecs/ECS.hpp:51-78 | After any sequence of calls component bits are distinct and above 0, ids were handed out in increasing order and never again, and only handed-out ids live |
| EcsSpec.RegisterEntityExact | lib/rtecs/include/rtecs/ECS.hpp:235-251 | With some component registered the new entity has exactly the registered ones given, each with the value of its last instance, and nothing else changes; with none, nothing does |
| EcsSpec.RunUses | lib/rtecs/include/rtecs/ECS.hpp:51-78 | After any sequence of calls the registered components are those asked for, each on the bit that counts the registrations up to its first, and as many entity ids are used as were handed out |
| Ecs.Ecs.RegisterComponent | lib/rtecs/include/rtecs/ECS.hpp:51-78 | A first registration gets a fresh single-bit mask across block growth, a repeated one only uses up a bit, and masks still agree with sets |
| Ecs.Ecs.NextMask | lib/rtecs/include/rtecs/ECS.hpp:54-58 | The index bit moves exactly one place on, growing a block when it would fall off |
| Ecs.Ecs.AddEntityComponent | lib/rtecs/include/rtecs/ECS.hpp:89-122 | Mask and set of one entity gain the component together; unknown entities and components change nothing |
| Ecs.Ecs.RegisterEntity | lib/rtecs/include/rtecs/ECS.hpp:235-251 | The new entity has exactly the registered ones of its components; with none registered no id is used |
| Ecs.Ecs.PreRegisterEntity | lib/rtecs/src/ECS.cpp:15-23 | A new id with an empty row |
| Ecs.Ecs.UpdateEntityComponent | lib/rtecs/include/rtecs/ECS.hpp:176-204 | Overwrites exactly a component the entity has, reports whether it had it, and leaves masks alone |
| Ecs.Ecs.DestroyEntity | lib/rtecs/src/ECS.cpp:54-64 | The entity leaves the map and every set; all other rows stay |
| Ecs.Ecs.GetEntityMask | lib/rtecs/src/ECS.cpp:36-42 | The mask has a component's bit exactly when the component's set holds the live entity, and no other bit |
| Ecs.Ecs.GetAllEntities | lib/rtecs/src/ECS.cpp:44-52 | Every live id exactly once |
| Ecs.Ecs.GetFromGroup | lib/rteng/include/rteng.hpp:107-112 | The lookup through a group of one set finds exactly the entity's component |
| Ecs.Ecs.RemoveAllOf | lib/rteng/include/rteng.hpp:192-211 | Destroys and returns exactly the entities whose component equals the given value |
| Snapshot.FreshlyListed | lib/rteng/include/rteng.hpp:33-39 | In a new engine list component i has mask bit i + 1 |
| Snapshot.StaysListed | lib/rtecs/include/rtecs/ECS.hpp:65-73 | No operation moves a component's bit |
| Snapshot.MaskNamesList | lib/rtecs/include/rtecs/ECS.hpp:89-122 | A serialized mask names bit c + 1 exactly when the entity has list component c |
| Snapshot.RebuildAdds | common/components/factory.hpp:76-91 | Reading what was written for a row adds exactly that row's listed components to the entity |
| Snapshot.ContentLayout | lib/rteng/include/rteng.hpp:148-164 | An entity's content is the bytes of its listed components, one behind the other in list order |
| Snapshot.RebuildExact | common/components/factory.hpp:76-107 | Over any mask and any bytes: a value for each wanted component in list order, read off the front until all are read or one cannot be; the entity gains exactly those |
| Snapshot.ReadableIffNotEmpty | lib/rtecs/src/bitset/DynamicBitSet.cpp:52-63 | An entity's mask list can be deserialized exactly when the entity has a component |
| Engine.GetEntityInfos | lib/rteng/include/rteng.hpp:148-164 | Returns the entity's exact mask list and its present components' bytes in list order, changing nothing |
| Engine.Apply | common/components/factory.hpp:76-107 | The loop over creators with its reader rebuilds as specified, also when the data runs out midway |
| Replica.SpawnEffect | Client/src/handlers/handle_spawn.cpp:41-59 | A spawn of a bound id changes nothing; another binds a new entity and touches no other binding or entity |
| Replica.SpawnBuilds | Client/src/handlers/handle_spawn.cpp:41-59 | Of the listed components the new entity has exactly the values read, also when the content breaks off, and is rendered only when it does not |
| Replica.SpawnRenders | Client/src/handlers/handle_spawn.cpp:9-37 | The new entity has a sprite exactly with a type, an animation exactly with a type that has one, a target exactly with a position, with these values, and nothing else of the client's own |
| Replica.WorldInitExact | Client/src/handlers/handle_world_init.cpp:9-23 | The loop handles all entries, or up to the first of a new id whose content breaks off; exactly those ids are bound besides the earlier ones, that one included |
| Replica.WorldInitEffect | Client/src/handlers/handle_world_init.cpp:9-23 | A snapshot, even one that stops early, leaves all earlier bindings and entities untouched |
| Replica.WorldInitBinds | Client/src/handlers/handle_world_init.cpp:15-22 | A snapshot loop that runs to its end binds exactly the ids named in it besides those bound before |
| Replica.DestroyEffect | Client/src/handlers/handle_destroy.cpp:6-20 | A destroy removes the binding and its entity and nothing else |
| Replica.RunBijective | Client/src/handlers/handle_spawn.cpp:41-59 | Over any run of spawns, snapshots and destroys the binding is injective with range exactly the live client entities |
| Replica.BoundIff | Client/src/handlers/handle_destroy.cpp:12-18 | Over any run, an id is bound exactly when a packet bound it with no Destroy after, or it was bound before and never destroyed |
| Replica.LostDestroyStays | common/packets/server/destroy.hpp:13-17 | An id bound by some packet whose Destroy never arrives stays bound, whatever else arrives |
| Join.SnapshotRoundTrip | Server/src/lobby/lobby.cpp:147-170 | A client that has bound nothing or only copies, such as its own player, and handles the server's snapshot has, for each server entity and no other, a bound entity with exactly the same game components and equal serialised fields |
| Join.EntriesCopied | Client/src/handlers/handle_world_init.cpp:15-22 | From any client state the loop can be run exactly when the masks of the unbound ids are readable, and then copies each of them |
| Join.SpawnCopies | Client/src/handlers/handle_spawn.cpp:41-59 | One faithful packet makes one faithful entity, whatever the renderer adds |
| Join.SnapshotAgain | Client/src/handlers/handle_world_init.cpp:15-22 | A snapshot of bound ids changes no binding and no entity |
| Join.SnapshotReadableIff | lib/rtecs/src/bitset/DynamicBitSet.cpp:52-63 | A client can handle the snapshot exactly when no server entity it has not bound is without components |
| Join.WireRoundTrip | common/packets/server/world_init.hpp:19-28 | The snapshot packet is written exactly when its counts fit 16 bits, and is then read back as it was |
| Join.JoinRoundTrip | Server/src/lobby/lobby.cpp:161-170 | The bytes of the snapshot packet read as a snapshot, with none left over, and a client that handles whatever they read as ends with a copy of each server entity and no other |
| Handlers.BuildWorldInit | Server/src/lobby/lobby.cpp:161-170 | The server loop builds a packet with one faithful entry for each of its entities |
| Handlers.Toolbox.HandleSpawn | Client/src/handlers/handle_spawn.cpp:41-59 | The handler over the mutable registry and bindings does what the replica specification says |
| Handlers.Toolbox.AddGraphicalComponents | Client/src/handlers/handle_spawn.cpp:9-37 | Adds exactly sprite, animation and target position as type and position ask |
| Handlers.Toolbox.HandleWorldInit | Client/src/handlers/handle_world_init.cpp:9-23 | The loop equals the specification, up to the first unreadable entry |
| Handlers.Toolbox.HandleDestroy | Client/src/handlers/handle_destroy.cpp:6-20 | The handler equals the specification and keeps the bijection |
| Follow.StaysInStep | Server/src/lobby/lobby.hpp:157-169 | However entities come, change and go, a client that does handle every packet in the order sent binds exactly the server's live entities and copies each one not updated since |
| Follow.FollowsIff | Server/src/lobby/lobby.cpp:175-197 | For any of the server's packets, lost, repeated and reordered: the exact condition under which the client's bindings are the server's live ids; and whatever it has bound of the entities not updated are copies |
| Follow.SentGenuine | Server/src/lobby/lobby.hpp:157-169 | Every packet of a server run stays true of its later states: destroyed ids never live again, and rows not updated are the ones written |
| Follow.StartInStep | Client/src/app.cpp:47-52 | A new server and a new client are in step |
| Follow.JoinedInStep | Server/src/lobby/lobby.cpp:147-170 | So are a server and a client that handled its snapshot after the Spawn of its own player, or with nothing bound |
| Follow.DestroyOvertakesSpawn | Client/src/handlers/handle_destroy.cpp:12-15 | A destroy handled before its spawn leaves the id bound, after it not |
| WavePicker.Director.GetPickedWaves | Server/src/level_director/level_director_utils.cpp:21-71 | Whenever the draws cannot go on for ever it terminates, never makes credits negative, leaves what the rounded subtractions leave (with credits up to 2^24 and costs from 0 to 2^24 exactly the old credits less the costs), picks the wave that each draw of the generator selects, of positive weight among the candidates of its round, and stops only when nothing can be drawn |
| WavePicker.Director.FindCandidates | Server/src/level_director/level_director_utils.cpp:26-45 | The two scans compute the candidates and their total weight |
| WavePicker.CandidatesExact | Server/src/level_director/level_director_utils.cpp:26-45 | Offered, once each and in pool order, are exactly the waves the credits can pay for and, where some of these cost at least half of them, only such |
| WavePicker.ExhaustedIff | Server/src/level_director/level_director_utils.cpp:25-49 | Picking is over exactly without credits or when every wave offered has weight 0 |
| WavePicker.Director.SelectByWeight | Server/src/level_director/level_director_utils.cpp:51-65 | The subtracting loop selects the candidate of the draw and the fallback branch is dead |
| WavePicker.SelectIff | Server/src/level_director/level_director_utils.cpp:55-61 | A draw selects candidate k exactly when it lies among the weight-many numbers behind the weights before it |
| WavePicker.SelectsAlways | Server/src/level_director/level_director_utils.cpp:63-65 | A draw selects some candidate exactly when it is at most the total weight |
| WavePicker.FairShare | Server/src/level_director/level_director_utils.cpp:51-61 | Of the draws 1 to the total weight, exactly weight-many select each candidate |
| WavePicker.DrawsDecide | Server/src/level_director/level_director_utils.cpp:25-69 | Two runs from the same pool and credits to which the generator gives the same draws pick the same waves |
| WavePicker.EndsIff | Server/src/level_director/level_director_utils.cpp:25-69 | From any float credits, and without waves that give credits, the number of waves a run can pick is bounded exactly when no round that can be reached offers a wave whose cost the rounded subtraction absorbs |
| WavePicker.EndsIffNothingFree | Server/src/level_director/level_director_utils.cpp:25-69 | Up to 2^24 credits: exactly when no round that can be reached offers a free wave of positive weight |
| WavePicker.EndsIffPriced | Server/src/level_director/level_director_utils.cpp:25-69 | From all float credits up to 2^24: exactly when every wave of positive weight has a positive cost, for pools where none gives credits |
| WavePicker.PricedStalls | Server/src/level_director/level_director_utils.cpp:68 | Every other float above 2^24, 2^25 among them, absorbs a cost of 1: with that wave alone the picking never ends although all costs are positive |
| WavePicker.SpendsExactly | Server/src/level_director/level_director_utils.cpp:67-68 | With credits up to 2^24 and costs from 0 to 2^24 no subtraction along a run is rounded: the credits left are the first ones less the costs of the picked waves |
| WavePicker.SpendNearest | Server/src/level_director/level_director_utils.cpp:68 | At any credits a wave that can be paid for leaves the float nearest to the credits less its converted cost |
| Binary32.RoundNearest | Server/src/level_director/level_director.hpp:42 | Rounding gives a float, and no float is nearer to the exact value |
| Binary32.FloatIff | Server/src/level_director/level_director.hpp:42 | The values a credit amount can take are exactly the whole multiples, below 2^24, of powers of two from 2^-149 up |
| Binary32.TiesToEven | Server/src/level_director/level_director.hpp:42 | Of two floats equally near the rounded value is an even multiple of their distance: the one with the even significand |
| Binary32.MinusExact | Server/src/level_director/level_director_utils.cpp:68 | Taking a whole number that is no larger away from a float of at most 2^24 gives the exact difference |
| Binary32.FromIntNearest | Server/src/level_director/level_director_utils.cpp:28-45 | A cost is compared and subtracted as the float nearest to it |
| WavePicker.FreeForever | Server/src/level_director/level_director_utils.cpp:25-69 | With float credits above twice any cost, a wave of positive weight that is free or gives credits can be drawn any number of times in a row |

## Left out

- Sockets, threads, event queues, logging, metrics, RTT estimation and the last-seen clock: input, output and counters.
- One clock reading serves a whole session operation; the original reads the clock again inside `rawSend`.
- Sequence and order ids that wrap: runs use fewer than 2^32 sequence ids per session. The undefined shift by 32 is modelled as clearing the word.
- Connecting and reconnecting, the unimplemented checksum, and protocol version checks, which the code does not make.
- Liveness: ACK frames are sequenced and themselves provoke ACKs, so nothing is claimed about traffic coming to rest.
- Guarantees.AnnouncedInTime: does not bound when a queued RICH_ACK id is sent, because any outgoing frame clears the unsent-acknowledgement mark even while ids are queued.
- Follow.FollowsIff: speaks of clients whose packets all come from one server's run; Destroy packets name ids that server handed out.
- A delivered packet does not carry its channel, and its flag may carry `kHasAck`; delivery is stated on message id, mode and payload.
- SessionSpec.SendAckEmptiesQueue: speaks of one flush, not of when it happens, for the same reason.
- WavePicker.Director.GetPickedWaves: the generator is a parameter that may draw anything in range; the random delays of the picked waves, and weights that sum to 2^64 or more, are not modelled; credits that grow past the largest float are not cut off.
- WavePicker.EndsIff: is about pools without waves that give credits; with a negative cost draws can also return to earlier credits in several steps, and only `WavePicker.FreeForever` speaks of such waves.
- BitSet.DynamicBitSet.ApplyOperation: the complement, `decrease`, `clear`, `all` and the printed form of bitsets are not modelled.
- Masks are held by value in the registry and views by value in groups; `SparseGroup.SparseView` is the in-place view.
- SparseGroup.SparseView.Put: overwriting a key and `erase` are left out, since groups only put fresh keys.
- SparseGroup.SparseGroup.Apply: the callback changes components only, not the structure of the sets.
- Type hashing is assumed injective, and the dynamic cast of a set to its own type to succeed.
- BitSet.DynamicBitSet.Deserialize: requires an index list that stays inside the allocated blocks; other lists are undefined behaviour in the original.
- Replica.SpawnEffect: requires a mask list that `deserialize` can read for an unbound id, as do all results about spawns and snapshots; other lists are undefined behaviour.
- Handlers.Toolbox.HandleWorldInit: requires the id and entity lists to be at least as long as the mask list, as the original's indexing does.
- Follow.StaysInStep: packets that update positions, health or state are not handled by the client, so copies are claimed only for entities not updated since.
- The lobby manager, the level director's own update, systems, rendering, menus, assets, configuration files and key input.
- The join handler skips the snapshot when the new player's entity id is 0; the model starts where the snapshot is built.
