/** A packet as the session handles it, and its flags. */
module Packets {
  import opened Numbers
  import Header

  datatype Packet = Packet(messageId: u16, flag: u8, channelId: u8, payload: Bytes)

  const UNRELIABLE: u8 := 1
  const ORDERED_BIT: nat := 2

  /** SystemMessageId::kAck and kRichAck */
  const ACK_ID: u16 := 0
  const RICH_ACK_ID: u16 := 1

  const INTERNAL_CHANNEL: u8 := 0

  predicate IsOrdered(flag: u8) {
    BitAt(flag, ORDERED_BIT)
  }

  /** Kept by the sender until acknowledged. */
  predicate IsTracked(flag: u8) {
    flag != UNRELIABLE
  }

  predicate HasAck(flags: u8) {
    BitAt(flags, Header.HAS_ACK_BIT)
  }

  /** `flags | kHasAck` */
  function MarkAck(flags: u8): (r: u8)
    ensures r == if HasAck(flags) then flags else flags + 8
  {
    WithBit(flags, Header.HAS_ACK_BIT)
  }

  /** A frame the receiving session consumes itself: a RICH_ACK, or an empty ACK. */
  predicate IsAckShaped(messageId: u16, payload: Bytes) {
    messageId == RICH_ACK_ID || (messageId == ACK_ID && payload == [])
  }

  /** What of a packet reaches the other side: not its channel, and not whether the frame
      that happened to carry it also carried an acknowledgement. */
  datatype Message = Message(messageId: u16, mode: u8, payload: Bytes)

  function Content(p: Packet): Message {
    Message(p.messageId, if HasAck(p.flag) then p.flag - 8 else p.flag, p.payload)
  }

  lemma MarkAckKeepsMode(flags: u8)
    ensures HasAck(MarkAck(flags)) && (!HasAck(flags) ==> MarkAck(flags) - 8 == flags)
    ensures IsOrdered(MarkAck(flags)) == IsOrdered(flags)
  {
    WithBitAt(flags, Header.HAS_ACK_BIT, ORDERED_BIT);
  }
}
