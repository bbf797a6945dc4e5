/** The 26-byte packed frame header, `Header::parse`, and whole datagrams. */
module Header {
  import opened Numbers
  import opened Endian

  const PROTOCOL_ID: u16 := 0x2204
  const PROTOCOL_VER: u16 := 0x0003

  /** `sizeof(Header)` */
  const HEADER_SIZE: nat := 26

  /** The bit of `Flag::kHasAck` in the flags byte. */
  const HAS_ACK_BIT: nat := 3

  datatype Header = Header(
    protocolId: u16,
    protocolVersion: u16,
    sequenceId: u32,
    channelId: u8,
    orderId: u32,
    acknowledgeId: u32,
    acknowledgeBitfield: u32,
    messageId: u16,
    flags: u8,
    packetSize: u16)

  datatype ParseError = DataTooSmall | ProtocolMismatch | PayloadSizeMismatch

  datatype ParseResult = Success(header: Header) | Failure(error: ParseError)

  function Swap16(x: u16): u16 {
    SwappedImage(x, 2);
    Limits();
    Swap(x, 2)
  }

  function Swap32(x: u32): u32 {
    SwappedImage(x, 4);
    Limits();
    Swap(x, 4)
  }

  function ConvertEndianness(h: Header): Header {
    h.(protocolId := Swap16(h.protocolId),
       protocolVersion := Swap16(h.protocolVersion),
       sequenceId := Swap32(h.sequenceId),
       orderId := Swap32(h.orderId),
       acknowledgeId := Swap32(h.acknowledgeId),
       acknowledgeBitfield := Swap32(h.acknowledgeBitfield),
       messageId := Swap16(h.messageId),
       packetSize := Swap16(h.packetSize))
  }

  /** The image of a `w`-byte member in front of the members behind it. */
  function Put(n: nat, w: nat, behind: Bytes): (b: Bytes)
    ensures |b| == w + |behind| && b[..w] == Image(n, w) && b[w..] == behind
  {
    Image(n, w) + behind
  }

  /** The packed struct as it lies in memory, in front of other bytes. */
  function StructImage(h: Header, behind: Bytes): (b: Bytes)
    ensures |b| == HEADER_SIZE + |behind|
  {
    Put(h.protocolId, 2, Put(h.protocolVersion, 2, Put(h.sequenceId, 4, Put(h.channelId, 1,
    Put(h.orderId, 4, BackImage(h, behind))))))
  }

  function BackImage(h: Header, behind: Bytes): (b: Bytes)
    ensures |b| == 13 + |behind|
  {
    Put(h.acknowledgeId, 4, Put(h.acknowledgeBitfield, 4, Put(h.messageId, 2,
    Put(h.flags, 1, Put(h.packetSize, 2, behind)))))
  }

  function Load(b: Bytes, w: nat): (n: nat)
    requires w <= |b|
    ensures n < Limit(w)
  {
    ImageBound(b[..w]);
    FromImage(b[..w])
  }

  /** The `memcpy` of the first 26 bytes into a struct. */
  function FromStructImage(b: Bytes): Header
    requires |b| >= HEADER_SIZE
  {
    Limits();
    Header(Load(b, 2), Load(b[2..], 2), Load(b[4..], 4), Load(b[8..], 1), Load(b[9..], 4),
           Load(b[13..], 4), Load(b[17..], 4), Load(b[21..], 2), Load(b[23..], 1),
           Load(b[24..], 2))
  }

  function Parse(data: Bytes): ParseResult {
    if |data| < HEADER_SIZE then Failure(DataTooSmall)
    else
      var header := ConvertEndianness(FromStructImage(data));
      if header.protocolId != PROTOCOL_ID then Failure(ProtocolMismatch)
      else if |data| - HEADER_SIZE < header.packetSize then Failure(PayloadSizeMismatch)
      else Success(header)
  }

  /** A frame: a header in host order and the bytes behind it. */
  datatype Frame = Frame(header: Header, payload: Bytes)

  /** The bytes handed to the socket. */
  function Datagram(f: Frame): Bytes {
    StructImage(ConvertEndianness(f.header), f.payload)
  }

  /** What the receiver makes of a datagram: the parsed header and all bytes after it,
      however many the header announced. */
  function Receive(data: Bytes): Option<Frame> {
    match Parse(data)
    case Failure(_) => None
    case Success(header) => Some(Frame(header, data[HEADER_SIZE..]))
  }

  lemma LoadPut(n: nat, w: nat, behind: Bytes)
    requires n < Limit(w)
    ensures Load(Put(n, w, behind), w) == n
  {
    FromImageOfImage(n, w);
  }

  lemma BackRoundTrip(h: Header, behind: Bytes, b: Bytes)
    requires b == BackImage(h, behind)
    ensures Load(b, 4) == h.acknowledgeId && Load(b[4..], 4) == h.acknowledgeBitfield
    ensures Load(b[8..], 2) == h.messageId && Load(b[10..], 1) == h.flags
    ensures Load(b[11..], 2) == h.packetSize && b[13..] == behind
  {
    Limits();
    var b5 := Put(h.packetSize, 2, behind);
    var b4 := Put(h.flags, 1, b5);
    var b3 := Put(h.messageId, 2, b4);
    var b2 := Put(h.acknowledgeBitfield, 4, b3);
    assert b[4..] == b2 && b[8..] == b2[4..] == b3 && b[10..] == b3[2..] == b4;
    assert b[11..] == b4[1..] == b5 && b[13..] == b5[2..];
    LoadPut(h.acknowledgeId, 4, b2);
    LoadPut(h.acknowledgeBitfield, 4, b3);
    LoadPut(h.messageId, 2, b4);
    LoadPut(h.flags, 1, b5);
    LoadPut(h.packetSize, 2, behind);
  }

  lemma FrontRoundTrip(h: Header, behind: Bytes, b: Bytes)
    requires b == StructImage(h, behind)
    ensures Load(b, 2) == h.protocolId && Load(b[2..], 2) == h.protocolVersion
    ensures Load(b[4..], 4) == h.sequenceId && Load(b[8..], 1) == h.channelId
    ensures Load(b[9..], 4) == h.orderId && b[13..] == BackImage(h, behind)
  {
    Limits();
    var b5 := Put(h.orderId, 4, BackImage(h, behind));
    var b4 := Put(h.channelId, 1, b5);
    var b3 := Put(h.sequenceId, 4, b4);
    var b2 := Put(h.protocolVersion, 2, b3);
    assert b[2..] == b2 && b[4..] == b2[2..] == b3 && b[8..] == b3[4..] == b4;
    assert b[9..] == b4[1..] == b5 && b[13..] == b5[4..];
    LoadPut(h.protocolId, 2, b2);
    LoadPut(h.protocolVersion, 2, b3);
    LoadPut(h.sequenceId, 4, b4);
    LoadPut(h.channelId, 1, b5);
    LoadPut(h.orderId, 4, BackImage(h, behind));
  }

  lemma StructRoundTrip(h: Header, behind: Bytes)
    ensures FromStructImage(StructImage(h, behind)) == h
    ensures StructImage(h, behind)[HEADER_SIZE..] == behind
  {
    var b := StructImage(h, behind);
    FrontRoundTrip(h, behind, b);
    BackRoundTrip(h, behind, b[13..]);
    assert b[17..] == b[13..][4..] && b[21..] == b[13..][8..];
    assert b[23..] == b[13..][10..] && b[24..] == b[13..][11..] && b[26..] == b[13..][13..];
  }

  lemma ConvertTwice(h: Header)
    ensures ConvertEndianness(ConvertEndianness(h)) == h
  {
    Limits();
    SwapTwice(h.protocolId, 2);
    SwapTwice(h.protocolVersion, 2);
    SwapTwice(h.sequenceId, 4);
    SwapTwice(h.orderId, 4);
    SwapTwice(h.acknowledgeId, 4);
    SwapTwice(h.acknowledgeBitfield, 4);
    SwapTwice(h.messageId, 2);
    SwapTwice(h.packetSize, 2);
  }

  /** A datagram is received as the frame it was made from exactly when its header names
      the protocol and announces no more bytes than follow it. */
  lemma DatagramRoundTrip(f: Frame)
    ensures Receive(Datagram(f)) == Some(f) <==>
            f.header.protocolId == PROTOCOL_ID && f.header.packetSize <= |f.payload|
    ensures Receive(Datagram(f)).Some? ==> Receive(Datagram(f)) == Some(f)
  {
    StructRoundTrip(ConvertEndianness(f.header), f.payload);
    ConvertTwice(f.header);
    assert Datagram(f)[HEADER_SIZE..] == f.payload;
  }

  /** Every datagram shorter than a header, or cut inside the announced payload, is dropped. */
  lemma TruncatedDatagramDropped(f: Frame, cut: nat)
    requires cut < HEADER_SIZE + f.header.packetSize && cut <= |Datagram(f)|
    ensures Receive(Datagram(f)[..cut]) == None
  {
    if cut >= HEADER_SIZE {
      var h, n := ConvertEndianness(f.header), cut - HEADER_SIZE;
      StructRoundTrip(h, f.payload);
      SameFront(h, f.payload, f.payload[..n], cut);
      StructRoundTrip(h, f.payload[..n]);
      ConvertTwice(f.header);
    }
  }

  lemma SameFront(h: Header, payload: Bytes, front: Bytes, cut: nat)
    requires HEADER_SIZE <= cut <= HEADER_SIZE + |payload| && front == payload[..cut - HEADER_SIZE]
    ensures StructImage(h, payload)[..cut] == StructImage(h, front)
  {
  }

  // ---- The bytes on the wire ----

  /** The header as the protocol lays it out: every field most significant byte first. */
  function HeaderBytes(h: Header): (b: Bytes)
    ensures |b| == HEADER_SIZE
  {
    BigEndian(h.protocolId, 2) + BigEndian(h.protocolVersion, 2) + BigEndian(h.sequenceId, 4) + [h.channelId]
    + BigEndian(h.orderId, 4) + BigEndian(h.acknowledgeId, 4) + BigEndian(h.acknowledgeBitfield, 4)
    + BigEndian(h.messageId, 2) + [h.flags] + BigEndian(h.packetSize, 2)
  }

  lemma PutSwapped(n: nat, w: nat, behind: Bytes)
    ensures Put(Swap(n, w), w, behind) == BigEndian(n, w) + behind
  {
    SwappedImage(n, w);
  }

  lemma PutByte(n: u8, behind: Bytes)
    ensures Put(n, 1, behind) == [n] + behind
  {
    assert Image(n / 0x100, 0) == [];
  }

  /** Every datagram is the header's fields in network order and the payload behind them. */
  lemma DatagramLayout(f: Frame)
    ensures Datagram(f) == HeaderBytes(f.header) + f.payload
  {
    FrontLayout(f);
    BackLayout(f.header, f.payload);
    hide StructImage;
    hide BackImage;
  }

  lemma BackLayout(h: Header, payload: Bytes)
    ensures BackImage(ConvertEndianness(h), payload)
         == BigEndian(h.acknowledgeId, 4) + BigEndian(h.acknowledgeBitfield, 4)
            + BigEndian(h.messageId, 2) + [h.flags] + BigEndian(h.packetSize, 2) + payload
  {
    var b5 := BigEndian(h.packetSize, 2) + payload;
    var b4 := [h.flags] + b5;
    var b3 := BigEndian(h.messageId, 2) + b4;
    var b2 := BigEndian(h.acknowledgeBitfield, 4) + b3;
    PutSwapped(h.packetSize, 2, payload);
    PutByte(h.flags, b5);
    PutSwapped(h.messageId, 2, b4);
    PutSwapped(h.acknowledgeBitfield, 4, b3);
    PutSwapped(h.acknowledgeId, 4, b2);
    hide Put;
    hide Swap;
  }

  lemma FrontLayout(f: Frame)
    ensures Datagram(f)
         == BigEndian(f.header.protocolId, 2) + BigEndian(f.header.protocolVersion, 2)
            + BigEndian(f.header.sequenceId, 4) + [f.header.channelId] + BigEndian(f.header.orderId, 4)
            + BackImage(ConvertEndianness(f.header), f.payload)
  {
    var h, b5 := f.header, BackImage(ConvertEndianness(f.header), f.payload);
    var b4 := BigEndian(h.orderId, 4) + b5;
    var b3 := [h.channelId] + b4;
    var b2 := BigEndian(h.sequenceId, 4) + b3;
    var b1 := BigEndian(h.protocolVersion, 2) + b2;
    PutSwapped(h.orderId, 4, b5);
    PutByte(h.channelId, b4);
    PutSwapped(h.sequenceId, 4, b3);
    PutSwapped(h.protocolVersion, 2, b2);
    PutSwapped(h.protocolId, 2, b1);
    hide Put;
    hide Swap;
    hide BackImage;
  }

  // ---- What is read off the wire ----

  lemma PutLoaded(b: Bytes, w: nat, behind: Bytes)
    requires w <= |b| && behind == b[w..]
    ensures Put(Load(b, w), w, behind) == b
  {
    ImageOfFromImage(b[..w]);
  }

  lemma BackLoaded(b: Bytes)
    requires |b| >= 13
    ensures Put(Load(b, 4), 4, Put(Load(b[4..], 4), 4, Put(Load(b[8..], 2), 2, Put(Load(b[10..], 1), 1,
            Put(Load(b[11..], 2), 2, b[13..]))))) == b
  {
    assert b[11..][2..] == b[13..] && b[10..][1..] == b[11..] && b[8..][2..] == b[10..] && b[4..][4..] == b[8..];
    PutLoaded(b[11..], 2, b[13..]);
    PutLoaded(b[10..], 1, b[11..]);
    PutLoaded(b[8..], 2, b[10..]);
    PutLoaded(b[4..], 4, b[8..]);
    PutLoaded(b, 4, b[4..]);
    hide Put;
    hide Load;
  }

  lemma FrontLoaded(b: Bytes)
    requires |b| >= 13
    ensures Put(Load(b, 2), 2, Put(Load(b[2..], 2), 2, Put(Load(b[4..], 4), 4, Put(Load(b[8..], 1), 1,
            Put(Load(b[9..], 4), 4, b[13..]))))) == b
  {
    assert b[9..][4..] == b[13..] && b[8..][1..] == b[9..] && b[4..][4..] == b[8..] && b[2..][2..] == b[4..];
    PutLoaded(b[9..], 4, b[13..]);
    PutLoaded(b[8..], 1, b[9..]);
    PutLoaded(b[4..], 4, b[8..]);
    PutLoaded(b[2..], 2, b[4..]);
    PutLoaded(b, 2, b[2..]);
    hide Put;
    hide Load;
  }

  lemma StructLoaded(b: Bytes)
    requires |b| >= HEADER_SIZE
    ensures StructImage(FromStructImage(b), b[HEADER_SIZE..]) == b
  {
    var back := b[13..];
    assert back[4..] == b[17..] && back[8..] == b[21..] && back[10..] == b[23..] && back[11..] == b[24..];
    assert back[13..] == b[26..];
    BackLoaded(back);
    FrontLoaded(b);
    hide Put;
    hide Load;
  }

  /** Any data of at least 26 bytes is the layout of one header and a payload; it is parsed as
      that header, refused for another protocol id and for a payload shorter than announced. */
  lemma ParseExact(data: Bytes)
    ensures |data| < HEADER_SIZE ==> Parse(data) == Failure(DataTooSmall)
    ensures |data| >= HEADER_SIZE ==>
      && (exists h :: HeaderBytes(h) == data[..HEADER_SIZE])
      && forall h :: HeaderBytes(h) == data[..HEADER_SIZE] ==>
           Parse(data) == if h.protocolId != PROTOCOL_ID then Failure(ProtocolMismatch)
                          else if |data| < HEADER_SIZE + h.packetSize then Failure(PayloadSizeMismatch)
                          else Success(h)
  {
    if |data| >= HEADER_SIZE {
      var rest := data[HEADER_SIZE..];
      var read := ConvertEndianness(FromStructImage(data));
      StructLoaded(data);
      ConvertTwice(FromStructImage(data));
      DatagramLayout(Frame(read, rest));
      assert HeaderBytes(read) == data[..HEADER_SIZE];
      forall h | HeaderBytes(h) == data[..HEADER_SIZE] ensures h == read {
        DatagramLayout(Frame(h, rest));
        assert Datagram(Frame(h, rest)) == data;
        StructRoundTrip(ConvertEndianness(h), rest);
        ConvertTwice(h);
      }
      hide HeaderBytes;
    }
  }

  /** A datagram is received exactly when it is laid out as a header of this protocol and at least
      the payload announced; the frame is that header and all bytes behind it. */
  lemma ReceiveExact(data: Bytes, f: Frame)
    ensures Receive(data) == Some(f) <==>
            && data == HeaderBytes(f.header) + f.payload
            && f.header.protocolId == PROTOCOL_ID && f.header.packetSize <= |f.payload|
  {
    ParseExact(data);
    hide Parse;
    if |data| >= HEADER_SIZE {
      assert data == data[..HEADER_SIZE] + data[HEADER_SIZE..];
      var h :| HeaderBytes(h) == data[..HEADER_SIZE];
      hide HeaderBytes;
      if data == HeaderBytes(f.header) + f.payload {
        assert data[..HEADER_SIZE] == HeaderBytes(f.header) && data[HEADER_SIZE..] == f.payload;
      }
    }
    hide HeaderBytes;
  }
}
