/** Messages as bytes: the raw codec, fixed-size payloads, and the typed message on top of it. */
module WireFormat {
  import opened Wrappers
  import opened Identifiers
  import opened Messages

  type Bytes = seq<Byte>

  const ID_SIZE: nat := 4

  // ---------------------------------------------------------------- 32-bit words in memory

  function BigEndian(x: Word32): (b: Bytes)
    ensures |b| == 4
  {
    [x / 0x100 / 0x100 / 0x100, x / 0x100 / 0x100 % 0x100, x / 0x100 % 0x100, x % 0x100]
  }

  function FromBigEndian(b: Bytes): Word32
    requires |b| == 4
  {
    var b0: int, b1: int, b2: int, b3: int := b[0], b[1], b[2], b[3];
    ((b0 * 0x100 + b1) * 0x100 + b2) * 0x100 + b3
  }

  function Reversed(b: Bytes): (r: Bytes)
    requires |b| == 4
    ensures |r| == 4
  {
    [b[3], b[2], b[1], b[0]]
  }

  /** The bytes of a word as a host of the given endianness keeps them. */
  function InMemory(x: Word32, little: bool): (b: Bytes)
    ensures |b| == 4
  {
    if little then Reversed(BigEndian(x)) else BigEndian(x)
  }

  function FromMemory(b: Bytes, little: bool): Word32
    requires |b| == 4
  {
    FromBigEndian(if little then Reversed(b) else b)
  }

  // htonl and ntohl are the same exchange of bytes.
  function Htonl(x: Word32, little: bool): Word32 {
    if little then FromBigEndian(Reversed(BigEndian(x))) else x
  }

  lemma WordRoundTrip(x: Word32)
    ensures FromBigEndian(BigEndian(x)) == x
  {
  }

  /** The first byte on the wire carries the highest eight bits. */
  lemma BigEndianValue(x: Word32)
    ensures var b := BigEndian(x);
            var b0: int, b1: int, b2: int, b3: int := b[0], b[1], b[2], b[3];
            x == b0 * 0x100_0000 + b1 * 0x1_0000 + b2 * 0x100 + b3
  {
  }

  lemma BytesRoundTrip(b: Bytes)
    requires |b| == 4
    ensures BigEndian(FromBigEndian(b)) == b
  {
    var b0: int, b1: int, b2: int, b3: int := b[0], b[1], b[2], b[3];
    var high := b0 * 0x100 + b1;
    var higher := high * 0x100 + b2;
    LowestByte(higher, b3);
    LowestByte(high, b2);
    LowestByte(b0, b1);
  }

  lemma LowestByte(rest: nat, low: Byte)
    ensures (rest * 0x100 + low) / 0x100 == rest && (rest * 0x100 + low) % 0x100 == low
  {
  }

  lemma ReversedTwice(b: Bytes)
    requires |b| == 4
    ensures Reversed(Reversed(b)) == b
  {
  }

  /** Network order does not depend on the host: the bytes of htonl(x) in memory are x's, highest first. */
  lemma NetworkOrder(x: Word32, little: bool)
    ensures InMemory(Htonl(x, little), little) == BigEndian(x)
  {
    BytesRoundTrip(Reversed(BigEndian(x)));
    ReversedTwice(BigEndian(x));
  }

  /** ... and ntohl of the word a host finds in memory reads its bytes highest first. */
  lemma HostOrder(b: Bytes, little: bool)
    requires |b| == 4
    ensures Htonl(FromMemory(b, little), little) == FromBigEndian(b)
  {
    BytesRoundTrip(Reversed(b));
    ReversedTwice(b);
  }

  // ---------------------------------------------------------------- raw messages

  /** The id and the payload fit the 32-bit sizes of the interface. */
  predicate Fits(m: RawMessage) {
    ID_SIZE + |m.payload| < 0x1_0000_0000
  }

  function GetSize(m: RawMessage): Word32 {
    (ID_SIZE + |m.payload| % 0x1_0000_0000) % 0x1_0000_0000
  }

  function Encoded(m: RawMessage): (b: Bytes)
    ensures |b| == ID_SIZE + |m.payload|
  {
    BigEndian(m.reqId) + m.payload
  }

  // std::copy of a byte range to a place in the buffer.
  method CopyTo(src: Bytes, buffer: array<Byte>, at: nat)
    requires at + |src| <= buffer.Length
    modifies buffer
    ensures buffer[..] == old(buffer[..at]) + src + old(buffer[at + |src|..])
  {
    var i := 0;
    while i < |src|
      invariant 0 <= i <= |src|
      invariant forall j :: 0 <= j < buffer.Length && !(at <= j < at + i) ==> buffer[j] == old(buffer[j])
      invariant forall j :: 0 <= j < i ==> buffer[at + j] == src[j]
    {
      buffer[at + i] := src[i];
      i := i + 1;
    }
    assert buffer[at..at + |src|] == src;
    assert buffer[..at] == old(buffer[..at]);
    assert buffer[at + |src|..] == old(buffer[at + |src|..]);
    assert buffer[..] == buffer[..at] + buffer[at..at + |src|] + buffer[at + |src|..];
  }

  /** IMessage::serialize of a raw message into a caller's buffer, on a host of either endianness. */
  method Serialize(m: RawMessage, buffer: array<Byte>, little: bool) returns (written: Word32)
    requires Fits(m) && buffer.Length < 0x1_0000_0000
    modifies buffer
    ensures buffer.Length < ID_SIZE + |m.payload| ==> written == 0 && buffer[..] == old(buffer[..])
    ensures ID_SIZE + |m.payload| <= buffer.Length ==>
              && written == ID_SIZE + |m.payload|
              && buffer[..written] == Encoded(m)
              && buffer[written..] == old(buffer[written..])
  {
    var totalSize := GetSize(m);
    if buffer.Length < totalSize {
      return 0;
    }
    var netReqId := Htonl(m.reqId, little);
    NetworkOrder(m.reqId, little);
    CopyTo(InMemory(netReqId, little), buffer, 0);
    ghost var mid := buffer[..];
    CopyTo(m.payload, buffer, ID_SIZE);
    assert buffer[..ID_SIZE] == mid[..ID_SIZE] == BigEndian(m.reqId);
    assert buffer[totalSize..] == mid[totalSize..] == old(buffer[totalSize..]);
    var ret := |m.payload|;
    written := if ret + ID_SIZE != totalSize then 0 else totalSize;
  }

  /** The vector of received bytes; erasing and moving change it in place. */
  class ByteVector {
    var data: Bytes

    constructor (data: Bytes)
      ensures this.data == data
    {
      this.data := data;
    }

    method EraseFront(n: nat)
      requires n <= |data|
      modifies this
      ensures data == old(data)[n..]
    {
      data := data[n..];
    }

    method MoveOut() returns (taken: Bytes)
      modifies this
      ensures taken == old(data) && data == []
    {
      taken, data := data, [];
    }
  }

  /** What deserialising makes of a buffer. */
  function Decoded(b: Bytes): Option<RawMessage> {
    if |b| < ID_SIZE then None else Some(RawMessage(FromBigEndian(b[..ID_SIZE]), b[ID_SIZE..]))
  }

  /** A short buffer is refused and left alone; otherwise the buffer is emptied into the message. */
  method Deserialize(buffer: ByteVector, little: bool) returns (msg: Option<RawMessage>)
    modifies buffer
    ensures msg == Decoded(old(buffer.data))
    ensures buffer.data == if msg.None? then old(buffer.data) else []
  {
    if |buffer.data| < ID_SIZE {
      return None;
    }
    var reqId := FromMemory(buffer.data[..ID_SIZE], little);
    HostOrder(buffer.data[..ID_SIZE], little);
    reqId := Htonl(reqId, little);
    buffer.EraseFront(ID_SIZE);
    var payload := buffer.MoveOut();
    msg := Some(RawMessage(reqId, payload));
  }

  /** Deserialising what was serialised gives the message back. */
  lemma DecodeEncode(m: RawMessage)
    ensures Decoded(Encoded(m)) == Some(m)
  {
    assert Encoded(m)[..ID_SIZE] == BigEndian(m.reqId);
    assert Encoded(m)[ID_SIZE..] == m.payload;
    WordRoundTrip(m.reqId);
  }

  /** Serialising what was deserialised gives the bytes back: the codec is a bijection on buffers of 4 bytes or more. */
  lemma EncodeDecode(b: Bytes)
    requires ID_SIZE <= |b|
    ensures Encoded(Decoded(b).value) == b
  {
    BytesRoundTrip(b[..ID_SIZE]);
    assert b == b[..ID_SIZE] + b[ID_SIZE..];
  }

  /** Through one host's buffer and into another's message, whatever the two hosts' byte orders. */
  method Transfer(m: RawMessage, senderLittle: bool, receiverLittle: bool) returns (got: Option<RawMessage>)
    requires Fits(m)
    ensures got == Some(m)
  {
    var buffer := new Byte[ID_SIZE + |m.payload|];
    var written := Serialize(m, buffer, senderLittle);
    var wire := new ByteVector(buffer[..written]);
    DecodeEncode(m);
    got := Deserialize(wire, receiverLittle);
  }

  // ---------------------------------------------------------------- fixed-size payloads

  /** ILinxMessage<T>::deserialize for a payload type of `size` opaque bytes: extra bytes are ignored. */
  function DecodedFixed(b: Bytes, size: nat): Option<RawMessage> {
    if |b| < ID_SIZE + size then None
    else Some(RawMessage(FromBigEndian(b[..ID_SIZE]), b[ID_SIZE..ID_SIZE + size]))
  }

  /** A fixed-size reader takes exactly the buffers with a long enough payload, and of them its first bytes. */
  lemma FixedReadsPrefix(m: RawMessage, size: nat)
    ensures DecodedFixed(Encoded(m), size).Some? <==> size <= |m.payload|
    ensures size <= |m.payload| ==> DecodedFixed(Encoded(m), size) == Some(RawMessage(m.reqId, m.payload[..size]))
  {
    DecodeEncode(m);
    if size <= |m.payload| {
      assert Encoded(m)[ID_SIZE..ID_SIZE + size] == m.payload[..size];
    }
  }

  // ---------------------------------------------------------------- the typed message

  /** `temperature` is the bit pattern of the float. */
  datatype MyMessage = MyMessage(reqId: Word32, value: Int32, temperature: Word32)

  // int to uint32_t and back, two's complement.
  function ToUnsigned(v: Int32): Word32 {
    if 0 <= v then v else v + 0x1_0000_0000
  }

  function ToSigned(x: Word32): Int32 {
    if x < 0x8000_0000 then x else x - 0x1_0000_0000
  }

  lemma SignRoundTrip(x: Word32, v: Int32)
    ensures ToUnsigned(ToSigned(x)) == x && ToSigned(ToUnsigned(v)) == v
  {
  }

  /** MyMessage::serializePayload: the value in network order, then the float as it lies in memory. */
  function MyPayload(m: MyMessage, little: bool): (b: Bytes)
    ensures |b| == 8
  {
    var dataValue := ToSigned(Htonl(ToUnsigned(m.value), little));
    InMemory(ToUnsigned(dataValue), little) + InMemory(m.temperature, little)
  }

  function ToRaw(m: MyMessage, little: bool): RawMessage {
    RawMessage(m.reqId, MyPayload(m, little))
  }

  /** MyMessage::fromRawMessage reads the first eight payload bytes; shorter payloads are the caller's fault. */
  function FromRawMessage(raw: RawMessage, little: bool): MyMessage
    requires 8 <= |raw.payload|
  {
    var dataValue := ToSigned(FromMemory(raw.payload[..4], little));
    MyMessage(raw.reqId, ToSigned(Htonl(ToUnsigned(dataValue), little)), FromMemory(raw.payload[4..8], little))
  }

  lemma ValueInNetworkOrder(m: MyMessage, little: bool)
    ensures MyPayload(m, little) == BigEndian(ToUnsigned(m.value)) + InMemory(m.temperature, little)
  {
    SignRoundTrip(Htonl(ToUnsigned(m.value), little), m.value);
    NetworkOrder(ToUnsigned(m.value), little);
  }

  /** The number some bytes spell, the first the most significant. */
  function Spelled(b: Bytes): int {
    if b == [] then 0 else Spelled(b[..|b| - 1]) * 0x100 + b[|b| - 1]
  }

  /**
   * What a typed message looks like on the wire, on any host: the value in two's complement, most significant byte
   * first, and then the float's pattern, in the host's order.
   */
  lemma PayloadOnTheWire(m: MyMessage, little: bool)
    ensures var b := MyPayload(m, little);
            && Spelled(b[..4]) == m.value % 0x1_0000_0000
            && Spelled(if little then Reversed(b[4..]) else b[4..]) == m.temperature
  {
    ValueInNetworkOrder(m, little);
    var b := MyPayload(m, little);
    assert b[..4] == BigEndian(ToUnsigned(m.value)) && b[4..] == InMemory(m.temperature, little);
    ReversedTwice(BigEndian(m.temperature));
    BigEndianSpells(ToUnsigned(m.value));
    BigEndianSpells(m.temperature);
  }

  lemma BigEndianSpells(x: Word32)
    ensures Spelled(BigEndian(x)) == x
  {
    var b := BigEndian(x);
    assert b[..3] == [b[0], b[1], b[2]] && b[..3][..2] == [b[0], b[1]] && b[..3][..2][..1] == [b[0]];
    assert Spelled([b[0]]) == b[0];
    assert Spelled([b[0], b[1]]) == Spelled([b[0]]) * 0x100 + b[1];
    assert Spelled(b[..3]) == Spelled([b[0], b[1]]) * 0x100 + b[2];
  }

  lemma ReadFromNetworkOrder(raw: RawMessage, little: bool)
    requires 8 <= |raw.payload|
    ensures FromRawMessage(raw, little) ==
            MyMessage(raw.reqId, ToSigned(FromBigEndian(raw.payload[..4])), FromMemory(raw.payload[4..8], little))
  {
    SignRoundTrip(FromMemory(raw.payload[..4], little), 0);
    HostOrder(raw.payload[..4], little);
  }

  /** A word whose bytes read the same from either end. */
  predicate Palindrome(x: Word32) {
    BigEndian(x) == Reversed(BigEndian(x))
  }

  /** A word copied from one host's memory into another's without any swap. */
  lemma CopiedWord(x: Word32, senderLittle: bool, receiverLittle: bool)
    ensures FromMemory(InMemory(x, senderLittle), receiverLittle) == x <==> senderLittle == receiverLittle || Palindrome(x)
  {
    WordRoundTrip(x);
    ReversedTwice(BigEndian(x));
    BytesRoundTrip(Reversed(BigEndian(x)));
  }

  /** What a typed message sent by one host is on another, after the whole way over the raw codec. */
  function Arriving(m: MyMessage, senderLittle: bool, receiverLittle: bool): MyMessage {
    DecodeEncode(ToRaw(m, senderLittle));
    FromRawMessage(Decoded(Encoded(ToRaw(m, senderLittle))).value, receiverLittle)
  }

  // Only the float can change on the way.
  lemma ArrivesBut(m: MyMessage, senderLittle: bool, receiverLittle: bool)
    ensures Arriving(m, senderLittle, receiverLittle) ==
            m.(temperature := FromMemory(InMemory(m.temperature, senderLittle), receiverLittle))
  {
    var raw := ToRaw(m, senderLittle);
    DecodeEncode(raw);
    ValueInNetworkOrder(m, senderLittle);
    ReadFromNetworkOrder(raw, receiverLittle);
    assert raw.payload[..4] == BigEndian(ToUnsigned(m.value));
    assert raw.payload[4..8] == InMemory(m.temperature, senderLittle);
    WordRoundTrip(ToUnsigned(m.value));
    SignRoundTrip(0, m.value);
  }

  /**
   * The whole way of a typed message: to bytes, over the raw codec, and back, between hosts of any byte orders. The
   * id and the value always arrive. The float is not put in network order, so the message as a whole arrives exactly
   * when the two hosts agree on the byte order or the float's pattern does not depend on it.
   */
  lemma TypedRoundTrip(m: MyMessage, senderLittle: bool, receiverLittle: bool)
    ensures var got := Arriving(m, senderLittle, receiverLittle);
            && got.reqId == m.reqId && got.value == m.value
            && (got == m <==> senderLittle == receiverLittle || Palindrome(m.temperature))
  {
    ArrivesBut(m, senderLittle, receiverLittle);
    CopiedWord(m.temperature, senderLittle, receiverLittle);
  }

  // The float 25.0, least significant byte first.
  lemma SampleFloat()
    ensures InMemory(0x41C8_0000, true) == [0, 0, 0xC8, 0x41] && FromMemory([0, 0, 0xC8, 0x41], false) == 0xC841
  {
  }

  /** A float of 25.0, pattern 0x41C80000, does not arrive when a little-endian host sends it to a big-endian one. */
  lemma FloatLost(reqId: Word32, value: Int32)
    ensures Arriving(MyMessage(reqId, value, 0x41C8_0000), true, false) == MyMessage(reqId, value, 0x0000_C841)
  {
    ArrivesBut(MyMessage(reqId, value, 0x41C8_0000), true, false);
    SampleFloat();
  }
}
