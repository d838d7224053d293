/** The earlier `ft::Message` of old/src/message.cpp and
    old/include/message.hpp: an `int` type and a payload held in an
    `ft::DataBuffer`. On the wire a message is a header, the type as
    `int32_t` and the payload size as `uint64_t`, followed by the payload's
    bytes. Values written to or read from a message go straight to its
    buffer. */
module OldMessage {
  import opened Wrappers
  import opened Bytes
  import B = OldDataBuffer

  datatype Error =
    | BufferError(cause: B.Error)  // a read of the header or of a value failed
    | InvalidRawMessage            // "Invalid raw message"
    | ReversedRange                // the size check passed, but the range handed to `insert` ends before it starts

  datatype Message = Message(msgType: Int32, buffer: B.Buffer) {
    predicate Valid() {
      buffer.Valid()
    }
  }

  /** `Message(type)`: an empty payload. */
  function New(t: Int32): (r: Message)
    ensures r.Valid() && r.msgType == t && B.Size(r.buffer) == 0
  {
    Message(t, B.New())
  }

  /** `Message(type, buf)`: the buffer is copied, read position included. */
  function WithBuffer(t: Int32, buf: B.Buffer): (r: Message)
    ensures r.msgType == t && r.buffer == buf
  {
    Message(t, buf)
  }

  function Type(m: Message): Int32 {
    m.msgType
  }

  /** The header: type, then payload size. */
  function Header(t: Int32, size: UInt64): (r: seq<byte>)
    ensures |r| == 12 && DecodeInt32(r[..4]) == t && DecodeLE(r[4..12]) == size
  {
    var r := EncodeInt32(t) + EncodeU64(size);
    assert r[..4] == EncodeInt32(t) && r[4..12] == EncodeU64(size);
    Int32RoundTrip(t);
    r
  }

  /** `serialize`: header, then every byte of the payload, whatever has
      already been read from it. */
  function Serialize(m: Message): (r: seq<byte>)
    requires B.Size(m.buffer) < TWO_64
    ensures |r| == 12 + B.Size(m.buffer)
    ensures r[..12] == Header(m.msgType, B.Size(m.buffer)) && r[12..] == B.Raw(m.buffer)
  {
    Header(m.msgType, B.Size(m.buffer)) + B.Raw(m.buffer)
  }

  /** The header fields read from the first twelve bytes, with the buffer
      read errors for inputs shorter than 4 or 12 bytes. */
  function ReadHeader(raw: seq<byte>): (r: Result<(Int32, UInt64), Error>)
    ensures r.Err? <==> |raw| < 12
    ensures r.Err? ==> r.error == BufferError(B.NotEnoughData)
    ensures r.Ok? ==> r.value == (DecodeInt32(raw[..4]), DecodeLE(raw[4..12]))
  {
    var buf := B.FromRaw(B.New(), raw);
    var t := B.ReadInt32(buf);
    match t.result
    case Err(e) => Err(BufferError(e))
    case Ok(ty) =>
      var n := B.ReadU64(t.state);
      match n.result
      case Err(e) => Err(BufferError(e))
      case Ok(size) =>
        assert t.state.Unread()[..8] == raw[4..12];
        Ok((ty, size))
  }

  /** `deserialize` as written: the check `raw.size() < pos + payload_size`
      adds in 64-bit unsigned arithmetic, so a payload size near 2^64 wraps
      the sum and passes. The end iterator `raw.begin() + pos + payload_size`
      then wraps as well and lands before the start, so `insert` is handed
      a reversed range: undefined behaviour, which libstdc++ reports as
      `std::length_error`. Nothing past the input is read. This model
      reports the case as `ReversedRange`. Bytes after the payload are
      ignored. */
  function DeserializeAsWritten(raw: seq<byte>): (r: Result<Message, Error>)
    requires |raw| < TWO_64
    ensures |raw| < 12 ==> r == Err(BufferError(B.NotEnoughData))
    ensures r == Err(ReversedRange) <==> |raw| >= 12 && 12 + DecodeLE(raw[4..12]) >= TWO_64
  {
    match ReadHeader(raw)
    case Err(e) => Err(e)
    case Ok((t, size)) =>
      if |raw| < (12 + size) % TWO_64 then Err(InvalidRawMessage)
      else if |raw| < 12 + size then Err(ReversedRange)
      else Ok(Message(t, B.FromRaw(B.New(), raw[12..12 + size])))
  }

  /** A twelve-byte header announcing 2^64 - 1 payload bytes: `12 + size`
      wraps to 11, which is below the input's length of 12, and the end of
      the range handed to `insert` is one byte before its start. */
  lemma DeserializeAsWrittenWraps()
    ensures DeserializeAsWritten(Header(0, TWO_64 - 1)) == Err(ReversedRange)
  {
    var h := Header(0, TWO_64 - 1);
    assert (12 + (TWO_64 - 1)) % TWO_64 == 11;
    assert ReadHeader(h) == Ok((0, TWO_64 - 1));
  }

  /** `deserialize` with the size check done without overflow; this is the
      definition the rest of the model uses. The payload's buffer reads
      from its start. */
  function Deserialize(raw: seq<byte>): (r: Result<Message, Error>)
    ensures r != Err(ReversedRange)
    ensures r.Err? <==> |raw| < 12 || DecodeLE(raw[4..12]) > |raw| - 12
    ensures r.Err? && |raw| < 12 ==> r.error == BufferError(B.NotEnoughData)
    ensures r.Err? && |raw| >= 12 ==> r.error == InvalidRawMessage
    ensures r.Ok? ==>
              var size := DecodeLE(raw[4..12]);
              && r.value.Valid()
              && r.value.msgType == DecodeInt32(raw[..4])
              && r.value.buffer == B.FromRaw(B.New(), raw[12..12 + size])
  {
    match ReadHeader(raw)
    case Err(e) => Err(e)
    case Ok((t, size)) =>
      if size > |raw| - 12 then Err(InvalidRawMessage)
      else Ok(Message(t, B.FromRaw(B.New(), raw[12..12 + size])))
  }

  /** Where the sum does not wrap, the two checks agree. */
  lemma DeserializeAgreesWithoutWrap(raw: seq<byte>)
    requires |raw| < TWO_64
    requires |raw| >= 12 ==> 12 + DecodeLE(raw[4..12]) < TWO_64
    ensures DeserializeAsWritten(raw) == Deserialize(raw)
  {
  }

  /** A serialized message deserializes to its type and all of its payload
      bytes, with the payload read from the start. */
  lemma DeserializeSerialize(m: Message)
    requires B.Size(m.buffer) < TWO_64
    ensures Deserialize(Serialize(m)) == Ok(Message(m.msgType, B.FromRaw(B.New(), B.Raw(m.buffer))))
  {
    var raw := Serialize(m);
    assert raw[..12][..4] == raw[..4];
    assert raw[..12][4..12] == raw[4..12];
    assert raw[12..12 + B.Size(m.buffer)] == B.Raw(m.buffer);
  }

  // ---- values go straight to the buffer ----

  function WriteInt32(m: Message, i: Int32): (r: Message)
    requires m.Valid()
    ensures r.Valid() && r.msgType == m.msgType && r.buffer == B.WriteInt32(m.buffer, i)
  {
    m.(buffer := B.WriteInt32(m.buffer, i))
  }

  function WriteString(m: Message, s: seq<byte>): (r: Message)
    requires m.Valid() && |s| < TWO_64
    ensures r.Valid() && r.msgType == m.msgType && r.buffer == B.WriteString(m.buffer, s)
  {
    m.(buffer := B.WriteString(m.buffer, s))
  }

  function ReadInt32(m: Message): (r: Step<Int32, Error, Message>)
    requires m.Valid()
    ensures r.state.Valid() && r.state.msgType == m.msgType
    ensures r.state.buffer == B.ReadInt32(m.buffer).state
    ensures r.result.Ok? <==> B.ReadInt32(m.buffer).result.Ok?
    ensures r.result.Ok? ==> r.result.value == B.ReadInt32(m.buffer).result.value
  {
    var s := B.ReadInt32(m.buffer);
    match s.result
    case Err(e) => Step(Err(BufferError(e)), m.(buffer := s.state))
    case Ok(v) => Step(Ok(v), m.(buffer := s.state))
  }

  function ReadString(m: Message): (r: Step<seq<byte>, Error, Message>)
    requires m.Valid()
    ensures r.state.Valid() && r.state.msgType == m.msgType
    ensures r.state.buffer == B.ReadString(m.buffer).state
    ensures r.result.Ok? <==> B.ReadString(m.buffer).result.Ok?
    ensures r.result.Ok? ==> r.result.value == B.ReadString(m.buffer).result.value
  {
    var s := B.ReadString(m.buffer);
    match s.result
    case Err(e) => Step(Err(BufferError(e)), m.(buffer := s.state))
    case Ok(v) => Step(Ok(v), m.(buffer := s.state))
  }

  /** The test program: message 1 carrying 42 and "hello" is serialized and
      deserialized, and reading the copy gives back 42 and then "hello". */
  lemma MessageTest(got: Message)
    requires Deserialize(Serialize(WriteString(WriteInt32(New(1), 42), Hello()))) == Ok(got)
    ensures got.msgType == 1 && got.Valid()
    ensures ReadInt32(got).result == Ok(42)
    ensures ReadString(ReadInt32(got).state).result == Ok(Hello())
  {
    var sent := WriteString(WriteInt32(New(1), 42), Hello());
    DeserializeSerialize(sent);
    assert got.buffer.Unread() == EncodeInt32(42) + B.EncodeString(Hello());
    ReadIntThenString(got.buffer, 42, Hello());
  }

  function Hello(): (r: seq<byte>)
    ensures |r| == 5
  {
    Latin1("hello")
  }

  /** An `int32` followed by a string is read back as both, in order. */
  lemma ReadIntThenString(b: B.Buffer, i: Int32, s: seq<byte>)
    requires b.Valid() && |s| < TWO_64 && b.Unread() == EncodeInt32(i) + B.EncodeString(s)
    ensures B.ReadInt32(b).result == Ok(i)
    ensures B.ReadString(B.ReadInt32(b).state).result == Ok(s)
  {
    B.ReadInt32Written(b, i, B.EncodeString(s));
    var a := B.ReadInt32(b).state;
    assert a.Unread() == B.EncodeString(s) + [];
    B.ReadStringWritten(a, s, []);
  }
}
