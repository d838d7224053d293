/** The network message of src/network/message.cpp: an `int` type tag and a
    byte payload with a read position. `serialize` lays out the tag's four
    bytes followed by the payload; `deserialize` takes them apart again.
    Values go into the payload as raw bytes, strings as a `size_t` length
    and their bytes. The generic `<<` and `>>` live in message.tpp, which is
    not part of this model; they are modelled as the raw-byte append and
    the bounds-checked raw-byte read the string overloads build on. */
module Message {
  import opened Wrappers
  import opened Bytes

  /** `DeserializationFailedException`, whose text is "Message: " followed
      by the reason and a full stop. */
  datatype Error =
    | DataTooShort       // "Data too short for message type"
    | NotEnoughData      // a value read past the end of the payload
    | NotEnoughForString // "Not enough data to read string"
    | LengthTooLong      // std::length_error from `std::string::assign`

  datatype Message = Message(msgType: Int32, buffer: seq<byte>, readPos: nat) {
    predicate Valid() {
      readPos <= |buffer|
    }

    function Unread(): seq<byte>
      requires Valid()
    {
      buffer[readPos..]
    }
  }

  type Read<T> = Step<T, Error, Message>

  /** `Message(type)`: an empty payload. */
  function New(t: Int32): (r: Message)
    ensures r.Valid() && r.msgType == t && r.buffer == [] && r.Unread() == []
  {
    Message(t, [], 0)
  }

  /** The copy constructor: the copy has the tag and payload but reads from
      the start. */
  function Copy(other: Message): (r: Message)
    ensures r.Valid() && r.msgType == other.msgType && r.buffer == other.buffer
    ensures r.Unread() == other.buffer
  {
    Message(other.msgType, other.buffer, 0)
  }

  /** Copy assignment; `aliased` says whether source and target are the
      same object, in which case nothing changes. Otherwise it is a copy. */
  function Assign(target: Message, source: Message, aliased: bool): (r: Message)
    ensures aliased ==> r == target
    ensures !aliased ==> r == Copy(source)
  {
    if aliased then target else Message(source.msgType, source.buffer, 0)
  }

  /** `type()`. */
  function Type(m: Message): Int32 {
    m.msgType
  }

  /** `serialize`: the tag's bytes, then the whole payload (read or not). */
  function Serialize(m: Message): (r: seq<byte>)
    ensures |r| == 4 + |m.buffer|
    ensures DecodeInt32(r[..4]) == m.msgType && r[4..] == m.buffer
  {
    Int32RoundTrip(m.msgType);
    EncodeInt32(m.msgType) + m.buffer
  }

  /** `deserialize`: fewer than four bytes throws and leaves the message as
      it was; otherwise the first four bytes become the tag, the rest the
      payload, and reading restarts at 0. */
  function Deserialize(m: Message, data: seq<byte>): (r: Step<(), Error, Message>)
    ensures r.result.Err? <==> |data| < 4
    ensures r.result.Err? ==> r.result.error == DataTooShort && r.state == m
    ensures r.result.Ok? ==>
              && r.state.Valid() && r.state.readPos == 0
              && r.state.msgType == DecodeInt32(data[..4]) && r.state.buffer == data[4..]
  {
    if |data| < 4 then Step(Err(DataTooShort), m)
    else Step(Ok(()), Message(DecodeInt32(data[..4]), data[4..], 0))
  }

  /** `resetRead`. */
  function ResetRead(m: Message): (r: Message)
    ensures r.Valid() && r.msgType == m.msgType && r.buffer == m.buffer && r.Unread() == m.buffer
  {
    m.(readPos := 0)
  }

  /** Deserializing a serialized message restores its tag and payload, read
      from the start, whatever the message deserialized into held before. */
  lemma DeserializeSerialize(m: Message, target: Message)
    ensures Deserialize(target, Serialize(m)) == Step(Ok(()), Copy(m))
  {
    var s := Serialize(m);
    assert s[..4] == EncodeInt32(m.msgType);
    Int32RoundTrip(m.msgType);
  }

  /** And the other way: any input of at least four bytes is reproduced
      exactly by serializing what it deserializes to. */
  lemma SerializeDeserialize(m: Message, data: seq<byte>)
    requires |data| >= 4
    ensures Serialize(Deserialize(m, data).state) == data
  {
    EncodeDecodeInt32(data[..4]);
    assert data == data[..4] + data[4..];
  }

  /** Four bytes decoded as an `int32` and encoded again are the same bytes. */
  lemma EncodeDecodeInt32(s: seq<byte>)
    requires |s| == 4
    ensures EncodeInt32(DecodeInt32(s)) == s
  {
    Pow256Widths();
    EncodeDecode(s);
    SignedUnsigned(DecodeInt32(s), 4);
  }

  // ---- payload values ----

  /** `<<` for a basic value: its raw bytes are appended to the payload. */
  function Put(m: Message, raw: seq<byte>): (r: Message)
    requires m.Valid()
    ensures r.Valid() && r.msgType == m.msgType && r.buffer == m.buffer + raw
    ensures r.Unread() == m.Unread() + raw
  {
    m.(buffer := m.buffer + raw)
  }

  /** `>>` for a basic value of `width` bytes: a read past the end throws
      with nothing moved. */
  function Get(m: Message, width: nat): (r: Read<seq<byte>>)
    requires m.Valid()
    ensures r.state.Valid() && r.state.msgType == m.msgType && r.state.buffer == m.buffer
    ensures r.result.Err? <==> |m.Unread()| < width
    ensures r.result.Err? ==> r.result.error == NotEnoughData && r.state == m
    ensures r.result.Ok? ==>
              r.result.value == m.Unread()[..width] && r.state.Unread() == m.Unread()[width..]
              && r.state.readPos == m.readPos + width
  {
    if m.readPos + width > |m.buffer| then Step(Err(NotEnoughData), m)
    else
      assert m.Unread()[width..] == m.buffer[m.readPos + width..];
      Step(Ok(m.buffer[m.readPos..m.readPos + width]), m.(readPos := m.readPos + width))
  }

  function WriteInt(m: Message, i: Int32): (r: Message)
    requires m.Valid()
    ensures r.Valid() && r.msgType == m.msgType && r.readPos == m.readPos
    ensures r.buffer == m.buffer + EncodeInt32(i) && r.Unread() == m.Unread() + EncodeInt32(i)
  {
    Put(m, EncodeInt32(i))
  }

  function ReadInt(m: Message): (r: Read<Int32>)
    requires m.Valid()
    ensures r.state.Valid() && r.state.buffer == m.buffer && r.state.msgType == m.msgType
    ensures r.result.Err? <==> |m.Unread()| < 4
    ensures r.result.Ok? ==>
              r.result.value == DecodeInt32(m.Unread()[..4]) && r.state.Unread() == m.Unread()[4..]
  {
    var s := Get(m, 4);
    match s.result
    case Err(e) => Step(Err(e), s.state)
    case Ok(raw) => Step(Ok(DecodeInt32(raw)), s.state)
  }

  /** The bytes string `<<` appends: the length as a `size_t`, then the
      content. */
  function EncodeString(s: seq<byte>): (r: seq<byte>)
    requires |s| < TWO_64
    ensures |r| == 8 + |s| && r[8..] == s && DecodeLE(r[..8]) == |s|
  {
    EncodeU64(|s|) + s
  }

  /** String `<<`. */
  function WriteString(m: Message, s: seq<byte>): (r: Message)
    requires m.Valid() && |s| < TWO_64
    ensures r.Valid() && r.msgType == m.msgType && r.readPos == m.readPos
    ensures r.buffer == m.buffer + EncodeString(s) && r.Unread() == m.Unread() + EncodeString(s)
  {
    Put(m, EncodeString(s))
  }

  /** String `>>` as written (both the plain and the `const` overload): the
      length is read first, throwing unmoved if it is not there; then the
      check `readPos + size > buffer.size()` is evaluated in 64-bit unsigned
      arithmetic. A size that wraps the sum passes it, and `data.assign` is
      then asked for at least 2^64 - readPos characters, more than any
      `std::string` can hold (its `max_size` is below 2^63), so it throws
      `std::length_error` instead of the message's own exception. */
  function ReadStringAsWritten(m: Message): (r: Read<seq<byte>>)
    requires m.Valid() && |m.buffer| < TWO_64
    ensures r.state.Valid() && r.state.buffer == m.buffer && r.state.msgType == m.msgType
    ensures r.result == Err(NotEnoughData) <==> |m.Unread()| < 8
    ensures r.result == Err(LengthTooLong) <==>
              |m.Unread()| >= 8 && m.readPos + 8 + DecodeLE(m.Unread()[..8]) >= TWO_64
  {
    var n := Get(m, 8);
    match n.result
    case Err(e) => Step(Err(e), n.state)
    case Ok(raw) =>
      var len := DecodeLE(raw);
      var p := n.state;
      if (p.readPos + len) % TWO_64 > |p.buffer| then Step(Err(NotEnoughForString), p)
      else if p.readPos + len > |p.buffer| then Step(Err(LengthTooLong), p)
      else Step(Ok(p.buffer[p.readPos..p.readPos + len]), p.(readPos := p.readPos + len))
  }

  /** Eight 0xFF bytes as the whole payload announce 2^64 - 1 bytes: the sum
      `8 + (2^64 - 1)` wraps to 7, below the payload's 8 bytes, so the check
      passes and the read throws `std::length_error`, where the message's
      "Not enough data to read string" was meant. */
  lemma ReadStringAsWrittenWraps()
    ensures ReadStringAsWritten(Message(0, seq(8, _ => 255), 0)).result == Err(LengthTooLong)
    ensures ReadString(Message(0, seq(8, _ => 255), 0)).result == Err(NotEnoughForString)
  {
    var m := Message(0, seq(8, _ => 255), 0);
    assert m.Unread()[..8] == seq(8, _ => 255 as byte);
    AllOnes8();
  }

  /** String `>>` with the bounds check done without overflow: it throws
      "Not enough data to read string" whenever the content is short. This
      is the definition the rest of the model uses. The length is read
      first, throwing unmoved if it is not there, then the content,
      throwing with the length already consumed if it is short. */
  function ReadString(m: Message): (r: Read<seq<byte>>)
    requires m.Valid()
    ensures r.state.Valid() && r.state.buffer == m.buffer && r.state.msgType == m.msgType
    ensures r.result == Err(NotEnoughData) <==> |m.Unread()| < 8
    ensures r.result == Err(NotEnoughData) ==> r.state == m
    ensures r.result == Err(NotEnoughForString) <==>
              |m.Unread()| >= 8 && 8 + DecodeLE(m.Unread()[..8]) > |m.Unread()|
    ensures r.result == Err(NotEnoughForString) ==> r.state.readPos == m.readPos + 8
    ensures r.result.Ok? <==> |m.Unread()| >= 8 && 8 + DecodeLE(m.Unread()[..8]) <= |m.Unread()|
    ensures r.result.Ok? ==>
              var len := DecodeLE(m.Unread()[..8]);
              && r.result.value == m.Unread()[8..8 + len]
              && r.state.Unread() == m.Unread()[8 + len..]
  {
    var n := Get(m, 8);
    match n.result
    case Err(e) => Step(Err(e), n.state)
    case Ok(raw) =>
      var len := DecodeLE(raw);
      var p := n.state;
      if p.readPos + len > |p.buffer| then Step(Err(NotEnoughForString), p)
      else
        assert m.Unread()[8..8 + len] == p.buffer[p.readPos..p.readPos + len];
        assert m.Unread()[8 + len..] == p.buffer[p.readPos + len..];
        Step(Ok(p.buffer[p.readPos..p.readPos + len]), p.(readPos := p.readPos + len))
  }

  /** Where the 64-bit sum does not wrap, the check as written and the
      corrected one agree. */
  lemma ReadStringAgreesWithoutWrap(m: Message)
    requires m.Valid() && |m.buffer| < TWO_64
    requires |m.Unread()| >= 8 ==> m.readPos + 8 + DecodeLE(m.Unread()[..8]) < TWO_64
    ensures ReadStringAsWritten(m) == ReadString(m)
  {
  }

  lemma ReadIntWritten(m: Message, i: Int32, rest: seq<byte>)
    requires m.Valid() && m.Unread() == EncodeInt32(i) + rest
    ensures ReadInt(m).result == Ok(i) && ReadInt(m).state.Unread() == rest
  {
    assert m.Unread()[..4] == EncodeInt32(i);
    assert m.Unread()[4..] == rest;
    Int32RoundTrip(i);
  }

  lemma ReadStringWritten(m: Message, s: seq<byte>, rest: seq<byte>)
    requires m.Valid() && |s| < TWO_64 && m.Unread() == EncodeString(s) + rest
    ensures ReadString(m).result == Ok(s) && ReadString(m).state.Unread() == rest
  {
    var u := m.Unread();
    assert u[..8] == EncodeString(s)[..8];
    assert u[8..8 + |s|] == s;
    assert u[8 + |s|..] == rest;
  }

  /** An int followed by a string is read back as that int and string. */
  lemma ReadIntThenString(m: Message, i: Int32, s: seq<byte>)
    requires m.Valid() && |s| < TWO_64 && m.Unread() == EncodeInt32(i) + EncodeString(s)
    ensures ReadInt(m).result == Ok(i)
    ensures ReadString(ReadInt(m).state).result == Ok(s)
    ensures ReadString(ReadInt(m).state).state.Unread() == []
  {
    ReadIntWritten(m, i, EncodeString(s));
    var a := ReadInt(m);
    assert a.state.Unread() == EncodeString(s) + [];
    ReadStringWritten(a.state, s, []);
  }

  /** A message carrying an int and a string survives the trip through
      bytes: the copy on the far side reads back both values in order. */
  lemma WireRoundTrip(t: Int32, i: Int32, s: seq<byte>, target: Message, got: Message)
    requires |s| < TWO_64
    requires got == Deserialize(target, Serialize(WriteString(WriteInt(New(t), i), s))).state
    ensures got.Valid() && got.msgType == t
    ensures ReadInt(got).result == Ok(i) && ReadString(ReadInt(got).state).result == Ok(s)
  {
    var sent := WriteString(WriteInt(New(t), i), s);
    SentPayload(t, i, s);
    DeserializeSerialize(sent, target);
    ReadIntThenString(got, i, s);
  }

  lemma SentPayload(t: Int32, i: Int32, s: seq<byte>)
    requires |s| < TWO_64
    ensures WriteString(WriteInt(New(t), i), s).buffer == EncodeInt32(i) + EncodeString(s)
    ensures WriteString(WriteInt(New(t), i), s).msgType == t
  {
    assert WriteInt(New(t), i).buffer == [] + EncodeInt32(i);
  }
}
