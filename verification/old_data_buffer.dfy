/** The earlier `ft::DataBuffer` of old/include/data_buffer.hpp: trivially
    copyable values are appended as their raw bytes and read back from a
    read position; a string is a `uint64_t` length followed by its bytes.
    There is no separate write position: everything stored has been
    written. */
module OldDataBuffer {
  import opened Wrappers
  import opened Bytes

  datatype Error =
    | NotEnoughData        // "DataBuffer: not enough data to read"
    | NotEnoughForString   // "DataBuffer: not enough data to read string"
    | ReversedRange        // the bounds check passed, but the range handed to `assign` ends before it starts

  datatype Buffer = Buffer(data: seq<byte>, readPos: nat) {
    predicate Valid() {
      readPos <= |data|
    }

    function Unread(): seq<byte>
      requires Valid()
    {
      data[readPos..]
    }
  }

  type Read<T> = Step<T, Error, Buffer>

  function New(): (r: Buffer)
    ensures r.Valid() && Size(r) == 0
  {
    Buffer([], 0)
  }

  /** `clear`. */
  function Clear(b: Buffer): (r: Buffer)
    ensures r == New()
  {
    Buffer([], 0)
  }

  /** `size`: every stored byte. */
  function Size(b: Buffer): nat {
    |b.data|
  }

  /** `resetReadPos`. */
  function ResetReadPos(b: Buffer): (r: Buffer)
    ensures r.Valid() && r.data == b.data && r.Unread() == b.data
  {
    b.(readPos := 0)
  }

  /** `raw`: the stored bytes, those already read included; past the read
      position they are exactly the unread bytes. */
  function Raw(b: Buffer): (r: seq<byte>)
    ensures |r| == Size(b)
    ensures b.Valid() ==> r[b.readPos..] == b.Unread()
  {
    b.data
  }

  /** `fromRaw`: replaces the bytes and rewinds. */
  function FromRaw(b: Buffer, raw: seq<byte>): (r: Buffer)
    ensures r.Valid() && r.Unread() == raw && Raw(r) == raw
  {
    Buffer(raw, 0)
  }

  /** The generic `<<`: appends exactly the value's bytes. */
  function Put(b: Buffer, raw: seq<byte>): (r: Buffer)
    requires b.Valid()
    ensures r.Valid() && r.data == b.data + raw && r.readPos == b.readPos
    ensures r.Unread() == b.Unread() + raw
  {
    Buffer(b.data + raw, b.readPos)
  }

  /** `raw` sees every write and nothing else: `fromRaw` then `raw` gives
      the bytes back, each `<<` extends them by the value's bytes, and
      neither a read nor a rewind changes them. */
  lemma RawTracksWrites(b: Buffer, bytes: seq<byte>, width: nat)
    requires b.Valid()
    ensures Raw(FromRaw(b, bytes)) == bytes
    ensures Raw(Put(b, bytes)) == Raw(b) + bytes
    ensures Raw(Get(b, width).state) == Raw(b) && Raw(ResetReadPos(b)) == Raw(b)
    ensures Raw(Clear(b)) == []
  {
    assert Put(b, bytes).data == b.data + bytes;
    assert Get(b, width).state.data == b.data;
  }

  /** The generic `>>` for a type of `width` bytes: throws, unmoved, when
      fewer than `width` bytes remain; otherwise takes them. */
  function Get(b: Buffer, width: nat): (r: Read<seq<byte>>)
    requires b.Valid()
    ensures r.state.Valid() && r.state.data == b.data
    ensures r.result.Err? <==> |b.Unread()| < width
    ensures r.result.Err? ==> r.result.error == NotEnoughData && r.state == b
    ensures r.result.Ok? ==>
              r.result.value == b.Unread()[..width] && r.state.Unread() == b.Unread()[width..]
              && r.state.readPos == b.readPos + width
  {
    if b.readPos + width > |b.data| then Step(Err(NotEnoughData), b)
    else
      assert b.Unread()[width..] == b.data[b.readPos + width..];
      Step(Ok(b.data[b.readPos..b.readPos + width]), b.(readPos := b.readPos + width))
  }

  function WriteInt32(b: Buffer, i: Int32): (r: Buffer)
    requires b.Valid()
    ensures r.Valid() && r.Unread() == b.Unread() + EncodeInt32(i) && r.readPos == b.readPos
  {
    Put(b, EncodeInt32(i))
  }

  function WriteU64(b: Buffer, n: UInt64): (r: Buffer)
    requires b.Valid()
    ensures r.Valid() && r.Unread() == b.Unread() + EncodeU64(n) && r.readPos == b.readPos
  {
    Put(b, EncodeU64(n))
  }

  function ReadInt32(b: Buffer): (r: Read<Int32>)
    requires b.Valid()
    ensures r.state.Valid() && r.state.data == b.data
    ensures r.result.Err? <==> |b.Unread()| < 4
    ensures r.result.Err? ==> r.result.error == NotEnoughData && r.state == b
    ensures r.result.Ok? ==>
              r.result.value == DecodeInt32(b.Unread()[..4]) && r.state.Unread() == b.Unread()[4..]
  {
    var s := Get(b, 4);
    match s.result
    case Err(e) => Step(Err(e), s.state)
    case Ok(raw) => Step(Ok(DecodeInt32(raw)), s.state)
  }

  function ReadU64(b: Buffer): (r: Read<UInt64>)
    requires b.Valid()
    ensures r.state.Valid() && r.state.data == b.data
    ensures r.result.Err? <==> |b.Unread()| < 8
    ensures r.result.Err? ==> r.result.error == NotEnoughData && r.state == b
    ensures r.result.Ok? ==>
              r.result.value == DecodeLE(b.Unread()[..8]) && r.state.Unread() == b.Unread()[8..]
              && r.state.readPos == b.readPos + 8
  {
    var s := Get(b, 8);
    Pow256Widths();
    match s.result
    case Err(e) => Step(Err(e), s.state)
    case Ok(raw) => Step(Ok(DecodeLE(raw)), s.state)
  }

  lemma ReadInt32Written(b: Buffer, i: Int32, rest: seq<byte>)
    requires b.Valid() && b.Unread() == EncodeInt32(i) + rest
    ensures ReadInt32(b).result == Ok(i) && ReadInt32(b).state.Unread() == rest
  {
    assert b.Unread()[..4] == EncodeInt32(i);
    assert b.Unread()[4..] == rest;
    Int32RoundTrip(i);
  }

  lemma ReadU64Written(b: Buffer, n: UInt64, rest: seq<byte>)
    requires b.Valid() && b.Unread() == EncodeU64(n) + rest
    ensures ReadU64(b).result == Ok(n) && ReadU64(b).state.Unread() == rest
  {
    assert b.Unread()[..8] == EncodeU64(n);
    assert b.Unread()[8..] == rest;
  }

  // ---- strings ----

  function EncodeString(s: seq<byte>): (r: seq<byte>)
    requires |s| < TWO_64
    ensures |r| == 8 + |s| && r[8..] == s && DecodeLE(r[..8]) == |s|
  {
    EncodeU64(|s|) + s
  }

  /** String `<<`. */
  function WriteString(b: Buffer, s: seq<byte>): (r: Buffer)
    requires b.Valid() && |s| < TWO_64
    ensures r.Valid() && r.Unread() == b.Unread() + EncodeString(s) && r.readPos == b.readPos
  {
    Put(WriteU64(b, |s|), s)
  }

  /** String `>>` as written: the length is read, then the check
      `_readPos + len > _buffer.size()` is evaluated in 64-bit unsigned
      arithmetic, so a huge length wraps the sum below the size and passes.
      The end pointer `_buffer.data() + _readPos + len` then wraps as well
      and lands before the start, so `assign` is handed a reversed range:
      undefined behaviour, which libstdc++ reports as `std::length_error`.
      No byte past the stored ones is read. This model reports the case as
      `ReversedRange`. */
  function ReadStringAsWritten(b: Buffer): (r: Read<seq<byte>>)
    requires b.Valid() && |b.data| < TWO_64
    ensures r.result == Err(NotEnoughData) <==> |b.Unread()| < 8
    ensures r.result == Err(ReversedRange) <==>
              |b.Unread()| >= 8 && b.readPos + 8 + DecodeLE(b.Unread()[..8]) >= TWO_64
  {
    var n := ReadU64(b);
    match n.result
    case Err(e) => Step(Err(e), n.state)
    case Ok(len) =>
      var pos := n.state.readPos;
      if (pos + len) % TWO_64 > |b.data| then Step(Err(NotEnoughForString), n.state)
      else if pos + len > |b.data| then Step(Err(ReversedRange), n.state)
      else Step(Ok(b.data[pos..pos + len]), n.state.(readPos := pos + len))
  }

  /** Eight 0xFF bytes read as the length 2^64 - 1 with nothing after them:
      `8 + (2^64 - 1)` wraps to 7, the check passes, and the end of the
      range handed to `assign` is one byte before its start. */
  lemma ReadStringAsWrittenWraps()
    ensures ReadStringAsWritten(FromRaw(New(), seq(8, _ => 255))).result == Err(ReversedRange)
  {
    var b := FromRaw(New(), seq(8, _ => 255));
    var all := seq(8, _ => 255 as byte);
    assert b.Unread()[..8] == all;
    AllOnes8();
    assert ReadU64(b).result == Ok(TWO_64 - 1);
    assert (8 + (TWO_64 - 1)) % TWO_64 == 7;
  }

  /** String `>>` with the bounds check done without overflow: the content
      must fit in what remains after the length. This is the definition the
      rest of the model uses. */
  function ReadString(b: Buffer): (r: Read<seq<byte>>)
    requires b.Valid()
    ensures r.state.Valid() && r.state.data == b.data
    ensures r.result != Err(ReversedRange)
    ensures r.result == Err(NotEnoughData) <==> |b.Unread()| < 8
    ensures r.result == Err(NotEnoughForString) <==>
              |b.Unread()| >= 8 && 8 + DecodeLE(b.Unread()[..8]) > |b.Unread()|
    ensures r.result.Ok? ==>
              var len := DecodeLE(b.Unread()[..8]);
              && r.result.value == b.Unread()[8..8 + len]
              && r.state.Unread() == b.Unread()[8 + len..]
  {
    var n := ReadU64(b);
    match n.result
    case Err(e) => Step(Err(e), n.state)
    case Ok(len) =>
      var pos := n.state.readPos;
      if len > |b.data| - pos then Step(Err(NotEnoughForString), n.state)
      else
        assert b.Unread()[8..8 + len] == b.data[pos..pos + len];
        assert b.Unread()[8 + len..] == b.data[pos + len..];
        Step(Ok(b.data[pos..pos + len]), n.state.(readPos := pos + len))
  }

  /** Where the 64-bit sum does not wrap, the check as written and the
      corrected one agree. */
  lemma ReadStringAgreesWithoutWrap(b: Buffer)
    requires b.Valid() && |b.data| < TWO_64
    requires |b.Unread()| >= 8 ==> b.readPos + 8 + DecodeLE(b.Unread()[..8]) < TWO_64
    ensures ReadStringAsWritten(b) == ReadString(b)
  {
  }

  /** A string written by `<<` is read back by the corrected `>>`. */
  lemma ReadStringWritten(b: Buffer, s: seq<byte>, rest: seq<byte>)
    requires b.Valid() && |s| < TWO_64 && b.Unread() == EncodeString(s) + rest
    ensures ReadString(b).result == Ok(s) && ReadString(b).state.Unread() == rest
  {
    var u := b.Unread();
    assert u[..8] == EncodeString(s)[..8];
    assert u[8..8 + |s|] == s;
    assert u[8 + |s|..] == rest;
  }

  /** The example program: an int, a string and a second int written in
      that order come back in that order. */
  lemma ExampleRoundTrip(i: Int32, s: seq<byte>, j: Int32)
    requires |s| < TWO_64
    ensures var b := WriteInt32(WriteString(WriteInt32(New(), i), s), j);
            var r1 := ReadInt32(b);
            var r2 := ReadString(r1.state);
            var r3 := ReadInt32(r2.state);
            r1.result == Ok(i) && r2.result == Ok(s) && r3.result == Ok(j) && r3.state.Unread() == []
  {
    var b := WriteInt32(WriteString(WriteInt32(New(), i), s), j);
    assert b.Unread() == EncodeInt32(i) + (EncodeString(s) + EncodeInt32(j));
    ReadInt32Written(b, i, EncodeString(s) + EncodeInt32(j));
    var r1 := ReadInt32(b);
    ReadStringWritten(r1.state, s, EncodeInt32(j));
    var r2 := ReadString(r1.state);
    assert r2.state.Unread() == EncodeInt32(j) + [];
    ReadInt32Written(r2.state, j, []);
  }
}
