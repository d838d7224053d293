/** The byte buffer of src/data_structures/data_buffer.cpp: a byte vector with
    a write cursor (everything before it has been written) and a read cursor
    (everything before it has been consumed). Basic values are copied in as
    their raw bytes; a string is written as its `size_t` length followed by
    its bytes. Seen from outside the buffer is a byte FIFO: the unread bytes
    are `bytes[readPos..writePos]`, writes append to them and reads take from
    their front. */
module DataBuffer {
  import opened Wrappers
  import opened Bytes

  /** `std::runtime_error("DataBuffer: lectura fuera de límites")`, thrown by
      every read that needs more bytes than remain unread. */
  datatype Error = OutOfBounds

  datatype Buffer = Buffer(bytes: seq<byte>, readPos: nat, writePos: nat) {

    /** Kept by every operation: read_pos <= write_pos <= buffer.size(). */
    predicate Valid() {
      readPos <= writePos <= |bytes|
    }

    /** The bytes written and not yet read. */
    function Unread(): seq<byte>
      requires Valid()
    {
      bytes[readPos..writePos]
    }
  }

  /** A read: its value or error, and the buffer after it. */
  type Read<T> = Step<T, Error, Buffer>

  /** The default constructor. */
  function New(): (r: Buffer)
    ensures r.Valid() && r.readPos == 0 && r.writePos == 0
    ensures Str(r) == [] && Empty(r) && r.Unread() == []
  {
    Buffer([], 0, 0)
  }

  /** Copy construction and copy assignment: the result holds the source's
      bytes and both of its positions. Self-assignment is the case
      `target == source`, which leaves the target as it was. */
  function Assign(target: Buffer, source: Buffer): (r: Buffer)
    ensures r.bytes == source.bytes && r.readPos == source.readPos && r.writePos == source.writePos
    ensures target == source ==> r == target
  {
    source
  }

  /** `n` zero bytes: what `std::vector<char>::resize` adds. */
  function Zeros(n: nat): (r: seq<byte>)
    ensures |r| == n
  {
    seq(n, _ => 0)
  }

  /** `write_bytes`: grows the vector to `write_pos + size` if it is
      shorter, copies the data at `write_pos` and advances `write_pos`. */
  function WriteBytes(b: Buffer, data: seq<byte>): (r: Buffer)
    requires b.Valid()
    ensures r.Valid()
    ensures r.writePos == b.writePos + |data| && r.readPos == b.readPos
    ensures r.bytes[..b.writePos] == b.bytes[..b.writePos]
    ensures r.bytes[b.writePos..r.writePos] == data
    ensures Str(r) == Str(b) + data
    ensures r.Unread() == b.Unread() + data
  {
    var needed := b.writePos + |data|;
    var grown := if |b.bytes| < needed then b.bytes + Zeros(needed - |b.bytes|) else b.bytes;
    var r := Buffer(grown[..b.writePos] + data + grown[needed..], b.readPos, needed);
    assert r.bytes[..b.writePos] == grown[..b.writePos];
    assert r.bytes[b.readPos..needed] == grown[b.readPos..b.writePos] + data;
    r
  }

  /** `read_bytes`: throws when `read_pos + size > write_pos`, leaving the
      buffer as it was; otherwise yields the next `size` unread bytes and
      advances `read_pos`. No read changes the stored bytes or `write_pos`. */
  function ReadBytes(b: Buffer, size: nat): (r: Read<seq<byte>>)
    requires b.Valid()
    ensures r.state.Valid() && r.state.bytes == b.bytes && r.state.writePos == b.writePos
    ensures r.result.Err? <==> b.readPos + size > b.writePos
    ensures r.result.Err? ==> r.state == b
    ensures r.result.Ok? ==>
              && r.result.value == b.Unread()[..size]
              && r.state.readPos == b.readPos + size
              && r.state.Unread() == b.Unread()[size..]
  {
    if b.readPos + size > b.writePos then Step(Err(OutOfBounds), b)
    else Step(Ok(b.bytes[b.readPos..b.readPos + size]), b.(readPos := b.readPos + size))
  }

  /** `append`: the string's bytes without a length prefix. */
  function Append(b: Buffer, s: seq<byte>): (r: Buffer)
    requires b.Valid()
    ensures r.Valid() && Str(r) == Str(b) + s && r.readPos == b.readPos
  {
    WriteBytes(b, s)
  }

  /** `str`: the written bytes, never any byte at or past `write_pos`. */
  function Str(b: Buffer): (r: seq<byte>)
    requires b.writePos <= |b.bytes|
    ensures |r| == b.writePos && r == b.bytes[..b.writePos]
  {
    b.bytes[..b.writePos]
  }

  /** `clear`: no bytes, both positions 0. */
  function Clear(b: Buffer): (r: Buffer)
    ensures r == New()
  {
    Buffer([], 0, 0)
  }

  /** `empty`: nothing has been written. */
  predicate Empty(b: Buffer) {
    b.writePos == 0
  }

  /** `size`: the number of bytes written, whatever has been read. */
  function Size(b: Buffer): nat {
    b.writePos
  }

  lemma EmptyIffNoContent(b: Buffer)
    requires b.Valid()
    ensures Empty(b) <==> Str(b) == []
    ensures Size(b) == |Str(b)|
  {
  }

  // ---- the generic << and >> for basic types: raw bytes of the value ----

  /** `<<` for a basic type: appends exactly the value's bytes. */
  function Put(b: Buffer, raw: seq<byte>): (r: Buffer)
    requires b.Valid()
    ensures r.Valid() && r.Unread() == b.Unread() + raw && Size(r) == Size(b) + |raw|
  {
    WriteBytes(b, raw)
  }

  function WriteInt(b: Buffer, i: Int32): (r: Buffer)
    requires b.Valid()
    ensures r.Valid() && r.Unread() == b.Unread() + EncodeInt32(i) && r.readPos == b.readPos
  {
    Put(b, EncodeInt32(i))
  }

  function WriteBool(b: Buffer, x: bool): (r: Buffer)
    requires b.Valid()
    ensures r.Valid() && r.Unread() == b.Unread() + EncodeBool(x) && r.readPos == b.readPos
  {
    Put(b, EncodeBool(x))
  }

  function WriteSize(b: Buffer, n: UInt64): (r: Buffer)
    requires b.Valid()
    ensures r.Valid() && r.Unread() == b.Unread() + EncodeU64(n) && r.readPos == b.readPos
  {
    Put(b, EncodeU64(n))
  }

  function WriteLongLong(b: Buffer, i: Int64): (r: Buffer)
    requires b.Valid()
    ensures r.Valid() && r.Unread() == b.Unread() + EncodeInt64(i) && r.readPos == b.readPos
  {
    Put(b, EncodeInt64(i))
  }

  /** `>>` for an `int`: throws when fewer than 4 bytes remain unread. */
  function ReadInt(b: Buffer): (r: Read<Int32>)
    requires b.Valid()
    ensures r.state.Valid() && r.state.bytes == b.bytes && r.state.writePos == b.writePos
    ensures r.result.Err? <==> |b.Unread()| < 4
    ensures r.result.Err? ==> r.state == b
    ensures r.result.Ok? ==>
              r.result.value == DecodeInt32(b.Unread()[..4]) && r.state.Unread() == b.Unread()[4..]
  {
    var s := ReadBytes(b, 4);
    match s.result
    case Err(e) => Step(Err(e), s.state)
    case Ok(raw) => Step(Ok(DecodeInt32(raw)), s.state)
  }

  function ReadBool(b: Buffer): (r: Read<bool>)
    requires b.Valid()
    ensures r.state.Valid() && r.state.bytes == b.bytes && r.state.writePos == b.writePos
    ensures r.result.Err? <==> |b.Unread()| < 1
    ensures r.result.Err? ==> r.state == b
    ensures r.result.Ok? ==>
              r.result.value == DecodeBool(b.Unread()[..1]) && r.state.Unread() == b.Unread()[1..]
  {
    var s := ReadBytes(b, 1);
    match s.result
    case Err(e) => Step(Err(e), s.state)
    case Ok(raw) => Step(Ok(DecodeBool(raw)), s.state)
  }

  function ReadSize(b: Buffer): (r: Read<UInt64>)
    requires b.Valid()
    ensures r.state.Valid() && r.state.bytes == b.bytes && r.state.writePos == b.writePos
    ensures r.result.Err? <==> |b.Unread()| < 8
    ensures r.result.Err? ==> r.state == b
    ensures r.result.Ok? ==>
              r.result.value == DecodeLE(b.Unread()[..8]) && r.state.Unread() == b.Unread()[8..]
              && r.state.readPos == b.readPos + 8
  {
    var s := ReadBytes(b, 8);
    Pow256Widths();
    match s.result
    case Err(e) => Step(Err(e), s.state)
    case Ok(raw) => Step(Ok(DecodeLE(raw)), s.state)
  }

  function ReadLongLong(b: Buffer): (r: Read<Int64>)
    requires b.Valid()
    ensures r.state.Valid() && r.state.bytes == b.bytes && r.state.writePos == b.writePos
    ensures r.result.Err? <==> |b.Unread()| < 8
    ensures r.result.Err? ==> r.state == b
    ensures r.result.Ok? ==>
              r.result.value == DecodeInt64(b.Unread()[..8]) && r.state.Unread() == b.Unread()[8..]
  {
    var s := ReadBytes(b, 8);
    match s.result
    case Err(e) => Step(Err(e), s.state)
    case Ok(raw) => Step(Ok(DecodeInt64(raw)), s.state)
  }

  // ---- strings: size_t length, then the bytes ----

  /** The bytes `<<` writes for a string. */
  function EncodeString(s: seq<byte>): (r: seq<byte>)
    requires |s| < TWO_64
    ensures |r| == 8 + |s| && r[8..] == s && DecodeLE(r[..8]) == |s|
  {
    EncodeU64(|s|) + s
  }

  /** String `<<`: the length as a `size_t`, then the content. */
  function WriteString(b: Buffer, s: seq<byte>): (r: Buffer)
    requires b.Valid() && |s| < TWO_64
    ensures r.Valid() && r.Unread() == b.Unread() + EncodeString(s) && r.readPos == b.readPos
  {
    WriteBytes(WriteSize(b, |s|), s)
  }

  /** String `>>`: reads the length (throwing, unmoved, when fewer than 8
      bytes remain), then the content. The length is consumed before the
      content is checked, so a short content throws with `read_pos` already
      past the prefix. */
  function ReadString(b: Buffer): (r: Read<seq<byte>>)
    requires b.Valid()
    ensures r.state.Valid() && r.state.bytes == b.bytes && r.state.writePos == b.writePos
    ensures |b.Unread()| < 8 ==> r.result.Err? && r.state == b
    ensures |b.Unread()| >= 8 && 8 + DecodeLE(b.Unread()[..8]) > |b.Unread()| ==>
              r.result.Err? && r.state.readPos == b.readPos + 8
    ensures r.result.Ok? <==> |b.Unread()| >= 8 && 8 + DecodeLE(b.Unread()[..8]) <= |b.Unread()|
    ensures r.result.Ok? ==>
              var len := DecodeLE(b.Unread()[..8]);
              && r.result.value == b.Unread()[8..8 + len]
              && r.state.Unread() == b.Unread()[8 + len..]
  {
    var n := ReadSize(b);
    match n.result
    case Err(e) => Step(Err(e), n.state)
    case Ok(len) =>
      var c := ReadBytes(n.state, len);
      if 8 + len <= |b.Unread()| then
        assert b.Unread()[8..][..len] == b.Unread()[8..8 + len];
        assert b.Unread()[8..][len..] == b.Unread()[8 + len..];
        c
      else
        c
  }

  /** `std::string::resize`: the string cut to `n` bytes, or padded with
      NULs up to `n` bytes. */
  function Resized(s: seq<byte>, n: nat): (r: seq<byte>)
    ensures |r| == n
    ensures forall i :: 0 <= i < n && i < |s| ==> r[i] == s[i]
    ensures forall i :: |s| <= i < n ==> r[i] == 0
  {
    if n <= |s| then s[..n] else s + Zeros(n - |s|)
  }

  /** The target string after string `>>`: the length is read first and
      `resize` runs before the content is copied, so a read that throws
      after the length leaves the target resized to the announced length;
      one that throws on the length leaves it as it was. */
  function ReadStringInto(b: Buffer, target: seq<byte>): (r: seq<byte>)
    requires b.Valid()
    ensures ReadString(b).result.Ok? ==> r == ReadString(b).result.value
    ensures |b.Unread()| < 8 ==> r == target
    ensures |b.Unread()| >= 8 && ReadString(b).result.Err? ==>
              r == Resized(target, DecodeLE(b.Unread()[..8]))
  {
    var n := ReadSize(b);
    match n.result
    case Err(_) => target
    case Ok(len) =>
      var c := ReadBytes(n.state, len);
      match c.result
      case Err(_) => Resized(target, len)
      case Ok(content) => content
  }

  // ---- reading back what was written ----

  lemma ReadIntWritten(b: Buffer, i: Int32, rest: seq<byte>)
    requires b.Valid() && b.Unread() == EncodeInt32(i) + rest
    ensures ReadInt(b).result == Ok(i) && ReadInt(b).state.Unread() == rest
  {
    assert b.Unread()[..4] == EncodeInt32(i);
    assert b.Unread()[4..] == rest;
    Int32RoundTrip(i);
  }

  lemma ReadBoolWritten(b: Buffer, x: bool, rest: seq<byte>)
    requires b.Valid() && b.Unread() == EncodeBool(x) + rest
    ensures ReadBool(b).result == Ok(x) && ReadBool(b).state.Unread() == rest
  {
    assert b.Unread()[..1] == EncodeBool(x);
    assert b.Unread()[1..] == rest;
  }

  lemma ReadLongLongWritten(b: Buffer, i: Int64, rest: seq<byte>)
    requires b.Valid() && b.Unread() == EncodeInt64(i) + rest
    ensures ReadLongLong(b).result == Ok(i) && ReadLongLong(b).state.Unread() == rest
  {
    assert b.Unread()[..8] == EncodeInt64(i);
    assert b.Unread()[8..] == rest;
    Int64RoundTrip(i);
  }

  /** A string written by `<<` is read back by `>>` unchanged, embedded NULs
      included, and the read stops exactly after it. */
  lemma ReadStringWritten(b: Buffer, s: seq<byte>, rest: seq<byte>)
    requires b.Valid() && |s| < TWO_64 && b.Unread() == EncodeString(s) + rest
    ensures ReadString(b).result == Ok(s) && ReadString(b).state.Unread() == rest
  {
    var u := b.Unread();
    assert u[..8] == EncodeString(s)[..8];
    assert u[8..8 + |s|] == s;
    assert u[8 + |s|..] == rest;
  }
}
