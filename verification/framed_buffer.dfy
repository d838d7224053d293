/** The length-framed byte buffer of include/data_buffer.hpp and
    src/data_buffer.cpp. `<<` formats a value as text and appends a record:
    the text's length as a 4-byte `uint32_t`, then the text. `>>` reads one
    record back from the read position and hands its text to a parser. The
    text formatting and parsing done by the standard streams are not part of
    this model: records are written from and read into their text bytes. */
module FramedBuffer {
  import opened Wrappers
  import opened Bytes

  datatype Error =
    | InsufficientLength  // "DataBuffer::operator>>: insufficient data for length"
    | InsufficientObject  // "DataBuffer::operator>>: insufficient data for object"

  datatype Buffer = Buffer(data: seq<byte>, readPos: nat) {
    predicate Valid() {
      readPos <= |data|
    }

    /** The bytes after the read position. */
    function Unread(): seq<byte>
      requires Valid()
    {
      data[readPos..]
    }
  }

  type Read<T> = Step<T, Error, Buffer>

  /** The constructor: no data, reading from 0. */
  function New(): (r: Buffer)
    ensures r.Valid() && Size(r) == 0 && r.Unread() == []
  {
    Buffer([], 0)
  }

  /** `clear`: drops every byte and rewinds. */
  function Clear(b: Buffer): (r: Buffer)
    ensures r == New()
  {
    Buffer([], 0)
  }

  /** `resetReadPos`: rewinds without dropping anything. */
  function ResetReadPos(b: Buffer): (r: Buffer)
    ensures r.Valid() && r.data == b.data && r.Unread() == b.data
  {
    b.(readPos := 0)
  }

  /** `size`: every stored byte, read or not. */
  function Size(b: Buffer): nat {
    |b.data|
  }

  /** `raw`: the stored bytes, those already read included; past the read
      position they are exactly the unread bytes. */
  function Raw(b: Buffer): (r: seq<byte>)
    ensures |r| == Size(b)
    ensures b.Valid() ==> r[b.readPos..] == b.Unread()
  {
    b.data
  }

  /** The record `<<` appends for a text: the length cast to `uint32_t`,
      which keeps only its low 32 bits, then every byte of the text. */
  function Frame(text: seq<byte>): (r: seq<byte>)
    ensures |r| == 4 + |text| && r[4..] == text
    ensures DecodeLE(r[..4]) == |text| % TWO_32
  {
    EncodeU32(|text| % TWO_32) + text
  }

  /** The recorded length is the text's length exactly when the text is
      shorter than 2^32 bytes; a longer text gets a prefix that disagrees
      with the bytes that follow it. */
  lemma FrameLengthExact(text: seq<byte>)
    ensures DecodeLE(Frame(text)[..4]) == |text| <==> |text| < TWO_32
  {
    if |text| >= TWO_32 {
      assert |text| % TWO_32 < TWO_32 <= |text|;
    }
  }

  /** `<<`: appends one record; the read position is untouched. */
  function Write(b: Buffer, text: seq<byte>): (r: Buffer)
    requires b.Valid()
    ensures r.Valid() && r.data == b.data + Frame(text) && r.readPos == b.readPos
    ensures r.Unread() == b.Unread() + Frame(text)
  {
    Buffer(b.data + Frame(text), b.readPos)
  }

  /** `>>`: fewer than 4 unread bytes throws with the position unmoved; a
      length larger than what follows throws with the position already past
      the length; otherwise the text is taken and the position moves past it.
      The stored bytes never change. */
  function ReadText(b: Buffer): (r: Read<seq<byte>>)
    requires b.Valid()
    ensures r.state.Valid() && r.state.data == b.data
    ensures r.result == Err(InsufficientLength) <==> |b.Unread()| < 4
    ensures r.result == Err(InsufficientLength) ==> r.state == b
    ensures r.result == Err(InsufficientObject) <==>
              |b.Unread()| >= 4 && 4 + DecodeLE(b.Unread()[..4]) > |b.Unread()|
    ensures r.result == Err(InsufficientObject) ==> r.state.readPos == b.readPos + 4
    ensures r.result.Ok? ==>
              var len := DecodeLE(b.Unread()[..4]);
              && r.result.value == b.Unread()[4..4 + len]
              && r.state.Unread() == b.Unread()[4 + len..]
  {
    if b.readPos + 4 > |b.data| then Step(Err(InsufficientLength), b)
    else
      var len := DecodeLE(b.data[b.readPos..b.readPos + 4]);
      var pos := b.readPos + 4;
      assert b.Unread()[..4] == b.data[b.readPos..b.readPos + 4];
      if pos + len > |b.data| then Step(Err(InsufficientObject), b.(readPos := pos))
      else
        assert b.Unread()[4..4 + len] == b.data[pos..pos + len];
        assert b.Unread()[4 + len..] == b.data[pos + len..];
        Step(Ok(b.data[pos..pos + len]), b.(readPos := pos + len))
  }

  /** A record whose text is shorter than 2^32 bytes reads back as that
      text, and the read stops exactly at its end. */
  lemma ReadWritten(b: Buffer, text: seq<byte>, rest: seq<byte>)
    requires b.Valid() && |text| < TWO_32 && b.Unread() == Frame(text) + rest
    ensures ReadText(b).result == Ok(text)
    ensures ReadText(b).state.Unread() == rest
  {
    var u := b.Unread();
    assert u[..4] == Frame(text)[..4];
    assert u[4..4 + |text|] == text;
    assert u[4 + |text|..] == rest;
  }

  /** The records for a list of texts, one after another. */
  function Frames(texts: seq<seq<byte>>): (r: seq<byte>)
    ensures |texts| == 0 ==> r == []
  {
    if |texts| == 0 then [] else Frame(texts[0]) + Frames(texts[1..])
  }

  /** Writing each text in turn. */
  function WriteAll(b: Buffer, texts: seq<seq<byte>>): (r: Buffer)
    requires b.Valid()
    ensures r.Valid() && r.data == b.data + Frames(texts) && r.readPos == b.readPos
    decreases |texts|
  {
    if |texts| == 0 then b
    else
      var r := WriteAll(Write(b, texts[0]), texts[1..]);
      Assoc(b.data, Frame(texts[0]), Frames(texts[1..]));
      r
  }

  /** `n` reads in a row, stopping at the first failure. */
  function ReadAll(b: Buffer, n: nat): (r: Read<seq<seq<byte>>>)
    requires b.Valid()
    ensures r.state.Valid() && r.state.data == b.data
    ensures r.result.Ok? ==> |r.result.value| == n
    decreases n
  {
    if n == 0 then Step(Ok([]), b)
    else
      var first := ReadText(b);
      match first.result
      case Err(e) => Step(Err(e), first.state)
      case Ok(t) =>
        var more := ReadAll(first.state, n - 1);
        match more.result
        case Err(e) => Step(Err(e), more.state)
        case Ok(ts) => Step(Ok([t] + ts), more.state)
  }

  /** Every text is shorter than 2^32 bytes, so its record's length prefix
      is exact. */
  predicate Framable(texts: seq<seq<byte>>) {
    forall i :: 0 <= i < |texts| ==> |texts[i]| < TWO_32
  }

  /** The unread bytes of `b` are the records of `texts`, then `rest`. */
  predicate HoldsRecords(b: Buffer, texts: seq<seq<byte>>, rest: seq<byte>) {
    b.Valid() && b.Unread() == Frames(texts) + rest && Framable(texts)
  }

  /** Reading `|texts|` records from `b` gives `texts` and stops at `rest`. */
  predicate ReadsBack(b: Buffer, texts: seq<seq<byte>>, rest: seq<byte>)
    requires b.Valid()
  {
    var r := ReadAll(b, |texts|);
    r.result == Ok(texts) && r.state.Unread() == rest
  }

  /** Records read in the order they were written give back the texts, each
      shorter than 2^32 bytes, in that order. */
  lemma {:induction false} ReadAllWritten(b: Buffer, texts: seq<seq<byte>>, rest: seq<byte>)
    requires b.Valid() && b.Unread() == Frames(texts) + rest
    requires Framable(texts)
    ensures ReadAll(b, |texts|).result == Ok(texts)
    ensures ReadAll(b, |texts|).state.Unread() == rest
  {
    assert ReadsBack(b, texts, rest) by {
      ReadsBackWritten(b, texts, rest);
    }
  }

  /** The induction behind `ReadAllWritten`, over the bundled hypotheses. */
  lemma {:induction false} ReadsBackWritten(b: Buffer, texts: seq<seq<byte>>, rest: seq<byte>)
    requires HoldsRecords(b, texts, rest)
    ensures b.Valid() && ReadsBack(b, texts, rest)
    decreases |texts|
  {
    if |texts| > 0 {
      ReadFirstWritten(b, texts, rest);
      ReadsBackWritten(ReadText(b).state, texts[1..], rest);
      ReadAllStep(b, texts, rest);
    } else {
      assert b.Unread() == rest;
    }
  }

  /** One successful read followed by successful reads of the remaining texts
      is a successful read of all of them. */
  lemma ReadAllStep(b: Buffer, texts: seq<seq<byte>>, rest: seq<byte>)
    requires b.Valid() && |texts| > 0 && ReadText(b).result == Ok(texts[0])
    requires ReadsBack(ReadText(b).state, texts[1..], rest)
    ensures ReadsBack(b, texts, rest)
  {
    assert [texts[0]] + texts[1..] == texts;
  }

  /** The first of several records reads back as the first text and leaves
      the records of the others unread. */
  lemma ReadFirstWritten(b: Buffer, texts: seq<seq<byte>>, rest: seq<byte>)
    requires |texts| > 0 && HoldsRecords(b, texts, rest)
    ensures ReadText(b).result == Ok(texts[0])
    ensures HoldsRecords(ReadText(b).state, texts[1..], rest)
  {
    var t, ts := texts[0], texts[1..];
    assert Frames(texts) == Frame(t) + Frames(ts);
    Assoc(Frame(t), Frames(ts), rest);
    ReadWritten(b, t, Frames(ts) + rest);
    forall i | 0 <= i < |ts| ensures |ts[i]| < TWO_32 {
      assert ts[i] == texts[i + 1];
    }
  }

  /** `raw` sees every record written and nothing else: the bytes of a
      fresh buffer after some writes are their records, and neither a read
      nor a rewind changes them. */
  lemma RawHoldsRecords(b: Buffer, texts: seq<seq<byte>>, n: nat)
    requires b.Valid()
    ensures Raw(WriteAll(New(), texts)) == Frames(texts)
    ensures Raw(WriteAll(b, texts)) == Raw(b) + Frames(texts)
    ensures Raw(ReadText(b).state) == Raw(b) && Raw(ReadAll(b, n).state) == Raw(b)
    ensures Raw(ResetReadPos(b)) == Raw(b) && Raw(Clear(b)) == []
  {
    assert [] + Frames(texts) == Frames(texts);
  }

  /** Writing texts into a fresh buffer and reading them back from the start
      gives the texts in the order they were written, with nothing left. */
  lemma FreshRoundTrip(texts: seq<seq<byte>>)
    requires Framable(texts)
    ensures ReadAll(ResetReadPos(WriteAll(New(), texts)), |texts|).result == Ok(texts)
  {
    var b := ResetReadPos(WriteAll(New(), texts));
    assert b.Unread() == Frames(texts) + [];
    ReadAllWritten(b, texts, []);
  }
}
