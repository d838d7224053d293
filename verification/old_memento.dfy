/** `ft::Memento` of old/src/memento.cpp: a snapshot is a copy of a
    `ft::DataBuffer`'s bytes. The subclass serialises into a buffer of its
    own and wraps it in a snapshot; loading unwraps it into a fresh buffer
    read from the start. */
module OldMemento {
  import opened Wrappers
  import opened Bytes
  import B = OldDataBuffer

  datatype Snapshot = Snapshot(data: seq<byte>)

  /** The default constructor: no bytes. */
  function New(): (r: Snapshot)
    ensures r.data == []
  {
    Snapshot([])
  }

  /** `Snapshot(buf)`: a copy of the buffer's bytes, wherever it was read to. */
  function FromBuffer(buf: B.Buffer): (r: Snapshot)
    ensures r.data == B.Raw(buf)
  {
    Snapshot(B.Raw(buf))
  }

  /** `toDataBuffer`: a new buffer holding the bytes, read position 0. */
  function ToDataBuffer(s: Snapshot): (r: B.Buffer)
    ensures r.Valid() && r.readPos == 0 && B.Raw(r) == s.data && r.Unread() == s.data
  {
    B.FromRaw(B.New(), s.data)
  }

  /** Wrapping and unwrapping keeps the bytes and rewinds the reader. */
  lemma UnwrapWrapped(buf: B.Buffer)
    ensures ToDataBuffer(FromBuffer(buf)) == B.ResetReadPos(buf)
  {
  }

  /** `Memento::save`: the subclass's `_saveToSnapshot`, given a new
      snapshot to fill. What a save promises depends on the subclass; see
      `CounterRoundTrip`. */
  function Save<T>(obj: T, saveTo: (T, Snapshot) -> Snapshot): Snapshot
  {
    saveTo(obj, New())
  }

  // ---- the counter of old/tests/memento_test.cpp ----

  /** Its `_saveToSnapshot`: the value through a buffer of its own; the
      snapshot it was handed is replaced. */
  function SaveCounter(v: Int32, s: Snapshot): (r: Snapshot)
    ensures r.data == EncodeInt32(v)
  {
    FromBuffer(B.WriteInt32(B.New(), v))
  }

  /** Its `_loadFromSnapshot`: reads the value back from a fresh buffer. */
  function LoadCounter(s: Snapshot): (r: Result<Int32, B.Error>)
    ensures r.Err? <==> |s.data| < 4
    ensures r.Ok? ==> r.value == DecodeInt32(s.data[..4])
  {
    B.ReadInt32(ToDataBuffer(s)).result
  }

  /** `Memento::load` hands the snapshot to the subclass: a counter loads
      back the value it saved. */
  lemma CounterRoundTrip(v: Int32)
    ensures LoadCounter(Save(v, SaveCounter)) == Ok(v)
  {
    assert Save(v, SaveCounter).data == EncodeInt32(v) + [];
    B.ReadInt32Written(ToDataBuffer(Save(v, SaveCounter)), v, []);
  }

  /** The test: 5, incremented to 6, saved, incremented twice to 8, loaded:
      6 again. */
  lemma CounterTest()
    ensures var saved: Int32 := 5 + 1;
            LoadCounter(Save(saved, SaveCounter)) == Ok(6)
  {
    CounterRoundTrip(6);
  }
}
