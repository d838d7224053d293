/** The snapshot mechanism of src/design_patterns/memento.cpp. A
    `Snapshot` wraps a `DataBuffer`: `save_*` appends with the buffer's
    `<<` and `load_*` reads with its `>>`, so values come back in the order
    they went in. A saveable object's `_saveToSnapshot` writes a fixed
    sequence of typed values; here it is that sequence (`Value`s) and
    `_loadFromSnapshot` is the matching sequence of `Kind`s to read. */
module Memento {
  import opened Wrappers
  import opened Bytes
  import DB = DataBuffer

  datatype Snapshot = Snapshot(buffer: DB.Buffer) {
    predicate Valid() {
      buffer.Valid()
    }

    /** The saved bytes not yet loaded. */
    function Unread(): seq<byte>
      requires Valid()
    {
      buffer.Unread()
    }
  }

  /** A load: its value or `DB.OutOfBounds` (the buffer's
      `std::runtime_error`), and the snapshot after it. */
  type Loaded<T> = Step<T, DB.Error, Snapshot>

  /** The default constructor: an empty buffer. */
  function New(): (r: Snapshot)
    ensures r.Valid() && r.Unread() == [] && Empty(r)
  {
    Snapshot(DB.New())
  }

  /** Copy construction and assignment: an independent snapshot with the
      same buffer; self-assignment leaves the target as it was. */
  function Assign(target: Snapshot, source: Snapshot): (r: Snapshot)
    ensures r.buffer == DB.Assign(target.buffer, source.buffer)
    ensures target == source ==> r == target
  {
    Snapshot(DB.Assign(target.buffer, source.buffer))
  }

  function SaveString(s: Snapshot, str: seq<byte>): (r: Snapshot)
    requires s.Valid() && |str| < TWO_64
    ensures r.Valid() && r.Unread() == s.Unread() + DB.EncodeString(str)
    ensures r.buffer.readPos == s.buffer.readPos
  {
    Snapshot(DB.WriteString(s.buffer, str))
  }

  function SaveInt(s: Snapshot, i: Int32): (r: Snapshot)
    requires s.Valid()
    ensures r.Valid() && r.Unread() == s.Unread() + EncodeInt32(i)
    ensures r.buffer.readPos == s.buffer.readPos
  {
    Snapshot(DB.WriteInt(s.buffer, i))
  }

  function SaveBool(s: Snapshot, x: bool): (r: Snapshot)
    requires s.Valid()
    ensures r.Valid() && r.Unread() == s.Unread() + EncodeBool(x)
    ensures r.buffer.readPos == s.buffer.readPos
  {
    Snapshot(DB.WriteBool(s.buffer, x))
  }

  /** `load_string`: throws, unmoved, when the length cannot be read; throws
      with the length consumed when fewer bytes than it announces follow;
      otherwise yields and consumes exactly the announced bytes. */
  function LoadString(s: Snapshot): (r: Loaded<seq<byte>>)
    requires s.Valid()
    ensures r.state.Valid()
    ensures |s.Unread()| < 8 ==> r.result.Err? && r.state == s
    ensures |s.Unread()| >= 8 && 8 + DecodeLE(s.Unread()[..8]) > |s.Unread()| ==>
              r.result.Err? && r.state.buffer.readPos == s.buffer.readPos + 8
    ensures r.result.Ok? <==> |s.Unread()| >= 8 && 8 + DecodeLE(s.Unread()[..8]) <= |s.Unread()|
    ensures r.result.Ok? ==>
              var len := DecodeLE(s.Unread()[..8]);
              r.result.value == s.Unread()[8..8 + len] && r.state.Unread() == s.Unread()[8 + len..]
  {
    var t := DB.ReadString(s.buffer);
    Step(t.result, Snapshot(t.state))
  }

  /** The string `load_string` fills in, whether or not it throws: see
      `DB.ReadStringInto`. */
  function LoadStringInto(s: Snapshot, target: seq<byte>): (r: seq<byte>)
    requires s.Valid()
    ensures LoadString(s).result.Ok? ==> r == LoadString(s).result.value
    ensures |s.Unread()| < 8 ==> r == target
    ensures |s.Unread()| >= 8 && LoadString(s).result.Err? ==>
              r == DB.Resized(target, DecodeLE(s.Unread()[..8]))
  {
    DB.ReadStringInto(s.buffer, target)
  }

  /** `load_int`: throws when fewer than 4 bytes are left, changing nothing. */
  function LoadInt(s: Snapshot): (r: Loaded<Int32>)
    requires s.Valid()
    ensures r.state.Valid()
    ensures r.result.Err? <==> |s.Unread()| < 4
    ensures r.result.Err? ==> r.state == s
    ensures r.result.Ok? ==>
              r.result.value == DecodeInt32(s.Unread()[..4]) && r.state.Unread() == s.Unread()[4..]
  {
    var t := DB.ReadInt(s.buffer);
    Step(t.result, Snapshot(t.state))
  }

  function LoadBool(s: Snapshot): (r: Loaded<bool>)
    requires s.Valid()
    ensures r.state.Valid()
    ensures r.result.Err? <==> |s.Unread()| < 1
    ensures r.result.Err? ==> r.state == s
    ensures r.result.Ok? ==>
              r.result.value == DecodeBool(s.Unread()[..1]) && r.state.Unread() == s.Unread()[1..]
  {
    var t := DB.ReadBool(s.buffer);
    Step(t.result, Snapshot(t.state))
  }

  /** `empty`: nothing was saved. */
  predicate Empty(s: Snapshot) {
    DB.Empty(s.buffer)
  }

  /** `clear`: back to a new snapshot. */
  function Clear(s: Snapshot): (r: Snapshot)
    ensures r == New() && Empty(r)
  {
    Snapshot(DB.Clear(s.buffer))
  }

  lemma EmptyIffNothingSaved(s: Snapshot)
    requires s.Valid()
    ensures Empty(s) <==> DB.Str(s.buffer) == []
  {
    DB.EmptyIffNoContent(s.buffer);
  }

  // ---- typed records: what a saveable object writes and reads ----

  datatype Value = IntValue(i: Int32) | BoolValue(b: bool) | StringValue(str: seq<byte>)

  datatype Kind = IntKind | BoolKind | StringKind

  predicate Saveable(v: Value) {
    v.StringValue? ==> |v.str| < TWO_64
  }

  function KindOf(v: Value): Kind {
    match v
    case IntValue(_) => IntKind
    case BoolValue(_) => BoolKind
    case StringValue(_) => StringKind
  }

  function Kinds(vs: seq<Value>): (r: seq<Kind>)
    ensures |r| == |vs| && forall i :: 0 <= i < |vs| ==> r[i] == KindOf(vs[i])
  {
    seq(|vs|, i requires 0 <= i < |vs| => KindOf(vs[i]))
  }

  function EncodeValue(v: Value): seq<byte>
    requires Saveable(v)
  {
    match v
    case IntValue(i) => EncodeInt32(i)
    case BoolValue(b) => EncodeBool(b)
    case StringValue(str) => DB.EncodeString(str)
  }

  function EncodeValues(vs: seq<Value>): seq<byte>
    requires forall i :: 0 <= i < |vs| ==> Saveable(vs[i])
  {
    if |vs| == 0 then [] else EncodeValue(vs[0]) + EncodeValues(vs[1..])
  }

  function SaveValue(s: Snapshot, v: Value): (r: Snapshot)
    requires s.Valid() && Saveable(v)
    ensures r.Valid() && r.Unread() == s.Unread() + EncodeValue(v)
    ensures r.buffer.readPos == s.buffer.readPos
  {
    match v
    case IntValue(i) => SaveInt(s, i)
    case BoolValue(b) => SaveBool(s, b)
    case StringValue(str) => SaveString(s, str)
  }

  /** The saves an object's `_saveToSnapshot` makes, in order. */
  function SaveValues(s: Snapshot, vs: seq<Value>): (r: Snapshot)
    requires s.Valid() && forall i :: 0 <= i < |vs| ==> Saveable(vs[i])
    ensures r.Valid() && r.Unread() == s.Unread() + EncodeValues(vs)
    ensures r.buffer.readPos == s.buffer.readPos
    decreases |vs|
  {
    if |vs| == 0 then s
    else
      var r := SaveValues(SaveValue(s, vs[0]), vs[1..]);
      Assoc(s.Unread(), EncodeValue(vs[0]), EncodeValues(vs[1..]));
      r
  }

  function LoadValue(s: Snapshot, k: Kind): (r: Loaded<Value>)
    requires s.Valid()
    ensures r.state.Valid()
    ensures r.result.Ok? ==> KindOf(r.result.value) == k
  {
    match k
    case IntKind =>
      var t := LoadInt(s);
      Step(if t.result.Ok? then Ok(IntValue(t.result.value)) else Err(t.result.error), t.state)
    case BoolKind =>
      var t := LoadBool(s);
      Step(if t.result.Ok? then Ok(BoolValue(t.result.value)) else Err(t.result.error), t.state)
    case StringKind =>
      var t := LoadString(s);
      Step(if t.result.Ok? then Ok(StringValue(t.result.value)) else Err(t.result.error), t.state)
  }

  /** The loads an object's `_loadFromSnapshot` makes, in order, stopping
      at the first that throws. */
  function LoadValues(s: Snapshot, ks: seq<Kind>): (r: Loaded<seq<Value>>)
    requires s.Valid()
    ensures r.state.Valid()
    ensures r.result.Ok? ==> |r.result.value| == |ks|
    decreases |ks|
  {
    if |ks| == 0 then Step(Ok([]), s)
    else
      var first := LoadValue(s, ks[0]);
      match first.result
      case Err(e) => Step(Err(e), first.state)
      case Ok(v) =>
        var rest := LoadValues(first.state, ks[1..]);
        match rest.result
        case Err(e) => Step(Err(e), rest.state)
        case Ok(vs) => Step(Ok([v] + vs), rest.state)
  }

  lemma LoadValueSaved(s: Snapshot, v: Value, rest: seq<byte>)
    requires s.Valid() && Saveable(v) && s.Unread() == EncodeValue(v) + rest
    ensures LoadValue(s, KindOf(v)).result == Ok(v)
    ensures LoadValue(s, KindOf(v)).state.Unread() == rest
  {
    match v
    case IntValue(i) => DB.ReadIntWritten(s.buffer, i, rest);
    case BoolValue(b) => DB.ReadBoolWritten(s.buffer, b, rest);
    case StringValue(str) => DB.ReadStringWritten(s.buffer, str, rest);
  }

  /** Values saved in a row load back, in the same order, by reading their
      kinds in that order; the loads stop exactly after them. */
  lemma {:induction false} LoadValuesSaved(s: Snapshot, vs: seq<Value>, rest: seq<byte>)
    requires s.Valid() && forall i :: 0 <= i < |vs| ==> Saveable(vs[i])
    requires s.Unread() == EncodeValues(vs) + rest
    ensures LoadValues(s, Kinds(vs)).result == Ok(vs)
    ensures LoadValues(s, Kinds(vs)).state.Unread() == rest
    decreases |vs|
  {
    if |vs| > 0 {
      Assoc(EncodeValue(vs[0]), EncodeValues(vs[1..]), rest);
      LoadValueSaved(s, vs[0], EncodeValues(vs[1..]) + rest);
      var s1 := LoadValue(s, KindOf(vs[0])).state;
      assert Kinds(vs)[1..] == Kinds(vs[1..]);
      LoadValuesSaved(s1, vs[1..], rest);
      assert [vs[0]] + vs[1..] == vs;
    }
  }

  // ---- Memento ----

  /** `Memento::save`: the object's saves, into a new snapshot. */
  function Save(vs: seq<Value>): (r: Snapshot)
    requires forall i :: 0 <= i < |vs| ==> Saveable(vs[i])
    ensures r.Valid() && r.buffer.readPos == 0 && r.Unread() == EncodeValues(vs)
    ensures Empty(r) <==> EncodeValues(vs) == []
  {
    SaveValues(New(), vs)
  }

  /** `Memento::load`: the object's loads, from a copy of the snapshot, so
      the snapshot handed in is left as it was. */
  function Load(s: Snapshot, ks: seq<Kind>): (r: Result<seq<Value>, DB.Error>)
    requires s.Valid()
    ensures r.Ok? ==> |r.value| == |ks|
  {
    LoadValues(Assign(s, s), ks).result
  }

  /** What was saved is what is loaded, and since the loads read a copy the
      same snapshot loads the same values again. */
  lemma SaveThenLoad(vs: seq<Value>)
    requires forall i :: 0 <= i < |vs| ==> Saveable(vs[i])
    ensures Load(Save(vs), Kinds(vs)) == Ok(vs)
  {
    LoadValuesSaved(Save(vs), vs, []);
    assert EncodeValues(vs) + [] == EncodeValues(vs);
  }
}
