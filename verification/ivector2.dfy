/** `IVector2<int>` of includes/mathematics/ivector2.hpp: two `int`
    components, componentwise arithmetic (wrapping on overflow, truncating
    division), equality, the integer dot product and the quarter-turn
    `cross`, and (de)serialisation as x then y through the DataBuffer. */
module IVector2 {
  import opened Wrappers
  import opened Bytes
  import opened Int32Arith
  import DB = DataBuffer

  datatype Vec2 = Vec2(x: Int32, y: Int32)

  /** The default constructor: `T()` in both components. */
  const Zero: Vec2 := Vec2(0, 0)

  function Add(a: Vec2, b: Vec2): (r: Vec2)
    ensures Cong(r.x, a.x + b.x) && Cong(r.y, a.y + b.y)
  {
    Vec2(Wrap(a.x + b.x), Wrap(a.y + b.y))
  }

  function Sub(a: Vec2, b: Vec2): (r: Vec2)
    ensures Cong(r.x, a.x - b.x) && Cong(r.y, a.y - b.y)
  {
    Vec2(Wrap(a.x - b.x), Wrap(a.y - b.y))
  }

  function Mul(a: Vec2, b: Vec2): (r: Vec2)
    ensures Cong(r.x, a.x * b.x) && Cong(r.y, a.y * b.y)
  {
    Vec2(Wrap(a.x * b.x), Wrap(a.y * b.y))
  }

  /** Componentwise `/`; a zero divisor component is undefined in C++. The
      one quotient outside the `int` range, INT_MIN / -1, wraps. */
  function Div(a: Vec2, b: Vec2): (r: Vec2)
    requires b.x != 0 && b.y != 0
    ensures Cong(r.x, Quot(a.x, b.x)) && Cong(r.y, Quot(a.y, b.y))
  {
    Vec2(Wrap(Quot(a.x, b.x)), Wrap(Quot(a.y, b.y)))
  }

  /** `v * scalar`. */
  function Scale(v: Vec2, s: Int32): (r: Vec2)
    ensures Cong(r.x, v.x * s) && Cong(r.y, v.y * s)
  {
    Vec2(Wrap(v.x * s), Wrap(v.y * s))
  }

  /** The free `scalar * v`, defined as `v * scalar`. */
  function ScaleLeft(s: Int32, v: Vec2): (r: Vec2)
    ensures Cong(r.x, s * v.x) && Cong(r.y, s * v.y)
  {
    assert s * v.x == v.x * s && s * v.y == v.y * s;
    Scale(v, s)
  }

  /** `v / scalar`. */
  function DivScalar(v: Vec2, s: Int32): (r: Vec2)
    requires s != 0
    ensures Cong(r.x, Quot(v.x, s)) && Cong(r.y, Quot(v.y, s))
  {
    Vec2(Wrap(Quot(v.x, s)), Wrap(Quot(v.y, s)))
  }

  /** `==`: both components equal. */
  function Eq(a: Vec2, b: Vec2): (r: bool)
    ensures r <==> a == b
  {
    a.x == b.x && a.y == b.y
  }

  /** `!=`: the negation of `==`. */
  function Ne(a: Vec2, b: Vec2): (r: bool)
    ensures r <==> a != b
  {
    !Eq(a, b)
  }

  /** `dot`, computed in `int` (each product, then the sum, wrapping) before
      the conversion to `float`. */
  function Dot(a: Vec2, b: Vec2): (r: Int32)
    ensures r == Wrap(a.x * b.x + a.y * b.y)
  {
    var p, q := Wrap(a.x * b.x), Wrap(a.y * b.y);
    CongWrap(a.x * b.x);
    CongWrap(a.y * b.y);
    CongAdd(p, a.x * b.x, q, a.y * b.y);
    WrapCongruent(p + q, a.x * b.x + a.y * b.y);
    Wrap(p + q)
  }

  /** `cross`: (y, -x), the vector turned a quarter turn clockwise. */
  function Cross(v: Vec2): (r: Vec2)
    ensures r.x == v.y && Cong(r.y, -(v.x as int))
  {
    Vec2(v.y, Wrap(-(v.x as int)))
  }

  // ---- the algebra ----

  /** Subtracting what was added gives the vector back, overflow or not. */
  lemma AddThenSub(a: Vec2, b: Vec2)
    ensures Sub(Add(a, b), b) == a
  {
    Int32Arith.AddThenSub(a.x, b.x);
    Int32Arith.AddThenSub(a.y, b.y);
  }

  lemma AddCommutes(a: Vec2, b: Vec2)
    ensures Add(a, b) == Add(b, a)
  {
    assert a.x + b.x == b.x + a.x && a.y + b.y == b.y + a.y;
  }

  /** Scaling by `s` on either side is multiplying by the vector (s, s), and
      dividing by `s` is dividing by it. */
  lemma ScalarIsBroadcast(v: Vec2, s: Int32)
    ensures ScaleLeft(s, v) == Scale(v, s) == Mul(v, Vec2(s, s))
    ensures s != 0 ==> DivScalar(v, s) == Div(v, Vec2(s, s))
  {
  }

  /** Two quarter turns negate, four give the vector back. */
  lemma CrossFourTimes(v: Vec2)
    ensures Cross(Cross(v)) == Vec2(Wrap(-(v.x as int)), Wrap(-(v.y as int)))
    ensures Cross(Cross(Cross(Cross(v)))) == v
  {
    NegTwice(v.x);
    NegTwice(v.y);
  }

  /** The turned vector is perpendicular to the original. */
  lemma CrossPerpendicular(v: Vec2)
    ensures Dot(v, Cross(v)) == 0
  {
    CancelTurned(v.x, v.y);
  }

  // ---- DataBuffer << and >> ----

  function Encode(v: Vec2): (r: seq<byte>)
    ensures |r| == 8
  {
    EncodeInt32(v.x) + EncodeInt32(v.y)
  }

  /** `serialize` / `<<`: x, then y. */
  function Serialize(b: DB.Buffer, v: Vec2): (r: DB.Buffer)
    requires b.Valid()
    ensures r.Valid() && r.Unread() == b.Unread() + Encode(v) && r.readPos == b.readPos
  {
    var b1 := DB.WriteInt(b, v.x);
    var b2 := DB.WriteInt(b1, v.y);
    Assoc(b.Unread(), EncodeInt32(v.x), EncodeInt32(v.y));
    b2
  }

  /** A deserialisation: whether it threw, the buffer and the vector after it. */
  datatype Deserialized = Deserialized(result: Result<(), DB.Error>, buffer: DB.Buffer, vec: Vec2)

  /** `deserialize` / `>>`: x, then y. x is stored as soon as it is read,
      so a buffer with one int left throws with x already replaced. */
  function Deserialize(b: DB.Buffer, v: Vec2): (r: Deserialized)
    requires b.Valid()
    ensures r.buffer.Valid()
    ensures |b.Unread()| < 4 ==> r == Deserialized(Err(DB.OutOfBounds), b, v)
    ensures 4 <= |b.Unread()| < 8 ==>
              && r.result.Err?
              && r.vec == Vec2(DecodeInt32(b.Unread()[..4]), v.y)
              && r.buffer.Unread() == b.Unread()[4..]
    ensures r.result.Ok? <==> |b.Unread()| >= 8
    ensures r.result.Ok? ==>
              && r.vec == Vec2(DecodeInt32(b.Unread()[..4]), DecodeInt32(b.Unread()[4..8]))
              && r.buffer.Unread() == b.Unread()[8..]
  {
    var rx := DB.ReadInt(b);
    match rx.result
    case Err(e) => Deserialized(Err(e), rx.state, v)
    case Ok(x) =>
      var ry := DB.ReadInt(rx.state);
      assert |b.Unread()| >= 8 ==> rx.state.Unread()[..4] == b.Unread()[4..8];
      match ry.result
      case Err(e) => Deserialized(Err(e), ry.state, v.(x := x))
      case Ok(y) => Deserialized(Ok(()), ry.state, Vec2(x, y))
  }

  /** A vector written by `<<` is read back by `>>`, and the read stops
      right after it. */
  lemma DeserializeSerialized(b: DB.Buffer, v: Vec2, w: Vec2, rest: seq<byte>)
    requires b.Valid() && b.Unread() == Encode(v) + rest
    ensures Deserialize(b, w).result.Ok? && Deserialize(b, w).vec == v
    ensures Deserialize(b, w).buffer.Unread() == rest
  {
    Assoc(EncodeInt32(v.x), EncodeInt32(v.y), rest);
    DB.ReadIntWritten(b, v.x, EncodeInt32(v.y) + rest);
    DB.ReadIntWritten(DB.ReadInt(b).state, v.y, rest);
  }
}
