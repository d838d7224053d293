/** `IVector3<int>` of includes/mathematics/ivector3.hpp: three `int`
    components, componentwise arithmetic (wrapping on overflow, truncating
    division), equality, the integer dot and cross products, conversion to
    and from `IVector2`, and (de)serialisation as x, y, z through the
    DataBuffer. */
module IVector3 {
  import opened Wrappers
  import opened Bytes
  import opened Int32Arith
  import DB = DataBuffer
  import V2 = IVector2

  datatype Vec3 = Vec3(x: Int32, y: Int32, z: Int32)

  /** The default constructor: `T()` in every component. */
  const Zero: Vec3 := Vec3(0, 0, 0)

  /** The constructor from an `IVector2` and a z, which defaults to `T()`. */
  function FromIVector2(v: V2.Vec2, z: Int32): (r: Vec3)
    ensures r.x == v.x && r.y == v.y && r.z == z
  {
    Vec3(v.x, v.y, z)
  }

  /** `toIVector2`: drops z. */
  function ToIVector2(v: Vec3): (r: V2.Vec2)
    ensures r.x == v.x && r.y == v.y
  {
    V2.Vec2(v.x, v.y)
  }

  function Add(a: Vec3, b: Vec3): (r: Vec3)
    ensures Cong(r.x, a.x + b.x) && Cong(r.y, a.y + b.y) && Cong(r.z, a.z + b.z)
  {
    Vec3(Wrap(a.x + b.x), Wrap(a.y + b.y), Wrap(a.z + b.z))
  }

  function Sub(a: Vec3, b: Vec3): (r: Vec3)
    ensures Cong(r.x, a.x - b.x) && Cong(r.y, a.y - b.y) && Cong(r.z, a.z - b.z)
  {
    Vec3(Wrap(a.x - b.x), Wrap(a.y - b.y), Wrap(a.z - b.z))
  }

  function Mul(a: Vec3, b: Vec3): (r: Vec3)
    ensures Cong(r.x, a.x * b.x) && Cong(r.y, a.y * b.y) && Cong(r.z, a.z * b.z)
  {
    Vec3(Wrap(a.x * b.x), Wrap(a.y * b.y), Wrap(a.z * b.z))
  }

  /** Componentwise `/`; a zero divisor component is undefined in C++. */
  function Div(a: Vec3, b: Vec3): (r: Vec3)
    requires b.x != 0 && b.y != 0 && b.z != 0
    ensures Cong(r.x, Quot(a.x, b.x)) && Cong(r.y, Quot(a.y, b.y)) && Cong(r.z, Quot(a.z, b.z))
  {
    Vec3(Wrap(Quot(a.x, b.x)), Wrap(Quot(a.y, b.y)), Wrap(Quot(a.z, b.z)))
  }

  function Scale(v: Vec3, s: Int32): (r: Vec3)
    ensures Cong(r.x, v.x * s) && Cong(r.y, v.y * s) && Cong(r.z, v.z * s)
  {
    Vec3(Wrap(v.x * s), Wrap(v.y * s), Wrap(v.z * s))
  }

  /** The free `scalar * v`, defined as `v * scalar`. */
  function ScaleLeft(s: Int32, v: Vec3): (r: Vec3)
    ensures Cong(r.x, s * v.x) && Cong(r.y, s * v.y) && Cong(r.z, s * v.z)
  {
    assert s * v.x == v.x * s && s * v.y == v.y * s && s * v.z == v.z * s;
    Scale(v, s)
  }

  function DivScalar(v: Vec3, s: Int32): (r: Vec3)
    requires s != 0
    ensures Cong(r.x, Quot(v.x, s)) && Cong(r.y, Quot(v.y, s)) && Cong(r.z, Quot(v.z, s))
  {
    Vec3(Wrap(Quot(v.x, s)), Wrap(Quot(v.y, s)), Wrap(Quot(v.z, s)))
  }

  /** `==`: all three components equal. */
  function Eq(a: Vec3, b: Vec3): (r: bool)
    ensures r <==> a == b
  {
    a.x == b.x && a.y == b.y && a.z == b.z
  }

  function Ne(a: Vec3, b: Vec3): (r: bool)
    ensures r <==> a != b
  {
    !Eq(a, b)
  }

  /** `dot`, computed in `int` before the conversion to `float`. */
  function Dot(a: Vec3, b: Vec3): (r: Int32)
    ensures r == Wrap(a.x * b.x + a.y * b.y + a.z * b.z)
  {
    var p, q, t := Wrap(a.x * b.x), Wrap(a.y * b.y), Wrap(a.z * b.z);
    var pq := Wrap(p + q);
    DotSteps(a.x * b.x, a.y * b.y, a.z * b.z);
    Wrap(pq + t)
  }

  /** Wrapping each product and partial sum agrees with wrapping once. */
  lemma DotSteps(u: int, v: int, w: int)
    ensures Wrap(Wrap(Wrap(u) + Wrap(v)) + Wrap(w)) == Wrap(u + v + w)
  {
    CongWrap(u);
    CongWrap(v);
    CongWrap(w);
    CongAdd(Wrap(u), u, Wrap(v), v);
    CongWrap(Wrap(u) + Wrap(v));
    CongTrans(Wrap(Wrap(u) + Wrap(v)), Wrap(u) + Wrap(v), u + v);
    CongAdd(Wrap(Wrap(u) + Wrap(v)), u + v, Wrap(w), w);
    WrapCongruent(Wrap(Wrap(u) + Wrap(v)) + Wrap(w), u + v + w);
  }

  /** `cross`: (y·z' − z·y', z·x' − x·z', x·y' − y·x'). */
  function Cross(a: Vec3, b: Vec3): (r: Vec3)
    ensures Cong(r.x, a.y * b.z - a.z * b.y)
    ensures Cong(r.y, a.z * b.x - a.x * b.z)
    ensures Cong(r.z, a.x * b.y - a.y * b.x)
  {
    Vec3(Wrap(a.y * b.z - a.z * b.y), Wrap(a.z * b.x - a.x * b.z), Wrap(a.x * b.y - a.y * b.x))
  }

  // ---- the algebra ----

  lemma AddThenSub(a: Vec3, b: Vec3)
    ensures Sub(Add(a, b), b) == a
  {
    Int32Arith.AddThenSub(a.x, b.x);
    Int32Arith.AddThenSub(a.y, b.y);
    Int32Arith.AddThenSub(a.z, b.z);
    assert Sub(Add(a, b), b) == Vec3(a.x, a.y, a.z);
  }

  lemma ScalarIsBroadcast(v: Vec3, s: Int32)
    ensures ScaleLeft(s, v) == Scale(v, s) == Mul(v, Vec3(s, s, s))
    ensures s != 0 ==> DivScalar(v, s) == Div(v, Vec3(s, s, s))
  {
  }

  /** The cross product is perpendicular to its first operand. */
  lemma CrossPerpendicular(a: Vec3, b: Vec3)
    ensures Dot(a, Cross(a, b)) == 0
  {
    var c := Cross(a, b);
    CancelCross(a.x, a.y, a.z, b.x, b.y, b.z, c.x, c.y, c.z);
  }

  /** A vector crossed with itself is zero. */
  lemma CrossSelf(a: Vec3)
    ensures Cross(a, a) == Zero
  {
    assert a.y * a.z - a.z * a.y == 0;
    assert a.z * a.x - a.x * a.z == 0;
    assert a.x * a.y - a.y * a.x == 0;
  }

  /** Going to an `IVector2` and back with the same z is the identity, and
      so is the other way round. */
  lemma ConversionsInverse(v: Vec3, w: V2.Vec2, z: Int32)
    ensures FromIVector2(ToIVector2(v), v.z) == v
    ensures ToIVector2(FromIVector2(w, z)) == w
  {
  }

  // ---- DataBuffer << and >> ----

  function Encode(v: Vec3): (r: seq<byte>)
    ensures |r| == 12
  {
    EncodeInt32(v.x) + EncodeInt32(v.y) + EncodeInt32(v.z)
  }

  /** `serialize` / `<<`: x, y, then z. */
  function Serialize(b: DB.Buffer, v: Vec3): (r: DB.Buffer)
    requires b.Valid()
    ensures r.Valid() && r.Unread() == b.Unread() + Encode(v) && r.readPos == b.readPos
  {
    var b1 := DB.WriteInt(b, v.x);
    var b2 := DB.WriteInt(b1, v.y);
    var b3 := DB.WriteInt(b2, v.z);
    Assoc(b.Unread(), EncodeInt32(v.x), EncodeInt32(v.y));
    Assoc(b.Unread(), EncodeInt32(v.x) + EncodeInt32(v.y), EncodeInt32(v.z));
    b3
  }

  datatype Deserialized = Deserialized(result: Result<(), DB.Error>, buffer: DB.Buffer, vec: Vec3)

  /** `deserialize` / `>>`: x, y, then z, each stored as soon as it is
      read, so a short buffer throws with the components before it
      replaced. */
  function Deserialize(b: DB.Buffer, v: Vec3): (r: Deserialized)
    requires b.Valid()
    ensures r.buffer.Valid()
    ensures |b.Unread()| < 4 ==> r == Deserialized(Err(DB.OutOfBounds), b, v)
    ensures r.result.Ok? <==> |b.Unread()| >= 12
    ensures r.result.Err? ==> r.vec.z == v.z
    ensures 4 <= |b.Unread()| < 8 ==>
              && r.vec == v.(x := DecodeInt32(b.Unread()[..4]))
              && r.buffer.Unread() == b.Unread()[4..]
    ensures 8 <= |b.Unread()| < 12 ==>
              && r.vec == v.(x := DecodeInt32(b.Unread()[..4]), y := DecodeInt32(b.Unread()[4..8]))
              && r.buffer.Unread() == b.Unread()[8..]
    ensures r.result.Ok? ==>
              && r.vec == Vec3(DecodeInt32(b.Unread()[..4]), DecodeInt32(b.Unread()[4..8]),
                               DecodeInt32(b.Unread()[8..12]))
              && r.buffer.Unread() == b.Unread()[12..]
  {
    var rx := DB.ReadInt(b);
    match rx.result
    case Err(e) => Deserialized(Err(e), rx.state, v)
    case Ok(x) =>
      var ry := DB.ReadInt(rx.state);
      match ry.result
      case Err(e) => Deserialized(Err(e), ry.state, v.(x := x))
      case Ok(y) =>
        var rz := DB.ReadInt(ry.state);
        var u := b.Unread();
        assert rx.state.Unread() == u[4..];
        assert rx.state.Unread()[..4] == u[4..8];
        assert ry.state.Unread() == u[8..];
        assert |u| >= 12 ==> ry.state.Unread()[..4] == u[8..12] && ry.state.Unread()[4..] == u[12..];
        match rz.result
        case Err(e) => Deserialized(Err(e), rz.state, v.(x := x, y := y))
        case Ok(z) => Deserialized(Ok(()), rz.state, Vec3(x, y, z))
  }

  lemma DeserializeSerialized(b: DB.Buffer, v: Vec3, w: Vec3, rest: seq<byte>)
    requires b.Valid() && b.Unread() == Encode(v) + rest
    ensures Deserialize(b, w).result.Ok? && Deserialize(b, w).vec == v
    ensures Deserialize(b, w).buffer.Unread() == rest
  {
    var ex, ey, ez := EncodeInt32(v.x), EncodeInt32(v.y), EncodeInt32(v.z);
    assert b.Unread() == ex + (ey + (ez + rest));
    DB.ReadIntWritten(b, v.x, ey + (ez + rest));
    var b1 := DB.ReadInt(b).state;
    DB.ReadIntWritten(b1, v.y, ez + rest);
    DB.ReadIntWritten(DB.ReadInt(b1).state, v.z, rest);
  }
}
