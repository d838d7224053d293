/** Arithmetic on a 32-bit `int` as the integer vectors use it. Signed
    overflow is undefined in C++; the model takes the two's-complement
    wrap-around the usual targets produce, which is arithmetic modulo 2^32
    with results read back into the `int` range. Division truncates toward
    zero, as C++ requires. */
module Int32Arith {
  import opened Bytes

  /** The `int` a result wraps to. */
  function Wrap(i: int): (r: Int32)
    ensures (r - i) % TWO_32 == 0
    ensures INT32_MIN <= i <= INT32_MAX ==> r == i
  {
    var m := i % TWO_32;
    if m > INT32_MAX then m - TWO_32 else m
  }

  /** Equal modulo 2^32. */
  predicate Cong(a: int, b: int) {
    (a - b) % TWO_32 == 0
  }

  /** Two values equal modulo 2^32 wrap to the same `int`. */
  lemma WrapCongruent(a: int, b: int)
    requires Cong(a, b)
    ensures Wrap(a) == Wrap(b)
  {
    assert a % TWO_32 == b % TWO_32;
  }

  lemma CongWrap(a: int)
    ensures Cong(Wrap(a), a)
  {
  }

  lemma CongSym(a: int, b: int)
    requires Cong(a, b)
    ensures Cong(b, a)
  {
    var k := (a - b) / TWO_32;
    assert b - a == (-k) * TWO_32;
  }

  lemma CongTrans(a: int, b: int, c: int)
    requires Cong(a, b) && Cong(b, c)
    ensures Cong(a, c)
  {
    var k, j := (a - b) / TWO_32, (b - c) / TWO_32;
    assert a - c == (k + j) * TWO_32;
  }

  lemma CongAdd(a: int, a': int, b: int, b': int)
    requires Cong(a, a') && Cong(b, b')
    ensures Cong(a + b, a' + b') && Cong(a - b, a' - b')
  {
    var k, j := (a - a') / TWO_32, (b - b') / TWO_32;
    assert (a + b) - (a' + b') == (k + j) * TWO_32;
    assert (a - b) - (a' - b') == (k - j) * TWO_32;
  }

  lemma CongMul(a: int, a': int, b: int)
    requires Cong(a, a')
    ensures Cong(a * b, a' * b) && Cong(b * a, b * a')
  {
    var k := (a - a') / TWO_32;
    assert a - a' == k * TWO_32;
    assert a * b - a' * b == (k * b) * TWO_32;
    assert b * a - b * a' == (k * b) * TWO_32;
  }

  /** Wrapping an operand of a sum first changes nothing. */
  lemma WrapAdd(a: int, b: int)
    ensures Wrap(Wrap(a) + b) == Wrap(a + b)
  {
    CongWrap(a);
    CongAdd(Wrap(a), a, b, b);
    WrapCongruent(Wrap(a) + b, a + b);
  }

  /** Wrapping an operand of a product first changes nothing. */
  lemma WrapMul(a: int, b: int)
    ensures Wrap(Wrap(a) * b) == Wrap(a * b)
  {
    CongWrap(a);
    CongMul(Wrap(a), a, b);
    WrapCongruent(Wrap(a) * b, a * b);
  }

  /** Negating twice, wrapping each time, gives the value back; the
      minimum negates to itself. */
  lemma NegTwice(a: int)
    requires INT32_MIN <= a <= INT32_MAX
    ensures Wrap(-(Wrap(-a) as int)) == a
  {
    CongWrap(-a);
    CongAdd(0, 0, Wrap(-a), -a);
    WrapCongruent(-(Wrap(-a) as int), a);
  }

  /** Wrapped addition and subtraction undo each other. */
  lemma AddThenSub(a: int, b: int)
    requires INT32_MIN <= a <= INT32_MAX
    ensures Wrap(Wrap(a + b) - b) == a
  {
    WrapAdd(a + b, -b);
  }

  /** x·y + y·(−x) wraps to 0, with −x itself wrapped. */
  lemma CancelTurned(x: int, y: int)
    ensures Wrap(x * y + y * Wrap(-x)) == 0
  {
    CongWrap(-x);
    CongMul(Wrap(-x), -x, y);
    assert Cong(x * y + y * Wrap(-x), x * y + y * -x) by {
      CongAdd(x * y, x * y, y * Wrap(-x), y * -x);
    }
    assert x * y + y * -x == 0;
    WrapCongruent(x * y + y * Wrap(-x), 0);
  }

  /** A vector dotted with anything congruent to its cross product with
      another wraps to 0. */
  lemma CancelCross(x: int, y: int, z: int, ox: int, oy: int, oz: int, cx: int, cy: int, cz: int)
    requires Cong(cx, y * oz - z * oy) && Cong(cy, z * ox - x * oz) && Cong(cz, x * oy - y * ox)
    ensures Wrap(x * cx + y * cy + z * cz) == 0
  {
    CongMul(cx, y * oz - z * oy, x);
    CongMul(cy, z * ox - x * oz, y);
    CongMul(cz, x * oy - y * ox, z);
    CrossSumZero(x, y, z, ox, oy, oz);
    WrapSumZero(x * cx, x * (y * oz - z * oy), y * cy, y * (z * ox - x * oz), z * cz, z * (x * oy - y * ox));
  }

  lemma WrapSumZero(a: int, a': int, b: int, b': int, c: int, c': int)
    requires Cong(a, a') && Cong(b, b') && Cong(c, c') && a' + b' + c' == 0
    ensures Wrap(a + b + c) == 0
  {
    CongSum3(a, a', b, b', c, c');
    WrapCongruent(a + b + c, 0);
  }

  lemma CongSum3(a: int, a': int, b: int, b': int, c: int, c': int)
    requires Cong(a, a') && Cong(b, b') && Cong(c, c')
    ensures Cong(a + b + c, a' + b' + c')
  {
    CongAdd(a, a', b, b');
    CongAdd(a + b, a' + b', c, c');
  }

  /** The scalar triple product with a repeated vector vanishes. */
  lemma CrossSumZero(x: int, y: int, z: int, ox: int, oy: int, oz: int)
    ensures x * (y * oz - z * oy) + y * (z * ox - x * oz) + z * (x * oy - y * ox) == 0
  {
    assert x * (y * oz - z * oy) == x * y * oz - x * z * oy;
    assert y * (z * ox - x * oz) == y * z * ox - x * y * oz;
    assert z * (x * oy - y * ox) == x * z * oy - y * z * ox;
  }

  function Abs(i: int): nat {
    if i < 0 then -i else i
  }

  /** C++ `/` on `int`: the quotient truncated toward zero, so the
      remainder is smaller than the divisor and takes the dividend's sign. */
  function Quot(a: int, b: int): (q: int)
    requires b != 0
    ensures a >= 0 && b > 0 ==> q == a / b
    ensures Abs(a - q * b) < Abs(b)
    ensures a - q * b != 0 ==> (a - q * b < 0 <==> a < 0)
  {
    var m := Abs(a) / Abs(b);
    var q := if (a < 0) == (b < 0) then m else -m;
    QuotRemainder(a, b, m, q);
    q
  }

  lemma QuotRemainder(a: int, b: int, m: int, q: int)
    requires b != 0 && m == Abs(a) / Abs(b)
    requires q == if (a < 0) == (b < 0) then m else -m
    ensures Abs(a - q * b) < Abs(b)
    ensures a - q * b != 0 ==> (a - q * b < 0 <==> a < 0)
  {
    var A: int, B: int := Abs(a), Abs(b);
    var rr := A % B;
    assert A == m * B + rr && 0 <= rr < B;
    if a >= 0 {
      assert q * b == m * B by {
        if b < 0 { assert q == -m && b == -B; } else { assert q == m && b == B; }
      }
    } else {
      assert q * b == -(m * B) by {
        if b < 0 { assert q == m && b == -B; } else { assert q == -m && b == B; }
      }
    }
  }
}
