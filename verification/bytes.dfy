/** Bytes and the fixed-width little-endian encodings the buffers copy with
    `memcpy`: `int`/`int32_t` and `uint32_t` take 4 bytes, `size_t`,
    `uint64_t` and `long long` take 8 (an LP64 little-endian host), `bool`
    takes 1. Signed values are two's complement. */
module Bytes {

  /** One `char` of a buffer, as its unsigned value. */
  newtype byte = b: int | 0 <= b < 256

  const INT32_MIN: int := -0x8000_0000
  const INT32_MAX: int := 0x7FFF_FFFF
  const INT64_MIN: int := -0x8000_0000_0000_0000
  const INT64_MAX: int := 0x7FFF_FFFF_FFFF_FFFF
  const TWO_32: int := 0x1_0000_0000
  const TWO_64: int := 0x1_0000_0000_0000_0000

  /** A C++ `int`. */
  type Int32 = x: int | INT32_MIN <= x <= INT32_MAX
  /** A C++ `long long`. */
  type Int64 = x: int | INT64_MIN <= x <= INT64_MAX
  /** A `uint64_t` / `size_t`. */
  type UInt64 = x: int | 0 <= x < TWO_64

  /** The number of values an n-byte field can hold. */
  function Pow256(n: nat): (r: nat)
    ensures r > 0
  {
    if n == 0 then 1 else 256 * Pow256(n - 1)
  }

  lemma Pow256Widths()
    ensures Pow256(1) == 256 && Pow256(4) == TWO_32 && Pow256(8) == TWO_64
    ensures Half(4) == -INT32_MIN && Half(8) == -INT64_MIN
  {
  }

  /** `v` as n bytes, least significant first. */
  function EncodeLE(v: nat, n: nat): (r: seq<byte>)
    requires v < Pow256(n)
    ensures |r| == n
  {
    if n == 0 then [] else [(v % 256) as byte] + EncodeLE(v / 256, n - 1)
  }

  /** The unsigned value of a little-endian byte string. */
  function DecodeLE(s: seq<byte>): (r: nat)
    ensures r < Pow256(|s|)
  {
    if |s| == 0 then 0
    else
      var rest := DecodeLE(s[1..]);
      assert rest <= Pow256(|s| - 1) - 1;
      assert 256 * rest <= 256 * Pow256(|s| - 1) - 256;
      s[0] as nat + 256 * rest
  }

  lemma {:induction false} DecodeEncode(v: nat, n: nat)
    requires v < Pow256(n)
    ensures DecodeLE(EncodeLE(v, n)) == v
  {
    if n > 0 {
      var q, r := v / 256, v % 256;
      assert v == 256 * q + r;
      assert q < Pow256(n - 1);
      var s := EncodeLE(v, n);
      assert s[1..] == EncodeLE(q, n - 1);
      DecodeEncode(q, n - 1);
      assert (s[0] as nat) == r;
      calc {
        DecodeLE(s);
        s[0] as nat + 256 * DecodeLE(s[1..]);
        r + 256 * q;
      }
    }
  }

  lemma {:induction false} EncodeDecode(s: seq<byte>)
    ensures EncodeLE(DecodeLE(s), |s|) == s
  {
    if |s| > 0 {
      EncodeDecode(s[1..]);
      var v := DecodeLE(s);
      assert v % 256 == s[0] as nat;
      assert v / 256 == DecodeLE(s[1..]);
      assert ((v % 256) as byte) == s[0];
    }
  }

  /** Two equal-width encodings are equal exactly when the values are. */
  lemma EncodeInjective(v: nat, w: nat, n: nat)
    requires v < Pow256(n) && w < Pow256(n)
    ensures EncodeLE(v, n) == EncodeLE(w, n) <==> v == w
  {
    if EncodeLE(v, n) == EncodeLE(w, n) {
      DecodeEncode(v, n);
      DecodeEncode(w, n);
    }
  }

  /** `n` bytes of 0xFF encode the largest `n`-byte value. */
  lemma {:induction false} AllOnes(n: nat)
    ensures DecodeLE(seq(n, _ => 255 as byte)) == Pow256(n) - 1
  {
    if n > 0 {
      var s := seq(n, _ => 255 as byte);
      assert s[1..] == seq(n - 1, _ => 255 as byte);
      AllOnes(n - 1);
    }
  }

  lemma AllOnes8()
    ensures DecodeLE(seq(8, _ => 255 as byte)) == TWO_64 - 1
  {
    AllOnes(8);
    Pow256Widths();
  }

  /** Regrouping a concatenation of byte strings. */
  lemma Assoc(a: seq<byte>, b: seq<byte>, c: seq<byte>)
    ensures (a + b) + c == a + (b + c)
  {
  }

  // ---- fixed-width fields ----

  function EncodeU32(v: nat): (r: seq<byte>)
    requires v < TWO_32
    ensures |r| == 4 && DecodeLE(r) == v
  {
    Pow256Widths();
    DecodeEncode(v, 4);
    EncodeLE(v, 4)
  }

  function EncodeU64(v: nat): (r: seq<byte>)
    requires v < TWO_64
    ensures |r| == 8 && DecodeLE(r) == v
  {
    Pow256Widths();
    DecodeEncode(v, 8);
    EncodeLE(v, 8)
  }

  /** Half the range of `width` bytes: the first value whose top bit is set. */
  function Half(width: nat): (h: int)
    requires width > 0
    ensures 2 * h == Pow256(width)
  {
    128 * Pow256(width - 1)
  }

  /** Two's complement of a signed value in `width` bytes. */
  function ToUnsigned(i: int, width: nat): (u: nat)
    requires width > 0
    requires -Half(width) <= i < Half(width)
    ensures u < Pow256(width)
    ensures (u < Half(width) ==> u == i) && (u >= Half(width) ==> u == i + Pow256(width))
  {
    if i < 0 then i + Pow256(width) else i
  }

  /** The signed value whose two's complement in `width` bytes is `u`. */
  function ToSigned(u: nat, width: nat): (i: int)
    requires width > 0 && u < Pow256(width)
    ensures -Half(width) <= i < Half(width)
  {
    if u >= Half(width) then u - Pow256(width) else u
  }

  lemma SignedUnsigned(i: int, width: nat)
    requires width > 0
    requires -Half(width) <= i < Half(width)
    ensures ToSigned(ToUnsigned(i, width), width) == i
  {
  }

  function EncodeInt32(i: Int32): (r: seq<byte>)
    ensures |r| == 4
  {
    Pow256Widths();
    EncodeLE(ToUnsigned(i, 4), 4)
  }

  function DecodeInt32(s: seq<byte>): (i: Int32)
    requires |s| == 4
  {
    Pow256Widths();
    ToSigned(DecodeLE(s), 4)
  }

  lemma Int32RoundTrip(i: Int32)
    ensures DecodeInt32(EncodeInt32(i)) == i
  {
    Pow256Widths();
    DecodeEncode(ToUnsigned(i, 4), 4);
    SignedUnsigned(i, 4);
  }

  function EncodeInt64(i: Int64): (r: seq<byte>)
    ensures |r| == 8
  {
    Pow256Widths();
    EncodeLE(ToUnsigned(i, 8), 8)
  }

  function DecodeInt64(s: seq<byte>): (i: Int64)
    requires |s| == 8
  {
    Pow256Widths();
    ToSigned(DecodeLE(s), 8)
  }

  lemma Int64RoundTrip(i: Int64)
    ensures DecodeInt64(EncodeInt64(i)) == i
  {
    Pow256Widths();
    DecodeEncode(ToUnsigned(i, 8), 8);
    SignedUnsigned(i, 8);
  }

  /** A `bool` is stored as one byte, 1 for true and 0 for false; any nonzero
      byte reads back as true. */
  function EncodeBool(b: bool): (r: seq<byte>)
    ensures |r| == 1 && (r[0] != 0 <==> b)
  {
    [if b then 1 else 0]
  }

  function DecodeBool(s: seq<byte>): bool
    requires |s| == 1
  {
    s[0] != 0
  }

  /** The bytes of a text whose characters all fit in one byte, as a
      `std::string` holds them. */
  function Latin1(s: string): (r: seq<byte>)
    requires forall i :: 0 <= i < |s| ==> s[i] as int < 256
    ensures |r| == |s| && forall i :: 0 <= i < |s| ==> r[i] as int == s[i] as int
  {
    seq(|s|, i requires 0 <= i < |s| => s[i] as int as byte)
  }
}
