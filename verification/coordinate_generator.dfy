/** `Random2DCoordinateGenerator` of
    includes/mathematics/random_2D_coordinate_generator.hpp: a deterministic
    hash of a seed and a pair of `long long` coordinates, single values and
    inclusive rectangles of them, the pool it keeps, the events it notifies,
    and its seed state in a DataBuffer.

    The hash's `long long` arithmetic is modelled on the unsigned value of
    the 64-bit two's complement: every shift and product wraps modulo 2^64,
    and xor works bit by bit. Listeners are IDs, and a notification is the
    sequence of calls it makes. */
module CoordinateGenerator {
  import opened Wrappers
  import opened Bytes
  import DB = DataBuffer
  import OP = ObjectPool
  import Obs = Observer

  datatype GenerationEvent = VALUE_GENERATED | BATCH_COMPLETED | SEED_CHANGED

  /** An `IVector2<long long>`. */
  datatype Coord = Coord(x: Int64, y: Int64)

  /** The number of objects the constructor gives the pool. */
  const POOL_SIZE: nat := 1000

  datatype Generator = Generator(seed: Int64, pool: OP.Pool<Int64>,
                                 observer: Obs.Observer<GenerationEvent>)

  /** The pool is private and every handle to it is dropped before the
      operation that took it returns, so all its objects stay available. */
  ghost predicate Valid(g: Generator) {
    && OP.Valid(g.pool)
    && OP.GetCapacity(g.pool) == POOL_SIZE
    && OP.GetAvailableCount(g.pool) == POOL_SIZE
  }

  // ---- the hash ----

  const TWO_63: int := 0x8000_0000_0000_0000

  /** `^` on the low `n` bits of two unsigned values, bit by bit from the
      least significant. */
  function Xor(a: nat, b: nat, n: nat): nat {
    if n == 0 then 0 else (if a % 2 == b % 2 then 0 else 1) + 2 * Xor(a / 2, b / 2, n - 1)
  }

  /** The unsigned value of a `long long`'s 64 bits. */
  function Bits(i: Int64): (u: nat)
    ensures u < TWO_64
  {
    Pow256Widths();
    ToUnsigned(i, 8)
  }

  /** The 64 bits `hashCoordinates` computes before its final mask, as an
      unsigned value: `<< 13` is a product by 2^13, and every product keeps
      only its low 64 bits. */
  function Mix(seed: nat, x: nat, y: nat): nat {
    var h1 := Xor((seed * 0x2000) % TWO_64, seed, 64);
    var h2 := Xor((h1 * 0x9e37_79b9) % TWO_64, (x * 0x85eb_ca6b) % TWO_64, 64);
    var h3 := Xor((h2 * 0x9e37_79b9) % TWO_64, (y * 0xc2b2_ae35) % TWO_64, 64);
    Xor((h3 * 0x2000) % TWO_64, h3, 64)
  }

  /** `hashCoordinates(x, y)` under `seed`: the mixed bits with the sign bit
      cleared by `& 0x7FFFFFFFFFFFFFFF`, which keeps the low 63 bits, that
      is, the unsigned value modulo 2^63. */
  function Hash(seed: Int64, x: Int64, y: Int64): (r: Int64)
    ensures 0 <= r < TWO_63
  {
    Mix(Bits(seed), Bits(x), Bits(y)) % TWO_63
  }

  // ---- construction, seed and subscriptions ----

  /** The constructor: the seed (default 0) and a pool resized to 1000
      objects, no listeners. */
  function New(seed: Int64): (r: Generator)
    ensures Valid(r) && r.seed == seed
    ensures forall e :: Obs.GetSubscriberCount(r.observer, e) == 0
  {
    var p := OP.Resize(OP.New(), POOL_SIZE, 0);
    Generator(seed, p.value, Obs.New())
  }

  function Seed(g: Generator): Int64 {
    g.seed
  }

  datatype Notified = Notified(gen: Generator, calls: seq<Obs.Call<int>>)

  /** `setSeed`: the new seed, announced to the SEED_CHANGED listeners. */
  function SetSeed(g: Generator, newSeed: Int64): (r: Notified)
    ensures Seed(r.gen) == newSeed
    ensures r.gen.pool == g.pool && r.gen.observer == g.observer
    ensures r.calls == Obs.Notify(g.observer, SEED_CHANGED, newSeed as int)
  {
    Notified(g.(seed := newSeed), Obs.Notify(g.observer, SEED_CHANGED, newSeed as int))
  }

  /** `subscribeToGeneration`. */
  function SubscribeToGeneration(g: Generator, e: GenerationEvent, listener: nat): (r: Generator)
    ensures r.seed == g.seed && r.pool == g.pool
    ensures Obs.Listeners(r.observer, e) == Obs.Listeners(g.observer, e) + [listener]
    ensures forall e' :: e' != e ==> Obs.Listeners(r.observer, e') == Obs.Listeners(g.observer, e')
  {
    g.(observer := Obs.Subscribe(g.observer, e, listener))
  }

  datatype Generated = Generated(value: Int64, calls: seq<Obs.Call<int>>)

  /** `operator()(x, y)`: the hash of the coordinates, announced to the
      VALUE_GENERATED listeners. The generator itself does not change. */
  function Generate(g: Generator, x: Int64, y: Int64): (r: Generated)
    ensures r.value == Hash(g.seed, x, y) && 0 <= r.value
    ensures r.calls == Obs.Notify(g.observer, VALUE_GENERATED, r.value as int)
  {
    var v := Hash(g.seed, x, y);
    Generated(v, Obs.Notify(g.observer, VALUE_GENERATED, v as int))
  }

  // ---- batches ----

  /** A value for each coordinate pair. */
  type Values = (Int64, Int64) -> Int64

  /** `operator()` under `seed`, as a function of the coordinates. */
  function HashAt(seed: Int64): (f: Values)
    ensures forall x, y :: f(x, y) == Hash(seed, x, y)
  {
    (x, y) => Hash(seed, x, y)
  }

  /** How many integers lie in [lo, hi]. */
  function Span(lo: int, hi: int): nat {
    if hi < lo then 0 else hi - lo + 1
  }

  /** The values of column `x` for the `m` y's from sy up, in that order. */
  function Column(f: Values, x: Int64, sy: Int64, m: nat): seq<Int64>
    requires sy + m <= INT64_MAX + 1
  {
    if m == 0 then [] else Column(f, x, sy, m - 1) + [f(x, sy + m - 1)]
  }

  /** The values of the `n` × `m` rectangle from (sx, sy): the column of
      each x in turn, from sx up. */
  function Grid(f: Values, sx: Int64, n: nat, sy: Int64, m: nat): seq<Int64>
    requires sx + n <= INT64_MAX + 1 && sy + m <= INT64_MAX + 1
  {
    if n == 0 then [] else Grid(f, sx, n - 1, sy, m) + Column(f, sx + n - 1, sy, m)
  }

  lemma ColumnStep(f: Values, x: Int64, sy: Int64, m: nat)
    requires sy + m + 1 <= INT64_MAX + 1
    ensures Column(f, x, sy, m + 1) == Column(f, x, sy, m) + [f(x, sy + m)]
  {
  }

  lemma GridStep(f: Values, sx: Int64, n: nat, sy: Int64, m: nat)
    requires sx + n + 1 <= INT64_MAX + 1 && sy + m <= INT64_MAX + 1
    ensures Grid(f, sx, n + 1, sy, m) == Grid(f, sx, n, sy, m) + Column(f, sx + n, sy, m)
  {
  }

  /** The values `generateBatch(start, end)` yields: the rectangle spanning
      start to end, both included, empty when start is past end on either
      axis. */
  function Batch(f: Values, start: Coord, end: Coord): seq<Int64> {
    Grid(f, start.x, Span(start.x, end.x), start.y, Span(start.y, end.y))
  }

  lemma {:induction false} ColumnIndex(f: Values, x: Int64, sy: Int64, m: nat)
    requires sy + m <= INT64_MAX + 1
    ensures |Column(f, x, sy, m)| == m
    ensures forall j :: 0 <= j < m ==> Column(f, x, sy, m)[j] == f(x, sy + j)
  {
    if m > 0 {
      ColumnIndex(f, x, sy, m - 1);
    }
  }

  lemma {:induction false} GridLength(f: Values, sx: Int64, n: nat, sy: Int64, m: nat)
    requires sx + n <= INT64_MAX + 1 && sy + m <= INT64_MAX + 1
    ensures |Grid(f, sx, n, sy, m)| == n * m
  {
    if n > 0 {
      GridLength(f, sx, n - 1, sy, m);
      ColumnIndex(f, sx + n - 1, sy, m);
      assert n * m == (n - 1) * m + m;
    }
  }

  /** The position of entry (i, j) of a `rows` × `cols` rectangle laid
      out row after row. */
  function Pos(i: nat, j: nat, rows: nat, cols: nat): (k: nat)
    requires i < rows && j < cols
    ensures k < rows * cols
  {
    RowBefore(i, j, rows, cols);
    i * cols + j
  }

  /** Entry (i, j) of a row lies before the end of the rectangle. */
  lemma RowBefore(i: nat, j: nat, rows: nat, cols: nat)
    requires i < rows && j < cols
    ensures i * cols + j < rows * cols
  {
    assert (i + 1) * cols <= rows * cols;
  }

  lemma {:induction false} GridEntry(f: Values, sx: Int64, n: nat, sy: Int64, m: nat, i: nat, j: nat)
    requires sx + n <= INT64_MAX + 1 && sy + m <= INT64_MAX + 1 && i < n && j < m
    ensures |Grid(f, sx, n, sy, m)| == n * m
    ensures Grid(f, sx, n, sy, m)[Pos(i, j, n, m)] == f(sx + i, sy + j)
  {
    var k := n - 1;
    GridStep(f, sx, k, sy, m);
    GridLength(f, sx, n, sy, m);
    GridLength(f, sx, k, sy, m);
    if i < k {
      GridEntry(f, sx, k, sy, m, i, j);
      assert Pos(i, j, n, m) == Pos(i, j, k, m);
    } else {
      ColumnIndex(f, sx + k, sy, m);
      assert Pos(i, j, n, m) == k * m + j;
    }
  }

  /** Entry (i, j) of the rectangle, counted row after row, is the value
      of (sx + i, sy + j): x varies slowest, y fastest. */
  lemma GridIndex(f: Values, sx: Int64, n: nat, sy: Int64, m: nat)
    requires sx + n <= INT64_MAX + 1 && sy + m <= INT64_MAX + 1
    ensures |Grid(f, sx, n, sy, m)| == n * m
    ensures forall i, j {:trigger Pos(i, j, n, m)} :: 0 <= i < n && 0 <= j < m ==>
              Grid(f, sx, n, sy, m)[Pos(i, j, n, m)] == f(sx + i, sy + j)
  {
    GridLength(f, sx, n, sy, m);
    forall i, j | 0 <= i < n && 0 <= j < m
      ensures Grid(f, sx, n, sy, m)[Pos(i, j, n, m)] == f(sx + i, sy + j)
    {
      GridEntry(f, sx, n, sy, m, i, j);
    }
  }

  /** A batch has one value per point of the inclusive rectangle, and none
      when start is past end on either axis. */
  lemma BatchSize(f: Values, start: Coord, end: Coord)
    ensures |Batch(f, start, end)| == Span(start.x, end.x) * Span(start.y, end.y)
    ensures start.x > end.x || start.y > end.y ==> Batch(f, start, end) == []
  {
    GridLength(f, start.x, Span(start.x, end.x), start.y, Span(start.y, end.y));
  }

  /** The VALUE_GENERATED calls made for `vs`, one notification per value
      in order. */
  function ValueCalls(o: Obs.Observer<GenerationEvent>, vs: seq<Int64>): seq<Obs.Call<int>>
  {
    if |vs| == 0 then []
    else ValueCalls(o, vs[..|vs| - 1]) + Obs.Notify(o, VALUE_GENERATED, vs[|vs| - 1] as int)
  }

  lemma ValueCallsSnoc(o: Obs.Observer<GenerationEvent>, vs: seq<Int64>, v: Int64)
    ensures ValueCalls(o, vs + [v]) == ValueCalls(o, vs) + Obs.Notify(o, VALUE_GENERATED, v as int)
  {
    assert (vs + [v])[..|vs|] == vs;
  }

  lemma {:induction false} ValueCallsAppend(o: Obs.Observer<GenerationEvent>, vs: seq<Int64>, ws: seq<Int64>)
    ensures ValueCalls(o, vs + ws) == ValueCalls(o, vs) + ValueCalls(o, ws)
    decreases |ws|
  {
    if |ws| > 0 {
      var init, last := ws[..|ws| - 1], ws[|ws| - 1];
      var call := Obs.Notify(o, VALUE_GENERATED, last as int);
      assert ws == init + [last];
      calc {
        ValueCalls(o, vs + ws);
        { assert vs + ws == (vs + init) + [last]; }
        ValueCalls(o, (vs + init) + [last]);
        { ValueCallsSnoc(o, vs + init, last); }
        ValueCalls(o, vs + init) + call;
        { ValueCallsAppend(o, vs, init); }
        (ValueCalls(o, vs) + ValueCalls(o, init)) + call;
        ValueCalls(o, vs) + (ValueCalls(o, init) + call);
        { ValueCallsSnoc(o, init, last); }
        ValueCalls(o, vs) + ValueCalls(o, ws);
      }
    } else {
      assert vs + ws == vs;
    }
  }

  // The loops of both batch operations, over the value function `f` that
  // `operator()` computes and the listeners `o` it notifies.

  /** The inner loop: a value for each of the `m` y's from sy up, at a
      fixed x, each announced as it is made. */
  method RunColumn(f: Values, o: Obs.Observer<GenerationEvent>, x: Int64, sy: Int64, m: nat)
    returns (values: seq<Int64>, calls: seq<Obs.Call<int>>)
    requires sy + m <= INT64_MAX + 1
    ensures values == Column(f, x, sy, m)
    ensures calls == ValueCalls(o, values)
  {
    values, calls := [], [];
    var j: nat := 0;
    while j < m
      invariant j <= m
      invariant values == Column(f, x, sy, j)
      invariant calls == ValueCalls(o, values)
    {
      var v := f(x, sy + j);
      ColumnStep(f, x, sy, j);
      ValueCallsSnoc(o, values, v);
      values, calls := values + [v], calls + Obs.Notify(o, VALUE_GENERATED, v as int);
      j := j + 1;
    }
  }

  /** The outer loop: a column for each of the `n` x's from sx up. */
  method RunGrid(f: Values, o: Obs.Observer<GenerationEvent>, sx: Int64, n: nat, sy: Int64, m: nat)
    returns (values: seq<Int64>, calls: seq<Obs.Call<int>>)
    requires sx + n <= INT64_MAX + 1 && sy + m <= INT64_MAX + 1
    ensures values == Grid(f, sx, n, sy, m)
    ensures calls == ValueCalls(o, values)
  {
    if n == 0 {
      return [], [];
    }
    var k := n - 1;
    var prev, prevCalls := RunGrid(f, o, sx, k, sy, m);
    var col, colCalls := RunColumn(f, o, sx + k, sy, m);
    GridStep(f, sx, k, sy, m);
    ValueCallsAppend(o, prev, col);
    values, calls := prev + col, prevCalls + colCalls;
  }

  /** The `++x` and `++y` of the batch loops stay within `long long`: a
      loop that runs at all stops before its counter would pass
      `INT64_MAX`, which an end coordinate of `INT64_MAX` would make it do. */
  predicate CountersFit(start: Coord, end: Coord) {
    && (start.x <= end.x ==> end.x < INT64_MAX)
    && (start.x <= end.x && start.y <= end.y ==> end.y < INT64_MAX)
  }

  /** Both loops, then one BATCH_COMPLETED notification with the count. */
  method RunBatch(f: Values, o: Obs.Observer<GenerationEvent>, start: Coord, end: Coord)
    returns (values: seq<Int64>, calls: seq<Obs.Call<int>>)
    requires CountersFit(start, end)
    ensures values == Batch(f, start, end)
    ensures calls == ValueCalls(o, values) + Obs.Notify(o, BATCH_COMPLETED, |values|)
  {
    values, calls := RunGrid(f, o, start.x, Span(start.x, end.x), start.y, Span(start.y, end.y));
    calls := calls + Obs.Notify(o, BATCH_COMPLETED, |values|);
  }

  /** The inner loop with the pool: each value is acquired into a pool
      object, read back through the handle, and the handle dropped, which
      gives the object back. */
  method RunPooledColumn(f: Values, o: Obs.Observer<GenerationEvent>, pool: OP.Pool<Int64>,
                         x: Int64, sy: Int64, m: nat)
    returns (values: seq<Int64>, calls: seq<Obs.Call<int>>, pool': OP.Pool<Int64>)
    requires sy + m <= INT64_MAX + 1
    requires OP.Valid(pool) && OP.GetAvailableCount(pool) > 0
    ensures values == Column(f, x, sy, m)
    ensures calls == ValueCalls(o, values)
    ensures OP.Valid(pool') && |pool'.objects| == |pool.objects| && pool'.available == pool.available
  {
    values, calls, pool' := [], [], pool;
    var j: nat := 0;
    while j < m
      invariant j <= m
      invariant values == Column(f, x, sy, j)
      invariant calls == ValueCalls(o, values)
      invariant OP.Valid(pool') && |pool'.objects| == |pool.objects| && pool'.available == pool.available
    {
      var v := f(x, sy + j);
      ColumnStep(f, x, sy, j);
      var acquired := OP.AcquireWith(pool', v);
      OP.AcquireThenDestroy(pool', v);
      var held := OP.Deref(acquired.value.handle, acquired.value.pool);
      ValueCallsSnoc(o, values, held.value);
      values, calls := values + [held.value], calls + Obs.Notify(o, VALUE_GENERATED, v as int);
      pool' := OP.Destroy(acquired.value.handle, acquired.value.pool);
      j := j + 1;
    }
  }

  method RunPooledGrid(f: Values, o: Obs.Observer<GenerationEvent>, pool: OP.Pool<Int64>,
                       sx: Int64, n: nat, sy: Int64, m: nat)
    returns (values: seq<Int64>, calls: seq<Obs.Call<int>>, pool': OP.Pool<Int64>)
    requires sx + n <= INT64_MAX + 1 && sy + m <= INT64_MAX + 1
    requires OP.Valid(pool) && OP.GetAvailableCount(pool) > 0
    ensures values == Grid(f, sx, n, sy, m)
    ensures calls == ValueCalls(o, values)
    ensures OP.Valid(pool') && |pool'.objects| == |pool.objects| && pool'.available == pool.available
  {
    if n == 0 {
      return [], [], pool;
    }
    var k := n - 1;
    var prev, prevCalls, mid := RunPooledGrid(f, o, pool, sx, k, sy, m);
    var col, colCalls, last := RunPooledColumn(f, o, mid, sx + k, sy, m);
    GridStep(f, sx, k, sy, m);
    ValueCallsAppend(o, prev, col);
    values, calls, pool' := prev + col, prevCalls + colCalls, last;
  }

  method RunPooledBatch(f: Values, o: Obs.Observer<GenerationEvent>, pool: OP.Pool<Int64>,
                        start: Coord, end: Coord)
    returns (values: seq<Int64>, calls: seq<Obs.Call<int>>, pool': OP.Pool<Int64>)
    requires CountersFit(start, end)
    requires OP.Valid(pool) && OP.GetAvailableCount(pool) > 0
    ensures values == Batch(f, start, end)
    ensures calls == ValueCalls(o, values) + Obs.Notify(o, BATCH_COMPLETED, |values|)
    ensures OP.Valid(pool') && |pool'.objects| == |pool.objects| && pool'.available == pool.available
  {
    values, calls, pool' :=
      RunPooledGrid(f, o, pool, start.x, Span(start.x, end.x), start.y, Span(start.y, end.y));
    calls := calls + Obs.Notify(o, BATCH_COMPLETED, |values|);
  }

  /** `generateBatch(start, end)`: `operator()` for x from start.x to
      end.x and, inside, y from start.y to end.y, both inclusive; then one
      BATCH_COMPLETED notification with the count. */
  method GenerateBatch(g: Generator, start: Coord, end: Coord)
    returns (values: seq<Int64>, calls: seq<Obs.Call<int>>)
    requires CountersFit(start, end)
    ensures values == Batch(HashAt(g.seed), start, end)
    ensures calls == ValueCalls(g.observer, values)
                     + Obs.Notify(g.observer, BATCH_COMPLETED, |values|)
  {
    values, calls := RunBatch(HashAt(g.seed), g.observer, start, end);
  }

  /** `generateBatchWithPool(start, end)`: the same values, calls and
      order as `generateBatch`, each value passing through an object of the
      pool. The pool ends with every object available again. */
  method GenerateBatchWithPool(g: Generator, start: Coord, end: Coord)
    returns (values: seq<Int64>, calls: seq<Obs.Call<int>>, g': Generator)
    requires Valid(g) && CountersFit(start, end)
    ensures values == Batch(HashAt(g.seed), start, end)
    ensures calls == ValueCalls(g.observer, values)
                     + Obs.Notify(g.observer, BATCH_COMPLETED, |values|)
    ensures Valid(g') && g'.seed == g.seed && g'.observer == g.observer
    ensures g'.pool.available == g.pool.available
  {
    var pool;
    values, calls, pool := RunPooledBatch(HashAt(g.seed), g.observer, g.pool, start, end);
    g' := g.(pool := pool);
  }

  /** Entry (i, j) of a batch is the value `operator()` gives for
      (start.x + i, start.y + j). */
  lemma BatchEntry(g: Generator, start: Coord, end: Coord, i: nat, j: nat)
    requires i < Span(start.x, end.x) && j < Span(start.y, end.y)
    ensures |Batch(HashAt(g.seed), start, end)| == Span(start.x, end.x) * Span(start.y, end.y)
    ensures Batch(HashAt(g.seed), start, end)[Pos(i, j, Span(start.x, end.x), Span(start.y, end.y))]
            == Generate(g, start.x + i, start.y + j).value
  {
    GridEntry(HashAt(g.seed), start.x, Span(start.x, end.x), start.y, Span(start.y, end.y), i, j);
  }

  // ---- seed state in a DataBuffer ----

  /** `serializeState`: the seed as a `long long`. */
  function SerializeState(g: Generator, b: DB.Buffer): (r: DB.Buffer)
    requires b.Valid()
    ensures r.Valid() && r.Unread() == b.Unread() + EncodeInt64(g.seed)
  {
    DB.WriteLongLong(b, g.seed)
  }

  datatype Restored = Restored(result: Result<(), DB.Error>, buffer: DB.Buffer, gen: Generator)

  /** `deserializeState`: reads the seed back, without notifying anyone;
      a short buffer throws and leaves the seed as it was. */
  function DeserializeState(g: Generator, b: DB.Buffer): (r: Restored)
    requires b.Valid()
    ensures r.buffer.Valid()
    ensures r.gen.pool == g.pool && r.gen.observer == g.observer
    ensures r.result.Err? <==> |b.Unread()| < 8
    ensures r.result.Err? ==> r.gen == g && r.buffer == b
    ensures r.result.Ok? ==>
              r.gen.seed == DecodeInt64(b.Unread()[..8]) && r.buffer.Unread() == b.Unread()[8..]
  {
    var s := DB.ReadLongLong(b);
    match s.result
    case Err(e) => Restored(Err(e), s.state, g)
    case Ok(seed) => Restored(Ok(()), s.state, g.(seed := seed))
  }

  /** Saving one generator's state and loading it into another gives the
      second the first one's seed, and so the same values everywhere. */
  lemma StateRoundTrip(g: Generator, h: Generator, b: DB.Buffer, x: Int64, y: Int64)
    requires b.Valid() && b.Unread() == []
    ensures var r := DeserializeState(h, SerializeState(g, b));
            && r.result.Ok? && Seed(r.gen) == Seed(g) && r.buffer.Unread() == []
            && Generate(r.gen, x, y).value == Generate(g, x, y).value
  {
    var w := SerializeState(g, b);
    assert w.Unread() == EncodeInt64(g.seed) + [];
    DB.ReadLongLongWritten(w, g.seed, []);
  }
}
