/** The double-ended queue of includes/threading/thread_safe_queue.hpp, one
    call at a time: locking and waking waiting threads are not modelled, so
    every call is an atomic step on an immutable value. The queue is its
    elements, front first, and a flag that, once set by `close`, makes every
    push throw while pops go on draining what is left. */
module ThreadSafeQueue {
  import opened Wrappers
  import opened Bytes
  import DB = DataBuffer

  datatype Queue<T> = Queue(items: seq<T>, closed: bool)

  datatype Error =
    | QueueClosed  // the runtime_error a push throws on a closed queue
    | EmptyQueue   // EmptyQueueException: "ThreadSafeQueue: Queue is empty."

  /** The state the embedded state machine tracks. */
  datatype QueueState = EMPTY | NORMAL | CLOSED

  /** A successful pop: the element and the queue without it. */
  datatype Popped<T> = Popped(value: T, rest: Queue<T>)

  /** The constructor. */
  function New<T>(): Queue<T> {
    Queue([], false)
  }

  /** A new queue is open and empty. */
  lemma NewIsEmpty<T>(q: Queue<T>)
    requires q == New()
    ensures q.items == [] && !q.closed && Size(q) == 0 && Empty(q)
  {
  }

  /** `push_back`: throws on a closed queue, otherwise appends at the back. */
  function PushBack<T>(q: Queue<T>, x: T): (r: Result<Queue<T>, Error>)
    ensures r.Err? <==> q.closed
    ensures r.Err? ==> r.error == QueueClosed
    ensures r.Ok? ==> r.value.items == q.items + [x] && !r.value.closed
  {
    if q.closed then Err(QueueClosed) else Ok(q.(items := q.items + [x]))
  }

  /** `push_front`: throws on a closed queue, otherwise inserts at the front. */
  function PushFront<T>(q: Queue<T>, x: T): (r: Result<Queue<T>, Error>)
    ensures r.Err? <==> q.closed
    ensures r.Err? ==> r.error == QueueClosed
    ensures r.Ok? ==> r.value.items == [x] + q.items && !r.value.closed
  {
    if q.closed then Err(QueueClosed) else Ok(q.(items := [x] + q.items))
  }

  /** `push`, kept for the client and server code: the same as
      `push_back`, throwing on a closed queue and otherwise appending. */
  function Push<T>(q: Queue<T>, x: T): (r: Result<Queue<T>, Error>)
    ensures r.Err? <==> q.closed
    ensures r.Err? ==> r.error == QueueClosed
    ensures r.Ok? ==> r.value.items == q.items + [x] && !r.value.closed
  {
    PushBack(q, x)
  }

  /** `pop_front`: throws on an empty queue, otherwise removes and returns
      the first element. Closing does not stop it. */
  function PopFront<T>(q: Queue<T>): (r: Result<Popped<T>, Error>)
    ensures r.Err? <==> |q.items| == 0
    ensures r.Err? ==> r.error == EmptyQueue
    ensures r.Ok? ==>
              && [r.value.value] + r.value.rest.items == q.items
              && r.value.rest.closed == q.closed
  {
    if |q.items| == 0 then Err(EmptyQueue)
    else Ok(Popped(q.items[0], q.(items := q.items[1..])))
  }

  /** `pop_back`: throws on an empty queue, otherwise removes and returns
      the last element. */
  function PopBack<T>(q: Queue<T>): (r: Result<Popped<T>, Error>)
    ensures r.Err? <==> |q.items| == 0
    ensures r.Err? ==> r.error == EmptyQueue
    ensures r.Ok? ==>
              && r.value.rest.items + [r.value.value] == q.items
              && r.value.rest.closed == q.closed
  {
    if |q.items| == 0 then Err(EmptyQueue)
    else Ok(Popped(q.items[|q.items| - 1], q.(items := q.items[..|q.items| - 1])))
  }

  /** What `try_pop(value)` leaves behind: whether it popped, the output
      variable, and the queue. */
  datatype TryPopped<T> = TryPopped(popped: bool, value: T, queue: Queue<T>)

  /** `try_pop(value)`: on an empty queue returns false and touches neither
      the queue nor `value`; otherwise it is `pop_front` storing into
      `value`. */
  function TryPop<T>(q: Queue<T>, value: T): (r: TryPopped<T>)
    ensures !r.popped <==> |q.items| == 0
    ensures !r.popped ==> r.value == value && r.queue == q
    ensures r.popped ==> PopFront(q) == Ok(Popped(r.value, r.queue))
  {
    if |q.items| == 0 then TryPopped(false, value, q)
    else
      var p := PopFront(q).value;
      TryPopped(true, p.value, p.rest)
  }

  /** `try_pop()`, the `shared_ptr` form: null on an empty queue, otherwise
      the popped front element. */
  function TryPopShared<T>(q: Queue<T>): (r: (Option<T>, Queue<T>))
    ensures r.0.None? <==> |q.items| == 0
    ensures r.0.None? ==> r.1 == q
    ensures r.0.Some? ==> PopFront(q) == Ok(Popped(r.0.value, r.1))
  {
    if |q.items| == 0 then (None, q)
    else
      var p := PopFront(q).value;
      (Some(p.value), p.rest)
  }

  /** `close`: sets the flag and keeps every element. */
  function Close<T>(q: Queue<T>): (r: Queue<T>)
    ensures r.closed && r.items == q.items
  {
    q.(closed := true)
  }

  function IsClosed<T>(q: Queue<T>): bool {
    q.closed
  }

  /** `size`. */
  function Size<T>(q: Queue<T>): nat {
    |q.items|
  }

  /** `empty`. */
  predicate Empty<T>(q: Queue<T>) {
    |q.items| == 0
  }

  lemma EmptyIffSizeZero<T>(q: Queue<T>)
    ensures Empty(q) <==> Size(q) == 0
  {
  }

  /** The queries follow the calls: a push onto an open queue adds one to
      `size` and makes it non-empty, a successful pop takes one away,
      `close` sets `is_closed` without changing `size`, and a push is
      refused exactly when `is_closed` holds. */
  lemma QueriesTrackCalls<T>(q: Queue<T>, x: T)
    ensures !IsClosed(q) ==>
              && PushBack(q, x).Ok? && Size(PushBack(q, x).value) == Size(q) + 1
              && !Empty(PushBack(q, x).value) && !IsClosed(PushBack(q, x).value)
    ensures !IsClosed(q) ==> PushFront(q, x).Ok? && Size(PushFront(q, x).value) == Size(q) + 1
    ensures PushBack(q, x).Err? <==> IsClosed(q)
    ensures PopFront(q).Ok? ==> Size(PopFront(q).value.rest) == Size(q) - 1
    ensures PopBack(q).Ok? ==> Size(PopBack(q).value.rest) == Size(q) - 1
    ensures PopFront(q).Err? <==> Empty(q)
    ensures IsClosed(Close(q)) && Size(Close(q)) == Size(q)
  {
    if PopFront(q).Ok? {
      assert |[PopFront(q).value.value] + PopFront(q).value.rest.items| == Size(q);
    }
  }

  /** `updateState`: the state machine follows the flag first, then
      emptiness. */
  function State<T>(q: Queue<T>): (r: QueueState)
    ensures r == CLOSED <==> q.closed
    ensures r == EMPTY <==> !q.closed && Empty(q)
    ensures r == NORMAL <==> !q.closed && !Empty(q)
  {
    if q.closed then CLOSED else if |q.items| == 0 then EMPTY else NORMAL
  }

  /** Closing is sticky: a closed queue rejects both pushes, and a pop
      leaves it closed, so nothing reopens it. */
  lemma CloseIsSticky<T>(q: Queue<T>, x: T)
    requires q.closed
    ensures PushBack(q, x) == Err(QueueClosed) && PushFront(q, x) == Err(QueueClosed)
    ensures PopFront(q).Ok? ==> PopFront(q).value.rest.closed
    ensures PopBack(q).Ok? ==> PopBack(q).value.rest.closed
    ensures State(q) == CLOSED
  {
  }

  /** Popping a closed queue from the front `|items|` times hands out every
      element it held, in order, and leaves it empty and closed. */
  function Drain<T>(q: Queue<T>): (r: seq<T>)
    decreases |q.items|
  {
    match PopFront(q)
    case Err(_) => []
    case Ok(p) => [p.value] + Drain(p.rest)
  }

  lemma {:induction false} DrainYieldsAll<T>(q: Queue<T>)
    ensures Drain(q) == q.items
    decreases |q.items|
  {
    match PopFront(q)
    case Err(_) =>
    case Ok(p) =>
      DrainYieldsAll(p.rest);
  }

  /** Closing discards nothing: the closed queue drains to exactly the
      elements the open one held. */
  lemma CloseDiscardsNothing<T>(q: Queue<T>)
    ensures Drain(Close(q)) == q.items
  {
    DrainYieldsAll(Close(q));
  }

  // ---- snapshots ----

  /** The ints written one after the other. */
  function EncodeInts(xs: seq<Int32>): (r: seq<byte>)
    ensures |r| == 4 * |xs|
  {
    if |xs| == 0 then [] else EncodeInt32(xs[0]) + EncodeInts(xs[1..])
  }

  /** The snapshot layout: the closed flag, the element count as a
      `size_t`, then the elements front to back. */
  function EncodeQueue(q: Queue<Int32>): (r: seq<byte>)
    requires |q.items| < TWO_64
  {
    EncodeBool(q.closed) + (EncodeU64(|q.items|) + EncodeInts(q.items))
  }

  /** Writes the elements, front first. */
  function WriteInts(b: DB.Buffer, xs: seq<Int32>): (r: DB.Buffer)
    requires b.Valid()
    ensures r.Valid() && r.Unread() == b.Unread() + EncodeInts(xs)
    decreases |xs|
  {
    if |xs| == 0 then b
    else
      var r := WriteInts(DB.WriteInt(b, xs[0]), xs[1..]);
      Assoc(b.Unread(), EncodeInt32(xs[0]), EncodeInts(xs[1..]));
      r
  }

  /** `_saveToSnapshot` for a queue of ints, into a fresh snapshot. */
  function Save(q: Queue<Int32>): (r: DB.Buffer)
    requires |q.items| < TWO_64
    ensures r.Valid() && r.Unread() == EncodeQueue(q)
  {
    var b0 := DB.WriteBool(DB.New(), q.closed);
    var b1 := DB.WriteSize(b0, |q.items|);
    var b2 := WriteInts(b1, q.items);
    Assoc(EncodeBool(q.closed), EncodeU64(|q.items|), EncodeInts(q.items));
    b2
  }

  /** Reads `n` ints, stopping at the first short read. */
  function ReadInts(b: DB.Buffer, n: nat): (r: DB.Read<seq<Int32>>)
    requires b.Valid()
    ensures r.state.Valid()
    ensures r.result.Ok? ==> |r.result.value| == n
    decreases n
  {
    if n == 0 then Step(Ok([]), b)
    else
      var first := DB.ReadInt(b);
      match first.result
      case Err(e) => Step(Err(e), first.state)
      case Ok(x) =>
        var more := ReadInts(first.state, n - 1);
        match more.result
        case Err(e) => Step(Err(e), more.state)
        case Ok(xs) => Step(Ok([x] + xs), more.state)
  }

  lemma {:induction false} ReadIntsWritten(b: DB.Buffer, xs: seq<Int32>, rest: seq<byte>)
    requires b.Valid() && b.Unread() == EncodeInts(xs) + rest
    ensures ReadInts(b, |xs|).result == Ok(xs)
    ensures ReadInts(b, |xs|).state.Unread() == rest
    decreases |xs|
  {
    if |xs| > 0 {
      Assoc(EncodeInt32(xs[0]), EncodeInts(xs[1..]), rest);
      DB.ReadIntWritten(b, xs[0], EncodeInts(xs[1..]) + rest);
      ReadIntsWritten(DB.ReadInt(b).state, xs[1..], rest);
      assert [xs[0]] + xs[1..] == xs;
    }
  }

  /** `_loadFromSnapshot`: reads the flag, the count and that many
      elements, and replaces the queue's contents with them. A snapshot too
      short for what it announces is an error. */
  function Load(q: Queue<Int32>, b: DB.Buffer): (r: Result<Queue<Int32>, DB.Error>)
    requires b.Valid()
    ensures r.Ok? ==> |r.value.items| < TWO_64
  {
    var c := DB.ReadBool(b);
    match c.result
    case Err(e) => Err(e)
    case Ok(closed) =>
      var n := DB.ReadSize(c.state);
      match n.result
      case Err(e) => Err(e)
      case Ok(count) =>
        var xs := ReadInts(n.state, count);
        match xs.result
        case Err(e) => Err(e)
        case Ok(items) => Ok(Queue(items, closed))
  }

  /** Loading a saved snapshot gives back the closed flag and the elements
      in their order, whatever the queue held before; so the derived state
      comes back too. */
  lemma LoadSave(q: Queue<Int32>, target: Queue<Int32>)
    requires |q.items| < TWO_64
    ensures Load(target, Save(q)) == Ok(q)
    ensures State(Load(target, Save(q)).value) == State(q)
  {
    var b := Save(q);
    var rest := EncodeU64(|q.items|) + EncodeInts(q.items);
    DB.ReadBoolWritten(b, q.closed, rest);
    var b1 := DB.ReadBool(b).state;
    assert b1.Unread()[..8] == EncodeU64(|q.items|);
    assert b1.Unread()[8..] == EncodeInts(q.items);
    var b2 := DB.ReadSize(b1).state;
    assert b2.Unread() == EncodeInts(q.items) + [];
    ReadIntsWritten(b2, q.items, []);
  }
}
