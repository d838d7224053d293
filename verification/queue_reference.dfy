/** An independent reference for the queue: the textbook two-list deque,
    with the front elements in order and the back elements reversed, and a
    proof that every sequence of calls made by one thread observes the same
    results from the queue model as from this deque. */
module QueueReference {
  import opened Wrappers
  import Q = ThreadSafeQueue

  /** One call on the queue. */
  datatype Op<T> =
    | PushBackOp(x: T)
    | PushFrontOp(x: T)
    | PopBackOp
    | PopFrontOp
    | TryPopOp
    | CloseOp
    | SizeOp
    | EmptyOp
    | IsClosedOp

  /** What the caller sees from one call. */
  datatype Observation<T> =
    | Done
    | Failed(error: Q.Error)
    | Value(value: T)
    | NoValue
    | Count(n: nat)
    | Flag(b: bool)

  function Reverse<T>(s: seq<T>): (r: seq<T>)
    ensures |r| == |s|
    ensures forall i :: 0 <= i < |s| ==> r[i] == s[|s| - 1 - i]
  {
    if |s| == 0 then [] else Reverse(s[1..]) + [s[0]]
  }

  lemma ReverseReverse<T>(s: seq<T>)
    ensures Reverse(Reverse(s)) == s
  {
  }

  /** The deque: `front` in order, then `back` from its last element to its
      first. */
  datatype Deque<T> = Deque(front: seq<T>, back: seq<T>, closed: bool)

  /** The queue a deque stands for. */
  function Abs<T>(d: Deque<T>): (q: Q.Queue<T>)
    ensures |q.items| == |d.front| + |d.back| && q.closed == d.closed
  {
    Q.Queue(d.front + Reverse(d.back), d.closed)
  }

  /** Pops the first element, turning the back list round when the front
      one is empty. */
  function DequePopFront<T>(d: Deque<T>): Option<(T, Deque<T>)> {
    if |d.front| > 0 then Some((d.front[0], d.(front := d.front[1..])))
    else if |d.back| > 0 then
      var f := Reverse(d.back);
      Some((f[0], Deque(f[1..], [], d.closed)))
    else None
  }

  /** Pops the last element, symmetrically. */
  function DequePopBack<T>(d: Deque<T>): Option<(T, Deque<T>)> {
    if |d.back| > 0 then Some((d.back[0], d.(back := d.back[1..])))
    else if |d.front| > 0 then
      var b := Reverse(d.front);
      Some((b[0], Deque([], b[1..], d.closed)))
    else None
  }

  /** One call on the deque. */
  function DequeStep<T>(d: Deque<T>, op: Op<T>): (Observation<T>, Deque<T>) {
    match op
    case PushBackOp(x) => if d.closed then (Failed(Q.QueueClosed), d) else (Done, d.(back := [x] + d.back))
    case PushFrontOp(x) => if d.closed then (Failed(Q.QueueClosed), d) else (Done, d.(front := [x] + d.front))
    case PopFrontOp =>
      (match DequePopFront(d)
       case None => (Failed(Q.EmptyQueue), d)
       case Some((x, d')) => (Value(x), d'))
    case PopBackOp =>
      (match DequePopBack(d)
       case None => (Failed(Q.EmptyQueue), d)
       case Some((x, d')) => (Value(x), d'))
    case TryPopOp =>
      (match DequePopFront(d)
       case None => (NoValue, d)
       case Some((x, d')) => (Value(x), d'))
    case CloseOp => (Done, d.(closed := true))
    case SizeOp => (Count(|d.front| + |d.back|), d)
    case EmptyOp => (Flag(|d.front| + |d.back| == 0), d)
    case IsClosedOp => (Flag(d.closed), d)
  }

  /** One call on the queue model. */
  function QueueStep<T>(q: Q.Queue<T>, op: Op<T>): (Observation<T>, Q.Queue<T>) {
    match op
    case PushBackOp(x) =>
      (match Q.PushBack(q, x) case Err(e) => (Failed(e), q) case Ok(q') => (Done, q'))
    case PushFrontOp(x) =>
      (match Q.PushFront(q, x) case Err(e) => (Failed(e), q) case Ok(q') => (Done, q'))
    case PopFrontOp =>
      (match Q.PopFront(q) case Err(e) => (Failed(e), q) case Ok(p) => (Value(p.value), p.rest))
    case PopBackOp =>
      (match Q.PopBack(q) case Err(e) => (Failed(e), q) case Ok(p) => (Value(p.value), p.rest))
    case TryPopOp =>
      var (v, q') := Q.TryPopShared(q);
      (match v case None => (NoValue, q') case Some(x) => (Value(x), q'))
    case CloseOp => (Done, Q.Close(q))
    case SizeOp => (Count(Q.Size(q)), q)
    case EmptyOp => (Flag(Q.Empty(q)), q)
    case IsClosedOp => (Flag(Q.IsClosed(q)), q)
  }

  lemma PopFrontAgrees<T>(d: Deque<T>)
    ensures DequePopFront(d).None? <==> Q.PopFront(Abs(d)).Err?
    ensures DequePopFront(d).Some? ==>
              var (x, d') := DequePopFront(d).value;
              Q.PopFront(Abs(d)) == Ok(Q.Popped(x, Abs(d')))
  {
    var items := d.front + Reverse(d.back);
    if |d.front| > 0 {
      assert items[1..] == d.front[1..] + Reverse(d.back);
    } else if |d.back| > 0 {
      assert items == Reverse(d.back);
      assert Reverse(d.back)[1..] + Reverse([]) == Reverse(d.back)[1..];
    }
  }

  lemma PopBackAgrees<T>(d: Deque<T>)
    ensures DequePopBack(d).None? <==> Q.PopBack(Abs(d)).Err?
    ensures DequePopBack(d).Some? ==>
              var (x, d') := DequePopBack(d).value;
              Q.PopBack(Abs(d)) == Ok(Q.Popped(x, Abs(d')))
  {
    if |d.back| > 0 {
      PopBackFromBack(d);
    } else if |d.front| > 0 {
      PopBackFromFront(d);
    }
  }

  lemma PopBackFromBack<T>(d: Deque<T>)
    requires |d.back| > 0
    ensures Abs(d).items == Abs(d.(back := d.back[1..])).items + [d.back[0]]
  {
    assert Reverse(d.back) == Reverse(d.back[1..]) + [d.back[0]];
  }

  lemma PopBackFromFront<T>(d: Deque<T>)
    requires |d.back| == 0 && |d.front| > 0
    ensures var b := Reverse(d.front);
            Abs(d).items == Abs(Deque([], b[1..], d.closed)).items + [b[0]]
  {
    var b := Reverse(d.front);
    ReverseReverse(d.front);
    assert Reverse(b) == Reverse(b[1..]) + [b[0]];
    assert Abs(d).items == d.front;
  }

  lemma PushBackAgrees<T>(d: Deque<T>, x: T)
    ensures (d.front + Reverse([x] + d.back)) == (d.front + Reverse(d.back)) + [x]
  {
    assert Reverse([x] + d.back) == Reverse(d.back) + [x] by {
      assert ([x] + d.back)[1..] == d.back;
    }
  }

  /** Simulation: a call on the deque and the same call on the queue it
      stands for observe the same thing and end in corresponding states. */
  lemma StepAgrees<T>(d: Deque<T>, op: Op<T>)
    ensures QueueStep(Abs(d), op).0 == DequeStep(d, op).0
    ensures QueueStep(Abs(d), op).1 == Abs(DequeStep(d, op).1)
  {
    match op
    case PushBackOp(x) => PushBackAgrees(d, x);
    case PushFrontOp(x) =>
    case PopFrontOp => PopFrontAgrees(d);
    case PopBackOp => PopBackAgrees(d);
    case TryPopOp => PopFrontAgrees(d);
    case CloseOp =>
    case SizeOp =>
    case EmptyOp =>
    case IsClosedOp =>
  }

  /** The observations of a call sequence, and the state after it. */
  function RunQueue<T>(q: Q.Queue<T>, ops: seq<Op<T>>): (r: (seq<Observation<T>>, Q.Queue<T>))
    ensures |r.0| == |ops|
    decreases |ops|
  {
    if |ops| == 0 then ([], q)
    else
      var (o, q') := QueueStep(q, ops[0]);
      var (os, q'') := RunQueue(q', ops[1..]);
      ([o] + os, q'')
  }

  function RunDeque<T>(d: Deque<T>, ops: seq<Op<T>>): (r: (seq<Observation<T>>, Deque<T>))
    ensures |r.0| == |ops|
    decreases |ops|
  {
    if |ops| == 0 then ([], d)
    else
      var (o, d') := DequeStep(d, ops[0]);
      var (os, d'') := RunDeque(d', ops[1..]);
      ([o] + os, d'')
  }

  /** Any single-threaded call sequence observes the same results from the
      queue model and from the reference deque, and the two end in
      corresponding states. */
  lemma {:induction false} RunAgrees<T>(d: Deque<T>, ops: seq<Op<T>>)
    ensures RunQueue(Abs(d), ops).0 == RunDeque(d, ops).0
    ensures RunQueue(Abs(d), ops).1 == Abs(RunDeque(d, ops).1)
    decreases |ops|
  {
    if |ops| > 0 {
      StepAgrees(d, ops[0]);
      RunAgrees(DequeStep(d, ops[0]).1, ops[1..]);
    }
  }

  /** In particular, from a fresh queue and a fresh deque. */
  lemma FreshRunAgrees<T>(ops: seq<Op<T>>)
    ensures RunQueue(Q.New(), ops).0 == RunDeque(Deque([], [], false), ops).0
  {
    var d: Deque<T> := Deque([], [], false);
    assert Abs(d) == Q.New();
    RunAgrees(d, ops);
  }

  /** Every successful push adds one element and every successful pop
      removes one; failed calls and queries leave the count alone. */
  lemma StepCount<T>(q: Q.Queue<T>, op: Op<T>)
    ensures var (o, q') := QueueStep(q, op);
            && ((op.PushBackOp? || op.PushFrontOp?) && o == Done ==> |q'.items| == |q.items| + 1)
            && ((op.PopBackOp? || op.PopFrontOp? || op.TryPopOp?) && o.Value? ==> |q'.items| + 1 == |q.items|)
            && (o.Failed? || o.NoValue? || op.SizeOp? || op.EmptyOp? || op.IsClosedOp? || op.CloseOp?
                ==> q'.items == q.items)
  {
    match op
    case PopFrontOp =>
      if |q.items| > 0 { assert |Q.PopFront(q).value.rest.items| + 1 == |q.items|; }
    case PopBackOp =>
      if |q.items| > 0 { assert |Q.PopBack(q).value.rest.items| + 1 == |q.items|; }
    case TryPopOp =>
      if |q.items| > 0 { assert |Q.PopFront(q).value.rest.items| + 1 == |q.items|; }
    case _ =>
  }
}
