/** The earlier `ft::ThreadSafeQueue` of old/include/thread_safe_queue.hpp:
    a deque with no closed state, so pushes never fail, and pops that throw
    `std::runtime_error("Queue empty!")` on an empty queue. As for the
    current queue, each call is one atomic step. */
module OldQueue {
  import opened Wrappers
  import Q = ThreadSafeQueue

  datatype Queue<T> = Queue(items: seq<T>)

  /** "Queue empty!" */
  datatype Error = QueueEmpty

  datatype Popped<T> = Popped(value: T, rest: Queue<T>)

  function New<T>(): Queue<T> {
    Queue([])
  }

  /** A new queue is empty. */
  lemma NewIsEmpty<T>(q: Queue<T>)
    requires q == New()
    ensures q.items == []
  {
  }

  function PushBack<T>(q: Queue<T>, x: T): (r: Queue<T>)
    ensures r.items == q.items + [x]
  {
    Queue(q.items + [x])
  }

  function PushFront<T>(q: Queue<T>, x: T): (r: Queue<T>)
    ensures r.items == [x] + q.items
  {
    Queue([x] + q.items)
  }

  function PopBack<T>(q: Queue<T>): (r: Result<Popped<T>, Error>)
    ensures r.Err? <==> |q.items| == 0
    ensures r.Ok? ==> r.value.rest.items + [r.value.value] == q.items
  {
    if |q.items| == 0 then Err(QueueEmpty)
    else Ok(Popped(q.items[|q.items| - 1], Queue(q.items[..|q.items| - 1])))
  }

  function PopFront<T>(q: Queue<T>): (r: Result<Popped<T>, Error>)
    ensures r.Err? <==> |q.items| == 0
    ensures r.Ok? ==> [r.value.value] + r.value.rest.items == q.items
  {
    if |q.items| == 0 then Err(QueueEmpty)
    else Ok(Popped(q.items[0], Queue(q.items[1..])))
  }

  /** Every push adds exactly one element and every successful pop removes
      exactly one. */
  lemma LengthChanges<T>(q: Queue<T>, x: T)
    ensures |PushBack(q, x).items| == |q.items| + 1
    ensures |PushFront(q, x).items| == |q.items| + 1
    ensures PopBack(q).Ok? ==> |PopBack(q).value.rest.items| + 1 == |q.items|
    ensures PopFront(q).Ok? ==> |PopFront(q).value.rest.items| + 1 == |q.items|
  {
  }

  /** The test program: popping a fresh queue throws; after `push_back(10)`
      and `push_front(5)`, `pop_front` gives 5 and `pop_back` gives 10. */
  lemma QueueTest()
    ensures PopFront(New<int>()).Err?
    ensures var q := PushFront(PushBack(New<int>(), 10), 5);
            && PopFront(q).Ok? && PopFront(q).value.value == 5
            && PopBack(PopFront(q).value.rest).Ok?
            && PopBack(PopFront(q).value.rest).value.value == 10
  {
    var q := PushFront(PushBack(New<int>(), 10), 5);
    assert q.items == [5, 10];
  }

  /** The earlier queue behaves like a current queue that is never closed:
      the same pushes succeed with the same contents and the same pops give
      the same elements. */
  lemma AgreesWithOpenQueue<T>(q: Queue<T>, x: T)
    ensures Q.PushBack(Q.Queue(q.items, false), x) == Ok(Q.Queue(PushBack(q, x).items, false))
    ensures Q.PushFront(Q.Queue(q.items, false), x) == Ok(Q.Queue(PushFront(q, x).items, false))
    ensures PopFront(q).Err? <==> Q.PopFront(Q.Queue(q.items, false)).Err?
    ensures PopFront(q).Ok? ==>
              Q.PopFront(Q.Queue(q.items, false))
              == Ok(Q.Popped(PopFront(q).value.value, Q.Queue(PopFront(q).value.rest.items, false)))
    ensures PopBack(q).Ok? ==>
              Q.PopBack(Q.Queue(q.items, false))
              == Ok(Q.Popped(PopBack(q).value.value, Q.Queue(PopBack(q).value.rest.items, false)))
  {
  }
}
