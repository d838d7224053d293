/** The slot pool of include/pool.hpp: `resize(n)` prepares `n` slots with
    no objects in them; `acquire` builds an object in a free slot and
    returns a handle (`Pool::Object`) that gives the slot back when it is
    released or destroyed. Free slots sit on a LIFO stack of indices. The
    raw storage, placement new and destructor calls are abstracted: a slot
    holds `Some(object)` while in use and `None` otherwise. */
module SlotPool {
  import opened Wrappers

  datatype Error =
    | NoFreeObject   // "Pool::acquire: no free object available"
    | InvalidAccess  // "Pool::getObjectAt: invalid access"
    | NullHandle     // dereferencing a released or moved-from handle: undefined behaviour (a null pool pointer)

  datatype Pool<T> = Pool(slots: seq<Option<T>>, free: seq<nat>)

  /** Whether slot `i` holds a live object (`_in_use[i]`). */
  predicate InUse<T>(p: Pool<T>, i: nat) {
    i < |p.slots| && p.slots[i].Some?
  }

  /** The free stack lists every unused slot, each exactly once, and
      nothing else. */
  predicate Valid<T>(p: Pool<T>) {
    && (forall k :: 0 <= k < |p.free| ==> p.free[k] < |p.slots| && p.slots[p.free[k]].None?)
    && (forall a, b :: 0 <= a < b < |p.free| ==> p.free[a] != p.free[b])
    && (forall i :: 0 <= i < |p.slots| && p.slots[i].None? ==> i in p.free)
  }

  /** `n-1, n-2, …, 0`: the stack `resize` loads, so that 0 is on top. */
  function Countdown(n: nat): (r: seq<nat>)
    ensures |r| == n && forall k :: 0 <= k < n ==> r[k] == n - 1 - k
  {
    seq(n, k requires 0 <= k < n => n - 1 - k)
  }

  /** The constructor. */
  function New<T>(): Pool<T> {
    Pool([], [])
  }

  /** A new pool is valid, with no slot and no free index. */
  lemma NewIsEmpty<T>(p: Pool<T>)
    requires p == New()
    ensures Valid(p) && |p.slots| == 0 && p.free == []
  {
  }

  /** `clear`: every object destroyed and every slot gone. */
  function Clear<T>(p: Pool<T>): (r: Pool<T>)
    ensures r == New()
  {
    Pool([], [])
  }

  /** `resize(n)`: clears first, so earlier objects are discarded, then
      prepares `n` empty slots, all free, with slot 0 on top of the stack. */
  function Resize<T>(p: Pool<T>, n: nat): (r: Pool<T>)
    ensures Valid(r) && |r.slots| == n && r.free == Countdown(n)
    ensures forall i :: 0 <= i < n ==> !InUse(r, i)
  {
    var r := Pool(seq(n, _ => None), Countdown(n));
    forall i | 0 <= i < n
      ensures i in r.free
    {
      assert r.free[n - 1 - i] == i;
    }
    r
  }

  /** A successful acquire: the pool afterwards and the slot's index. */
  datatype Acquired<T> = Acquired(pool: Pool<T>, index: nat)

  /** `acquire(args…)`: throws when the stack is empty; otherwise pops the
      top index, builds `x` there and marks the slot in use. */
  function Acquire<T>(p: Pool<T>, x: T): (r: Result<Acquired<T>, Error>)
    requires Valid(p)
    ensures r.Err? <==> |p.free| == 0
    ensures r.Err? ==> r.error == NoFreeObject
    ensures r.Ok? ==>
              && Valid(r.value.pool)
              && r.value.index == p.free[|p.free| - 1]
              && !InUse(p, r.value.index)
              && r.value.pool.free == p.free[..|p.free| - 1]
              && r.value.pool.slots == p.slots[r.value.index := Some(x)]
  {
    if |p.free| == 0 then Err(NoFreeObject)
    else
      var idx := p.free[|p.free| - 1];
      var q := Pool(p.slots[idx := Some(x)], p.free[..|p.free| - 1]);
      assert forall k :: 0 <= k < |q.free| ==> q.free[k] != idx;
      assert forall i :: 0 <= i < |q.slots| && q.slots[i].None? ==> i in q.free by {
        forall i | 0 <= i < |q.slots| && q.slots[i].None?
          ensures i in q.free
        {
          assert i != idx && p.slots[i].None?;
          var k :| 0 <= k < |p.free| && p.free[k] == i;
          assert k < |p.free| - 1;
          assert q.free[k] == i;
        }
      }
      Ok(Acquired(q, idx))
  }

  /** The pool's `release(idx)`: nothing happens for an index out of range
      or a slot not in use; otherwise the object is destroyed and the index
      pushed back on the stack. */
  function Release<T>(p: Pool<T>, idx: nat): (r: Pool<T>)
    requires Valid(p)
    ensures Valid(r)
    ensures !InUse(p, idx) ==> r == p
    ensures InUse(p, idx) ==> r.slots == p.slots[idx := None] && r.free == p.free + [idx]
  {
    if idx >= |p.slots| || p.slots[idx].None? then p
    else
      var q := Pool(p.slots[idx := None], p.free + [idx]);
      assert forall k :: 0 <= k < |p.free| ==> p.free[k] != idx;
      assert forall i :: 0 <= i < |q.slots| && q.slots[i].None? ==> i in q.free by {
        forall i | 0 <= i < |q.slots| && q.slots[i].None?
          ensures i in q.free
        {
          if i != idx {
            var k :| 0 <= k < |p.free| && p.free[k] == i;
            assert q.free[k] == i;
          } else {
            assert q.free[|p.free|] == i;
          }
        }
      }
      q
  }

  /** `getObjectAt(idx)`: the object in a slot in use, otherwise an error. */
  function GetObjectAt<T>(p: Pool<T>, idx: nat): (r: Result<T, Error>)
    ensures r.Err? <==> !InUse(p, idx)
    ensures r.Err? ==> r.error == InvalidAccess
    ensures r.Ok? ==> p.slots[idx] == Some(r.value)
  {
    if idx >= |p.slots| || p.slots[idx].None? then Err(InvalidAccess) else Ok(p.slots[idx].value)
  }

  /** A released slot is the next one handed out. */
  lemma ReleaseThenAcquireReuses<T>(p: Pool<T>, idx: nat, x: T)
    requires Valid(p) && InUse(p, idx)
    ensures Acquire(Release(p, idx), x).Ok?
    ensures Acquire(Release(p, idx), x).value.index == idx
  {
  }

  /** Acquires in a row, one object each, stopping at the first failure. */
  function AcquireAll<T>(p: Pool<T>, xs: seq<T>): (r: Result<(Pool<T>, seq<nat>), Error>)
    requires Valid(p)
    ensures r.Ok? ==> Valid(r.value.0) && |r.value.1| == |xs|
    decreases |xs|
  {
    if |xs| == 0 then Ok((p, []))
    else
      match Acquire(p, xs[0])
      case Err(e) => Err(e)
      case Ok(a) =>
        match AcquireAll(a.pool, xs[1..])
        case Err(e) => Err(e)
        case Ok((q, ids)) => Ok((q, [a.index] + ids))
  }

  /** The stack after `k` of the `n` slots were handed out: `n-1, …, k`. */
  function Down(n: nat, k: nat): (r: seq<nat>)
    requires k <= n
    ensures |r| == n - k && forall j :: 0 <= j < n - k ==> r[j] == n - 1 - j
  {
    seq(n - k, j requires 0 <= j < n - k => n - 1 - j)
  }

  lemma AcquireStep<T>(p: Pool<T>, x: T, n: nat, k: nat)
    requires Valid(p) && k < n && p.free == Down(n, k)
    ensures Acquire(p, x).Ok?
    ensures Acquire(p, x).value.index == k
    ensures Acquire(p, x).value.pool.free == Down(n, k + 1)
  {
    assert p.free[..|p.free| - 1] == Down(n, k + 1);
  }

  lemma {:induction false} AcquireCountdown<T>(p: Pool<T>, xs: seq<T>, n: nat, k: nat)
    requires Valid(p) && k + |xs| <= n && p.free == Down(n, k)
    ensures AcquireAll(p, xs).Ok?
    ensures forall i :: 0 <= i < |xs| ==> AcquireAll(p, xs).value.1[i] == k + i
    decreases |xs|
  {
    if |xs| > 0 {
      AcquireStep(p, xs[0], n, k);
      var a := Acquire(p, xs[0]).value;
      AcquireCountdown(a.pool, xs[1..], n, k + 1);
      var rest := AcquireAll(a.pool, xs[1..]).value.1;
      assert AcquireAll(p, xs).value.1 == [k] + rest;
    }
  }

  /** After `resize(n)`, successive acquires hand out slots 0, 1, 2, … */
  lemma ResizeThenAcquireInOrder<T>(p: Pool<T>, n: nat, xs: seq<T>)
    requires |xs| <= n
    ensures AcquireAll(Resize(p, n), xs).Ok?
    ensures forall i :: 0 <= i < |xs| ==> AcquireAll(Resize(p, n), xs).value.1[i] == i
  {
    assert Countdown(n) == Down(n, 0);
    AcquireCountdown(Resize(p, n), xs, n, 0);
  }

  /** Acquiring more objects than there are slots fails. */
  lemma AcquireBeyondCapacity<T>(p: Pool<T>, x: T)
    requires Valid(p) && forall i :: 0 <= i < |p.slots| ==> InUse(p, i)
    ensures Acquire(p, x) == Err(NoFreeObject)
  {
    if |p.free| > 0 {
      assert p.slots[p.free[0]].None?;
    }
  }

  // ---- Pool::Object ----

  /** A handle either owns a slot or, default-built, released or moved
      from, owns nothing. */
  datatype Handle = Detached | Attached(index: nat)

  /** `Object::release` (also what the destructor does): gives an owned slot
      back and detaches; on a detached handle it does nothing, so a second
      release is harmless. */
  function HandleRelease<T>(h: Handle, p: Pool<T>): (r: (Handle, Pool<T>))
    requires Valid(p)
    ensures r.0 == Detached && Valid(r.1)
    ensures h.Detached? ==> r.1 == p
    ensures h.Attached? ==> r.1 == Release(p, h.index)
  {
    match h
    case Detached => (Detached, p)
    case Attached(i) => (Detached, Release(p, i))
  }

  lemma ReleaseIdempotent<T>(h: Handle, p: Pool<T>)
    requires Valid(p)
    ensures var (h1, p1) := HandleRelease(h, p);
            HandleRelease(h1, p1) == (h1, p1)
  {
  }

  /** Move construction: the new handle owns what the source owned and the
      source owns nothing. */
  function Move(src: Handle): (r: (Handle, Handle))
    ensures r.0 == src && r.1 == Detached
  {
    (src, Detached)
  }

  /** Move assignment into `dst`, which first releases what it owned;
      `aliased` is self-assignment, which changes nothing. The result is
      the new `dst`, the new source and the pool. */
  function MoveAssign<T>(dst: Handle, src: Handle, p: Pool<T>, aliased: bool): (r: (Handle, Handle, Pool<T>))
    requires Valid(p)
    ensures Valid(r.2)
    ensures aliased ==> r == (dst, src, p)
    ensures !aliased ==> r.0 == src && r.1 == Detached && r.2 == HandleRelease(dst, p).1
  {
    if aliased then (dst, src, p)
    else
      var (_, p1) := HandleRelease(dst, p);
      (src, Detached, p1)
  }

  /** `operator*` and `operator->`: the object of the owned slot. On a
      detached handle the source calls `getObjectAt` through a null pool
      pointer, which is undefined behaviour; the model makes that case the
      distinct error `NullHandle`. */
  function Deref<T>(h: Handle, p: Pool<T>): (r: Result<T, Error>)
    ensures h.Detached? ==> r == Err(NullHandle)
    ensures h.Attached? ==> r == GetObjectAt(p, h.index)
  {
    match h
    case Detached => Err(NullHandle)
    case Attached(i) => GetObjectAt(p, i)
  }

  /** The example program: a pool of two serves 10 and 20 at once; when
      both handles go out of scope (the later one first) a third acquire
      succeeds, reusing slot 0, and holds 30. */
  lemma PoolExample(p0: Pool<int>)
    ensures var p := Resize(p0, 2);
            var a1 := Acquire(p, 10);
            a1.Ok? && a1.value.index == 0 &&
            var a2 := Acquire(a1.value.pool, 20);
            a2.Ok? && a2.value.index == 1 &&
            Deref(Attached(0), a2.value.pool) == Ok(10) &&
            Deref(Attached(1), a2.value.pool) == Ok(20) &&
            var p3 := HandleRelease(Attached(0), HandleRelease(Attached(1), a2.value.pool).1).1;
            var a3 := Acquire(p3, 30);
            a3.Ok? && a3.value.index == 0 && Deref(Attached(0), a3.value.pool) == Ok(30)
  {
    var p := Resize(p0, 2);
    assert p.free == [1, 0];
  }
}
