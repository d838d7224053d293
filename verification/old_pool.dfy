/** The earlier `ft::Pool` of old/include/pool.hpp. `resize(n)` allocates
    `n` more raw blocks and appends them to the free list; `acquire` builds
    an object in the last free block and records the block as
    constructed; the returned `Object` gives the block back once, on
    `release` or destruction. Blocks are modelled by their allocation
    number (`0, 1, 2, …`) instead of by address. */
module OldPool {
  import opened Wrappers

  /** "No objects available in pool" */
  datatype Error = NoObjectsAvailable

  /** `blocks`: how many blocks `_rawObjects` holds; `free`: the free
      list `_objects`; `constructed`: the blocks holding an object, with the
      object. */
  datatype Pool<T> = Pool(blocks: nat, free: seq<nat>, constructed: map<nat, T>)

  /** Every allocated block is either free or constructed, never both, and
      the free list repeats nothing. */
  predicate Valid<T>(p: Pool<T>) {
    && (forall k :: 0 <= k < |p.free| ==> p.free[k] < p.blocks && p.free[k] !in p.constructed)
    && (forall a, b :: 0 <= a < b < |p.free| ==> p.free[a] != p.free[b])
    && (forall id :: id in p.constructed ==> id < p.blocks)
    && (forall id :: 0 <= id < p.blocks && id !in p.constructed ==> id in p.free)
  }

  function New<T>(): Pool<T> {
    Pool(0, [], map[])
  }

  /** A new pool is valid and has allocated no block. */
  lemma NewIsEmpty<T>(p: Pool<T>)
    requires p == New()
    ensures Valid(p) && p.blocks == 0 && p.free == [] && p.constructed == map[]
  {
  }

  /** The blocks `from, from+1, …, from+n-1`. */
  function Fresh(from: nat, n: nat): (r: seq<nat>)
    ensures |r| == n && forall k :: 0 <= k < n ==> r[k] == from + k
  {
    seq(n, k requires 0 <= k < n => from + k)
  }

  /** `resize(n)`: appends `n` newly allocated blocks to the free list,
      keeping everything already there. */
  function Resize<T>(p: Pool<T>, n: nat): (r: Pool<T>)
    requires Valid(p)
    ensures Valid(r)
    ensures r.blocks == p.blocks + n && r.constructed == p.constructed
    ensures r.free == p.free + Fresh(p.blocks, n)
  {
    var r := Pool(p.blocks + n, p.free + Fresh(p.blocks, n), p.constructed);
    forall id | 0 <= id < r.blocks && id !in r.constructed
      ensures id in r.free
    {
      if id >= p.blocks {
        assert r.free[|p.free| + (id - p.blocks)] == id;
      } else {
        var k :| 0 <= k < |p.free| && p.free[k] == id;
        assert r.free[k] == id;
      }
    }
    r
  }

  /** The handle: the block it points at, and whether it still has to give
      it back. */
  datatype Object = Object(ptr: Option<nat>, active: bool)

  datatype Acquired<T> = Acquired(pool: Pool<T>, obj: Object)

  /** `acquire(args…)`: throws on an empty free list; otherwise takes the
      last free block, builds `x` in it and records it as constructed. */
  function Acquire<T>(p: Pool<T>, x: T): (r: Result<Acquired<T>, Error>)
    requires Valid(p)
    ensures r.Err? <==> |p.free| == 0
    ensures r.Ok? ==>
              var id := p.free[|p.free| - 1];
              && Valid(r.value.pool)
              && r.value.obj == Object(Some(id), true)
              && r.value.pool.free == p.free[..|p.free| - 1]
              && r.value.pool.constructed == p.constructed[id := x]
              && r.value.pool.blocks == p.blocks
  {
    if |p.free| == 0 then Err(NoObjectsAvailable)
    else
      var id := p.free[|p.free| - 1];
      var q := Pool(p.blocks, p.free[..|p.free| - 1], p.constructed[id := x]);
      assert forall k :: 0 <= k < |q.free| ==> q.free[k] != id;
      forall i | 0 <= i < q.blocks && i !in q.constructed
        ensures i in q.free
      {
        var k :| 0 <= k < |p.free| && p.free[k] == i;
        assert k != |p.free| - 1;
        assert q.free[k] == i;
      }
      Ok(Acquired(q, Object(Some(id), true)))
  }

  /** `Object::release`: only while active and pointing somewhere, destroys
      the object, drops the block from the constructed set, appends it to
      the free list and deactivates the handle. */
  function Release<T>(o: Object, p: Pool<T>): (r: (Object, Pool<T>))
    ensures r.0.ptr == o.ptr && (o.active && o.ptr.Some? ==> !r.0.active)
    ensures !(o.active && o.ptr.Some?) ==> r == (o, p)
    ensures o.active && o.ptr.Some? ==>
              r.1 == Pool(p.blocks, p.free + [o.ptr.value], p.constructed - {o.ptr.value})
  {
    if o.active && o.ptr.Some? then
      (o.(active := false), Pool(p.blocks, p.free + [o.ptr.value], p.constructed - {o.ptr.value}))
    else (o, p)
  }

  /** Releasing a handle whose block is constructed keeps the invariant. */
  lemma ReleaseKeepsValid<T>(o: Object, p: Pool<T>)
    requires Valid(p)
    requires o.active && o.ptr.Some? ==> o.ptr.value in p.constructed
    ensures Valid(Release(o, p).1)
  {
    if o.active && o.ptr.Some? {
      var id := o.ptr.value;
      var q := Release(o, p).1;
      assert forall k :: 0 <= k < |p.free| ==> p.free[k] != id;
      forall i | 0 <= i < q.blocks && i !in q.constructed
        ensures i in q.free
      {
        if i == id {
          assert q.free[|p.free|] == i;
        } else {
          var k :| 0 <= k < |p.free| && p.free[k] == i;
          assert q.free[k] == i;
        }
      }
    }
  }

  /** A second release does nothing. */
  lemma ReleaseOnce<T>(o: Object, p: Pool<T>)
    ensures var (o1, p1) := Release(o, p);
            Release(o1, p1) == (o1, p1)
  {
  }

  /** Move construction: the new handle takes the pointer and the duty to
      release; the source is emptied and deactivated. */
  function Move(src: Object): (r: (Object, Object))
    ensures r.0 == src && r.1 == Object(None, false)
  {
    (src, Object(None, false))
  }

  /** Move assignment: `dst` releases what it held, then takes over `src`;
      self-assignment (`aliased`) changes nothing. */
  function MoveAssign<T>(dst: Object, src: Object, p: Pool<T>, aliased: bool): (r: (Object, Object, Pool<T>))
    ensures aliased ==> r == (dst, src, p)
    ensures !aliased ==> r.0 == src && r.1 == Object(None, false) && r.2 == Release(dst, p).1
  {
    if aliased then (dst, src, p)
    else (src, Object(None, false), Release(dst, p).1)
  }

  /** After a move only the destination gives the block back: releasing
      the source does nothing, releasing the destination frees the block. */
  lemma MovedFromReleasesNothing<T>(src: Object, p: Pool<T>)
    requires src.active && src.ptr.Some?
    ensures var (dst, moved) := Move(src);
            && Release(moved, p) == (moved, p)
            && src.ptr.value in Release(dst, p).1.free
            && src.ptr.value !in Release(dst, p).1.constructed
  {
    var q := Release(src, p).1;
    assert q.free[|p.free|] == src.ptr.value;
  }

  /** Resizing twice accumulates: the free list grows by both amounts. */
  lemma ResizeAccumulates<T>(p: Pool<T>, m: nat, n: nat)
    requires Valid(p)
    ensures |Resize(Resize(p, m), n).free| == |p.free| + m + n
    ensures Resize(Resize(p, m), n).blocks == p.blocks + m + n
  {
  }
}
