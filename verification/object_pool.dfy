/** The object pool declared in includes/data_structures/pool.hpp. Its
    method bodies live in pool.tpp, which is not part of this model, so
    the operations follow the declared contracts: the capacity only grows,
    `resize` builds default objects and marks them available, `acquire`
    hands out an available object (rebuilt from arguments if it is given
    any) and throws when there is none, and the returned `Object` hands it
    back when it is destroyed. Which available object `acquire` picks is
    not stated; this model takes the one with the lowest index. */
module ObjectPool {
  import opened Wrappers

  datatype Error =
    | CannotShrink     // resize to a smaller capacity
    | NoneAvailable    // acquire with every object taken
    | InvalidObject    // "Pool::Object: objeto no válido para dereferencia"

  datatype Pool<T> = Pool(objects: seq<T>, available: seq<bool>)

  predicate Valid<T>(p: Pool<T>) {
    |p.objects| == |p.available|
  }

  /** How many entries are true. */
  function CountTrue(s: seq<bool>): (r: nat)
    ensures r <= |s|
  {
    if |s| == 0 then 0 else (if s[0] then 1 else 0) + CountTrue(s[1..])
  }

  lemma {:induction false} CountTrueAppend(s: seq<bool>, t: seq<bool>)
    ensures CountTrue(s + t) == CountTrue(s) + CountTrue(t)
    decreases |s|
  {
    if |s| == 0 {
      assert s + t == t;
    } else {
      assert (s + t)[1..] == s[1..] + t;
      CountTrueAppend(s[1..], t);
    }
  }

  lemma {:induction false} CountTrueAllTrue(n: nat)
    ensures CountTrue(seq(n, _ => true)) == n
  {
    if n > 0 {
      assert seq(n, _ => true)[1..] == seq(n - 1, _ => true);
      CountTrueAllTrue(n - 1);
    }
  }

  /** Setting one entry changes the count by one exactly when it flips. */
  lemma {:induction false} CountTrueUpdate(s: seq<bool>, i: nat, b: bool)
    requires i < |s|
    ensures CountTrue(s[i := b]) == CountTrue(s) - (if s[i] then 1 else 0) + (if b then 1 else 0)
    decreases |s|
  {
    if i == 0 {
      assert s[i := b][1..] == s[1..];
    } else {
      assert s[i := b][1..] == s[1..][i - 1 := b];
      CountTrueUpdate(s[1..], i - 1, b);
    }
  }

  /** The lowest available index, if any. */
  function FirstAvailable(s: seq<bool>): (r: Option<nat>)
    ensures r.None? <==> forall i :: 0 <= i < |s| ==> !s[i]
    ensures r.Some? ==> r.value < |s| && s[r.value] && forall j :: 0 <= j < r.value ==> !s[j]
  {
    if |s| == 0 then None
    else if s[0] then Some(0)
    else
      match FirstAvailable(s[1..])
      case None => None
      case Some(i) => Some(i + 1)
  }

  /** The constructor. */
  function New<T>(): Pool<T> {
    Pool([], [])
  }

  /** A new pool is valid, with capacity 0 and nothing available. */
  lemma NewIsEmpty<T>(p: Pool<T>)
    requires p == New()
    ensures Valid(p) && GetCapacity(p) == 0 && GetAvailableCount(p) == 0
  {
  }

  /** `get_capacity`. */
  function GetCapacity<T>(p: Pool<T>): nat {
    |p.objects|
  }

  /** `get_available_count`: the objects not acquired. */
  function GetAvailableCount<T>(p: Pool<T>): nat {
    CountTrue(p.available)
  }

  /** `resize(new_capacity)`: throws when asked to shrink; otherwise builds
      `dflt` objects for the added capacity, all available, and leaves the
      existing ones as they are. */
  function Resize<T>(p: Pool<T>, newCapacity: nat, dflt: T): (r: Result<Pool<T>, Error>)
    requires Valid(p)
    ensures r.Err? <==> newCapacity < GetCapacity(p)
    ensures r.Err? ==> r.error == CannotShrink
    ensures r.Ok? ==>
              var added := newCapacity - GetCapacity(p);
              && Valid(r.value)
              && GetCapacity(r.value) == newCapacity
              && r.value.objects[..GetCapacity(p)] == p.objects
              && r.value.available[..GetCapacity(p)] == p.available
              && (forall i :: GetCapacity(p) <= i < newCapacity ==>
                    r.value.objects[i] == dflt && r.value.available[i])
              && GetAvailableCount(r.value) == GetAvailableCount(p) + added
  {
    if newCapacity < |p.objects| then Err(CannotShrink)
    else
      var added := newCapacity - |p.objects|;
      CountTrueAppend(p.available, seq(added, _ => true));
      CountTrueAllTrue(added);
      Ok(Pool(p.objects + seq(added, _ => dflt), p.available + seq(added, _ => true)))
  }

  /** The handle: invalid (moved from or never given an object) or holding
      one object of the pool. */
  datatype Handle = Invalid | Holds(index: nat)

  datatype Acquired<T> = Acquired(pool: Pool<T>, handle: Handle)

  /** `acquire()`: hands out a default-built object; throws when none is
      available. */
  function Acquire<T>(p: Pool<T>): (r: Result<Acquired<T>, Error>)
    requires Valid(p)
    ensures r.Err? <==> GetAvailableCount(p) == 0
    ensures r.Err? ==> r.error == NoneAvailable
    ensures r.Ok? ==>
              && r.value.handle.Holds?
              && var i := r.value.handle.index;
              && i < GetCapacity(p) && p.available[i]
              && r.value.pool == Pool(p.objects, p.available[i := false])
              && GetAvailableCount(r.value.pool) + 1 == GetAvailableCount(p)
  {
    match FirstAvailable(p.available)
    case None =>
      NoneAvailableMeansZero(p.available);
      Err(NoneAvailable)
    case Some(i) =>
      CountTrueUpdate(p.available, i, false);
      Ok(Acquired(Pool(p.objects, p.available[i := false]), Holds(i)))
  }

  /** `acquire(args…)`: as `acquire()`, with the object rebuilt as `x`. */
  function AcquireWith<T>(p: Pool<T>, x: T): (r: Result<Acquired<T>, Error>)
    requires Valid(p)
    ensures r.Err? <==> GetAvailableCount(p) == 0
    ensures r.Err? ==> r.error == NoneAvailable
    ensures r.Ok? ==>
              && r.value.handle.Holds?
              && var i := r.value.handle.index;
              && i < GetCapacity(p) && p.available[i]
              && r.value.pool == Pool(p.objects[i := x], p.available[i := false])
              && GetAvailableCount(r.value.pool) + 1 == GetAvailableCount(p)
  {
    match Acquire(p)
    case Err(e) => Err(e)
    case Ok(a) =>
      var i := a.handle.index;
      Ok(Acquired(Pool(p.objects[i := x], a.pool.available), a.handle))
  }

  lemma {:induction false} NoneAvailableMeansZero(s: seq<bool>)
    requires forall i :: 0 <= i < |s| ==> !s[i]
    ensures CountTrue(s) == 0
    decreases |s|
  {
    if |s| > 0 {
      assert !s[0];
      NoneAvailableMeansZero(s[1..]);
    }
  }

  /** The pool's `release(index)`, run by the handle's destructor: the
      object is available again. An index outside the pool changes nothing. */
  function Release<T>(p: Pool<T>, index: nat): (r: Pool<T>)
    requires Valid(p)
    ensures Valid(r) && GetCapacity(r) == GetCapacity(p) && r.objects == p.objects
    ensures index < GetCapacity(p) ==> r.available == p.available[index := true]
    ensures index >= GetCapacity(p) ==> r == p
    ensures index < GetCapacity(p) && !p.available[index] ==>
              GetAvailableCount(r) == GetAvailableCount(p) + 1
  {
    if index < |p.available| then
      CountTrueUpdate(p.available, index, true);
      Pool(p.objects, p.available[index := true])
    else p
  }

  /** Destroying a handle: a valid one gives its object back. */
  function Destroy<T>(h: Handle, p: Pool<T>): (r: Pool<T>)
    requires Valid(p)
    ensures Valid(r)
    ensures h.Invalid? ==> r == p
    ensures h.Holds? ==> r == Release(p, h.index)
  {
    match h
    case Invalid => p
    case Holds(i) => Release(p, i)
  }

  /** Move construction: the source no longer holds anything, so only the
      destination gives the object back. */
  function Move(src: Handle): (r: (Handle, Handle))
    ensures r.0 == src && r.1 == Invalid
  {
    (src, Invalid)
  }

  /** `operator*` and `operator->`: throws on an invalid handle. */
  function Deref<T>(h: Handle, p: Pool<T>): (r: Result<T, Error>)
    requires Valid(p)
    ensures h.Invalid? || h.index >= GetCapacity(p) <==> r.Err?
    ensures r.Err? ==> r.error == InvalidObject
    ensures r.Ok? ==> r.value == p.objects[h.index]
  {
    match h
    case Invalid => Err(InvalidObject)
    case Holds(i) => if i < |p.objects| then Ok(p.objects[i]) else Err(InvalidObject)
  }

  /** Acquiring an object and destroying its handle leaves the pool as it
      was, apart from the object's new value. */
  lemma AcquireThenDestroy<T>(p: Pool<T>, x: T)
    requires Valid(p) && GetAvailableCount(p) > 0
    ensures var a := AcquireWith(p, x).value;
            && Deref(a.handle, a.pool) == Ok(x)
            && Destroy(a.handle, a.pool) == Pool(p.objects[a.handle.index := x], p.available)
  {
    var a := AcquireWith(p, x).value;
    var i := a.handle.index;
    assert p.available[i := false][i := true] == p.available;
  }

  /** A pool never has more available objects than its capacity. */
  lemma AvailableWithinCapacity<T>(p: Pool<T>)
    requires Valid(p)
    ensures GetAvailableCount(p) <= GetCapacity(p)
  {
  }
}
