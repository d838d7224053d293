/** The per-type single instance declared in
    includes/design_patterns/singleton.hpp. Its bodies live in
    singleton.tpp, which is not part of this model, so the operations
    follow the declared contracts. The static `instance_` pointer is the
    state, passed in and returned; the object `instantiate` would build
    from its arguments is given as `x`. Both errors are
    `std::runtime_error`. */
module Singleton {
  import opened Wrappers

  datatype Error = NotCreated | AlreadyCreated

  /** The static slot: no instance, or the one instance. */
  datatype Slot<T> = Empty | Holds(instance: T)

  /** `instance()`: throws while there is no instance. */
  function Instance<T>(s: Slot<T>): (r: Result<T, Error>)
    ensures r.Err? <==> !IsInstantiated(s)
    ensures r.Err? ==> r.error == NotCreated
    ensures r.Ok? ==> s == Holds(r.value)
  {
    match s
    case Empty => Err(NotCreated)
    case Holds(x) => Ok(x)
  }

  /** `instantiate(args…)`: throws when an instance exists, which stays;
      otherwise the new object becomes the instance. */
  function Instantiate<T>(s: Slot<T>, x: T): (r: Result<Slot<T>, Error>)
    ensures r.Err? <==> IsInstantiated(s)
    ensures r.Err? ==> r.error == AlreadyCreated
    ensures r.Ok? ==> r.value == Holds(x) && Instance(r.value) == Ok(x)
  {
    if s.Holds? then Err(AlreadyCreated) else Ok(Holds(x))
  }

  /** `destroy()`: drops the instance; with none it does nothing. */
  function Destroy<T>(s: Slot<T>): (r: Slot<T>)
    ensures !IsInstantiated(r)
    ensures !IsInstantiated(s) ==> r == s
  {
    Empty
  }

  function IsInstantiated<T>(s: Slot<T>): bool {
    s.Holds?
  }

  /** `is_instantiated` follows the calls: false at the start and after
      `destroy`, true after a successful `instantiate`, and true exactly
      when `instance` would not throw. */
  lemma InstantiatedTracksCalls<T>(s: Slot<T>, x: T)
    ensures !IsInstantiated(Slot<T>.Empty) && !IsInstantiated(Destroy(s))
    ensures Instantiate(s, x).Ok? ==> IsInstantiated(Instantiate(s, x).value)
    ensures IsInstantiated(s) <==> Instance(s).Ok?
  {
  }

  /** Whatever happened before, destroying makes room for exactly one new
      instance: the first instantiate succeeds and a second is refused,
      leaving the first. */
  lemma DestroyThenInstantiate<T>(s: Slot<T>, x: T, y: T)
    ensures Instantiate(Destroy(s), x) == Ok(Holds(x))
    ensures Instantiate(Instantiate(Destroy(s), x).value, y) == Err(AlreadyCreated)
    ensures Instance(Instantiate(Destroy(s), x).value) == Ok(x)
  {
  }
}
