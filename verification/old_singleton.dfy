/** `ft::Singleton` of old/include/singleton.hpp: `instantiate` and
    `instance` over a static `unique_ptr`, with no way to destroy the
    instance. The slot is passed in and returned. */
module OldSingleton {
  import opened Wrappers
  import S = Singleton

  datatype Error =
    | InstanceAlreadyExists   // "Instance already exists"
    | InstanceNotYetCreated   // "Instance not yet created"

  /** `instantiate`: throws if an instance exists, leaving it in place;
      otherwise the object built from the arguments becomes the instance. */
  function Instantiate<T>(s: Option<T>, x: T): (r: Result<Option<T>, Error>)
    ensures r.Err? <==> s.Some?
    ensures r.Err? ==> r.error == InstanceAlreadyExists
    ensures r.Ok? ==> r.value == Some(x)
  {
    if s.Some? then Err(InstanceAlreadyExists) else Ok(Some(x))
  }

  /** `instance`: throws before `instantiate`. */
  function Instance<T>(s: Option<T>): (r: Result<T, Error>)
    ensures r.Err? <==> s.None?
    ensures r.Err? ==> r.error == InstanceNotYetCreated
    ensures r.Ok? ==> s == Some(r.value)
  {
    match s
    case None => Err(InstanceNotYetCreated)
    case Some(x) => Ok(x)
  }

  /** The same slot seen by the current singleton: both accept and refuse
      the same calls, and hand back the same instance. */
  lemma AgreesWithCurrent<T>(s: Option<T>, x: T)
    ensures var c := if s.Some? then S.Holds(s.value) else S.Empty;
            && (Instantiate(s, x).Ok? <==> S.Instantiate(c, x).Ok?)
            && (Instance(s).Ok? <==> S.Instance(c).Ok?)
            && (Instance(s).Ok? ==> Instance(s).value == S.Instance(c).value)
  {
  }

  /** old/tests/singleton_test.cpp: instantiating with 42 gives an instance
      holding 42, and a second instantiate with 7 is refused with the 42
      instance still in place. */
  lemma SingletonTest()
    ensures Instantiate(None, 42).Ok?
    ensures Instance(Instantiate(None, 42).value) == Ok(42)
    ensures Instantiate(Instantiate(None, 42).value, 7) == Err(InstanceAlreadyExists)
  {
  }
}
