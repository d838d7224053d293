/** Failure-carrying datatypes shared by every component of the model.
    A C++ exception thrown by an operation becomes an `Err`; an operation that
    changes its object before it throws returns a `Step` that carries both the
    outcome and the object's state afterwards. */
module Wrappers {

  datatype Option<+T> = None | Some(value: T)

  datatype Result<+T, +E> = Ok(value: T) | Err(error: E)

  /** The outcome of a mutating call together with the object's state after it,
      whether the call returned normally or threw. */
  datatype Step<+T, +E, +S> = Step(result: Result<T, E>, state: S)
}
