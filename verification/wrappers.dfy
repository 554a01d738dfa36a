/** Failure-carrying wrappers shared by every stage of the model.
    The compiler signals most failures by panicking (`unwrap`, `panic!`);
    the model turns each such site into an explicit `Err` value. */
module Wrappers {

  datatype Option<T> = None | Some(value: T)

  datatype Result<T, E> = Ok(value: T) | Err(error: E) {
    predicate IsFailure() { Err? }

    function PropagateFailure<U>(): Result<U, E>
      requires Err?
    {
      Err(error)
    }

    function Extract(): T
      requires Ok?
    {
      value
    }
  }
}
