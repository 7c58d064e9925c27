/** Python-level wrappers shared by the model: a value that may be absent
    (`None`, pandas NaN/NaT) and a call that may raise an exception. */
module Py {

  datatype Option<+T> = None | Some(value: T)

  /** The outcome of a Python call: it returns a value or raises. Which
      exception is raised does not matter to any caller in the model. */
  datatype Outcome<+T> = Ok(value: T) | Raised {

    predicate IsFailure() {
      Raised?
    }

    function PropagateFailure<U>(): Outcome<U>
      requires Raised?
    {
      Raised
    }

    function Extract(): T
      requires Ok?
    {
      value
    }
  }
}
