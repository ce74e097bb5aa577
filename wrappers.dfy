/** Option and Result, plus the Python exceptions the modelled code can raise. */
module Wrappers {

  datatype Option<+T> = None | Some(value: T)

  /** The exceptions of the modelled code, by the Python class that is raised.
      `Raised` stands for whatever a user constructor throws. */
  datatype Exc =
    | AttributeError
    | TypeError
    | ValueError
    | KeyError
    | ImportError
    | Raised(what: string)

  /** The outcome of a Python call: a value, or the exception it raised. */
  datatype Result<+T> = Ok(value: T) | Err(error: Exc) {
    predicate IsFailure() { Err? }

    function PropagateFailure<U>(): Result<U>
      requires Err?
    {
      Err(error)
    }

    function Extract(): T
      requires Ok?
    {
      value
    }
  }
}
