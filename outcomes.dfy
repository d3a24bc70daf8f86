/** Option and Python-style exception results shared by every module of the model. */
module Outcomes {

  datatype Option<T> = None | Some(value: T)

  /** The Python exception classes the modelled code can raise. None of them is
      caught inside the matcher, so each one ends the operation that raised it. */
  datatype PyError =
    | IndexError      // indexing an empty string (`spec[idx][0]`, `func[-1]`)
    | KeyError        // reading a variable that was never bound
    | ValueError      // `float()` of a text that is not a number
    | TypeError       // a predicate called with the wrong number of arguments
    | AttributeError  // `.append` on a variable that holds a single string
    | RecursionError  // the implicit value is itself a predicate call
    | RuntimeError    // a dictionary changed while it was being iterated
    | ForeignError    // raised inside `ipaddress` or `re`

  /** The outcome of a Python computation: a value, or the exception it raised. */
  datatype Result<T> = Ok(value: T) | Raise(error: PyError) {
    predicate IsFailure() { Raise? }

    function PropagateFailure<U>(): Result<U>
      requires Raise?
    {
      Raise(error)
    }

    function Extract(): T
      requires Ok?
    {
      value
    }
  }
}
