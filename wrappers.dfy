/** Option and Result, as used by the rest of the model for absent values and
    for the exceptions the Python scripts raise. */
module Wrappers {

  datatype Option<+T> = None | Some(value: T)

  /** The Python exceptions the modelled scripts can raise. */
  datatype PyError =
    | KeyError(key: string)   // a dict lookup of a missing key
    | IndexError              // a list or string index out of range
    | ValueError              // str.index of a missing character, int() of a bad string, range() with step 0
    | TypeError               // an operation applied to a value of the wrong type (None, str + int, ...)
    | AttributeError          // an attribute read on None, or .items() on a non-dict
    | ZeroDivisionError       // a float division by zero

  datatype Result<+T> = Success(value: T) | Failure(error: PyError) {

    predicate IsFailure() {
      Failure?
    }

    function PropagateFailure<U>(): Result<U>
      requires Failure?
    {
      Failure(error)
    }

    function Extract(): T
      requires Success?
    {
      value
    }
  }
}
