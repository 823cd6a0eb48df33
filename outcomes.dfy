/** Values that stand for Python's `None` and for exceptions the script can raise. */
module Outcomes {

  /** A value or Python's `None`. */
  datatype Option<+T> = None | Some(value: T)

  /** The exceptions the modelled code raises on its own. */
  datatype PyError =
    | TypeError  // an operator applied to `None`, or `str + int`
    | KeyError   // a dictionary looked up with a key it does not hold

  /** The result of a Python call: the value it returns or the exception it raises. */
  datatype Outcome<+T> = Returned(value: T) | Raised(error: PyError)
}
