/**
 Small failure-carrying datatypes shared by the model of `EasyEbayData`.
 The Python class signals trouble by raising; the model returns the raised
 exception as a value instead.
 */
module Py {

  /** A value that may be missing, as a Python dict lookup may miss. */
  datatype Option<+T> = None | Some(value: T)

  /** The exceptions the modelled code lets escape to its caller. */
  datatype PyError =
    | AssertionError   // an `assert` in the class failed
    | ConnectionError  // the search service call raised and nothing caught it
    | UnboundLocalError  // a local variable was read before any assignment to it

  /** Either a computed value or the exception that interrupted the computation. */
  datatype Result<+T> = Ok(value: T) | Err(error: PyError)
}
