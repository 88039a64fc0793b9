/** Option and Result values standing for Python's None and raised exceptions. */
module Wrappers {

  datatype Option<+T> = None | Some(value: T)

  /** The exceptions the modelled code raises, or lets through from the services it calls. */
  datatype Exception =
    | IndexError        // a list index out of range
    | KeyError          // a missing key in a JSON response
    | RequestError      // the HTTP request itself failed

  /** Either a returned value or a raised exception. */
  datatype Result<+T> = Ok(value: T) | Raise(exc: Exception)
}
