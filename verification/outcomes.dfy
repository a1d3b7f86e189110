/** Small failure-carrying datatypes shared by the rest of the model. */
module Outcomes {

  /** The conventional Some/None datatype, used for Python's `None`/absent values. */
  datatype Option<+T> = None | Some(value: T)

  /** The outcome of a call into code the model cannot see (a network request, an SDK
      call): either it returned a value or it raised an exception whose `str()` is
      `message`. */
  datatype CallOutcome<+T> = Returned(value: T) | Raised(message: string)
}
