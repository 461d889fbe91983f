/** Optional-value and outcome datatypes used in place of Python's `None` and of raised
    exceptions. */
module Wrappers {

  /** An optional value; `None` stands for Python's `None`. */
  datatype Option<+T> = None | Some(value: T)

  /** Either normal completion, or a failure carrying the error that the
      Python code raises. */
  datatype Outcome<+E> = Pass | Fail(error: E)
}
