/** Failure-carrying datatypes shared by the components of the scoreboard reader. */
module Wrappers {

  /** A value that may be missing (a C# null reference or an absent dictionary entry). */
  datatype Option<+T> = None | Some(value: T)

  /** The exceptions the modelled code can raise. */
  datatype Exception =
    | OverflowException                 // int.Parse on a numeral above int.MaxValue
    | KeyNotFoundException(key: string)  // Dictionary indexer on a missing key

  /** The outcome of a call: either it returns a value or it raises an exception. */
  datatype Outcome<+T> = Ok(value: T) | Throws(exception: Exception)
}
