/** Failure-compatible wrappers used across the model.
    `Option` stands for a .NET reference that may be null; `Outcome` stands
    for a computation that either returns a value or throws one of the
    exceptions the modelled code can raise. */
module Wrappers {

  datatype Option<+T> = None | Some(value: T)

  /** The exceptions the modelled code can raise, by .NET exception class. */
  datatype Error =
    | IndexOutOfRange      // array / list indexer past the end
    | ArgumentOutOfRange   // Substring, char.IsWhiteSpace(string, int) with a bad index
    | Format               // int.Parse / bool.Parse of text that is not a number / boolean
    | Overflow             // array allocated with a negative length
    | NullReference        // a member accessed through a null reference
    | BadTraceFile         // the trace-file format exception thrown by TraceSet

  datatype Outcome<+T> = Ok(value: T) | Err(error: Error) {
    predicate IsFailure() { Err? }

    function PropagateFailure<U>(): Outcome<U>
      requires Err?
    {
      Err(error)
    }

    function Extract(): T
      requires Ok?
    {
      value
    }
  }
}
