/** What a call into the engine can do: return a value, return one of its
    errors, or panic.  A panic is never folded into an error. */
module Outcomes {

  datatype Option<+T> = None | Some(value: T)

  datatype Error =
    | PageNotFound | PageFull | FileNotFound | CorruptPageFile
    | OutOfBounds | RecordTooLarge | StringTooLong | TupleDoesntMatchSchema
    | NoPagesAvailable | PageCast | InvalidComparison | ParseError
    | TableNotFound | IntConversion | Utf8 | Io | Unknown

  /** Failure-compatible, so that `:-` is Rust's `?` (and lets a panic unwind). */
  datatype Outcome<+T> = Ok(value: T) | Err(error: Error) | Panic {
    predicate IsFailure() {
      !Ok?
    }

    function PropagateFailure<U>(): Outcome<U>
      requires !Ok?
    {
      if Err? then Err(error) else Panic
    }

    function Extract(): T
      requires Ok?
    {
      value
    }
  }
}
