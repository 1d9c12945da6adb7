/** Optional values, the tri-state of an input field and the outcome of a handler. */
module Wrappers {

  /** A value that may be missing: a nullable column, or an input field that is optional but never null. */
  datatype Option<+T> = None | Some(value: T)

  /** An input field that is both optional and nullable: left out, given as null, or given a value.
      Only `Absent` is `undefined`; the handlers test presence with `!== undefined`. */
  datatype Field<+T> = Absent | Null | Value(value: T)

  /** The outcome of a handler: its result, or the error it rejects with. */
  datatype Result<+R, +E> = Ok(value: R) | Err(error: E)
}
