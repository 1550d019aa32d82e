/** Result types shared by the other modules. */
module Outcomes {

  /** A value that may be missing: `undefined`, `null`, or a rejected promise whose reason is irrelevant. */
  datatype Option<+T> = None | Some(value: T)

  /** A returned value or a thrown error. */
  datatype Result<+T, +E> = Ok(value: T) | Err(error: E)

  /** How a store operation may fail: not at all, before taking effect, or after taking effect. */
  datatype Fault = Works | FailsBefore | FailsAfter

  /** How waiting for a bridge confirmation ends. */
  datatype Status = Confirmed | Timeout | Aborted
}
