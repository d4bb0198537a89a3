/** Outcomes of operations that may throw in the source, and nullable values. */
module Results {

  /** Why an operation threw. */
  datatype Fault =
    | RuntimeError      // an explicit `throw new RuntimeException()`
    | NullDereference   // a field read through a null reference

  /** Either the value an operation returns or the fault it throws. */
  datatype Result<+T> = Ok(value: T) | Fail(fault: Fault)

  /** A reference that may be null: None stands for null. */
  datatype Option<+T> = None | Some(value: T)
}
