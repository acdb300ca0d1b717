/** Failure-carrying values shared by the rewriter's modules. */
module Results {

  /** An optional value: `None` stands for an absent or falsy JavaScript value. */
  datatype Option<+T> = None | Some(value: T)

  /**
   * The outcome of a computation that may throw: `Err` carries the message of
   * the `Error` that JavaScript would raise.
   */
  datatype Result<+T> = Ok(value: T) | Err(message: string)
}
