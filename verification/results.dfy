/** Failure-carrying return types shared by the transformer and the line-graph builder. */
module Results {

  /** A value that may be missing; `None` stands for a lookup that raised a `KeyError`. */
  datatype Option<+T> = None | Some(value: T)

  /** A computed value, or the error the computation raised instead. */
  datatype Result<+T, +E> = Success(value: T) | Failure(error: E)
}
