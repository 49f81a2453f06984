/** Java's nullable references and the checked exceptions of the persistence hooks. */
module Optional {

  /** A possibly-null reference: `None` stands for Java `null`. */
  datatype Option<T> = None | Some(value: T)

  /** Outcome of an operation that can fail with an error of type `E`. */
  datatype Result<T, E> = Success(value: T) | Failure(error: E)
}
