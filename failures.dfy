/** Java's null references and the two exceptions the map operations throw. */
module Failures {

  /** A reference that may be null: `None` stands for null. */
  datatype Option<T> = None | Some(value: T)

  /** The exceptions raised by the map operations. */
  datatype Error =
    | IllegalArgument  // java.lang.IllegalArgumentException: a null key
    | NoSuchElement    // java.util.NoSuchElementException: absent key, empty map, no floor or ceiling

  /** The outcome of an operation that either returns a value or throws. */
  datatype Result<T> = Ok(value: T) | Err(error: Error)
}
