/** Optional values (Java's nullable references) and results with an error value
    (Java's thrown exceptions), as returned by the total functions of this model. */
module Wrappers {

  /** `None` stands for a Java `null`. */
  datatype Option<+T> = None | Some(value: T)

  /** `Err` stands for an exception the Java code throws instead of returning. */
  datatype Result<+T, +E> = Ok(value: T) | Err(error: E)
}
