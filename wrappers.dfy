/** Option and Result, used for Java's `null` returns and thrown exceptions. */
module Wrappers {

  /** `None` stands for a Java `null` return value. */
  datatype Option<+T> = None | Some(value: T)

  /** `Err` stands for an exception the Java method throws instead of returning. */
  datatype Result<+T, +E> = Ok(value: T) | Err(error: E)
}
