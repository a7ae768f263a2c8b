/** Option and Result: Java's null references and thrown exceptions, made explicit. */
module Results {

  /** `None` stands for a Java `null`. */
  datatype Option<+T> = None | Some(value: T)

  /** `Err` stands for an exception that the Java code throws. */
  datatype Result<+T, +E> = Ok(value: T) | Err(error: E)
}
