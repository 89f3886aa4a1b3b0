/** Failure-carrying datatypes shared by the whole model.
- Option<T>: Rust's `Option`.
- Result<T, E>: Rust's `Result`, an error value in place of an exception.
- Fallible<T>: the outcome of code that may `unwrap()` a failed conversion; a failed
  `unwrap()` aborts the running task, which the model records as `Panics`.
 */
module Results {

  datatype Option<+T> = None | Some(value: T)

  datatype Result<+T, +E> = Ok(value: T) | Err(error: E)

  datatype Fallible<+T> = Returns(value: T) | Panics(reason: string)
}
