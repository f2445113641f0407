/** Failure-carrying datatypes shared by the log, the cluster and the replica.

- Result<T, E> models Rust's `Result<T, E>`: every fallible operation of the
  core returns one of these instead of raising.
- Panicking<T> models a call that may abort the thread (`unwrap()` on `None`,
  `todo!()`): either it completes with a value or it panics.
 */
module Wrappers {

  datatype Result<+T, +E> = Ok(value: T) | Err(error: E)

  datatype Panicking<+T> = Completed(result: T) | Panicked

}
