/** Missing values and failing operations. */
module Wrappers {

  /** A cell of a pandas frame: `None` stands for NaN (a missing value). */
  datatype Option<T> = None | Some(value: T)

  /** The outcome of an operation that raises in the script on some inputs. */
  datatype Result<T, E> = Success(value: T) | Failure(error: E)
}
