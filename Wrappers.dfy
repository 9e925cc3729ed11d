/** Optional values and results with an error, for the places where the C# code
    uses null or throws an exception. */
module Wrappers {

  /** `None` stands for a C# null reference. */
  datatype Option<+T> = None | Some(value: T)

  /** `Err` stands for an exception that leaves the method. */
  datatype Result<+T, +E> = Ok(value: T) | Err(error: E)
}
