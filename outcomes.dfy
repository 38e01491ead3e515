/** Small failure-carrying datatypes shared by the kernels. */
module Outcomes {

  /** An optional value; also the type of a workspace slot (empty or a running sum). */
  datatype Option<T> = None | Some(value: T)

  /** The result of a kernel that returns nothing: it ran, or it stopped on a failed check. */
  datatype Outcome<E> = Pass | Fail(error: E)

  /** The result of a kernel that returns a value. */
  datatype Result<T, E> = Success(value: T) | Failure(error: E)
}
