/** Option and Result stand in for the source's nullable references and for the
    exceptions it lets escape. */
module Wrappers {

  /** `None` models a C# `null` reference. */
  datatype Option<+T> = None | Some(value: T)

  /** `Failure` models an exception that propagates out of the member. */
  datatype Result<+R, +E> = Success(value: R) | Failure(error: E)

  /** The abnormal outcomes the model distinguishes. `NotTerminated` is not an
      exception: it says that a loop was still running when its fuel ran out. */
  datatype Fault = NullReference | IndexOutOfRange | NotTerminated
}
