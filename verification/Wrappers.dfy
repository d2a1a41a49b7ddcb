/** Failure-compatible results shared by every component. */
module Wrappers {
  datatype Option<+T> = None | Some(value: T)

  /** The gRPC status codes the managers answer with; Panic stands for a nil pointer that is read. */
  datatype Code = InvalidArgument | NotFound | AlreadyExists | FailedPrecondition | Internal | Panic

  datatype Result<+T> = Ok(value: T) | Err(code: Code)
}
