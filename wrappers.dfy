/** Failure-carrying wrappers shared by the model. */
module Wrappers {

  datatype Option<+T> = None | Some(value: T)

  /** The Python exceptions the loader can raise. */
  datatype Raised = TypeError | ValueError | AttributeError

  /** The outcome of a step that may raise: either a value or the kind of
      exception that Python code raises. */
  datatype Result<+T> = Success(value: T) | Failure(error: Raised)
}
