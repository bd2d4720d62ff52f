/** Failure-aware return values shared by every module of the model.
    A Python exception raised by the system becomes a `Failure` carrying
    the exception's class and message; nothing after the raise runs. */
module Outcomes {

  /** A value that may be absent: Python's `None` versus a given argument. */
  datatype Option<+T> = None | Some(value: T)

  /** The Python exceptions the modelled code raises. */
  datatype Error =
    | ValueError(message: string)
    | FileNotFoundError(message: string)
    | IndexError
    | TypeError
      /** a failure inside a collaborator the model does not see
          (the PDF loader, FAISS deserialisation) */
    | CollaboratorError(message: string)

  /** Either the value an operation returns or the exception it raises. */
  datatype Result<+T> = Success(value: T) | Failure(error: Error)
}
