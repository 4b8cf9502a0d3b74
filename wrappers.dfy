/** Small wrappers shared by the model. */
module Wrappers {

  /** A value that may be absent; stands for a C# reference that may be null. */
  datatype Option<+T> = None | Some(value: T)

  /**
   * The exceptions a filter's Apply can throw before it touches anything:
   * an explicit argument check, or a dereference of a null reference.
   */
  datatype ApplyError = ArgumentNull(parameterName: string) | NullReference(referenceName: string)

  /** Outcome of a filter's Apply: it completed, or it threw. */
  datatype Outcome = Pass | Fail(error: ApplyError)
}
