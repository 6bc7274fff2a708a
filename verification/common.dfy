/** Failure-compatible wrappers shared by every module of the model.

    `Option` stands for `std::optional` (and for a possibly-null pointer);
    `Result` stands for a computation that may raise one of the engine's
    errors (`VELOX_USER_FAIL`, `VELOX_UNSUPPORTED`, `VELOX_CHECK`).
 */
module Common {

  datatype Option<+T> = None | Some(value: T) {
    predicate IsFailure() {
      None?
    }

    function PropagateFailure<U>(): Option<U>
      requires None?
    {
      None
    }

    function Extract(): T
      requires Some?
    {
      value
    }
  }

  /** The error kinds the modelled code raises. */
  datatype Error =
    | Unsupported(message: string)   // VELOX_UNSUPPORTED
    | UserError(message: string)     // VELOX_USER_FAIL
    | CheckFailed(message: string)   // VELOX_CHECK / VELOX_CHECK_EQ

  datatype Result<+T> = Success(value: T) | Failure(error: Error) {
    predicate IsFailure() {
      Failure?
    }

    function PropagateFailure<U>(): Result<U>
      requires Failure?
    {
      Failure(error)
    }

    function Extract(): T
      requires Success?
    {
      value
    }
  }
}
