/** The optional value and the reply shape shared by the controller's operations. */
module Wrappers {

  datatype Option<+T> = None | Some(value: T)

  /**
   * What a controller operation hands back: `{"message": m, "status": "success"}`,
   * or `Failure`. Where the operation has a `try` block, `Failure` is its error
   * reply (`{"status": "failure"}` or `{"error": ...}`); where it has none
   * (`conflict_check`), `Failure` is the exception escaping to the caller.
   */
  datatype Reply<+T> = Success(message: T) | Failure
}
