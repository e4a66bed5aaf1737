/**
 * `handle_exceptions` (top-level `exception_handler.py`): the older variant,
 * which has no `ValueError` branch.
 */
module LegacyExceptionHandler {
  import opened Wrappers
  import opened Errors
  import opened ExceptionHandler

  /** `make_error_response`. */
  function LegacyMakeErrorResponse<T>(message: string, statusCode: int): (r: Reply<T>)
    ensures r.ErrorResponse? && r.message == message && r.status == statusCode
  {
    ErrorResponse(message, statusCode)
  }

  /** `handle_exceptions`' `wrap`, given what the route did. */
  function LegacyHandleExceptions<T>(outcome: Result<T, Error>): (r: Reply<T>)
    ensures outcome.Success? <==> r.Returned?
    ensures outcome.Success? ==> r.value == outcome.value
    ensures outcome.Failure? ==> r.status == BadRequestStatus
  {
    match outcome
    case Success(v) => Returned(v)
    case Failure(e) =>
      if e.ValidationError? then LegacyMakeErrorResponse(InvalidInputPrefix + e.text, 400)
      else if e.BadRequest? then LegacyMakeErrorResponse(JsonPrefix + e.text, 400)
      else if e.PyMongoError? then LegacyMakeErrorResponse(DatabasePrefix + e.text, 400)
      else LegacyMakeErrorResponse(e.text, 400)
  }

  /**
   * The two handlers answer alike except on a `ValueError`, which the older
   * one reports through its generic branch, without a prefix.
   */
  lemma HandlersAgree<T>(outcome: Result<T, Error>)
    ensures outcome.Failure? && outcome.error.ValueError? ==>
      && LegacyHandleExceptions(outcome) == ErrorResponse(outcome.error.text, 400)
      && HandleExceptions(outcome) == ErrorResponse("Value error: " + outcome.error.text, 400)
    ensures !(outcome.Failure? && outcome.error.ValueError?) ==>
      LegacyHandleExceptions(outcome) == HandleExceptions(outcome)
  {
  }
}
