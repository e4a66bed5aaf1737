/**
 * `handle_exceptions` (application/decorators): run a route and turn any
 * exception it raises into `({'message': ...}, 400)`, with a prefix naming
 * the kind of failure.
 */
module ExceptionHandler {
  import opened Wrappers
  import opened Errors

  /** What a wrapped route answers: its own value, or an error body with a status. */
  datatype Reply<T> = Returned(value: T) | ErrorResponse(message: string, status: int)

  const BadRequestStatus := 400

  const InvalidInputPrefix := "Input data is not valid: "
  const JsonPrefix := "Error when parsing JSON: "
  const DatabasePrefix := "Database error: "
  const ValuePrefix := "Value error: "

  /** `_make_error_response`: the message in a body, with the status. */
  function MakeErrorResponse<T>(message: string, statusCode: int): (r: Reply<T>)
    ensures r.ErrorResponse? && r.message == message && r.status == statusCode
  {
    ErrorResponse(message, statusCode)
  }

  /** `handle_exceptions`' `wrap`, given what the route did. */
  function HandleExceptions<T>(outcome: Result<T, Error>): (r: Reply<T>)
    ensures outcome.Success? <==> r.Returned?
    ensures outcome.Success? ==> r.value == outcome.value
    ensures outcome.Failure? ==> r.status == BadRequestStatus
    ensures outcome.Failure? ==> var e := outcome.error;
      && (e.ValidationError? ==> r.message == "Input data is not valid: " + e.text)
      && (e.BadRequest? ==> r.message == "Error when parsing JSON: " + e.text)
      && (e.PyMongoError? ==> r.message == "Database error: " + e.text)
      && (e.ValueError? ==> r.message == "Value error: " + e.text)
      && (e.OtherError? ==> r.message == e.text)
  {
    match outcome
    case Success(v) => Returned(v)
    case Failure(e) =>
      if e.ValidationError? then MakeErrorResponse(InvalidInputPrefix + e.text, 400)
      else if e.BadRequest? then MakeErrorResponse(JsonPrefix + e.text, 400)
      else if e.PyMongoError? then MakeErrorResponse(DatabasePrefix + e.text, 400)
      else if e.ValueError? then MakeErrorResponse(ValuePrefix + e.text, 400)
      else MakeErrorResponse(e.text, 400)
  }

  /** Every message ends with `str(e)`, and only an unclassified exception goes without a prefix. */
  lemma MessageKeepsText<T>(e: Error)
    ensures var m := HandleExceptions<T>(Failure(e)).message;
      && |e.text| <= |m|
      && m[|m| - |e.text|..] == e.text
      && (e.OtherError? <==> |m| == |e.text|)
  {
  }
}
