/**
 * The exception kinds the service raises and catches.  `text` is what
 * `str(e)` yields for the exception.
 */
module Errors {

  datatype Error =
    | ValidationError(text: string)   // jsonschema.ValidationError
    | BadRequest(text: string)        // werkzeug BadRequest
    | PyMongoError(text: string)      // pymongo.errors.PyMongoError
    | ValueError(text: string)        // built-in ValueError
    | OtherError(text: string)        // any other Exception
}
