/** The four error classes of the HTTP API (src/api/errors.ts). Each carries
    the message it was constructed with; the class decides the HTTP status. */
module Errors {

  datatype ApiError =
    | BadRequest(message: string)            // BadRequestError
    | UserNotAuthenticated(message: string)  // UserNotAuthenticatedError
    | UserForbidden(message: string)         // UserForbiddenError
    | NotFound(message: string)              // NotFoundError

  /** The HTTP status each error class stands for. */
  function StatusCode(e: ApiError): (code: int)
    ensures 400 <= code <= 404
    ensures code == 400 <==> e.BadRequest?
    ensures code == 401 <==> e.UserNotAuthenticated?
    ensures code == 403 <==> e.UserForbidden?
    ensures code == 404 <==> e.NotFound?
  {
    match e
    case BadRequest(_) => 400
    case UserNotAuthenticated(_) => 401
    case UserForbidden(_) => 403
    case NotFound(_) => 404
  }

  /** Two errors share a status exactly when they are of the same class,
      whatever their messages. */
  lemma StatusCodeIdentifiesClass(a: ApiError, b: ApiError)
    ensures StatusCode(a) == StatusCode(b) <==>
      (a.BadRequest? && b.BadRequest?) ||
      (a.UserNotAuthenticated? && b.UserNotAuthenticated?) ||
      (a.UserForbidden? && b.UserForbidden?) ||
      (a.NotFound? && b.NotFound?)
  {
  }
}
