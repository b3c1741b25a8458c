/**
 * The translation of exceptions into HTTP error responses (GlobalExceptionHandler.java): the
 * specific handlers for the core's exceptions, and a catch-all for everything else.
 */
module ExceptionHandling {
  import opened Text
  import opened Entities
  import opened Exceptions

  datatype HttpStatus = NotFound | BadRequest | InternalServerError

  function Code(s: HttpStatus): (c: int)
    ensures 400 <= c < 600
  {
    match s
    case NotFound => 404
    case BadRequest => 400
    case InternalServerError => 500
  }

  function ReasonPhrase(s: HttpStatus): string {
    match s
    case NotFound => "Not Found"
    case BadRequest => "Bad Request"
    case InternalServerError => "Internal Server Error"
  }

  datatype ErrorResponse = ErrorResponse(timestamp: Time, status: int, error: string, message: string, path: string)

  datatype ResponseEntity = ResponseEntity(statusCode: int, body: ErrorResponse)

  const UnexpectedPrefix: string := "An unexpected error occurred: "

  /** Whether a specific handler exists for the exception (otherwise the catch-all answers). */
  predicate HasSpecificHandler(e: Error) {
    e.ImageNotFound? || e.CustomerNotFound? || e.EmptyFile? || e.InvalidFileType?
  }

  /**
   * The response for an exception raised while serving `requestUri` at time `now`: a missing
   * image or customer is 404, an empty or non-image upload is 400, anything else is 500 and its
   * message is prefixed. The body repeats the status code and names the reason phrase and the path.
   */
  function Handle(e: Error, requestUri: string, now: Time): (r: ResponseEntity)
    ensures r.body.status == r.statusCode && r.body.path == requestUri && r.body.timestamp == now
    ensures (e.ImageNotFound? || e.CustomerNotFound?) <==> r.statusCode == 404
    ensures (e.EmptyFile? || e.InvalidFileType?) <==> r.statusCode == 400
    ensures !HasSpecificHandler(e) <==> r.statusCode == 500
    ensures r.body.message == if HasSpecificHandler(e) then Message(e) else UnexpectedPrefix + Message(e)
    ensures exists s :: r.statusCode == Code(s) && r.body.error == ReasonPhrase(s)
  {
    var status :=
      if e.ImageNotFound? || e.CustomerNotFound? then NotFound
      else if e.EmptyFile? || e.InvalidFileType? then BadRequest
      else InternalServerError;
    var message := if HasSpecificHandler(e) then Message(e) else UnexpectedPrefix + Message(e);
    ResponseEntity(Code(status), ErrorResponse(now, Code(status), ReasonPhrase(status), message, requestUri))
  }

  /** A 404 for a missing image names, in its message, exactly the id that was asked for. */
  lemma NotFoundResponseNamesImage(id: ImageId, requestUri: string, now: Time)
    ensures var m := Handle(ImageNotFound(id), requestUri, now).body.message;
      StartsWith(m, ImageNotFoundPrefix) && AllDigits(m[|ImageNotFoundPrefix|..]) &&
      ParseNat(m[|ImageNotFoundPrefix|..]) == id
  {
    ImageNotFoundMessageNamesId(id);
  }

  /** The catch-all keeps the original message after its prefix. */
  lemma UnexpectedResponseKeepsMessage(e: Error, requestUri: string, now: Time)
    requires !HasSpecificHandler(e)
    ensures var m := Handle(e, requestUri, now).body.message;
      StartsWith(m, UnexpectedPrefix) && m[|UnexpectedPrefix|..] == Message(e)
  {
    var m := Handle(e, requestUri, now).body.message;
    assert m == UnexpectedPrefix + Message(e);
    assert m[..|UnexpectedPrefix|] == UnexpectedPrefix;
  }
}
