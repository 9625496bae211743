/** HTTP responses as the controllers build them, and the global exception
    handler that turns the services' exceptions into responses. */
module Http {
  import opened Base

  const OK: int := 200
  const CREATED: int := 201
  const NO_CONTENT: int := 204
  const BAD_REQUEST: int := 400
  const NOT_FOUND: int := 404
  const CONFLICT: int := 409
  const INTERNAL_SERVER_ERROR: int := 500

  /** A constraint violation reported for one request-body field. */
  datatype FieldError = FieldError(field: string, message: string)

  /** The body the global exception handler writes. */
  datatype ApiExceptionResponse = ApiExceptionResponse(errorMessage: string, status: int, timestamp: Timestamp)

  /** What a response carries:
      - `Json`: the entity or DTO the controller returns;
      - `ApiError`: the exception handler's body;
      - `ValidationErrors`: the violations of an invalid request body;
      - `ErrorMap`: a `Map<String, String>` written by the controller itself;
      - `NoBody`: an empty response (204);
      - `DefaultError`: Spring's own error page for an exception nobody handles. */
  datatype Body<T> =
    | Json(value: T)
    | ApiError(error: ApiExceptionResponse)
    | ValidationErrors(errors: set<FieldError>)
    | ErrorMap(entries: map<string, string>)
    | NoBody
    | DefaultError

  datatype Response<T> = Response(status: int, body: Body<T>)

  /** A controller's `{"error": message}` body with the given status. */
  function ErrorBody<T>(status: int, message: string): Response<T> {
    Response(status, ErrorMap(map["error" := message]))
  }

  /** `GlobalExceptionHandler`: NotFoundException becomes 404 and
      ConflictException 409, each with an `ApiExceptionResponse` carrying the
      exception's message, that same status and the handling time; any other
      exception falls through to Spring's default 500 response. */
  function HandleException<T>(e: Error, now: Timestamp): (r: Response<T>)
    ensures e.NotFound? ==> r.status == NOT_FOUND
    ensures e.Conflict? ==> r.status == CONFLICT
    ensures r.body.ApiError? <==> e.NotFound? || e.Conflict?
    ensures r.body.ApiError? ==>
              r.body.error.status == r.status && r.body.error.errorMessage == e.message && r.body.error.timestamp == now
    ensures !r.body.ApiError? ==> r.status == INTERNAL_SERVER_ERROR
  {
    match e
    case NotFound(m) =>
      var body := ApiExceptionResponse(m, NOT_FOUND, now);
      Response(body.status, ApiError(body))
    case Conflict(m) =>
      var body := ApiExceptionResponse(m, CONFLICT, now);
      Response(body.status, ApiError(body))
    case _ => Response(INTERNAL_SERVER_ERROR, DefaultError)
  }

  /** The `Map<String, String>` a controller fills from its `BindingResult`,
      one `put(field, message)` per field error in the order given: the keys
      are exactly the reported fields, each mapped to one of its messages. */
  function FieldErrorMap(errs: seq<FieldError>): (m: map<string, string>)
    ensures m.Keys == set e | e in errs :: e.field
    ensures forall f :: f in m ==> FieldError(f, m[f]) in errs
  {
    if errs == [] then map[]
    else
      var pre, last := errs[..|errs| - 1], errs[|errs| - 1];
      assert forall e :: e in errs <==> e in pre || e == last;
      FieldErrorMap(pre)[last.field := last.message]
  }

  /** Of several errors on one field, the map keeps the message of the LAST
      one: a later `put` overwrites an earlier one. */
  lemma {:induction false} LastMessageWins(errs: seq<FieldError>, i: int)
    requires 0 <= i < |errs|
    requires forall j :: i < j < |errs| ==> errs[j].field != errs[i].field
    ensures FieldErrorMap(errs)[errs[i].field] == errs[i].message
  {
    if i < |errs| - 1 {
      var pre := errs[..|errs| - 1];
      assert pre[i] == errs[i];
      assert forall j :: i < j < |pre| ==> pre[j] == errs[j];
      LastMessageWins(pre, i);
    }
  }

  /** A handler that takes a `BindingResult` and finds errors in it answers
      400 with a map whose keys are exactly the fields that have errors, each
      mapped to one of the messages reported for it. */
  function BindingErrors<T>(errs: seq<FieldError>): (r: Response<T>)
    ensures r.status == BAD_REQUEST && r.body.ErrorMap?
    ensures r.body.entries.Keys == set e | e in errs :: e.field
    ensures forall f :: f in r.body.entries ==> FieldError(f, r.body.entries[f]) in errs
  {
    Response(BAD_REQUEST, ErrorMap(FieldErrorMap(errs)))
  }

  /** A request body that fails `@Valid` when the handler takes no
      `BindingResult`: Spring answers 400 before the handler runs. */
  function Rejected<T>(errors: set<FieldError>): (r: Response<T>)
    requires errors != {}
    ensures r.status == BAD_REQUEST && r.body.ValidationErrors? && r.body.errors == errors
  {
    Response(BAD_REQUEST, ValidationErrors(errors))
  }

  /** The outcome of a service call, as the controller answers it with a
      success status (200 or 201): that status exactly when the call
      succeeded, with the value as the body; otherwise the exception
      handler's response, which carries the message of a NotFound or a
      Conflict. */
  function Answer<T>(res: Result<T>, status: int, now: Timestamp): (r: Response<T>)
    requires status == OK || status == CREATED
    ensures r.status == status <==> res.Ok?
    ensures res.Ok? ==> r.body == Json(res.value)
    ensures res.Err? ==> r == HandleException(res.error, now)
    ensures res.Err? && (res.error.NotFound? || res.error.Conflict?) ==>
              r.body.ApiError? && r.body.error.errorMessage == res.error.message
  {
    match res
    case Ok(v) => Response(status, Json(v))
    case Err(e) => HandleException(e, now)
  }
}
