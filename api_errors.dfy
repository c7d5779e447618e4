/** The error branch of the API client's response interceptor: an axios
    error becomes the object `{ message, status, details }` that the
    rejected promise carries. The error is a JavaScript value; the
    development-mode logging beside it is output and is not modelled. */
module ApiErrors {
  import opened Wrappers
  import opened Text
  import opened Js

  /** The rejected value. */
  datatype ErrorResponse = ErrorResponse(message: Value, status: Value, details: Value)

  /** `obj?.key`: undefined when `obj` is undefined or null. */
  function OptionalGet(obj: Value, key: string): Value
  {
    if obj.Undefined? || obj.Null? then Undefined else Get(obj, key)
  }

  /** `a || b`. */
  function Or(a: Value, b: Value): (r: Value)
    ensures Truthy(r) <==> Truthy(a) || Truthy(b)
  {
    if Truthy(a) then a else b
  }

  /** What kind of failure an error is, as the handler distinguishes them. */
  datatype Kind =
    | BadRequest | Unauthorized | Forbidden | NotFound | TooManyRequests | ServerError | Unavailable
    | OtherStatus | NetworkDown | TimedOut | Unreachable | Local

  /** The case of the status switch a response status selects (strict
      equality: only a number matches). */
  function StatusKind(status: Value): (k: Kind)
    ensures k in {BadRequest, Unauthorized, Forbidden, NotFound, TooManyRequests, ServerError, Unavailable, OtherStatus}
  {
    if status == Num(400) then BadRequest
    else if status == Num(401) then Unauthorized
    else if status == Num(403) then Forbidden
    else if status == Num(404) then NotFound
    else if status == Num(429) then TooManyRequests
    else if status == Num(500) then ServerError
    else if status == Num(502) || status == Num(503) || status == Num(504) then Unavailable
    else OtherStatus
  }

  /** The branch a request without response takes on `error.code`. */
  function NetworkKind(code: Value): (k: Kind)
    ensures k in {NetworkDown, TimedOut, Unreachable}
  {
    if code == Str("NETWORK_ERROR") then NetworkDown
    else if code == Str("ECONNABORTED") then TimedOut
    else Unreachable
  }

  /** The kind of an error: by the response status when there is a
      response, by the code when only a request went out. */
  function KindOf(error: Value): Kind
  {
    var response := Get(error, "response");
    if Truthy(response) then StatusKind(Get(response, "status"))
    else if Truthy(Get(error, "request")) then NetworkKind(Get(error, "code"))
    else Local
  }

  /** The fixed message of a kind; the kinds whose message comes from the
      error itself have none. */
  function FixedMessage(k: Kind): Option<string>
  {
    match k
    case BadRequest => Some("Invalid request. Please check your input.")
    case Unauthorized => Some("Authentication required. Please log in.")
    case Forbidden => Some("Access denied. You do not have permission to perform this action.")
    case NotFound => Some("The requested resource was not found.")
    case TooManyRequests => Some("Too many requests. Please wait a moment before trying again.")
    case ServerError => Some("Server error. Please try again later.")
    case Unavailable => Some("Service temporarily unavailable. Please try again later.")
    case NetworkDown => Some("Network error. Please check your internet connection.")
    case TimedOut => Some("Request timed out. Please try again.")
    case Unreachable => Some("Unable to connect to the server. Please check your internet connection.")
    case OtherStatus => None
    case Local => None
  }

  /** The error handler. `error` is neither undefined nor null, since the
      handler reads `error.response` unguarded. A response gives the status,
      the details (`data?.error`, else `statusText`) and a message by status;
      a request without response a network message by code; anything else
      its own message or a generic one. The message is never falsy. */
  function HandleError(error: Value): (r: ErrorResponse)
    requires !error.Undefined? && !error.Null?
    ensures Truthy(r.message)
    ensures !Truthy(Get(error, "response")) ==> r.status == Null && r.details == Null
    ensures Truthy(Get(error, "response")) ==> r.status == Get(Get(error, "response"), "status")
  {
    var response := Get(error, "response");
    if Truthy(response) then
      var status := Get(response, "status");
      var dataError := OptionalGet(Get(response, "data"), "error");
      var details := Or(dataError, Get(response, "statusText"));
      var known := FixedMessage(StatusKind(status));
      var message :=
        if known.Some? then FixedMessageLength(StatusKind(status)); Str(known.value)
        else Or(dataError, Str("Server error (" + ToString(status) + ")"));
      ErrorResponse(message, status, details)
    else if Truthy(Get(error, "request")) then
      var kind := NetworkKind(Get(error, "code"));
      FixedMessageLength(kind);
      ErrorResponse(Str(FixedMessage(kind).value), Null, Null)
    else
      ErrorResponse(Or(Get(error, "message"), Str("An unexpected error occurred.")), Null, Null)
  }

  /** The handler's message is the fixed message of the error's kind
      whenever the kind has one. */
  lemma HandleErrorByKind(error: Value)
    requires !error.Undefined? && !error.Null?
    ensures FixedMessage(KindOf(error)).Some? ==> HandleError(error).message == Str(FixedMessage(KindOf(error)).value)
  {
  }

  /** Which kind a fixed message belongs to, read off its length (the
      not-found and server-error messages, of equal length, differ in their
      second character). */
  function KindOfMessage(m: string): Option<Kind>
  {
    match |m|
    case 41 => Some(BadRequest)
    case 39 => Some(Unauthorized)
    case 65 => Some(Forbidden)
    case 37 => if m[1] == 'h' then Some(NotFound) else Some(ServerError)
    case 60 => Some(TooManyRequests)
    case 56 => Some(Unavailable)
    case 53 => Some(NetworkDown)
    case 36 => Some(TimedOut)
    case 71 => Some(Unreachable)
    case _ => None
  }

  /** The length of each fixed message: only the not-found and
      server-error messages share one. */
  function MessageLength(k: Kind): nat
  {
    match k
    case BadRequest => 41
    case Unauthorized => 39
    case Forbidden => 65
    case NotFound => 37
    case TooManyRequests => 60
    case ServerError => 37
    case Unavailable => 56
    case NetworkDown => 53
    case TimedOut => 36
    case Unreachable => 71
    case OtherStatus => 0
    case Local => 0
  }

  lemma FixedMessageLength(k: Kind)
    requires FixedMessage(k).Some?
    ensures |FixedMessage(k).value| == MessageLength(k)
  {
    match k
    case BadRequest =>
    case Unauthorized =>
    case Forbidden =>
    case NotFound =>
    case TooManyRequests =>
    case ServerError =>
    case Unavailable =>
    case NetworkDown =>
    case TimedOut =>
    case Unreachable =>
  }

  /** Every fixed message reads back as its kind. */
  lemma KindOfFixedMessage(k: Kind)
    requires FixedMessage(k).Some?
    ensures KindOfMessage(FixedMessage(k).value) == Some(k)
  {
    FixedMessageLength(k);
    match k
    case NotFound => SecondCharacters();
    case ServerError => SecondCharacters();
    case _ =>
  }

  lemma SecondCharacters()
    ensures FixedMessage(NotFound).value[1] == 'h' && FixedMessage(ServerError).value[1] == 'e'
  {
  }

  /** Different kinds with fixed messages never share a message, so the
      message tells the caller which kind of failure occurred. */
  lemma FixedMessagesDistinct(k1: Kind, k2: Kind)
    requires FixedMessage(k1).Some? && FixedMessage(k2).Some? && k1 != k2
    ensures FixedMessage(k1).value != FixedMessage(k2).value
  {
    KindOfFixedMessage(k1);
    KindOfFixedMessage(k2);
  }

  /** A status without its own case reports the server's error text when it
      gives one, and "Server error (<status>)" otherwise. */
  lemma OtherStatusMessage(error: Value)
    requires !error.Undefined? && !error.Null? && KindOf(error) == OtherStatus
    ensures var response := Get(error, "response");
            var dataError := OptionalGet(Get(response, "data"), "error");
            HandleError(error).message ==
              if Truthy(dataError) then dataError
              else Str("Server error (" + ToString(Get(response, "status")) + ")")
  {
  }

  /** A local failure, with neither response nor request, reports its own
      message when it has one. */
  lemma LocalMessage(error: Value)
    requires !error.Undefined? && !error.Null? && KindOf(error) == Local
    ensures HandleError(error).message ==
              if Truthy(Get(error, "message")) then Get(error, "message") else Str("An unexpected error occurred.")
  {
  }

  /** Details come from the response body's `error` field first, then the
      status text. */
  lemma DetailsPreferBody(error: Value)
    requires !error.Undefined? && !error.Null? && Truthy(Get(error, "response"))
    ensures var response := Get(error, "response");
            var dataError := OptionalGet(Get(response, "data"), "error");
            HandleError(error).details == if Truthy(dataError) then dataError else Get(response, "statusText")
  {
  }
}
