/** The envelope logic of `HttpProvider`: how a transport outcome and a
    decoding outcome become an `HttpResultData` envelope.

    The transport (`HttpClient.SendAsync` plus the body read) is a function
    from the request the provider builds to an `Exchange`; the JSON codec's
    encoder and decoders are functions that may throw. Both are parameters,
    so every operation here is a total function of its inputs.

    The C# code distinguishes two kinds of exception: the inner helpers
    (`HttpSendJsonStreamMessage`, `HttpGetReponseMessage`) catch only
    `HttpRequestException`; anything else escapes them and is caught by the
    `catch (Exception)` of the public operation around them.
 */
module HttpProvider {
  import opened Wrappers

  /** The status the provider reports when it caught an exception. */
  const FailureStatus: int := -1

  /** The status on which the GET operations decode the body. */
  const OkStatus: int := 200

  const JsonMediaType: string := "application/json"
  const GetMethod: string := "GET"

  /** A `StringContent`: text, the name of its encoding, and its media type. */
  datatype Content = Content(text: string, encoding: string, mediaType: string)

  /** An `HttpRequestMessage`, reduced to what the provider sets on it. */
  datatype Request = Request(httpMethod: string, url: string, accept: seq<string>, content: Option<Content>)

  datatype ExceptionKind = HttpRequestException | OtherException

  /** What one exchange with the server gives: a response (its status code
      and its body read as text) or an exception with its message. Failures
      while building the request (an unknown encoding name, an invalid method
      token or URL) are exceptions of kind `OtherException` here. */
  datatype Exchange =
    | Response(status: int, body: string)
    | Failure(kind: ExceptionKind, message: string)

  /** The transport, as seen by the provider. */
  type Transport = Request -> Exchange

  /** `HttpResultData<TContext>`; `None` in a model field means the field
      holds null: never assigned, or assigned a null decoding result. */
  datatype HttpResultData<T> = HttpResultData(
    httpStatusCode: int,
    responseData: string,
    modelContext: Option<T>,
    arrayModelContext: Option<seq<T>>)

  /** An envelope that carries no decoded model. */
  function Plain<T>(status: int, body: string): HttpResultData<T> {
    HttpResultData(status, body, None, None)
  }

  /** The envelope a caught exception leaves behind. */
  function Failed<T>(message: string): HttpResultData<T> {
    Plain(FailureStatus, message)
  }

  /** The invariant every envelope keeps: at most one model field is set,
      a model is only ever set on status 200, and a failure envelope carries
      none. */
  predicate WellFormed<T>(e: HttpResultData<T>) {
    && !(e.modelContext.Some? && e.arrayModelContext.Some?)
    && (e.modelContext.Some? || e.arrayModelContext.Some? ==> e.httpStatusCode == OkStatus)
  }

  /** The request `HttpSendJsonStreamMessage` sends: the given method and URL,
      and a JSON body in the given encoding exactly when there is a message. */
  function SendRequest(postMsg: Option<string>, url: string, encode: string, httpMethod: string): Request {
    Request(httpMethod, url, [], if postMsg.Some? then Some(Content(postMsg.value, encode, JsonMediaType)) else None)
  }

  /** The request `HttpGetReponseMessage` sends: a GET that accepts JSON and
      has no body. */
  function GetRequest(url: string): Request {
    Request(GetMethod, url, [JsonMediaType], None)
  }

  /** The try/catch (HttpRequestException) shared by the two inner helpers. */
  function CatchHttpRequest<T>(x: Exchange): (r: Raised<HttpResultData<T>>)
    ensures r.Thrown? <==> x.Failure? && x.kind == OtherException
    ensures r.Thrown? ==> r.message == x.message
    ensures x.Response? ==> r == Returned(Plain(x.status, x.body))
    ensures x.Failure? && x.kind == HttpRequestException ==> r == Returned(Failed(x.message))
  {
    match x
    case Response(status, body) => Returned(Plain(status, body))
    case Failure(HttpRequestException, message) => Returned(Failed(message))
    case Failure(OtherException, message) => Thrown(message)
  }

  /** `HttpSendJsonStreamMessage`: send the message (if any) and copy the
      response's status and body; an `HttpRequestException` becomes a -1
      envelope, any other exception escapes. */
  function HttpSendJsonStreamMessage<T>(postMsg: Option<string>, url: string, encode: string, httpMethod: string,
                                        send: Transport): (r: Raised<HttpResultData<T>>)
    ensures var x := send(SendRequest(postMsg, url, encode, httpMethod));
            && (x.Response? ==> r == Returned(HttpResultData(x.status, x.body, None, None)))
            && (x.Failure? && x.kind == HttpRequestException ==> r == Returned(HttpResultData(FailureStatus, x.message, None, None)))
            && (x.Failure? && x.kind == OtherException ==> r == Thrown(x.message))
  {
    CatchHttpRequest(send(SendRequest(postMsg, url, encode, httpMethod)))
  }

  /** `HttpSendMessage`: serialize the message, send it, and never let an
      exception out. */
  function HttpSendMessage<T>(sendMessage: T, url: string, encode: string, httpMethod: string,
                              serialize: T -> Raised<string>, send: Transport): (r: HttpResultData<T>)
    // a send never decodes anything
    ensures r.modelContext.None? && r.arrayModelContext.None?
    // a failed serialization is reported as -1 and its message, whatever the transport does
    ensures serialize(sendMessage).Thrown? ==>
              r.httpStatusCode == FailureStatus && r.responseData == serialize(sendMessage).message
    // otherwise the envelope reports the exchange: the response verbatim, or -1 and the message
    ensures serialize(sendMessage).Returned? ==>
              var x := send(SendRequest(Some(serialize(sendMessage).value), url, encode, httpMethod));
              && (x.Response? ==> r.httpStatusCode == x.status && r.responseData == x.body)
              && (x.Failure? ==> r.httpStatusCode == FailureStatus && r.responseData == x.message)
  {
    match serialize(sendMessage)
    case Thrown(message) => Failed(message)
    case Returned(postMsg) =>
      match HttpSendJsonStreamMessage(Some(postMsg), url, encode, httpMethod, send)
      case Returned(e) => e
      case Thrown(message) => Failed(message)
  }

  /** `HttpGetReponseMessage`: a JSON GET whose response status and body are
      copied; an `HttpRequestException` becomes a -1 envelope, any other
      exception escapes. */
  function HttpGetReponseMessage<T>(url: string, send: Transport): (r: Raised<HttpResultData<T>>)
    ensures var x := send(GetRequest(url));
            && (x.Response? ==> r == Returned(HttpResultData(x.status, x.body, None, None)))
            && (x.Failure? && x.kind == HttpRequestException ==> r == Returned(HttpResultData(FailureStatus, x.message, None, None)))
            && (x.Failure? && x.kind == OtherException ==> r == Thrown(x.message))
  {
    CatchHttpRequest(send(GetRequest(url)))
  }

  /** `HTTPGetMessage`: GET one object; decode the body only on status 200.
      The decoder may return null (`None`), as the JSON codec does for an
      empty body or the literal `null`; the envelope then carries no model. */
  function HTTPGetMessage<T>(url: string, send: Transport, decode: string -> Raised<Option<T>>): (r: HttpResultData<T>)
    ensures r.arrayModelContext.None?
    // the model is set exactly when the server answered 200 and the body decoded to an object
    ensures r.modelContext.Some? <==>
              var x := send(GetRequest(url));
              x.Response? && x.status == OkStatus && decode(x.body).Returned? && decode(x.body).value.Some?
    ensures r.modelContext.Some? ==>
              && r.httpStatusCode == OkStatus
              && r.responseData == send(GetRequest(url)).body
              && Returned(r.modelContext) == decode(r.responseData)
    // a 200 body that decodes keeps its status and text, with whatever the decoder gave, null included
    ensures var x := send(GetRequest(url));
            x.Response? && x.status == OkStatus && decode(x.body).Returned? ==>
              r == HttpResultData(x.status, x.body, decode(x.body).value, None)
    // any other status is passed through verbatim, and is not an error
    ensures var x := send(GetRequest(url));
            x.Response? && x.status != OkStatus ==> r == HttpResultData(x.status, x.body, None, None)
    // every caught exception, from the transport or from decoding, gives -1 and its message
    ensures var x := send(GetRequest(url));
            x.Failure? ==> r == HttpResultData(FailureStatus, x.message, None, None)
    ensures var x := send(GetRequest(url));
            x.Response? && x.status == OkStatus && decode(x.body).Thrown? ==>
              r == HttpResultData(FailureStatus, decode(x.body).message, None, None)
  {
    match HttpGetReponseMessage(url, send)
    case Thrown(message) => Failed(message)
    case Returned(e) =>
      if e.httpStatusCode == OkStatus then
        match decode(e.responseData)
        case Returned(model) => e.(modelContext := model)
        case Thrown(message) => Failed(message)
      else e
  }

  /** `HTTPGetMessages`: GET an array; decode the body only on status 200,
      and return null for every other status, the -1 of a caught
      `HttpRequestException` included. The array decoder may return null
      (`None`) as well. */
  function HTTPGetMessages<T>(url: string, send: Transport, decodeArray: string -> Raised<Option<seq<T>>>): (r: Option<HttpResultData<T>>)
    // null exactly for a non-200 status, whether the server's or the -1 of an HttpRequestException
    ensures r.None? <==>
              var x := send(GetRequest(url));
              (x.Response? && x.status != OkStatus) || (x.Failure? && x.kind == HttpRequestException)
    ensures r.Some? ==> r.value.modelContext.None?
    // the array is set exactly when the server answered 200 and the body decoded to an array
    ensures r.Some? && r.value.arrayModelContext.Some? <==>
              var x := send(GetRequest(url));
              x.Response? && x.status == OkStatus && decodeArray(x.body).Returned? && decodeArray(x.body).value.Some?
    ensures r.Some? && r.value.arrayModelContext.Some? ==>
              && r.value.httpStatusCode == OkStatus
              && r.value.responseData == send(GetRequest(url)).body
              && Returned(r.value.arrayModelContext) == decodeArray(r.value.responseData)
    // a 200 body that decodes keeps its status and text, with whatever the decoder gave, null included
    ensures var x := send(GetRequest(url));
            x.Response? && x.status == OkStatus && decodeArray(x.body).Returned? ==>
              r == Some(HttpResultData(x.status, x.body, None, decodeArray(x.body).value))
    // an exception that escaped the inner helper, or a decoding failure, gives -1 and its message
    ensures var x := send(GetRequest(url));
            x.Failure? && x.kind == OtherException ==> r == Some(HttpResultData(FailureStatus, x.message, None, None))
    ensures var x := send(GetRequest(url));
            x.Response? && x.status == OkStatus && decodeArray(x.body).Thrown? ==>
              r == Some(HttpResultData(FailureStatus, decodeArray(x.body).message, None, None))
  {
    match HttpGetReponseMessage(url, send)
    case Thrown(message) => Some(Failed(message))
    case Returned(e) =>
      if e.httpStatusCode == OkStatus then
        match decodeArray(e.responseData)
        case Returned(models) => Some(e.(arrayModelContext := models))
        case Thrown(message) => Some(Failed(message))
      else None
  }

  /* ---------------------------------------------------------------------
     Properties relating the operations.
     --------------------------------------------------------------------- */

  /** Every envelope the provider hands out keeps the envelope invariant. */
  lemma EnvelopesWellFormed<T>(url: string, encode: string, httpMethod: string, message: T,
                               serialize: T -> Raised<string>, send: Transport,
                               decode: string -> Raised<Option<T>>, decodeArray: string -> Raised<Option<seq<T>>>)
    ensures WellFormed(HttpSendMessage(message, url, encode, httpMethod, serialize, send))
    ensures WellFormed(HTTPGetMessage(url, send, decode))
    ensures var r := HTTPGetMessages(url, send, decodeArray); r.Some? ==> WellFormed(r.value)
  {
  }

  /** When no server answers with status -1, a -1 from the object GET means
      exactly that an exception was caught: from the transport, or from
      decoding a 200 body. */
  lemma FailureStatusMeansException<T>(url: string, send: Transport, decode: string -> Raised<Option<T>>)
    requires forall q :: send(q).Response? ==> send(q).status != FailureStatus
    ensures var r := HTTPGetMessage(url, send, decode);
            r.httpStatusCode == FailureStatus <==>
              var x := send(GetRequest(url));
              x.Failure? || (x.status == OkStatus && decode(x.body).Thrown?)
  {
  }

  /** The asymmetry between the two GETs. An `HttpRequestException` gives a
      -1 envelope from the object GET and null from the array GET; any other
      transport exception gives the same -1 envelope from both. */
  lemma GetAsymmetry<T>(url: string, send: Transport, decode: string -> Raised<Option<T>>, decodeArray: string -> Raised<Option<seq<T>>>)
    requires send(GetRequest(url)).Failure?
    ensures var x := send(GetRequest(url));
            HTTPGetMessage(url, send, decode) == Failed(x.message)
    ensures var x := send(GetRequest(url));
            HTTPGetMessages(url, send, decodeArray)
              == if x.kind == HttpRequestException then None else Some(Failed(x.message))
  {
  }

  /** Whenever the array GET returns an envelope, it reports the same status
      and body as the object GET would, provided the two decoders agree on
      whether the body decodes. */
  lemma GetsAgreeOnEnvelope<T>(url: string, send: Transport, decode: string -> Raised<Option<T>>, decodeArray: string -> Raised<Option<seq<T>>>)
    requires forall body :: decode(body).Thrown? <==> decodeArray(body).Thrown?
    requires forall body :: decode(body).Thrown? ==> decodeArray(body).message == decode(body).message
    ensures var many := HTTPGetMessages(url, send, decodeArray);
            var one := HTTPGetMessage(url, send, decode);
            many.Some? ==>
              && many.value.httpStatusCode == one.httpStatusCode
              && many.value.responseData == one.responseData
  {
  }
}
