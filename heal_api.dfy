/**
 * The decisions of AdminClient.Heal (heal-commands.go): argument check,
 * request path, query values and body, and the routing of the reply to the
 * start-success shape, the task-status shape or an error. JSON encoding and
 * decoding and the HTTP exchange are foreign; they enter as the functions
 * of `Codecs` and the `send` parameter, and only their outcomes matter.
 */
module HealApi {
  import opened Wrappers
  import opened HealOptions
  import opened HealTypes

  /** adminAPIPrefix of the admin client ("/" + API version "v3"). */
  const AdminAPIPrefix: string := "/v3"
  const HealPathRoot: string := AdminAPIPrefix + "/heal/"
  const MethodPost: string := "POST"
  const StatusOK: int := 200

  const QueryClientToken: string := "clientToken"
  const QueryForceStart: string := "forceStart"
  const QueryForceStop: string := "forceStop"

  const ForceBothMessage: string := "forceStart and forceStop set to true is not allowed"

  /** The outcome of one foreign call: a value, or the text of its error. */
  datatype Outcome<T> = Ok(value: T) | Fail(error: string)

  /** The structured error payload a server sends. */
  datatype ErrorResponse = ErrorResponse(
    code: string,
    message: string,
    bucketName: string,
    key: string,
    requestId: string,
    hostId: string,
    region: string)

  datatype Request = Request(
    httpMethod: string,
    relPath: string,
    queryValues: map<string, string>,
    content: seq<byte>)

  /** What came back over the wire: the status code, the outcome of reading
      the body, and the error that would be built from a non-200 reply. */
  datatype HttpReply = HttpReply(
    statusCode: int,
    body: Outcome<seq<byte>>,
    errorResponse: ErrorResponse)

  /** The JSON encoder and decoders the call relies on. */
  datatype Codecs = Codecs(
    marshalOpts: HealOpts -> Outcome<seq<byte>>,
    decodeStart: seq<byte> -> Outcome<HealStartSuccess>,
    decodeStatus: seq<byte> -> Outcome<HealTaskStatus>,
    decodeError: seq<byte> -> Outcome<ErrorResponse>)

  datatype HealError =
    | InvalidArgument(message: string)
    | EncodeFailure(cause: string)
    | TransportFailure(cause: string)
    | ServerError(response: ErrorResponse)
    | ReadFailure(cause: string)
    | DecodeFailure(cause: string)

  datatype HealResult =
    | StartSuccess(start: HealStartSuccess)
    | TaskStatus(status: HealTaskStatus)
    | Failure(error: HealError)

  /** The request issued, if any, and what the call returned. */
  datatype HealCall = HealCall(sent: Option<Request>, result: HealResult)

  /** The request path: the heal root and the bucket, then the prefix only
      when both bucket and prefix are given. */
  function HealPath(bucket: string, prefix: string): (p: string)
    ensures |p| >= |HealPathRoot + bucket| && p[..|HealPathRoot + bucket|] == HealPathRoot + bucket
    ensures |p| == |HealPathRoot + bucket| <==> bucket == "" || prefix == ""
    ensures |p| > |HealPathRoot + bucket| ==> p[|HealPathRoot + bucket|..] == "/" + prefix
  {
    var path := HealPathRoot + bucket;
    if bucket != "" && prefix != "" then path + "/" + prefix else path
  }

  /** The query values: the client token when there is one, and at most one
      force flag, forceStart taking precedence. */
  function HealQuery(clientToken: string, forceStart: bool, forceStop: bool): (q: map<string, string>)
    ensures q.Keys <= {QueryClientToken, QueryForceStart, QueryForceStop}
    ensures QueryClientToken in q <==> clientToken != ""
    ensures QueryClientToken in q ==> q[QueryClientToken] == clientToken
    ensures QueryForceStart in q <==> forceStart
    ensures QueryForceStop in q <==> forceStop && !forceStart
    ensures forall k :: k in q && k != QueryClientToken ==> q[k] == "true"
  {
    var withToken := if clientToken != "" then map[QueryClientToken := clientToken] else map[];
    if forceStart then withToken[QueryForceStart := "true"]
    else if forceStop then withToken[QueryForceStop := "true"]
    else withToken
  }

  /** Interpreting a 200 body: the shape chosen by the token, else the error
      payload, else the error of decoding that payload. */
  function DecodeBody(clientToken: string, body: seq<byte>, codecs: Codecs): (r: HealResult)
    ensures r.StartSuccess? <==> clientToken == "" && codecs.decodeStart(body).Ok?
    ensures r.StartSuccess? ==> codecs.decodeStart(body) == Ok(r.start)
    ensures r.TaskStatus? <==> clientToken != "" && codecs.decodeStatus(body).Ok?
    ensures r.TaskStatus? ==> codecs.decodeStatus(body) == Ok(r.status)
    ensures r.Failure? ==> r.error.ServerError? || r.error.DecodeFailure?
    ensures r.Failure? && r.error.ServerError? ==> codecs.decodeError(body) == Ok(r.error.response)
    ensures r.Failure? && r.error.DecodeFailure? ==> codecs.decodeError(body) == Fail(r.error.cause)
  {
    var decoded :=
      if clientToken == "" then
        (match codecs.decodeStart(body)
         case Ok(v) => Some(StartSuccess(v))
         case Fail(_) => None)
      else
        (match codecs.decodeStatus(body)
         case Ok(v) => Some(TaskStatus(v))
         case Fail(_) => None);
    if decoded.Some? then decoded.value
    else
      match codecs.decodeError(body)
      case Ok(errResp) => Failure(ServerError(errResp))
      case Fail(e) => Failure(DecodeFailure(e))
  }

  /** Interpreting the reply to an issued request. */
  function RouteReply(clientToken: string, reply: Outcome<HttpReply>, codecs: Codecs): (r: HealResult)
    ensures reply.Fail? ==> r == Failure(TransportFailure(reply.error))
    ensures reply.Ok? && reply.value.statusCode != StatusOK ==> r == Failure(ServerError(reply.value.errorResponse))
    ensures reply.Ok? && reply.value.statusCode == StatusOK && reply.value.body.Fail? ==>
              r == Failure(ReadFailure(reply.value.body.error))
    ensures !r.Failure? ==> reply.Ok? && reply.value.statusCode == StatusOK && reply.value.body.Ok?
    ensures reply.Ok? && reply.value.statusCode == StatusOK && reply.value.body.Ok? ==>
              r == DecodeBody(clientToken, reply.value.body.value, codecs)
  {
    match reply
    case Fail(e) => Failure(TransportFailure(e))
    case Ok(resp) =>
      if resp.statusCode != StatusOK then Failure(ServerError(resp.errorResponse))
      else
        match resp.body
        case Fail(e) => Failure(ReadFailure(e))
        case Ok(bytes) => DecodeBody(clientToken, bytes, codecs)
  }

  /** One call of the heal endpoint. No request is issued when both force
      flags are set or the options cannot be encoded. */
  function Heal(bucket: string, prefix: string, healOpts: HealOpts, clientToken: string,
                forceStart: bool, forceStop: bool,
                codecs: Codecs, send: Request -> Outcome<HttpReply>): (c: HealCall)
    ensures forceStart && forceStop ==> c == HealCall(None, Failure(InvalidArgument(ForceBothMessage)))
    ensures c.sent.None? <==> (forceStart && forceStop) || codecs.marshalOpts(healOpts).Fail?
    ensures c.sent.None? && !(forceStart && forceStop) ==>
              c.result == Failure(EncodeFailure(codecs.marshalOpts(healOpts).error))
    ensures c.sent.Some? ==> c.sent.value.httpMethod == MethodPost
    ensures c.sent.Some? ==> c.sent.value.relPath == HealPath(bucket, prefix)
    ensures c.sent.Some? ==> c.sent.value.queryValues == HealQuery(clientToken, forceStart, forceStop)
    ensures c.sent.Some? && clientToken != "" ==> c.sent.value.content == []
    ensures c.sent.Some? && clientToken == "" ==> c.sent.value.content == codecs.marshalOpts(healOpts).value
    ensures c.sent.Some? ==> c.result == RouteReply(clientToken, send(c.sent.value), codecs)
    ensures c.result.StartSuccess? ==> clientToken == ""
    ensures c.result.TaskStatus? ==> clientToken != ""
  {
    if forceStart && forceStop then
      HealCall(None, Failure(InvalidArgument(ForceBothMessage)))
    else
      match codecs.marshalOpts(healOpts)
      case Fail(e) => HealCall(None, Failure(EncodeFailure(e)))
      case Ok(marshalled) =>
        var body := if clientToken != "" then [] else marshalled;
        var request := Request(MethodPost, HealPath(bucket, prefix), HealQuery(clientToken, forceStart, forceStop), body);
        HealCall(Some(request), RouteReply(clientToken, send(request), codecs))
  }
}
