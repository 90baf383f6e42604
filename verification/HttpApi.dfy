/** The semantics of one heartbeat request: the order of checks and the status of each failure. */
module HttpApi {
  import opened Common
  import opened Text
  import opened JsonTree
  import opened Repository
  import opened Ingestion
  import opened Wire
  import ContentType

  type Headers = seq<(string, string)>

  datatype Request = Request(command: string, path: string, headers: Headers, body: string)

  datatype Response = Response(status: int, headers: Headers, body: string)

  const HEARTBEAT_PATH := "/v1/heartbeat"
  const HEARTBEAT_METHOD := "POST"
  const MAX_HEARTBEAT_BODY_BYTES := 16384

  /** Every value of the header, whatever the letter case of its name. */
  function HeaderValues(headers: Headers, name: string): seq<string> {
    if headers == [] then []
    else (if Lower(headers[0].0) == name then [headers[0].1] else []) + HeaderValues(headers[1..], name)
  }

  predicate MalformedName(name: string) {
    name == "" || exists i | 0 <= i < |name| :: !ContentType.Visible(name[i])
  }

  predicate MalformedValue(value: string) {
    exists i | 0 <= i < |value| :: (value[i] < ' ' && value[i] != '\t') || value[i] == '\U{7F}'
  }

  predicate MalformedHeaders(headers: Headers) {
    exists i | 0 <= i < |headers| :: MalformedName(headers[i].0) || MalformedValue(headers[i].1)
  }

  /** The body's JSON object, unless it is not one or repeats a name at any depth. */
  function StrictJson(policy: Policy, body: string): Option<map<string, Json>> {
    match policy.loads(body)
    case Some(JObject(pairs)) => if DuplicateFree(JObject(pairs)) then Some(Dict(pairs)) else None
    case _ => None
  }

  /** The payload and the presented token, or the status of the first failing check. */
  function Check(policy: Policy, request: Request): Result<(map<string, Json>, string), int> {
    if MalformedHeaders(request.headers) then Err(400)
    else if request.path != HEARTBEAT_PATH then Err(404)
    else if request.command != HEARTBEAT_METHOD then Err(405)
    else if |request.body| > MAX_HEARTBEAT_BODY_BYTES then Err(413)
    else if request.body == "" then Err(400)
    else
      var contentTypes := HeaderValues(request.headers, "content-type");
      if |contentTypes| > 1 then Err(400)
      else if contentTypes == [] then Err(415)
      else if ContentType.Verdict(contentTypes[0]).Some? then Err(ContentType.Verdict(contentTypes[0]).value)
      else
        var tokens := HeaderValues(request.headers, "x-sentinel-token");
        if |tokens| != 1 then Err(401)
        else
          match StrictJson(policy, request.body)
          case None => Err(400)
          case Some(payload) => Ok((payload, tokens[0]))
  }

  /** The telemetry of an authenticated request, or the status of its refusal. */
  function Admit(policy: Policy, request: Request): Result<Telemetry, int> {
    var (payload, token) :- Check(policy, request);
    match Authenticate(policy, payload, token)
    case Ok(telemetry) => Ok(telemetry)
    case Err(Unauthenticated) => Err(401)
    case Err(_) => Err(400)
  }

  function Answer(status: int): Response {
    Response(status, [("Content-Length", "0")] + (if status == 405 then [("Allow", HEARTBEAT_METHOD)] else []), "")
  }

  class HeartbeatHttpAdapter {
    const wire: AuthenticatedHeartbeatAdapter

    constructor (wire: AuthenticatedHeartbeatAdapter)
      ensures this.wire == wire
    {
      this.wire := wire;
    }

    /** Client errors are answered here; every other failure is left to the server as an `Err`. */
    method Handle(request: Request, moment: Moment) returns (response: Result<Response, IngestError>)
      requires wire.ingestor.repository.Valid()
      modifies wire.ingestor.repository
      ensures wire.ingestor.repository.Valid()
      ensures match Admit(wire.policy, request)
              case Err(status) => response == Ok(Answer(status))
              case Ok(telemetry) =>
                if Accepts(wire.ingestor.hosts, telemetry, moment) then response == Ok(Answer(204)) else response.Err?
      ensures wire.ingestor.repository.contents == old(wire.ingestor.repository.contents) +
                if Admit(wire.policy, request).Ok? && response.Ok?
                then [Record(Admit(wire.policy, request).value, moment.clock.value)] else []
    {
      hide Check, Authenticate, Accepts;
      AuthenticationErrors(wire.policy, request);
      var checked := Check(wire.policy, request);
      if checked.Err? {
        return Ok(Answer(checked.error));
      }
      var receipt := wire.Handle(checked.value.0, checked.value.1, moment);
      match receipt
      case Ok(_) => return Ok(Answer(204));
      case Err(MalformedPayload) => return Ok(Answer(400));
      case Err(Unauthenticated) => return Ok(Answer(401));
      case Err(Internal(why)) => return Err(why);
    }
  }

  lemma AuthenticationErrors(policy: Policy, request: Request)
    ensures var checked := Check(policy, request);
            checked.Ok? ==>
              var telemetry := Authenticate(policy, checked.value.0, checked.value.1);
              telemetry.Err? ==> !telemetry.error.Internal?
  {
    hide Check;
  }
}
