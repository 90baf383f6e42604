/** Authentication of a decoded payload: the token must be the claimed node's own. */
module Wire {
  import opened Common
  import opened Text
  import opened JsonTree
  import opened Repository
  import opened Ingestion

  /** The configuration, and the two decoders this model takes as given: JSON text, and a payload's
      telemetry fields. */
  datatype Policy = Policy(
    hosts: set<string>,
    credentials: map<string, string>,
    loads: string -> Option<Json>,
    telemetry: map<string, Json> -> Option<Telemetry>)

  datatype WireError = MalformedPayload | Unauthenticated | Internal(why: IngestError)

  function ClaimedNode(payload: map<string, Json>): Option<string> {
    if "node" in payload && payload["node"].JString? && !Blank(payload["node"].s) then Some(payload["node"].s) else None
  }

  /** Unknown nodes, nodes without a credential, blank tokens and wrong tokens alike are not authentic. */
  predicate Authentic(policy: Policy, node: string, token: string) {
    && node in policy.hosts
    && node in policy.credentials
    && !Blank(token)
    && token == policy.credentials[node]
  }

  /** Everything decided before the ingestion: the claimed node chooses the credential, and only an
      authenticated payload is decoded. */
  function Authenticate(policy: Policy, payload: map<string, Json>, token: string): Result<Telemetry, WireError> {
    match ClaimedNode(payload)
    case None => Err(MalformedPayload)
    case Some(node) =>
      if !Authentic(policy, node, token) then Err(Unauthenticated)
      else
        var telemetry := policy.telemetry(payload);
        if telemetry.None? || telemetry.value.host != node then Err(MalformedPayload)
        else Ok(telemetry.value)
  }

  class AuthenticatedHeartbeatAdapter {
    const policy: Policy
    const ingestor: HeartbeatIngestor

    constructor (policy: Policy, ingestor: HeartbeatIngestor)
      ensures this.policy == policy && this.ingestor == ingestor
    {
      this.policy, this.ingestor := policy, ingestor;
    }

    method Handle(payload: map<string, Json>, token: string, moment: Moment)
      returns (receipt: Result<Receipt, WireError>)
      requires ingestor.repository.Valid()
      modifies ingestor.repository
      ensures ingestor.repository.Valid()
      ensures match Authenticate(policy, payload, token)
              case Err(error) => receipt == Err(error)
              case Ok(telemetry) =>
                if Accepts(ingestor.hosts, telemetry, moment)
                then receipt == Ok(Receipt(telemetry.host, |ingestor.repository.contents|, moment.clock.value))
                else receipt.Err? && receipt.error.Internal?
      ensures ingestor.repository.contents == old(ingestor.repository.contents) +
                if receipt.Ok? then [Record(Authenticate(policy, payload, token).value, moment.clock.value)] else []
    {
      hide Accepts;
      var telemetry := Authenticate(policy, payload, token);
      if telemetry.Err? {
        return Err(telemetry.error);
      }
      var stored := ingestor.Ingest(telemetry.value, moment);
      return if stored.Err? then Err(Internal(stored.error)) else Ok(stored.value);
    }
  }
}
