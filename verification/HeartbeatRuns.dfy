/** Whole runs of the heartbeat server: what is accepted, what is stored, and for whom. */
module HeartbeatRuns {
  import opened Common
  import opened Text
  import opened JsonTree
  import opened Repository
  import opened Ingestion
  import opened Wire
  import opened HttpApi
  import opened HttpServer
  import Credentials
  import ContentLength
  import ContentType
  import Probe

  // ---- one request ----

  /** The declared body length as a number: the only Content-Length value, read as decimal digits. */
  function DeclaredLength(headers: Headers): Option<nat> {
    var values := HeaderValues(headers, "content-length");
    if |values| != 1 then None
    else
      var text := Strip(values[0], ContentLength.BLANKS);
      if text == "" || !IsDigits(text) then None else Some(Value(text))
  }

  predicate PlainFraming(headers: Headers) {
    HeaderValues(headers, "expect") == [] && HeaderValues(headers, "transfer-encoding") == []
  }

  lemma DeclaredNeedsHeader(headers: Headers)
    ensures HeaderValues(headers, "content-length") == [] ==> DeclaredLength(headers) == None
  {
  }

  lemma FrameMeaning(command: string, path: string, headers: Headers)
    ensures Frame(command, path, headers) ==
            if !IsHeartbeat(command, path) then Ok(0)
            else if !PlainFraming(headers) then Err(if HeaderValues(headers, "expect") != [] then 417 else 400)
            else if HeaderValues(headers, "content-length") == [] then Err(411)
            else if DeclaredLength(headers).None? then Err(400)
            else if DeclaredLength(headers).value > MAX_HEARTBEAT_BODY_BYTES then Err(413)
            else Ok(DeclaredLength(headers).value)
  {
    hide HeaderValues, ContentLength.ContentLengthOrNone, Strip, Value;
    ContentLength.DeclaredLengthIsExact(HeaderValues(headers, "content-length"), MAX_HEARTBEAT_BODY_BYTES);
  }

  predicate JsonTyped(headers: Headers) {
    var values := HeaderValues(headers, "content-type");
    |values| == 1 && ContentType.Verdict(values[0]) == None
  }

  function Tokens(headers: Headers): seq<string> {
    HeaderValues(headers, "x-sentinel-token")
  }

  /** The payload names a node, the token is that node's own, and the telemetry is that node's. */
  predicate Genuine(policy: Policy, payload: map<string, Json>, token: string) {
    && ClaimedNode(payload).Some?
    && Authentic(policy, ClaimedNode(payload).value, token)
    && policy.telemetry(payload).Some?
    && policy.telemetry(payload).value.host == ClaimedNode(payload).value
  }

  /** All that acceptance takes, in no particular order. */
  predicate Acceptable(policy: Policy, a: Arrival) {
    && IsHeartbeat(a.command, a.path)
    && PlainFraming(a.headers) && !MalformedHeaders(a.headers) && JsonTyped(a.headers) && |Tokens(a.headers)| == 1
    && DeclaredLength(a.headers).Some?
    && var n := DeclaredLength(a.headers).value;
       && 0 < n <= MAX_HEARTBEAT_BODY_BYTES && n <= |a.stream|
       && var payload := StrictJson(policy, a.stream[..n]);
          && payload.Some?
          && Genuine(policy, payload.value, Tokens(a.headers)[0])
          && Accepts(policy.hosts, policy.telemetry(payload.value).value, a.moment)
  }

  /** The record an acceptable request amounts to. */
  function Observation(policy: Policy, a: Arrival): Record
    requires Acceptable(policy, a)
  {
    var payload := StrictJson(policy, a.stream[..DeclaredLength(a.headers).value]).value;
    Record(policy.telemetry(payload).value, a.moment.clock.value)
  }

  /** 204 is answered, and a record stored, exactly for the acceptable requests; the record is what the
      declared bytes and the central clock say. */
  lemma AcceptedExactly(policy: Policy, a: Arrival)
    ensures Decide(policy, a).status == 204 <==> Acceptable(policy, a)
    ensures Decide(policy, a).stored == if Acceptable(policy, a) then Some(Observation(policy, a)) else None
  {
    hide HeaderValues, DeclaredLength, StrictJson, MalformedHeaders, Accepts, Genuine, JsonTyped, Tokens, Admit, Frame;
    FrameMeaning(a.command, a.path, a.headers);
    DeclaredNeedsHeader(a.headers);
    RefusalStatuses(policy, a);
    if Body(a).Ok? {
      AdmittedExactly(policy, Request(a.command, a.path, a.headers, Body(a).value));
    }
  }

  lemma AdmittedExactly(policy: Policy, request: Request)
    ensures Admit(policy, request).Ok? <==>
              && IsHeartbeat(request.command, request.path)
              && !MalformedHeaders(request.headers) && JsonTyped(request.headers) && |Tokens(request.headers)| == 1
              && 0 < |request.body| <= MAX_HEARTBEAT_BODY_BYTES
              && StrictJson(policy, request.body).Some?
              && Genuine(policy, StrictJson(policy, request.body).value, Tokens(request.headers)[0])
    ensures Admit(policy, request).Ok? ==>
              Admit(policy, request).value == policy.telemetry(StrictJson(policy, request.body).value).value
  {
    hide HeaderValues, StrictJson, MalformedHeaders, ClaimedNode, Authentic, ContentType.Verdict;
  }

  lemma VerdictStatus(value: string)
    ensures ContentType.Verdict(value).Some? ==> ContentType.Verdict(value).value in {400, 415}
  {
    hide ContentType.Folded, ContentType.Classify, ContentType.MalformedMediaType;
  }

  /** No refusal, wherever it is decided, uses the status of an acceptance. */
  lemma RefusalStatuses(policy: Policy, a: Arrival)
    ensures Body(a).Err? ==> Body(a).error in {400, 411, 413, 417}
    ensures Body(a).Ok? ==>
              var admitted := Admit(policy, Request(a.command, a.path, a.headers, Body(a).value));
              admitted.Err? ==> admitted.error in {400, 401, 404, 405, 415}
  {
    hide HeaderValues, DeclaredLength, StrictJson, MalformedHeaders, ContentType.Verdict, Frame, Authenticate;
    FrameMeaning(a.command, a.path, a.headers);
    var types := HeaderValues(a.headers, "content-type");
    if types != [] {
      VerdictStatus(types[0]);
    }
  }

  /** Which requests the early statuses answer: the size limit is the declared number alone, and the
      routing statuses need no body. */
  lemma EarlyStatuses(policy: Policy, a: Arrival)
    ensures var status := Decide(policy, a).status;
            var heartbeat := IsHeartbeat(a.command, a.path);
            && (status == 417 <==> heartbeat && HeaderValues(a.headers, "expect") != [])
            && (status == 411 <==> heartbeat && PlainFraming(a.headers)
                                   && HeaderValues(a.headers, "content-length") == [])
            && (status == 413 <==> heartbeat && PlainFraming(a.headers) && DeclaredLength(a.headers).Some?
                                   && DeclaredLength(a.headers).value > MAX_HEARTBEAT_BODY_BYTES)
            && (status == 404 <==> !MalformedHeaders(a.headers) && a.path != HEARTBEAT_PATH)
            && (status == 405 <==> !MalformedHeaders(a.headers) && a.path == HEARTBEAT_PATH
                                   && a.command != HEARTBEAT_METHOD)
  {
    hide HeaderValues, DeclaredLength, StrictJson, MalformedHeaders, ContentType.Verdict, Frame, Authenticate, Accepts;
    FrameMeaning(a.command, a.path, a.headers);
    DeclaredNeedsHeader(a.headers);
    RefusalStatuses(policy, a);
    var types := HeaderValues(a.headers, "content-type");
    if types != [] {
      VerdictStatus(types[0]);
    }
  }

  /** Nothing is read unless the request is a heartbeat of acceptable declared length, and what
      reaches the request's checks is exactly that many bytes. */
  lemma BodyIsAsDeclared(a: Arrival)
    ensures Body(a).Ok? && IsHeartbeat(a.command, a.path) ==>
              && DeclaredLength(a.headers) == Some(|Body(a).value|)
              && |Body(a).value| <= MAX_HEARTBEAT_BODY_BYTES
              && Body(a).value <= a.stream
    ensures !IsHeartbeat(a.command, a.path) ==> Body(a) == Ok("")
  {
    hide HeaderValues, DeclaredLength, Frame;
    FrameMeaning(a.command, a.path, a.headers);
  }

  predicate Authenticates(policy: Policy, a: Arrival) {
    && Body(a).Ok?
    && var checked := Check(policy, Request(a.command, a.path, a.headers, Body(a).value));
       && checked.Ok?
       && ClaimedNode(checked.value.0).Some?
       && Authentic(policy, ClaimedNode(checked.value.0).value, checked.value.1)
  }

  /** A caller without a node's own token learns nothing about nodes or tokens: any two
      configurations that do not authenticate the request treat it alike. */
  lemma FailuresAreUniform(policy: Policy, a: Arrival, hosts: set<string>, credentials: map<string, string>)
    requires !Authenticates(policy, a)
    requires !Authenticates(policy.(hosts := hosts, credentials := credentials), a)
    ensures Decide(policy, a) == Decide(policy.(hosts := hosts, credentials := credentials), a)
  {
    hide HeaderValues, Authentic, Body, MalformedHeaders, ContentType.Verdict, DuplicateFree, ClaimedNode;
    var other := policy.(hosts := hosts, credentials := credentials);
    if Body(a).Ok? {
      var request := Request(a.command, a.path, a.headers, Body(a).value);
      assert StrictJson(policy, request.body) == StrictJson(other, request.body);
      assert Check(policy, request) == Check(other, request);
    }
  }

  // ---- the live server seen from outside ----

  function Observed(response: Response): Probe.Response {
    Probe.Response(response.status, HeaderValues(response.headers, "allow"), response.body)
  }

  lemma PostIsListed()
    ensures Probe.PostListed([HEARTBEAT_METHOD]) && !Probe.PostListed([])
  {
    var tokens := [HEARTBEAT_METHOD];
    assert Join(tokens, ',') == HEARTBEAT_METHOD;
    SplitInvertsJoin(tokens, ',');
    assert Probe.IsPost(tokens[0]);
    assert Probe.Lists(HEARTBEAT_METHOD);
  }

  /** Of all responses the server can give, the dead-man's probe takes for a sign of life exactly those
      to a well-formed request for the heartbeat path with another method; and those store nothing. */
  lemma LiveServerProbesHealthy(policy: Policy, a: Arrival)
    ensures Probe.Healthy(Observed(Written(Decide(policy, a).status))) <==>
            !MalformedHeaders(a.headers) && a.path == HEARTBEAT_PATH && a.command != HEARTBEAT_METHOD
    ensures Probe.Healthy(Observed(Written(Decide(policy, a).status))) ==> Decide(policy, a).stored == None
  {
    hide Decide, HeaderValues, Written, MalformedHeaders, Acceptable, Observation, Probe.PostListed;
    EarlyStatuses(policy, a);
    AcceptedExactly(policy, a);
    ResponsesHaveNoBody(Decide(policy, a).status);
    PostIsListed();
  }

  // ---- runs ----

  /** The records stored by a sequence of requests. */
  function Stored(policy: Policy, arrivals: seq<Arrival>): seq<Record> {
    if arrivals == [] then []
    else Stored(policy, arrivals[..|arrivals| - 1]) + Rows(Decide(policy, arrivals[|arrivals| - 1]))
  }

  lemma StoredSnoc(policy: Policy, arrivals: seq<Arrival>, a: Arrival)
    ensures Stored(policy, arrivals + [a]) == Stored(policy, arrivals) + Rows(Decide(policy, a))
  {
    hide Decide;
    assert (arrivals + [a])[..|arrivals|] == arrivals;
  }

  /** The requests answered 204. */
  function Accepted(policy: Policy, arrivals: seq<Arrival>): seq<Arrival> {
    if arrivals == [] then []
    else
      var last := arrivals[|arrivals| - 1];
      Accepted(policy, arrivals[..|arrivals| - 1]) + if Decide(policy, last).status == 204 then [last] else []
  }

  /** Row by row the table holds the observations of the requests answered 204, and nothing else. */
  lemma {:induction false} OneRowPerAcceptance(policy: Policy, arrivals: seq<Arrival>)
    ensures |Stored(policy, arrivals)| == |Accepted(policy, arrivals)|
    ensures forall i | 0 <= i < |Stored(policy, arrivals)| ::
              && Accepted(policy, arrivals)[i] in arrivals
              && Acceptable(policy, Accepted(policy, arrivals)[i])
              && Stored(policy, arrivals)[i] == Observation(policy, Accepted(policy, arrivals)[i])
  {
    hide Decide, Acceptable, Observation;
    if arrivals != [] {
      var earlier, last := arrivals[..|arrivals| - 1], arrivals[|arrivals| - 1];
      OneRowPerAcceptance(policy, earlier);
      AcceptedExactly(policy, last);
      assert arrivals == earlier + [last];
    }
  }

  /** The record belongs to the one node whose token the request presented. */
  ghost predicate Owned(policy: Policy, a: Arrival, r: Record) {
    && |Tokens(a.headers)| == 1
    && r.telemetry.host in policy.hosts
    && (forall node | node in policy.credentials ::
          policy.credentials[node] == Tokens(a.headers)[0] <==> node == r.telemetry.host)
    && r.telemetry.host in policy.credentials
  }

  /** Under credentials that passed their construction, every stored row's node is the unique owner of
      the token its request presented. */
  lemma RowsAreOwned(policy: Policy, arrivals: seq<Arrival>)
    requires Credentials.OwnTokens(policy.credentials)
    ensures |Stored(policy, arrivals)| == |Accepted(policy, arrivals)|
    ensures forall i | 0 <= i < |Stored(policy, arrivals)| ::
              Owned(policy, Accepted(policy, arrivals)[i], Stored(policy, arrivals)[i])
  {
    hide Decide, HeaderValues, StrictJson, DeclaredLength, Stored, Accepted, Blank, ClaimedNode;
    OneRowPerAcceptance(policy, arrivals);
  }

  /** Serial service: one handler per connection, over one table. */
  class HeartbeatHttpServer {
    const adapter: HeartbeatHttpAdapter
    ghost const initial: seq<Record>
    ghost var served: seq<Arrival>

    ghost predicate Valid()
      reads this, adapter.wire.ingestor.repository
    {
      && adapter.wire.ingestor.repository.Valid()
      && adapter.wire.ingestor.hosts == adapter.wire.policy.hosts
      && adapter.wire.ingestor.repository.contents == initial + Stored(adapter.wire.policy, served)
    }

    constructor (adapter: HeartbeatHttpAdapter)
      requires adapter.wire.ingestor.repository.Valid()
      requires adapter.wire.ingestor.hosts == adapter.wire.policy.hosts
      ensures Valid() && this.adapter == adapter && served == []
      ensures initial == adapter.wire.ingestor.repository.contents
    {
      this.adapter, initial, served := adapter, adapter.wire.ingestor.repository.contents, [];
    }

    method HandleRequest(a: Arrival) returns (response: Response)
      requires Valid()
      modifies this`served, adapter.wire.ingestor.repository
      ensures Valid() && served == old(served) + [a]
      ensures response == Written(Decide(adapter.wire.policy, a).status)
    {
      hide Decide, Written, Stores, Stored, Rows;
      StoredSnoc(adapter.wire.policy, served, a);
      var handler := new HeartbeatRequestHandler(adapter, a);
      handler.Dispatch(a.moment);
      served := served + [a];
      return handler.wfile[0];
    }
  }
}
