/** The connection around one request: framing, the exact body, one response, the internal-error boundary. */
module HttpServer {
  import opened Common
  import opened Text
  import opened Repository
  import opened Ingestion
  import opened Wire
  import opened HttpApi
  import ContentLength

  /** The limit on declared lengths is the limit on bodies. */
  const MAX_CONTENT_LENGTH := MAX_HEARTBEAT_BODY_BYTES

  /** One connection: the parsed request line and headers, and the bytes behind them. */
  datatype Arrival = Arrival(command: string, path: string, headers: Headers, stream: string, moment: Moment)

  datatype Outcome = Outcome(status: int, stored: Option<Record>)

  predicate IsHeartbeat(command: string, path: string) {
    command == HEARTBEAT_METHOD && path == HEARTBEAT_PATH
  }

  /** How many body bytes to read; the checks precede any read. */
  function Frame(command: string, path: string, headers: Headers): Result<nat, int> {
    if !IsHeartbeat(command, path) then Ok(0)
    else if HeaderValues(headers, "expect") != [] then Err(417)
    else if HeaderValues(headers, "transfer-encoding") != [] then Err(400)
    else
      match ContentLength.ContentLengthOrNone(HeaderValues(headers, "content-length"), MAX_CONTENT_LENGTH)
      case Err(status) => Err(status)
      case Ok(None) => Err(411)
      case Ok(Some(length)) => Ok(length)
  }

  function Taken(stream: string, length: nat): string {
    if length <= |stream| then stream[..length] else stream
  }

  function Body(a: Arrival): Result<string, int> {
    var length :- Frame(a.command, a.path, a.headers);
    if |a.stream| < length then Err(400) else Ok(a.stream[..length])
  }

  /** What one connection is answered and what it stores. */
  function Decide(policy: Policy, a: Arrival): Outcome {
    match Body(a)
    case Err(status) => Outcome(status, None)
    case Ok(body) =>
      match Admit(policy, Request(a.command, a.path, a.headers, body))
      case Err(status) => Outcome(status, None)
      case Ok(telemetry) =>
        if Accepts(policy.hosts, telemetry, a.moment) then Outcome(204, Some(Record(telemetry, a.moment.clock.value)))
        else Outcome(500, None)
  }

  function Rows(outcome: Outcome): seq<Record> {
    if outcome.stored.Some? then [outcome.stored.value] else []
  }

  /** The response as written, the connection's end announced and the body's length declared. */
  function Emitted(response: Response): Response {
    var closing := response.headers + [("Connection", "close")];
    if response.body != "" then response.(headers := closing + [("Content-Length", Decimal(|response.body|))])
    else if HeaderValues(response.headers, "content-length") == [] then
      response.(headers := closing + [("Content-Length", "0")])
    else response.(headers := closing)
  }

  function Written(status: int): Response {
    Emitted(Answer(status))
  }

  class HeartbeatRequestHandler {
    const adapter: HeartbeatHttpAdapter
    const command: string
    const path: string
    const headers: Headers
    var rfile: string
    var wfile: seq<Response>
    var closeConnection: bool

    constructor (adapter: HeartbeatHttpAdapter, a: Arrival)
      ensures this.adapter == adapter && command == a.command && path == a.path && headers == a.headers
      ensures rfile == a.stream && wfile == []
    {
      this.adapter := adapter;
      command, path, headers := a.command, a.path, a.headers;
      rfile, wfile, closeConnection := a.stream, [], false;
    }

    /** Reads the declared bytes and not one more; nothing at all unless the framing is sound. */
    method ResolveBody(ghost moment: Moment) returns (body: Result<string, int>)
      modifies this`rfile
      ensures body == Body(Arrival(command, path, headers, old(rfile), moment))
      ensures var length := Frame(command, path, headers);
              && (length.Err? ==> rfile == old(rfile))
              && (length.Ok? ==> Taken(old(rfile), length.value) + rfile == old(rfile))
      ensures body.Ok? ==> body.value + rfile == old(rfile)
    {
      hide ContentLength.ContentLengthOrNone, HeaderValues;
      if command != HEARTBEAT_METHOD || path != HEARTBEAT_PATH {
        return Ok("");
      }
      if HeaderValues(headers, "expect") != [] {
        return Err(417);
      }
      if HeaderValues(headers, "transfer-encoding") != [] {
        return Err(400);
      }
      var length := ContentLength.ContentLengthOrNone(HeaderValues(headers, "content-length"), MAX_CONTENT_LENGTH);
      if length.Err? {
        return Err(length.error);
      }
      if length.value.None? {
        return Err(411);
      }
      if length.value.value == 0 {
        return Ok("");
      }
      var read := Taken(rfile, length.value.value);
      rfile := rfile[|read|..];
      return if |read| != length.value.value then Err(400) else Ok(read);
    }

    method Emit(response: Response)
      modifies this`wfile, this`closeConnection
      ensures wfile == old(wfile) + [Emitted(response)] && closeConnection
    {
      hide HeaderValues;
      closeConnection := true;
      var sent := response.headers + [("Connection", "close")];
      if response.body != "" {
        sent := sent + [("Content-Length", Decimal(|response.body|))];
      } else if HeaderValues(response.headers, "content-length") == [] {
        sent := sent + [("Content-Length", "0")];
      }
      wfile := wfile + [response.(headers := sent)];
    }

    /** One response on every path; the table grows by the outcome's row, if any. */
    method Dispatch(moment: Moment)
      requires adapter.wire.ingestor.repository.Valid()
      requires adapter.wire.ingestor.hosts == adapter.wire.policy.hosts
      modifies this, adapter.wire.ingestor.repository
      ensures adapter.wire.ingestor.repository.Valid()
      ensures var outcome := Decide(adapter.wire.policy, Arrival(command, path, headers, old(rfile), moment));
              && wfile == old(wfile) + [Written(outcome.status)]
              && adapter.wire.ingestor.repository.contents ==
                 old(adapter.wire.ingestor.repository.contents) + Rows(outcome)
      ensures closeConnection
    {
      hide Body, Admit, Accepts, Answer, Emitted;
      var body := ResolveBody(moment);
      if body.Err? {
        Emit(Answer(body.error));
        return;
      }
      var response := adapter.Handle(Request(command, path, headers, body.value), moment);
      if response.Err? {
        Emit(Answer(500));
        return;
      }
      Emit(response.value);
    }
  }

  lemma ContentLengthName()
    ensures Lower("Content-Length") == "content-length"
    ensures Lower("Allow") == "allow" && Lower("Connection") == "connection"
  {
  }

  lemma {:induction false} ValuesAppend(a: Headers, b: Headers, name: string)
    ensures HeaderValues(a + b, name) == HeaderValues(a, name) + HeaderValues(b, name)
  {
    hide Lower;
    if a == [] {
      assert a + b == b;
    } else {
      ValuesCons(a[0], a[1..], name);
      ValuesCons(a[0], a[1..] + b, name);
      assert [a[0]] + a[1..] == a && [a[0]] + (a[1..] + b) == a + b;
      hide HeaderValues;
      ValuesAppend(a[1..], b, name);
    }
  }

  lemma ValuesCons(header: (string, string), rest: Headers, name: string)
    ensures HeaderValues([header] + rest, name) ==
            (if Lower(header.0) == name then [header.1] else []) + HeaderValues(rest, name)
  {
    hide Lower;
    assert ([header] + rest)[1..] == rest;
  }

  lemma LengthDeclared(status: int)
    ensures Answer(status).headers != [] && HeaderValues(Answer(status).headers, "content-length") != []
    ensures Written(status) == Answer(status).(headers := Answer(status).headers + [("Connection", "close")])
  {
    ContentLengthName();
    hide Lower;
    assert Answer(status).headers[0] == ("Content-Length", "0");
  }

  lemma WrittenValues(status: int, name: string)
    ensures HeaderValues(Answer(status).headers, name) ==
            HeaderValues([("Content-Length", "0")], name) +
            if status == 405 then HeaderValues([("Allow", HEARTBEAT_METHOD)], name) else []
    ensures HeaderValues(Written(status).headers, name) ==
            HeaderValues(Answer(status).headers, name) + HeaderValues([("Connection", "close")], name)
  {
    hide Lower;
    LengthDeclared(status);
    ValuesAppend([("Content-Length", "0")], [("Allow", HEARTBEAT_METHOD)], name);
    ValuesAppend(Answer(status).headers, [("Connection", "close")], name);
  }

  /** Every response has one header declaring its empty body, one closing the connection, and an
      Allow header exactly for 405. */
  lemma ResponsesHaveNoBody(status: int)
    ensures Written(status).status == status && Written(status).body == ""
    ensures HeaderValues(Written(status).headers, "content-length") == ["0"]
    ensures HeaderValues(Written(status).headers, "connection") == ["close"]
    ensures HeaderValues(Written(status).headers, "allow") == if status == 405 then [HEARTBEAT_METHOD] else []
  {
    ContentLengthName();
    hide Lower;
    WrittenValues(status, "content-length");
    WrittenValues(status, "connection");
    WrittenValues(status, "allow");
    LengthDeclared(status);
  }
}
