/** What one heartbeat request is answered, condition by condition, and what the conditions mean in
    characters, members and instants. */
module HeartbeatAnswers {
  import opened Common
  import opened Text
  import opened JsonTree
  import opened Repository
  import opened Ingestion
  import opened Wire
  import opened HttpApi
  import opened HttpServer
  import opened HeartbeatRuns
  import ContentLength
  import ContentType
  import Calendar
  import Timestamps

  // ---- every status, by its own condition ----

  /** The checks before the content type are passed, and the body is there and not empty. */
  predicate Delivered(a: Arrival) {
    && a.command == "POST" && a.path == "/v1/heartbeat"
    && PlainFraming(a.headers) && !MalformedHeaders(a.headers)
    && DeclaredLength(a.headers).Some?
    && 0 < DeclaredLength(a.headers).value <= 16384
    && DeclaredLength(a.headers).value <= |a.stream|
  }

  /** The JSON object of a delivered body. */
  function Payload(policy: Policy, a: Arrival): Option<map<string, Json>>
    requires Delivered(a)
  {
    StrictJson(policy, a.stream[..DeclaredLength(a.headers).value])
  }

  /** The only content type is one that is not supported, or there is none. */
  predicate Unsupported(headers: Headers) {
    var types := HeaderValues(headers, "content-type");
    types == [] || (|types| == 1 && ContentType.Verdict(types[0]) == Some(415))
  }

  /** The token is the credential of the configured node. */
  predicate OwnsToken(policy: Policy, node: string, token: string) {
    && node in policy.hosts && node in policy.credentials
    && policy.credentials[node] == token
    && !Blank(token)
  }

  predicate Denied(policy: Policy, a: Arrival)
    requires Delivered(a)
  {
    || |Tokens(a.headers)| != 1
    || (Payload(policy, a).Some?
        && var node := ClaimedNode(Payload(policy, a).value);
           node.Some? && !OwnsToken(policy, node.value, Tokens(a.headers)[0]))
  }

  /** The request is authenticated and decoded, and what follows fails. */
  predicate FailsInside(policy: Policy, a: Arrival)
    requires Delivered(a)
  {
    && |Tokens(a.headers)| == 1
    && Payload(policy, a).Some?
    && Genuine(policy, Payload(policy, a).value, Tokens(a.headers)[0])
    && !Accepts(policy.hosts, policy.telemetry(Payload(policy, a).value).value, a.moment)
  }

  lemma AdmitStatuses(policy: Policy, r: Request)
    requires r.command == "POST" && r.path == "/v1/heartbeat" && !MalformedHeaders(r.headers) && 0 < |r.body| <= 16384
    ensures var admitted := Admit(policy, r);
            var payload := StrictJson(policy, r.body);
            var tokens := Tokens(r.headers);
            && (admitted == Err(415) <==> Unsupported(r.headers))
            && (admitted == Err(401) <==>
                  JsonTyped(r.headers)
                  && (|tokens| != 1
                      || (payload.Some? && ClaimedNode(payload.value).Some?
                          && !OwnsToken(policy, ClaimedNode(payload.value).value, tokens[0]))))
  {
    hide HeaderValues, StrictJson, MalformedHeaders, ClaimedNode, ContentType.Verdict, Blank;
    var types := HeaderValues(r.headers, "content-type");
    if types != [] {
      VerdictStatus(types[0]);
    }
  }

  /** Beside the early statuses: 415 for a missing or unsupported content type, 401 for a missing or repeated token or
      one that is not the claimed node's, 500 exactly when an authenticated observation cannot be stored, 204
      for what is acceptable, and 400 for everything else. */
  lemma StatusTable(policy: Policy, a: Arrival)
    ensures var status := Decide(policy, a).status;
            && status in {204, 400, 401, 404, 405, 411, 413, 415, 417, 500}
            && (status == 415 <==> Delivered(a) && Unsupported(a.headers))
            && (status == 401 <==> Delivered(a) && JsonTyped(a.headers) && Denied(policy, a))
            && (status == 500 <==> Delivered(a) && JsonTyped(a.headers) && FailsInside(policy, a))
  {
    hide HeaderValues, DeclaredLength, StrictJson, MalformedHeaders, JsonTyped, Unsupported, OwnsToken, ClaimedNode;
    hide Genuine, Accepts, Tokens, Admit, Frame;
    FrameMeaning(a.command, a.path, a.headers);
    DeclaredNeedsHeader(a.headers);
    RefusalStatuses(policy, a);
    if Body(a).Ok? {
      var r := Request(a.command, a.path, a.headers, Body(a).value);
      AdmittedExactly(policy, r);
      if Delivered(a) {
        AdmitStatuses(policy, r);
      } else {
        AdmitNeedsDelivery(policy, r);
      }
    }
  }

  lemma AdmitNeedsDelivery(policy: Policy, r: Request)
    requires !IsHeartbeat(r.command, r.path) || r.body == "" || MalformedHeaders(r.headers)
    ensures Admit(policy, r).Err? && Admit(policy, r).error in {400, 404, 405, 413}
  {
    hide HeaderValues, StrictJson, MalformedHeaders, ClaimedNode, ContentType.Verdict;
  }

  // ---- the conditions in characters and members ----

  /** A header is well formed when its name is visible ASCII and its value has no control character but the tab. */
  predicate WellFormed(header: (string, string)) {
    && header.0 != "" && (forall i | 0 <= i < |header.0| :: '!' <= header.0[i] <= '~')
    && (forall i | 0 <= i < |header.1| :: header.1[i] == '\t' || (' ' <= header.1[i] && header.1[i] != '\U{7F}'))
  }

  lemma HeadersMeaning(headers: Headers)
    ensures MalformedHeaders(headers) <==> exists i | 0 <= i < |headers| :: !WellFormed(headers[i])
  {
    forall i | 0 <= i < |headers|
      ensures MalformedName(headers[i].0) || MalformedValue(headers[i].1) <==> !WellFormed(headers[i])
    {
      var name := headers[i].0;
      assert forall k | 0 <= k < |name| :: ContentType.Visible(name[k]) <==> '!' <= name[k] <= '~';
    }
  }

  /** The values of a header are those of all headers with its name in any letter case, in order. */
  lemma HeaderValuesMeaning(header: (string, string), rest: Headers, name: string)
    requires NoCapitals(name)
    ensures HeaderValues([], name) == []
    ensures HeaderValues([header] + rest, name) ==
            (if SameLetters(header.0, name) then [header.1] else []) + HeaderValues(rest, name)
  {
    hide Lower;
    LowerIs(header.0, name);
    ValuesCons(header, rest, name);
  }

  /** A length is declared exactly by a single header with digits, spaces and tabs around them at most. */
  lemma DeclaredLengthMeaning(headers: Headers, n: nat)
    ensures DeclaredLength(headers) == Some(n) <==>
            var values := HeaderValues(headers, "content-length");
            |values| == 1
            && exists left, digits, right :: ContentLength.Declares(values[0], left, digits, right, n)
  {
    hide HeaderValues, Strip, Value;
    var values := HeaderValues(headers, "content-length");
    if |values| == 1 {
      ContentLength.DeclarationMeaning(values[0], n);
    }
  }

  /** The text is the JSON type alone, or followed by a UTF-8 charset. */
  ghost predicate JsonText(value: string) {
    exists media, ps ::
      ContentType.Consists(value, media, ps) && ContentType.Spelled(media, "application/json")
      && (ps == [] || (|ps| == 1 && ContentType.Utf8Parameter(ps[0])))
  }

  lemma JsonTypedMeaning(headers: Headers)
    ensures JsonTyped(headers) <==>
            var types := HeaderValues(headers, "content-type"); |types| == 1 && JsonText(types[0])
  {
    hide HeaderValues, ContentType.Verdict, ContentType.Consists, ContentType.Spelled, ContentType.Utf8Parameter;
    var types := HeaderValues(headers, "content-type");
    if |types| == 1 {
      ContentType.ValuesConsist(types[0]);
      forall media, ps | ContentType.Consists(types[0], media, ps)
        ensures ContentType.Verdict(types[0]) == None <==>
                ContentType.Spelled(media, "application/json")
                && (ps == [] || (|ps| == 1 && ContentType.Utf8Parameter(ps[0])))
      {
        ContentType.VerdictMeaning(types[0], media, ps);
      }
    }
  }

  /** The payload is the dictionary of a JSON object in which no object, however deeply nested, repeats a name. */
  lemma StrictJsonMeaning(policy: Policy, body: string, payload: map<string, Json>)
    ensures StrictJson(policy, body) == Some(payload) <==>
            var document := policy.loads(body);
            && document.Some? && document.value.JObject?
            && (forall path :: NoRepeatAt(document.value, path))
            && (forall name, value ::
                  (name in payload && payload[name] == value) <==> (name, value) in document.value.pairs)
  {
    hide NoRepeatAt, DuplicateFree;
    var document := policy.loads(body);
    if document.Some? && document.value.JObject? {
      DuplicateFreeMeaning(document.value);
      if DuplicateFree(document.value) {
        DistinctBelow(document.value.pairs);
        DictMeaning(document.value.pairs, payload);
      }
    }
  }

  lemma DistinctBelow(pairs: seq<(string, Json)>)
    requires DuplicateFree(JObject(pairs))
    ensures Distinct(pairs)
  {
  }

  lemma DictMeaning(pairs: seq<(string, Json)>, m: map<string, Json>)
    requires Distinct(pairs)
    ensures m == Dict(pairs) <==> forall name, value :: (name in m && m[name] == value) <==> (name, value) in pairs
  {
    var d := Dict(pairs);
    assert forall name, value :: (name in d && d[name] == value) <==> (name, value) in pairs by {
      forall i | 0 <= i < |pairs|
        ensures pairs[i].0 in d && d[pairs[i].0] == pairs[i].1
      {
      }
    }
    if forall name, value :: (name in m && m[name] == value) <==> (name, value) in pairs {
      forall name | name in m
        ensures name in d && d[name] == m[name]
      {
        assert (name, m[name]) in pairs;
      }
      forall name | name in d
        ensures name in m
      {
        assert (name, d[name]) in pairs;
      }
      assert m.Keys == d.Keys;
    }
  }

  /** The claimed node is the text of the member "node", if it has a character that is not white space. */
  lemma ClaimedNodeMeaning(payload: map<string, Json>, node: string)
    ensures ClaimedNode(payload) == Some(node) <==>
            && "node" in payload && payload["node"] == JString(node)
            && exists i | 0 <= i < |node| :: node[i] !in WHITE_SPACE
  {
    hide WHITE_SPACE;
  }

  /** An aware datetime whose instant some civil time of the years 1 to 9999 has in UTC. */
  ghost predicate Recordable(at: Timestamps.Stamp) {
    at.Aware? && exists c :: Calendar.Valid(c) && Calendar.Micros(c) == Timestamps.Instant(at)
  }

  /** An observation is stored exactly for a configured node with a name, a clock that answers with a recordable
      moment, a recordable report, and a table that takes the row. */
  lemma AcceptsMeaning(hosts: set<string>, telemetry: Telemetry, moment: Moment)
    ensures Accepts(hosts, telemetry, moment) <==>
            && telemetry.host in hosts && (exists i | 0 <= i < |telemetry.host| :: telemetry.host[i] !in WHITE_SPACE)
            && moment.clock.Some? && Recordable(moment.clock.value)
            && Recordable(telemetry.timestamp)
            && !moment.broken
  {
    hide WHITE_SPACE;
    CanonicalMeaning(telemetry.timestamp);
    if moment.clock.Some? {
      CanonicalMeaning(moment.clock.value);
    }
    hide Recordable, Canonical;
  }

  lemma CanonicalMeaning(at: Timestamps.Datetime)
    ensures Canonical(at) <==> Recordable(at)
  {
    hide Calendar.Valid, Calendar.Micros, Calendar.FromMicros;
    if at.Aware? {
      var instant := Timestamps.Instant(at);
      if Timestamps.Representable(instant) {
        var c := Calendar.FromMicros(instant);
        assert Calendar.Valid(c) && Calendar.Micros(c) == instant;
      }
      if c :| Calendar.Valid(c) && Calendar.Micros(c) == instant {
        Calendar.FromMicrosInverts(c);
      }
    }
  }
}
