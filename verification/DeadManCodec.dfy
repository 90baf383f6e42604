/** The strict versioned snapshot document of a dead-man status. */
module DeadManCodec {
  import opened Common
  import opened DeadMan
  import opened JsonTree
  import Timestamps

  const SCHEMA_VERSION := 4

  /** Members in the sorted order of the canonical document. */
  const STATE_FIELDS := ["consecutive_failures", "consecutive_successes", "current_down", "next_notification_id",
                         "pending_notifications", "schema_version", "state", "state_changed_at"]
  const NOTIFICATION_FIELDS := ["kind", "notification_id", "transition"]
  const TRANSITION_FIELDS := ["at", "from_state", "to_state"]
  const CURRENT_DOWN_FIELDS := ["acknowledged", "notification_id"]

  datatype CodecError = Malformed | Unrepresentable

  // ---- encoding ----

  function StateText(state: State): string {
    match state
    case UNKNOWN => "unknown"
    case UP => "up"
    case DOWN => "down"
  }

  function KindText(kind: Kind): string {
    match kind
    case DownKind => "down"
    case RecoveredKind => "recovered"
  }

  predicate EncodableNotification(n: Notification) {
    Timestamps.Representable(n.transition.at)
  }

  /** Every instant has a UTC text: it lies in the years 1 to 9999. */
  predicate Encodable(s: Status) {
    && (s.changedAt.Some? ==> Timestamps.Representable(s.changedAt.value))
    && (forall i | 0 <= i < |s.pending| :: EncodableNotification(s.pending[i]))
  }

  function EncodeInstant(at: Instant): Json
    requires Timestamps.Representable(at)
  {
    JString(Timestamps.IsoInstant(at))
  }

  function EncodeTransition(t: Transition): Json
    requires Timestamps.Representable(t.at)
  {
    JObject([
      ("at", EncodeInstant(t.at)),
      ("from_state", JString(StateText(t.from))),
      ("to_state", JString(StateText(t.to)))])
  }

  function EncodeNotification(n: Notification): Json
    requires EncodableNotification(n)
  {
    JObject([
      ("kind", JString(KindText(n.kind))),
      ("notification_id", JInt(n.id)),
      ("transition", EncodeTransition(n.transition))])
  }

  function EncodePending(pending: seq<Notification>): (r: seq<Json>)
    requires forall i | 0 <= i < |pending| :: EncodableNotification(pending[i])
    ensures |r| == |pending|
  {
    if pending == [] then [] else [EncodeNotification(pending[0])] + EncodePending(pending[1..])
  }

  function EncodeAnchor(changedAt: Option<Instant>): Json
    requires changedAt.Some? ==> Timestamps.Representable(changedAt.value)
  {
    if changedAt.None? then JNull else EncodeInstant(changedAt.value)
  }

  function EncodeCurrent(current: Option<CurrentDown>): Json {
    if current.None? then JNull
    else JObject([("acknowledged", JBool(current.value.acknowledged)), ("notification_id", JInt(current.value.id))])
  }

  function Document(s: Status): Json
    requires Encodable(s)
  {
    JObject([
      ("consecutive_failures", JInt(s.failures)),
      ("consecutive_successes", JInt(s.successes)),
      ("current_down", EncodeCurrent(s.current)),
      ("next_notification_id", JInt(s.nextId)),
      ("pending_notifications", JArray(EncodePending(s.pending))),
      ("schema_version", JInt(SCHEMA_VERSION)),
      ("state", JString(StateText(s.state))),
      ("state_changed_at", EncodeAnchor(s.changedAt))])
  }

  function Encode(s: Status): Result<Json, CodecError> {
    if Encodable(s) then Ok(Document(s)) else Err(Unrepresentable)
  }

  // ---- decoding: every deviation is the one error ----

  /** The library's reader of ISO 8601 texts, in all the spellings it accepts. */
  type Reader = string -> Option<Timestamps.Stamp>

  /** All that is needed of it: the canonical text of an instant reads back as that instant in UTC. */
  ghost predicate ReadsCanonical(read: Reader) {
    forall instant | Timestamps.Representable(instant) ::
      read(Timestamps.IsoInstant(instant)) == Some(Timestamps.UtcDatetime(instant))
  }

  lemma ParseReadsCanonical()
    ensures ReadsCanonical(Timestamps.Parse)
  {
    hide Timestamps.Parse, Timestamps.IsoInstant, Timestamps.Utc;
    forall instant | Timestamps.Representable(instant)
      ensures Timestamps.Parse(Timestamps.IsoInstant(instant)) == Some(Timestamps.UtcDatetime(instant))
    {
      Timestamps.InstantReadsBack(instant);
    }
  }

  function Members(j: Json, fields: seq<string>): (m: Result<map<string, Json>, CodecError>)
    ensures m.Ok? ==> forall i | 0 <= i < |fields| :: fields[i] in m.value
  {
    if j.JObject? && HasExactly(j.pairs, set f | f in fields) then Ok(Dict(j.pairs)) else Err(Malformed)
  }

  function DecodeState(j: Json): Result<State, CodecError> {
    if j == JString("unknown") then Ok(UNKNOWN)
    else if j == JString("up") then Ok(UP)
    else if j == JString("down") then Ok(DOWN)
    else Err(Malformed)
  }

  function DecodeKind(j: Json): Result<Kind, CodecError> {
    if j == JString("down") then Ok(DownKind)
    else if j == JString("recovered") then Ok(RecoveredKind)
    else Err(Malformed)
  }

  function DecodeInt(j: Json, least: int): Result<int, CodecError> {
    if j.JInt? && j.n >= least then Ok(j.n) else Err(Malformed)
  }

  function DecodeInstant(read: Reader, j: Json): Result<Instant, CodecError> {
    if !j.JString? then Err(Malformed)
    else
      match read(j.s)
      case Some(Aware(local, offset)) => Ok(Timestamps.Instant(Timestamps.Aware(local, offset)))
      case _ => Err(Malformed)
  }

  function DecodeAnchor(read: Reader, j: Json): Result<Option<Instant>, CodecError> {
    if j == JNull then Ok(None)
    else
      var at :- DecodeInstant(read, j);
      Ok(Some(at))
  }

  function Constructed<T>(made: Result<T, Error>): Result<T, CodecError> {
    if made.Ok? then Ok(made.value) else Err(Malformed)
  }

  function DecodeTransition(read: Reader, j: Json): Result<Transition, CodecError> {
    var m :- Members(j, TRANSITION_FIELDS);
    assert TRANSITION_FIELDS[0] in m && TRANSITION_FIELDS[1] in m && TRANSITION_FIELDS[2] in m;
    var from :- DecodeState(m["from_state"]);
    var to :- DecodeState(m["to_state"]);
    var at :- DecodeInstant(read, m["at"]);
    if ValidTransition(Transition(from, to, at)) then Ok(Transition(from, to, at)) else Err(Malformed)
  }

  function DecodeNotification(read: Reader, j: Json): Result<Notification, CodecError> {
    var m :- Members(j, NOTIFICATION_FIELDS);
    assert NOTIFICATION_FIELDS[0] in m && NOTIFICATION_FIELDS[1] in m && NOTIFICATION_FIELDS[2] in m;
    var kind :- DecodeKind(m["kind"]);
    var transition :- DecodeTransition(read, m["transition"]);
    var id :- DecodeInt(m["notification_id"], 1);
    Constructed(MakeNotification(Notification(id, kind, transition)))
  }

  function DecodeEach(read: Reader, elements: seq<Json>): Result<seq<Notification>, CodecError> {
    if elements == [] then Ok([])
    else
      var first :- DecodeNotification(read, elements[0]);
      var rest :- DecodeEach(read, elements[1..]);
      Ok([first] + rest)
  }

  function DecodePending(read: Reader, j: Json): Result<seq<Notification>, CodecError> {
    if j.JArray? then DecodeEach(read, j.elements) else Err(Malformed)
  }

  function DecodeCurrent(j: Json): Result<Option<CurrentDown>, CodecError> {
    if j == JNull then Ok(None)
    else
      var m :- Members(j, CURRENT_DOWN_FIELDS);
      var id :- DecodeInt(m["notification_id"], 1);
      if m["acknowledged"].JBool? then Ok(Some(CurrentDown(id, m["acknowledged"].b))) else Err(Malformed)
  }

  function DecodeFields(read: Reader, m: map<string, Json>): Result<Status, CodecError>
    requires forall i | 0 <= i < |STATE_FIELDS| :: STATE_FIELDS[i] in m
  {
    assert STATE_FIELDS[0] in m && STATE_FIELDS[1] in m && STATE_FIELDS[2] in m && STATE_FIELDS[3] in m;
    assert STATE_FIELDS[4] in m && STATE_FIELDS[5] in m && STATE_FIELDS[6] in m && STATE_FIELDS[7] in m;
    if m["schema_version"] != JInt(SCHEMA_VERSION) then Err(Malformed)
    else
      var state :- DecodeState(m["state"]);
      var failures :- DecodeInt(m["consecutive_failures"], 0);
      var successes :- DecodeInt(m["consecutive_successes"], 0);
      var changedAt :- DecodeAnchor(read, m["state_changed_at"]);
      var pending :- DecodePending(read, m["pending_notifications"]);
      var nextId :- DecodeInt(m["next_notification_id"], 1);
      var current :- DecodeCurrent(m["current_down"]);
      Constructed(MakeStatus(Status(state, failures, successes, changedAt, pending, nextId, current)))
  }

  function Decode(read: Reader, document: Json): Result<Status, CodecError> {
    if !DuplicateFree(document) then Err(Malformed)
    else
      var m :- Members(document, STATE_FIELDS);
      DecodeFields(read, m)
  }

  // ---- round trip ----

  lemma FieldNamesDiffer()
    ensures forall i, j | 0 <= i < j < |STATE_FIELDS| :: STATE_FIELDS[i] != STATE_FIELDS[j]
    ensures forall i, j | 0 <= i < j < |NOTIFICATION_FIELDS| :: NOTIFICATION_FIELDS[i] != NOTIFICATION_FIELDS[j]
    ensures forall i, j | 0 <= i < j < |TRANSITION_FIELDS| :: TRANSITION_FIELDS[i] != TRANSITION_FIELDS[j]
    ensures forall i, j | 0 <= i < j < |CURRENT_DOWN_FIELDS| :: CURRENT_DOWN_FIELDS[i] != CURRENT_DOWN_FIELDS[j]
  {
    assert STATE_FIELDS[0][0] == 'c' && STATE_FIELDS[3][0] == 'n';
    assert STATE_FIELDS[1][0] == 'c' && STATE_FIELDS[4][0] == 'p';
    assert |STATE_FIELDS[0]| == |STATE_FIELDS[3]| == 20 && |STATE_FIELDS[1]| == |STATE_FIELDS[4]| == 21;
    assert |STATE_FIELDS[2]| == 12 && |STATE_FIELDS[5]| == 14 && |STATE_FIELDS[6]| == 5 && |STATE_FIELDS[7]| == 16;
    assert |NOTIFICATION_FIELDS[0]| == 4 && |NOTIFICATION_FIELDS[1]| == 15 && |NOTIFICATION_FIELDS[2]| == 10;
    assert |TRANSITION_FIELDS[0]| == 2 && |TRANSITION_FIELDS[1]| == 10 && |TRANSITION_FIELDS[2]| == 8;
    assert |CURRENT_DOWN_FIELDS[0]| == 12 && |CURRENT_DOWN_FIELDS[1]| == 15;
  }

  lemma InstantRoundTrip(read: Reader, at: Instant)
    requires ReadsCanonical(read) && Timestamps.Representable(at)
    ensures DecodeInstant(read, EncodeInstant(at)) == Ok(at)
  {
    hide Timestamps.IsoInstant, Timestamps.Utc;
  }

  lemma StateRoundTrip(state: State)
    ensures DecodeState(JString(StateText(state))) == Ok(state)
  {
    assert "unknown" != "up" && "unknown" != "down" && "up" != "down";
  }

  lemma KindRoundTrip(kind: Kind)
    ensures DecodeKind(JString(KindText(kind))) == Ok(kind)
  {}

  lemma TransitionRoundTrip(read: Reader, t: Transition)
    requires ReadsCanonical(read) && ValidTransition(t) && Timestamps.Representable(t.at)
    ensures DecodeTransition(read, EncodeTransition(t)) == Ok(t)
  {
    hide ReadsCanonical, EncodeInstant, DecodeInstant, DecodeState, StateText, HasExactly, Dict;
    InstantRoundTrip(read, t.at);
    StateRoundTrip(t.from);
    StateRoundTrip(t.to);
    FieldNamesDiffer();
    var pairs := EncodeTransition(t).pairs;
    DictOf(pairs, TRANSITION_FIELDS);
    var m := Members(EncodeTransition(t), TRANSITION_FIELDS);
    assert m.value[TRANSITION_FIELDS[0]] == pairs[0].1 && m.value[TRANSITION_FIELDS[1]] == pairs[1].1;
    assert m.value[TRANSITION_FIELDS[2]] == pairs[2].1;
  }

  lemma NotificationRoundTrip(read: Reader, n: Notification)
    requires ReadsCanonical(read) && ValidNotification(n) && EncodableNotification(n)
    ensures DecodeNotification(read, EncodeNotification(n)) == Ok(n)
  {
    hide ReadsCanonical, EncodeTransition, DecodeTransition, DecodeKind, KindText, HasExactly, Dict;
    TransitionRoundTrip(read, n.transition);
    KindRoundTrip(n.kind);
    FieldNamesDiffer();
    var pairs := EncodeNotification(n).pairs;
    DictOf(pairs, NOTIFICATION_FIELDS);
    var m := Members(EncodeNotification(n), NOTIFICATION_FIELDS);
    assert m.value[NOTIFICATION_FIELDS[0]] == pairs[0].1 && m.value[NOTIFICATION_FIELDS[1]] == pairs[1].1;
    assert m.value[NOTIFICATION_FIELDS[2]] == pairs[2].1;
  }

  lemma {:induction false} PendingRoundTrip(read: Reader, pending: seq<Notification>)
    requires ReadsCanonical(read)
    requires forall i | 0 <= i < |pending| :: ValidNotification(pending[i]) && EncodableNotification(pending[i])
    ensures DecodeEach(read, EncodePending(pending)) == Ok(pending)
  {
    hide ReadsCanonical, EncodeNotification, DecodeNotification, ValidNotification, EncodableNotification;
    if pending != [] {
      NotificationRoundTrip(read, pending[0]);
      assert [pending[0]] + pending[1..] == pending;
      PendingRoundTrip(read, pending[1..]);
    }
  }

  lemma CurrentRoundTrip(current: Option<CurrentDown>)
    requires current.Some? ==> current.value.id >= 1
    ensures DecodeCurrent(EncodeCurrent(current)) == Ok(current)
  {
    hide HasExactly, Dict;
    if current.Some? {
      FieldNamesDiffer();
      var pairs := EncodeCurrent(current).pairs;
      DictOf(pairs, CURRENT_DOWN_FIELDS);
      var m := Members(EncodeCurrent(current), CURRENT_DOWN_FIELDS);
      assert m.value[CURRENT_DOWN_FIELDS[0]] == pairs[0].1 && m.value[CURRENT_DOWN_FIELDS[1]] == pairs[1].1;
    }
  }

  lemma AnchorRoundTrip(read: Reader, changedAt: Option<Instant>)
    requires ReadsCanonical(read)
    requires changedAt.Some? ==> Timestamps.Representable(changedAt.value)
    ensures DecodeAnchor(read, EncodeAnchor(changedAt)) == Ok(changedAt)
  {
    hide ReadsCanonical, DecodeInstant, Timestamps.IsoInstant;
    if changedAt.Some? {
      InstantRoundTrip(read, changedAt.value);
    }
  }

  lemma NoDuplicates(s: Status)
    requires Encodable(s)
    ensures DuplicateFree(Document(s))
  {
    hide DuplicateFree, Document, Encodable;
    FieldNamesDiffer();
    NamesInOrder(s);
    forall i | 0 <= i < |STATE_FIELDS|
      ensures DuplicateFree(Document(s).pairs[i].1)
    {
      MemberNoDuplicates(s, i);
    }
    ObjectIsDuplicateFree(Document(s).pairs, STATE_FIELDS);
  }

  lemma MemberNoDuplicates(s: Status, i: nat)
    requires Encodable(s) && i < |STATE_FIELDS|
    ensures i < |Document(s).pairs| && DuplicateFree(Document(s).pairs[i].1)
  {
    hide EncodePending, EncodeCurrent, StateText, Timestamps.IsoInstant, Timestamps.Representable;
    PendingNoDuplicates(s.pending);
    CurrentNoDuplicates(s.current);
  }

  lemma NamesInOrder(s: Status)
    requires Encodable(s)
    ensures var pairs := Document(s).pairs;
            && Document(s).JObject?
            && |pairs| == |STATE_FIELDS| && forall i | 0 <= i < |pairs| :: pairs[i].0 == STATE_FIELDS[i]
  {
    hide Encodable, EncodePending, EncodeCurrent, EncodeAnchor, StateText;
  }

  lemma {:induction false} PendingNoDuplicates(pending: seq<Notification>)
    requires forall i | 0 <= i < |pending| :: EncodableNotification(pending[i])
    ensures DuplicateFree(JArray(EncodePending(pending)))
  {
    hide EncodableNotification, EncodeNotification;
    if pending != [] {
      NotificationNoDuplicates(pending[0]);
      PendingNoDuplicates(pending[1..]);
    }
  }

  lemma CurrentNoDuplicates(current: Option<CurrentDown>)
    ensures DuplicateFree(EncodeCurrent(current))
  {
    if current.Some? {
      FieldNamesDiffer();
      ObjectIsDuplicateFree(EncodeCurrent(current).pairs, CURRENT_DOWN_FIELDS);
    }
  }

  lemma NotificationNoDuplicates(n: Notification)
    requires EncodableNotification(n)
    ensures DuplicateFree(EncodeNotification(n))
  {
    hide Timestamps.IsoInstant, StateText, KindText;
    FieldNamesDiffer();
    ObjectIsDuplicateFree(EncodeTransition(n.transition).pairs, TRANSITION_FIELDS);
    hide EncodeTransition;
    ObjectIsDuplicateFree(EncodeNotification(n).pairs, NOTIFICATION_FIELDS);
  }

  /** Every encodable valid status reads back as itself. */
  lemma RoundTrip(read: Reader, s: Status)
    requires ReadsCanonical(read) && Valid(s) && Encodable(s)
    ensures Decode(read, Document(s)) == Ok(s)
  {
    hide ReadsCanonical, Valid, Encodable, Document, DecodeFields;
    NoDuplicates(s);
    FieldsRoundTrip(read, s);
  }

  lemma PartsRoundTrip(read: Reader, s: Status)
    requires ReadsCanonical(read) && Valid(s) && Encodable(s)
    ensures DecodeState(JString(StateText(s.state))) == Ok(s.state)
    ensures DecodeCurrent(EncodeCurrent(s.current)) == Ok(s.current)
    ensures DecodeEach(read, EncodePending(s.pending)) == Ok(s.pending)
    ensures DecodeAnchor(read, EncodeAnchor(s.changedAt)) == Ok(s.changedAt)
    ensures s.failures >= 0 && s.successes >= 0 && s.nextId >= 1
  {
    hide ReadsCanonical;
    hide DecodeState, DecodeCurrent, EncodeCurrent, DecodeEach, EncodePending, DecodeAnchor, EncodeAnchor;
    StateRoundTrip(s.state);
    CurrentRoundTrip(s.current);
    PendingRoundTrip(read, s.pending);
    AnchorRoundTrip(read, s.changedAt);
  }

  predicate StateMembers(m: map<string, Json>, pairs: seq<(string, Json)>)
    requires |pairs| == 8
  {
    && "consecutive_failures" in m && m["consecutive_failures"] == pairs[0].1
    && "consecutive_successes" in m && m["consecutive_successes"] == pairs[1].1
    && "current_down" in m && m["current_down"] == pairs[2].1
    && "next_notification_id" in m && m["next_notification_id"] == pairs[3].1
    && "pending_notifications" in m && m["pending_notifications"] == pairs[4].1
    && "schema_version" in m && m["schema_version"] == pairs[5].1
    && "state" in m && m["state"] == pairs[6].1
    && "state_changed_at" in m && m["state_changed_at"] == pairs[7].1
  }

  lemma MembersByName(pairs: seq<(string, Json)>)
    requires |pairs| == |STATE_FIELDS| && forall i | 0 <= i < |pairs| :: pairs[i].0 == STATE_FIELDS[i]
    ensures Members(JObject(pairs), STATE_FIELDS).Ok?
    ensures StateMembers(Members(JObject(pairs), STATE_FIELDS).value, pairs)
  {
    hide Dict;
    FieldNamesDiffer();
    DictOf(pairs, STATE_FIELDS);
    var m := Members(JObject(pairs), STATE_FIELDS).value;
    assert m[STATE_FIELDS[0]] == pairs[0].1 && m[STATE_FIELDS[1]] == pairs[1].1 && m[STATE_FIELDS[2]] == pairs[2].1;
    assert m[STATE_FIELDS[3]] == pairs[3].1 && m[STATE_FIELDS[4]] == pairs[4].1 && m[STATE_FIELDS[5]] == pairs[5].1;
    assert m[STATE_FIELDS[6]] == pairs[6].1 && m[STATE_FIELDS[7]] == pairs[7].1;
  }

  lemma FieldsRoundTrip(read: Reader, s: Status)
    requires ReadsCanonical(read) && Valid(s) && Encodable(s)
    ensures Members(Document(s), STATE_FIELDS).Ok?
    ensures DecodeFields(read, Members(Document(s), STATE_FIELDS).value) == Ok(s)
  {
    hide ReadsCanonical, Members, DecodeState, StateText, DecodeCurrent, EncodeCurrent, DecodeEach, EncodePending;
    hide DecodeAnchor, EncodeAnchor, Valid, EncodableNotification, Timestamps.Representable;
    PartsRoundTrip(read, s);
    MembersByName(Document(s).pairs);
  }
}
