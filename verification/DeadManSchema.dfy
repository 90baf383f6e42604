/** Which documents are accepted, and as what: an independent reading of the snapshot's schema. */
module DeadManSchema {
  import opened Common
  import opened DeadMan
  import opened JsonTree
  import opened DeadManCodec
  import Calendar

  /** An object with exactly these members, each once. */
  predicate Object(j: Json, names: set<string>) {
    j.JObject? && Distinct(j.pairs) && Dict(j.pairs).Keys == names
  }

  predicate SpellsState(j: Json, state: State) {
    match state
    case UNKNOWN => j == JString("unknown")
    case UP => j == JString("up")
    case DOWN => j == JString("down")
  }

  predicate SpellsKind(j: Json, kind: Kind) {
    match kind
    case DownKind => j == JString("down")
    case RecoveredKind => j == JString("recovered")
  }

  /** A text the reader takes for an aware datetime of that instant. */
  predicate SpellsInstant(read: Reader, j: Json, at: Instant) {
    && j.JString? && read(j.s).Some?
    && read(j.s).value.Aware?
    && Calendar.Micros(read(j.s).value.local) - read(j.s).value.offset == at
  }

  predicate SpellsAnchor(read: Reader, j: Json, changedAt: Option<Instant>) {
    match changedAt
    case None => j == JNull
    case Some(at) => SpellsInstant(read, j, at)
  }

  predicate SpellsTransition(read: Reader, j: Json, t: Transition) {
    && Object(j, {"from_state", "to_state", "at"})
    && var m := Dict(j.pairs);
       && SpellsState(m["from_state"], t.from)
       && SpellsState(m["to_state"], t.to)
       && SpellsInstant(read, m["at"], t.at)
  }

  predicate SpellsNotification(read: Reader, j: Json, n: Notification) {
    && Object(j, {"notification_id", "kind", "transition"})
    && var m := Dict(j.pairs);
       && m["notification_id"] == JInt(n.id)
       && SpellsKind(m["kind"], n.kind)
       && SpellsTransition(read, m["transition"], n.transition)
  }

  predicate SpellsPending(read: Reader, j: Json, pending: seq<Notification>) {
    && j.JArray? && |j.elements| == |pending|
    && forall i | 0 <= i < |pending| :: SpellsNotification(read, j.elements[i], pending[i])
  }

  predicate SpellsCurrent(j: Json, current: Option<CurrentDown>) {
    match current
    case None => j == JNull
    case Some(down) =>
      && Object(j, {"notification_id", "acknowledged"})
      && Dict(j.pairs)["notification_id"] == JInt(down.id)
      && Dict(j.pairs)["acknowledged"] == JBool(down.acknowledged)
  }

  const MEMBERS := {
    "schema_version", "state", "consecutive_failures", "consecutive_successes", "state_changed_at",
    "pending_notifications", "next_notification_id", "current_down"
  }

  predicate SpellsMembers(read: Reader, m: map<string, Json>, s: Status)
    requires m.Keys == MEMBERS
  {
    && m["schema_version"] == JInt(4)
    && SpellsState(m["state"], s.state)
    && m["consecutive_failures"] == JInt(s.failures)
    && m["consecutive_successes"] == JInt(s.successes)
    && SpellsAnchor(read, m["state_changed_at"], s.changedAt)
    && SpellsPending(read, m["pending_notifications"], s.pending)
    && m["next_notification_id"] == JInt(s.nextId)
    && SpellsCurrent(m["current_down"], s.current)
  }

  /** The document is the status, written in schema version 4: no member missing, unknown or repeated at any depth. */
  predicate Spells(read: Reader, document: Json, s: Status) {
    DuplicateFree(document) && Object(document, MEMBERS) && SpellsMembers(read, Dict(document.pairs), s)
  }

  // ---- every decoder accepts exactly its spelling ----

  lemma StateSpelled(j: Json, state: State)
    ensures DecodeState(j) == Ok(state) <==> SpellsState(j, state)
  {
    assert "unknown" != "up" && "unknown" != "down" && "up" != "down";
  }

  lemma KindSpelled(j: Json, kind: Kind)
    ensures DecodeKind(j) == Ok(kind) <==> SpellsKind(j, kind)
  {
    assert "down" != "recovered";
  }

  lemma InstantSpelled(read: Reader, j: Json, at: Instant)
    ensures DecodeInstant(read, j) == Ok(at) <==> SpellsInstant(read, j, at)
  {
    hide Calendar.Micros;
  }

  lemma AnchorSpelled(read: Reader, j: Json, changedAt: Option<Instant>)
    ensures DecodeAnchor(read, j) == Ok(changedAt) <==> SpellsAnchor(read, j, changedAt)
  {
    hide DecodeInstant;
    match changedAt
    case None =>
    case Some(at) => InstantSpelled(read, j, at);
      TextIsNotNull(read, j, at);
  }

  lemma TextIsNotNull(read: Reader, j: Json, at: Instant)
    ensures SpellsInstant(read, j, at) ==> j != JNull
  {
    hide Calendar.Micros;
  }

  lemma TransitionMembers(j: Json)
    ensures Members(j, TRANSITION_FIELDS).Ok? <==> Object(j, {"from_state", "to_state", "at"})
    ensures Members(j, TRANSITION_FIELDS).Ok? ==> Members(j, TRANSITION_FIELDS).value == Dict(j.pairs)
  {
    SameNames(TRANSITION_FIELDS, {"from_state", "to_state", "at"});
  }

  lemma SameNames(fields: seq<string>, names: set<string>)
    requires forall i | 0 <= i < |fields| :: fields[i] in names
    requires forall name | name in names :: name in fields
    ensures (set f | f in fields) == names
  {
  }

  lemma TransitionSpelled(read: Reader, j: Json, t: Transition)
    ensures DecodeTransition(read, j) == Ok(t) <==> ValidTransition(t) && SpellsTransition(read, j, t)
  {
    TransitionMembers(j);
    hide DecodeState, DecodeInstant, SpellsState, SpellsInstant, Members, Dict, Distinct, ValidTransition;
    if Object(j, {"from_state", "to_state", "at"}) {
      var m := Dict(j.pairs);
      StateSpelled(m["from_state"], t.from);
      StateSpelled(m["to_state"], t.to);
      InstantSpelled(read, m["at"], t.at);
    }
  }

  lemma NotificationMembers(j: Json)
    ensures Members(j, NOTIFICATION_FIELDS).Ok? <==> Object(j, {"notification_id", "kind", "transition"})
    ensures Members(j, NOTIFICATION_FIELDS).Ok? ==> Members(j, NOTIFICATION_FIELDS).value == Dict(j.pairs)
  {
    SameNames(NOTIFICATION_FIELDS, {"notification_id", "kind", "transition"});
  }

  lemma NotificationSpelled(read: Reader, j: Json, n: Notification)
    ensures DecodeNotification(read, j) == Ok(n) <==> ValidNotification(n) && SpellsNotification(read, j, n)
  {
    NotificationMembers(j);
    hide DecodeKind, DecodeTransition, SpellsKind, SpellsTransition, Members, Dict, Distinct, ValidTransition;
    if Object(j, {"notification_id", "kind", "transition"}) {
      var m := Dict(j.pairs);
      KindSpelled(m["kind"], n.kind);
      TransitionSpelled(read, m["transition"], n.transition);
    }
  }

  lemma {:induction false} EachSpelled(read: Reader, elements: seq<Json>, pending: seq<Notification>)
    ensures DecodeEach(read, elements) == Ok(pending) <==>
            && (forall i | 0 <= i < |pending| :: ValidNotification(pending[i]))
            && SpellsPending(read, JArray(elements), pending)
    decreases |elements|
  {
    hide DecodeNotification, SpellsNotification, ValidNotification;
    if elements != [] && pending != [] {
      NotificationSpelled(read, elements[0], pending[0]);
      EachSpelled(read, elements[1..], pending[1..]);
      assert pending == [pending[0]] + pending[1..];
      assert forall i | 0 <= i < |pending| - 1 :: pending[1..][i] == pending[i + 1];
      assert |elements| == |pending| ==> forall i | 0 <= i < |pending| - 1 :: elements[1..][i] == elements[i + 1];
    }
  }

  lemma PendingSpelled(read: Reader, j: Json, pending: seq<Notification>)
    ensures DecodePending(read, j) == Ok(pending) <==>
            (forall i | 0 <= i < |pending| :: ValidNotification(pending[i])) && SpellsPending(read, j, pending)
  {
    hide DecodeEach, SpellsNotification, ValidNotification;
    if j.JArray? {
      EachSpelled(read, j.elements, pending);
    }
  }

  lemma CurrentMembers(j: Json)
    ensures Members(j, CURRENT_DOWN_FIELDS).Ok? <==> Object(j, {"notification_id", "acknowledged"})
    ensures Members(j, CURRENT_DOWN_FIELDS).Ok? ==> Members(j, CURRENT_DOWN_FIELDS).value == Dict(j.pairs)
  {
    SameNames(CURRENT_DOWN_FIELDS, {"notification_id", "acknowledged"});
  }

  lemma CurrentSpelled(j: Json, current: Option<CurrentDown>)
    ensures DecodeCurrent(j) == Ok(current) <==>
            (current.Some? ==> current.value.id >= 1) && SpellsCurrent(j, current)
  {
    CurrentMembers(j);
    hide Members, Dict, Distinct;
  }

  lemma StateMemberNames(j: Json)
    ensures Members(j, STATE_FIELDS).Ok? <==> Object(j, MEMBERS)
    ensures Members(j, STATE_FIELDS).Ok? ==> Members(j, STATE_FIELDS).value == Dict(j.pairs)
  {
    assert forall i | 0 <= i < |STATE_FIELDS| :: STATE_FIELDS[i] in MEMBERS;
    SameNames(STATE_FIELDS, MEMBERS);
  }

  lemma ValidParts(s: Status)
    requires Valid(s)
    ensures s.failures >= 0 && s.successes >= 0 && s.nextId >= 1
    ensures forall i | 0 <= i < |s.pending| :: ValidNotification(s.pending[i])
    ensures s.current.Some? ==> s.current.value.id >= 1
  {
    hide ValidNotification;
  }

  lemma FieldsSpelled(read: Reader, m: map<string, Json>, s: Status)
    requires m.Keys == MEMBERS && forall i | 0 <= i < |STATE_FIELDS| :: STATE_FIELDS[i] in m
    ensures DecodeFields(read, m) == Ok(s) <==> Valid(s) && SpellsMembers(read, m, s)
  {
    hide DecodeState, DecodeAnchor, DecodePending, DecodeCurrent, Valid;
    hide SpellsState, SpellsAnchor, SpellsPending, SpellsCurrent, ValidNotification;
    if Valid(s) {
      ValidParts(s);
    }
    StateSpelled(m["state"], s.state);
    AnchorSpelled(read, m["state_changed_at"], s.changedAt);
    PendingSpelled(read, m["pending_notifications"], s.pending);
    CurrentSpelled(m["current_down"], s.current);
  }

  /** A document is accepted as a status exactly when the status is valid and the document spells it. */
  lemma AcceptedExactly(read: Reader, document: Json, s: Status)
    ensures Decode(read, document) == Ok(s) <==> Valid(s) && Spells(read, document, s)
  {
    hide DuplicateFree, Members, DecodeFields, Valid, SpellsMembers, Dict, Distinct;
    StateMemberNames(document);
    if Object(document, MEMBERS) {
      assert forall i | 0 <= i < |STATE_FIELDS| :: STATE_FIELDS[i] in Dict(document.pairs);
      FieldsSpelled(read, Dict(document.pairs), s);
    }
  }

  /** What is written spells the status it was written for. */
  lemma WrittenSpells(read: Reader, s: Status)
    requires ReadsCanonical(read) && Valid(s) && Encodable(s)
    ensures Spells(read, Document(s), s)
  {
    hide ReadsCanonical, Valid, Encodable, Document, Decode, Spells;
    RoundTrip(read, s);
    AcceptedExactly(read, Document(s), s);
  }
}
