/** What the snapshot document is worth: it identifies the status, accepts only valid ones,
    and its compact text is bounded by the backlog and the width of the ids. */
module DeadManDocument {
  import opened Common
  import opened DeadMan
  import opened JsonTree
  import opened DeadManCodec
  import Calendar
  import Timestamps
  import DeadManCanonical

  /** Two encodable statuses have the same document exactly when they are equal, which is exactly
      when no sequence of probes and acknowledgements tells them apart. */
  lemma DocumentIdentifies(s: Status, t: Status)
    requires Valid(s) && Encodable(s) && Valid(t) && Encodable(t)
    ensures Document(s) == Document(t) <==> DeadManCanonical.Indistinguishable(s, t)
  {
    hide Document, Valid, Encodable, Decode, DeadManCanonical.Indistinguishable;
    ParseReadsCanonical();
    RoundTrip(Timestamps.Parse, s);
    RoundTrip(Timestamps.Parse, t);
    DeadManCanonical.CanonicalSnapshot(s, t);
  }

  lemma DecodesToValid(read: Reader, document: Json)
    requires Decode(read, document).Ok?
    ensures Valid(Decode(read, document).value)
  {
    hide Valid, DecodeState, DecodeInt, DecodeAnchor, DecodePending, DecodeCurrent, DuplicateFree, HasExactly;
  }

  /** Whatever is accepted is a valid status; it can be written again if and only if every
      instant lies in the years 1 to 9999, and then it reads back unchanged. */
  lemma AcceptedIsValid(read: Reader, document: Json)
    requires ReadsCanonical(read)
    requires Decode(read, document).Ok?
    ensures var s := Decode(read, document).value;
            && Valid(s)
            && (Encode(s).Ok? <==> Encodable(s))
            && (Encodable(s) ==> Decode(read, Encode(s).value) == Ok(s))
  {
    hide Decode, Valid, Encodable, Document;
    DecodesToValid(read, document);
    if Encodable(Decode(read, document).value) {
      RoundTrip(read, Decode(read, document).value);
    }
  }

  /** The earliest local midnight, one hour ahead of UTC. */
  function EarlyAnchor(): string {
    Timestamps.LocalText(Calendar.Civil(1, 1, 1, 0, 0, 0, 0), "+01:00")
  }

  function EarlyDocument(): Json {
    JObject([
      ("consecutive_failures", JInt(0)), ("consecutive_successes", JInt(0)), ("current_down", JNull),
      ("next_notification_id", JInt(1)), ("pending_notifications", JArray([])), ("schema_version", JInt(4)),
      ("state", JString("up")), ("state_changed_at", JString(EarlyAnchor()))])
  }

  lemma OneHourAhead()
    ensures Timestamps.ParseOffset("+01:00") == Some(3_600_000_000)
  {
    var s := "+01:00";
    Timestamps.TwoDigitValue(s[1..3]);
    Timestamps.TwoDigitValue(s[4..6]);
  }

  lemma FirstMidnight()
    ensures Calendar.Micros(Calendar.Civil(1, 1, 1, 0, 0, 0, 0)) == Calendar.MIN_MICROS
  {
    assert Calendar.DaysBeforeYear(1) == 0 && Calendar.DaysBeforeMonth(1, 1) == 0;
    hide Calendar.DaysBeforeYear, Calendar.DaysBeforeMonth, Calendar.DaysInMonth, Calendar.Leap;
  }

  lemma EarlyAnchorDecodes()
    ensures DecodeAnchor(Timestamps.Parse, JString(EarlyAnchor())) == Ok(Some(Calendar.MIN_MICROS - 3_600_000_000))
  {
    hide Timestamps.LocalText, Timestamps.Parse, Timestamps.ParseOffset, Calendar.Micros;
    OneHourAhead();
    FirstMidnight();
    Timestamps.ParseInvertsText(Calendar.Civil(1, 1, 1, 0, 0, 0, 0), "+01:00");
  }

  lemma EarlyNames()
    ensures EarlyDocument().JObject?
    ensures var pairs := EarlyDocument().pairs;
            |pairs| == |STATE_FIELDS| && forall i | 0 <= i < |pairs| :: pairs[i].0 == STATE_FIELDS[i]
  {
    hide EarlyAnchor;
  }

  lemma EarlyMembersAreLeaves(i: nat)
    requires i < |EarlyDocument().pairs|
    ensures DuplicateFree(EarlyDocument().pairs[i].1)
  {
    hide EarlyAnchor;
  }

  lemma EarlyIsDuplicateFree()
    ensures DuplicateFree(EarlyDocument())
  {
    hide EarlyDocument, DuplicateFree;
    EarlyNames();
    FieldNamesDiffer();
    var pairs := EarlyDocument().pairs;
    forall i | 0 <= i < |pairs|
      ensures DuplicateFree(pairs[i].1)
    {
      EarlyMembersAreLeaves(i);
    }
    ObjectIsDuplicateFree(pairs, STATE_FIELDS);
  }

  lemma EarlyFieldsDecode(m: map<string, Json>)
    requires |EarlyDocument().pairs| == 8 && StateMembers(m, EarlyDocument().pairs)
    requires forall i | 0 <= i < |STATE_FIELDS| :: STATE_FIELDS[i] in m
    ensures DecodeFields(Timestamps.Parse, m) ==
            Ok(Status(UP, 0, 0, Some(Calendar.MIN_MICROS - 3_600_000_000), [], 1, None))
  {
    hide Timestamps.Parse, EarlyAnchor, DecodeAnchor;
    EarlyAnchorDecodes();
    StateRoundTrip(UP);
  }

  /** Not every accepted document can be written again: an aware anchor may lie before year 1 in UTC. */
  lemma AcceptedButNotEncodable()
    ensures var decoded := Decode(Timestamps.Parse, EarlyDocument());
            decoded.Ok? && Encode(decoded.value).Err?
  {
    hide EarlyDocument, DecodeFields, DuplicateFree, Members, Document;
    EarlyIsDuplicateFree();
    EarlyNames();
    MembersByName(EarlyDocument().pairs);
    EarlyFieldsDecode(Members(EarlyDocument(), STATE_FIELDS).value);
  }
}
