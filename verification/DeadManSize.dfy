/** A computed bound on the text of the snapshot document: how large a backlog the store can always write. */
module DeadManSize {
  import opened Common
  import opened DeadMan
  import opened JsonTree
  import opened DeadManCodec
  import opened Text
  import Calendar
  import Timestamps

  const MAX_DEADMAN_STATE_BYTES := 1_048_576

  lemma PlainDigits(s: string)
    requires IsDigits(s)
    ensures PlainText(s)
  {}

  lemma InstantText(at: Instant)
    requires Timestamps.Representable(at)
    ensures PlainText(Timestamps.IsoInstant(at)) && |Timestamps.IsoInstant(at)| <= 32
  {
    CivilText(Timestamps.Utc(at));
  }

  lemma CivilText(c: Calendar.Civil)
    requires Calendar.Valid(c)
    ensures PlainText(Timestamps.IsoText(c)) && |Timestamps.IsoText(c)| <= 32
  {
    hide Padded, IsDigits;
    PlainDigits(Padded(c.year, 4));
    PlainDigits(Padded(c.month, 2));
    PlainDigits(Padded(c.day, 2));
    PlainDigits(Padded(c.hour, 2));
    PlainDigits(Padded(c.minute, 2));
    PlainDigits(Padded(c.second, 2));
    PlainDigits(Padded(c.micro, 6));
  }

  /** Digits of the largest id: the allocator's. */
  function Width(s: Status): nat
    requires s.nextId >= 1
  {
    |Decimal(s.nextId)|
  }

  lemma {:induction false} WidthGrows(m: nat, n: nat)
    requires m <= n
    ensures |Decimal(m)| <= |Decimal(n)|
  {
    if m >= 10 {
      WidthGrows(m / 10, n / 10);
    }
  }

  const NOTIFICATION_SIZE := 130
  const ENVELOPE_SIZE := 251

  predicate PlainMembers(pairs: seq<(string, Json)>) {
    forall p | p in pairs :: PlainText(p.0) && Plain(p.1)
  }

  /** Lengths of the members from position i on. */
  function SumFrom(pairs: seq<(string, Json)>, i: nat): nat
    requires PlainMembers(pairs) && i <= |pairs|
    decreases |pairs| - i
  {
    if i == |pairs| then 0 else |PrintMember(pairs[i])| + SumFrom(pairs, i + 1)
  }

  /** An object's text is its members and one comma less than members. */
  lemma {:induction false} MembersSize(pairs: seq<(string, Json)>, i: nat)
    requires PlainMembers(pairs) && i < |pairs|
    ensures |PrintMembers(pairs[i..])| == |pairs| - i - 1 + SumFrom(pairs, i)
    decreases |pairs| - i
  {
    hide PrintMember, Plain, PlainText;
    assert pairs[i..][1..] == pairs[i + 1..];
    if i + 1 < |pairs| {
      MembersSize(pairs, i + 1);
    }
  }

  lemma ObjectSize(j: Json)
    requires j.JObject? && j.pairs != [] && Plain(j)
    ensures |Print(j)| == |j.pairs| + 1 + SumFrom(j.pairs, 0)
  {
    MembersSize(j.pairs, 0);
    assert j.pairs[0..] == j.pairs;
  }

  lemma PlainNotificationWords()
    ensures PlainText("at") && PlainText("from_state") && PlainText("to_state")
    ensures PlainText("unknown") && PlainText("up") && PlainText("down") && PlainText("recovered")
    ensures PlainText("kind") && PlainText("notification_id") && PlainText("transition")
  {}

  lemma PlainStateWords()
    ensures PlainText("consecutive_failures") && PlainText("consecutive_successes") && PlainText("current_down")
    ensures PlainText("next_notification_id") && PlainText("acknowledged")
  {}

  lemma MorePlainStateWords()
    ensures PlainText("pending_notifications") && PlainText("schema_version")
    ensures PlainText("state") && PlainText("state_changed_at")
  {}

  lemma TransitionSize(t: Transition)
    requires ValidTransition(t) && Timestamps.Representable(t.at)
    ensures Plain(EncodeTransition(t))
    ensures |Print(EncodeTransition(t))| <= 39 + 32 + |StateText(t.from)| + |StateText(t.to)|
  {
    hide Timestamps.IsoInstant, PlainText, Timestamps.Representable;
    InstantText(t.at);
    PlainNotificationWords();
    var pairs := EncodeTransition(t).pairs;
    ObjectSize(EncodeTransition(t));
    assert SumFrom(pairs, 2) == |PrintMember(pairs[2])|;
    assert SumFrom(pairs, 0) == |PrintMember(pairs[0])| + |PrintMember(pairs[1])| + SumFrom(pairs, 2);
  }

  predicate Narrow(n: Notification, width: nat) {
    ValidNotification(n) && EncodableNotification(n) && |Decimal(n.id)| <= width
  }

  lemma NotificationSize(n: Notification, width: nat)
    requires Narrow(n, width)
    ensures Plain(EncodeNotification(n)) && |Print(EncodeNotification(n))| <= NOTIFICATION_SIZE + width
  {
    hide EncodeTransition, PlainText, Decimal;
    TransitionSize(n.transition);
    PlainNotificationWords();
    var pairs := EncodeNotification(n).pairs;
    ObjectSize(EncodeNotification(n));
    assert SumFrom(pairs, 2) == |PrintMember(pairs[2])|;
    assert SumFrom(pairs, 0) == |PrintMember(pairs[0])| + |PrintMember(pairs[1])| + SumFrom(pairs, 2);
  }

  predicate AllNarrow(pending: seq<Notification>, width: nat) {
    forall i | 0 <= i < |pending| :: Narrow(pending[i], width)
  }

  lemma {:induction false} PendingIsPlain(pending: seq<Notification>, width: nat)
    requires AllNarrow(pending, width)
    ensures Plain(JArray(EncodePending(pending)))
  {
    hide EncodeNotification, Narrow, ValidNotification;
    if pending != [] {
      NotificationSize(pending[0], width);
      PendingIsPlain(pending[1..], width);
    }
  }

  lemma {:induction false} PendingSize(pending: seq<Notification>, width: nat)
    requires forall i | 0 <= i < |pending| :: EncodableNotification(pending[i])
    requires AllNarrow(pending, width) && Plain(JArray(EncodePending(pending)))
    ensures |Print(JArray(EncodePending(pending)))| <= 2 + |pending| * (NOTIFICATION_SIZE + 1 + width)
  {
    hide EncodeNotification, EncodableNotification, Narrow, Print, Plain;
    if pending == [] {
      EmptyArray();
    } else {
      NotificationSize(pending[0], width);
      PendingIsPlain(pending[1..], width);
      PendingSize(pending[1..], width);
      assert |pending| * (NOTIFICATION_SIZE + 1 + width)
          == NOTIFICATION_SIZE + 1 + width + (|pending| - 1) * (NOTIFICATION_SIZE + 1 + width);
      ArrayCons(EncodePending(pending));
    }
  }

  lemma EmptyArray()
    ensures Plain(JArray([])) && |Print(JArray([]))| == 2
  {}

  lemma ArrayCons(elements: seq<Json>)
    requires elements != [] && Plain(JArray(elements))
    ensures Plain(elements[0]) && Plain(JArray(elements[1..]))
    ensures |Print(JArray(elements))| <= |Print(elements[0])| + 1 + |Print(JArray(elements[1..]))|
  {}

  lemma MemberSize(name: string, value: Json)
    requires PlainText(name) && Plain(value)
    ensures |PrintMember((name, value))| == |name| + 3 + |Print(value)|
  {}

  lemma CurrentSize(current: Option<CurrentDown>, width: nat)
    requires current.Some? ==> current.value.id >= 1 && |Decimal(current.value.id)| <= width
    ensures Plain(EncodeCurrent(current)) && |Print(EncodeCurrent(current))| <= 41 + width
  {
    hide PlainText, Decimal, PrintMember;
    PlainNotificationWords();
    PlainStateWords();
    if current.Some? {
      var pairs := EncodeCurrent(current).pairs;
      MemberSize(pairs[0].0, pairs[0].1);
      MemberSize(pairs[1].0, pairs[1].1);
      ObjectSize(EncodeCurrent(current));
      assert SumFrom(pairs, 1) == |PrintMember(pairs[1])| + SumFrom(pairs, 2);
      assert SumFrom(pairs, 0) == |PrintMember(pairs[0])| + SumFrom(pairs, 1);
      assert SumFrom(pairs, 2) == 0;
    }
  }

  /** Eight state members cost their values and 162 characters. */
  lemma StateMembersSize(pairs: seq<(string, Json)>)
    requires |pairs| == |STATE_FIELDS|
    requires forall i | 0 <= i < |pairs| :: pairs[i].0 == STATE_FIELDS[i] && Plain(pairs[i].1)
    ensures Plain(JObject(pairs))
    ensures |Print(JObject(pairs))| ==
            162 + |Print(pairs[0].1)| + |Print(pairs[1].1)| + |Print(pairs[2].1)| + |Print(pairs[3].1)|
            + |Print(pairs[4].1)| + |Print(pairs[5].1)| + |Print(pairs[6].1)| + |Print(pairs[7].1)|
  {
    hide PlainText, PrintMember, Print;
    PlainStateWords();
    MorePlainStateWords();
    forall i | 0 <= i < |pairs|
      ensures PlainText(pairs[i].0) && |PrintMember(pairs[i])| == |STATE_FIELDS[i]| + 3 + |Print(pairs[i].1)|
    {
      assert STATE_FIELDS[i] in STATE_FIELDS;
      MemberSize(pairs[i].0, pairs[i].1);
      assert pairs[i] == (pairs[i].0, pairs[i].1);
    }
    ObjectSize(JObject(pairs));
    assert SumFrom(pairs, 8) == 0;
    assert SumFrom(pairs, 6) == |PrintMember(pairs[6])| + |PrintMember(pairs[7])|;
    assert SumFrom(pairs, 4) == |PrintMember(pairs[4])| + |PrintMember(pairs[5])| + SumFrom(pairs, 6);
    assert SumFrom(pairs, 2) == |PrintMember(pairs[2])| + |PrintMember(pairs[3])| + SumFrom(pairs, 4);
    assert SumFrom(pairs, 0) == |PrintMember(pairs[0])| + |PrintMember(pairs[1])| + SumFrom(pairs, 2);
  }

  lemma LeavesSize(s: Status)
    requires Valid(s) && Encodable(s)
    ensures Plain(EncodeAnchor(s.changedAt)) && |Print(EncodeAnchor(s.changedAt))| <= 34
    ensures |Print(JInt(s.failures))| == |Print(JInt(s.successes))| == |Print(JInt(SCHEMA_VERSION))| == 1
    ensures Plain(JString(StateText(s.state))) && |Print(JString(StateText(s.state)))| <= 9
  {
    hide Timestamps.IsoInstant, EncodableNotification;
    PlainNotificationWords();
    if s.changedAt.Some? {
      InstantText(s.changedAt.value);
    }
  }

  /** The document's text takes at most 251 characters, two ids, and 131 characters and an id
      for each pending intent. */
  lemma DocumentSize(s: Status)
    requires Valid(s) && Encodable(s)
    ensures Plain(Document(s))
    ensures |Print(Document(s))| <= ENVELOPE_SIZE + 2 * Width(s) + |s.pending| * (NOTIFICATION_SIZE + 1 + Width(s))
  {
    hide PlainText, EncodeCurrent, EncodeAnchor, EncodableNotification, Decimal, PrintElements, PrintMembers, Narrow;
    hide EncodePending, StateText;
    IdsAreNarrow(s);
    LeavesSize(s);
    PendingIsPlain(s.pending, Width(s));
    PendingSize(s.pending, Width(s));
    CurrentSize(s.current, Width(s));
    StateMembersSize(Document(s).pairs);
  }

  lemma IdsAreNarrow(s: Status)
    requires Valid(s) && Encodable(s)
    ensures AllNarrow(s.pending, Width(s))
    ensures s.current.Some? ==> s.current.value.id >= 1 && |Decimal(s.current.value.id)| <= Width(s)
  {
    forall i | 0 <= i < |s.pending|
      ensures Narrow(s.pending[i], Width(s))
    {
      WidthGrows(s.pending[i].id, s.nextId);
    }
    if s.current.Some? {
      WidthGrows(s.current.value.id, s.nextId);
    }
  }

  /** Seven thousand unacknowledged intents with ids of up to eighteen digits always fit the store. */
  lemma BacklogFits(s: Status)
    requires Valid(s) && Encodable(s) && |s.pending| <= 7000 && s.nextId < Power10(18)
    ensures Plain(Document(s)) && |Print(Document(s))| <= MAX_DEADMAN_STATE_BYTES
  {
    hide Document, Encodable, Print, Power10;
    DocumentSize(s);
    WidthOf(s.nextId, 18);
    Product(|s.pending|, NOTIFICATION_SIZE + 1 + Width(s));
  }

  lemma Product(p: nat, w: nat)
    requires p <= 7000 && w <= 149
    ensures p * w <= 1_043_000
  {
    Wider(p, w, 149);
  }

  lemma {:induction false} Wider(p: nat, v: nat, w: nat)
    requires v <= w
    ensures p * v <= p * w
  {
    if p > 0 {
      Wider(p - 1, v, w);
      assert p * v == (p - 1) * v + v && p * w == (p - 1) * w + w;
    }
  }

  lemma {:induction false} WidthOf(n: nat, k: nat)
    requires n < Power10(k) && k >= 1
    ensures |Decimal(n)| <= k
  {
    if n >= 10 {
      WidthOf(n / 10, k - 1);
    }
  }
}
