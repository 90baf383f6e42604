/** The status is a canonical snapshot: it stores nothing that no future could reveal. */
module DeadManCanonical {
  import opened Common
  import opened DeadMan
  import opened DeadManRuns

  /** What an operator can see: state, pending count and the intent due for delivery. */
  datatype View = View(state: State, pendingCount: nat, head: Option<Notification>)

  datatype Reply = Reply(accepted: bool, view: View)

  function Observe(s: Status): View {
    View(s.state, |s.pending|, if s.pending == [] then None else Some(s.pending[0]))
  }

  function Replies(s: Status, word: seq<Event>): seq<Reply>
    requires Valid(s)
    decreases |word|
  {
    if word == [] then []
    else
      var t := After(s, word[0]);
      [Reply(React(s, word[0]).Ok?, Observe(t))] + Replies(t, word[1..])
  }

  ghost predicate Indistinguishable(s: Status, t: Status)
    requires Valid(s) && Valid(t)
  {
    Observe(s) == Observe(t) && forall word :: Replies(s, word) == Replies(t, word)
  }

  /** Indistinguishable statuses accept the same event and stay indistinguishable. */
  lemma Persists(s: Status, t: Status, e: Event)
    requires Valid(s) && Valid(t) && Indistinguishable(s, t)
    ensures React(s, e).Ok? == React(t, e).Ok?
    ensures Indistinguishable(After(s, e), After(t, e))
  {
    assert Replies(s, [e])[0] == Replies(t, [e])[0];
    forall word
      ensures Replies(After(s, e), word) == Replies(After(t, e), word)
    {
      var longer := [e] + word;
      assert longer[1..] == word;
      assert Replies(s, longer) == Replies(t, longer);
      assert Replies(After(s, e), word) == Replies(s, longer)[1..];
      assert Replies(After(t, e), word) == Replies(t, longer)[1..];
    }
  }

  lemma {:induction false} QueuesAgree(s: Status, t: Status)
    requires Valid(s) && Valid(t) && Indistinguishable(s, t)
    ensures s.pending == t.pending
    decreases |s.pending|
  {
    if s.pending != [] {
      var e := Ack(s.pending[0].id);
      assert Observe(s).head == Observe(t).head;
      AcknowledgeCloses(s, e.id);
      AcknowledgeCloses(t, e.id);
      Persists(s, t, e);
      QueuesAgree(After(s, e), After(t, e));
    }
  }

  lemma AnchorNotEarlier(s: Status, t: Status)
    requires Valid(s) && Valid(t) && Indistinguishable(s, t)
    ensures s.changedAt.Some? == t.changedAt.Some?
    ensures s.changedAt.Some? ==> t.changedAt.value <= s.changedAt.value
  {
    if s.changedAt.Some? {
      Persists(s, t, Probe(HEALTHY, s.changedAt.value));
      AdvanceCloses(s, HEALTHY, s.changedAt.value);
      AdvanceCloses(t, HEALTHY, s.changedAt.value);
    }
  }

  /** A moment both machines accept. */
  function Moment(s: Status): Instant {
    if s.changedAt.Some? then s.changedAt.value else 0
  }

  lemma {:induction false} StreaksAgree(s: Status, t: Status)
    requires Valid(s) && Valid(t) && Indistinguishable(s, t) && s.changedAt == t.changedAt
    ensures s.failures == t.failures && s.successes == t.successes
    decreases 6 - s.failures - t.failures
  {
    assert s.state == Observe(s).state == t.state;
    var now := Moment(s);
    if s.state == DOWN {
      Persists(s, t, Probe(HEALTHY, now));
      AdvanceCloses(s, HEALTHY, now);
      AdvanceCloses(t, HEALTHY, now);
      ProbeFollowsStreak(s, HEALTHY, now);
      ProbeFollowsStreak(t, HEALTHY, now);
    } else if s.failures != t.failures {
      Persists(s, t, Probe(FAILED, now));
      AdvanceCloses(s, FAILED, now);
      AdvanceCloses(t, FAILED, now);
      ProbeFollowsStreak(s, FAILED, now);
      ProbeFollowsStreak(t, FAILED, now);
      var s', t' := After(s, Probe(FAILED, now)), After(t, Probe(FAILED, now));
      assert Observe(s').state == Observe(t').state;
      StreaksAgree(s', t');
    }
  }

  lemma ProbeFollowsStreak(s: Status, outcome: Outcome, now: Instant)
    requires Valid(s) && Advance(s, outcome, now).Ok?
    ensures var t := Advance(s, outcome, now).value;
            && (s.state == DOWN && outcome == HEALTHY ==>
                  if s.successes == 1 then t.state == UP else t == s.(successes := 1))
            && (s.state != DOWN && outcome == FAILED ==>
                  if s.failures == 2 then t.state == DOWN else t == s.(failures := s.failures + 1))
  {}

  lemma {:induction false} AllocatorsAgree(s: Status, t: Status)
    requires Valid(s) && Valid(t) && Indistinguishable(s, t) && s.changedAt == t.changedAt
    requires s.pending == t.pending
    ensures s.nextId == t.nextId
    decreases if s.state == DOWN then 2 - s.successes else 3 - s.failures
  {
    assert s.state == Observe(s).state == t.state;
    StreaksAgree(s, t);
    if s.pending != [] {
      assert s.pending[|s.pending| - 1].id == s.nextId - 1;
      assert t.pending[|t.pending| - 1].id == t.nextId - 1;
    } else if s.state != UNKNOWN || s.failures == 2 {
      var outcome, now := if s.state == DOWN then HEALTHY else FAILED, Moment(s);
      var e := Probe(outcome, now);
      Persists(s, t, e);
      AdvanceCloses(s, outcome, now);
      AdvanceCloses(t, outcome, now);
      ProbeFollowsStreak(s, outcome, now);
      ProbeFollowsStreak(t, outcome, now);
      ProbeMoves(s, outcome, now);
      ProbeMoves(t, outcome, now);
      if After(s, e).pending != [] {
        assert Observe(After(s, e)).head == Observe(After(t, e)).head;
      } else {
        AllocatorsAgree(After(s, e), After(t, e));
      }
    }
  }

  /** Two valid statuses are equal exactly when no finite word of probes and
      acknowledgements tells them apart. */
  lemma CanonicalSnapshot(s: Status, t: Status)
    requires Valid(s) && Valid(t)
    ensures s == t <==> Indistinguishable(s, t)
  {
    if Indistinguishable(s, t) {
      assert s.state == Observe(s).state == t.state;
      QueuesAgree(s, t);
      AnchorNotEarlier(s, t);
      AnchorNotEarlier(t, s);
      StreaksAgree(s, t);
      AllocatorsAgree(s, t);
    }
  }
}
