/** Any interleaving of probes and acknowledgements from the initial status:
    what every reachable status keeps, and that liveness depends on probes alone. */
module DeadManRuns {
  import opened Common
  import opened DeadMan
  import Latch

  datatype Event = Probe(outcome: Outcome, now: Instant) | Ack(id: int)

  function React(s: Status, e: Event): Result<Status, Error>
    requires Valid(s)
  {
    match e
    case Probe(outcome, now) => Advance(s, outcome, now)
    case Ack(id) => Acknowledge(s, id)
  }

  /** A refused event leaves the status as it was. */
  function After(s: Status, e: Event): (t: Status)
    requires Valid(s)
    ensures Valid(t)
  {
    Closes(s, e);
    if React(s, e).Ok? then React(s, e).value else s
  }

  lemma Closes(s: Status, e: Event)
    requires Valid(s)
    ensures React(s, e).Ok? ==> Valid(React(s, e).value)
  {
    match e
    case Probe(outcome, now) => AdvanceCloses(s, outcome, now);
    case Ack(id) => AcknowledgeCloses(s, id);
  }

  function Run(word: seq<Event>): (t: Status)
    ensures Valid(t)
  {
    if word == [] then INITIAL else After(Run(word[..|word| - 1]), word[|word| - 1])
  }

  // ---- what only reachable statuses have ----

  /** Beyond `Valid`: pending intents are dated in id order, only the very first intent can
      come from UNKNOWN, and an UP status ending in RECOVERED is anchored at that recovery. */
  predicate Orderly(s: Status) {
    && (forall i, j | 0 <= i < j < |s.pending| :: s.pending[i].transition.at <= s.pending[j].transition.at)
    && (forall n | n in s.pending :: n.transition.from == UNKNOWN ==> n.id == 1)
    && (s.state == UP && s.pending != [] && s.pending[|s.pending| - 1].kind == RecoveredKind ==>
          s.changedAt == Some(s.pending[|s.pending| - 1].transition.at))
  }

  lemma OrderlyProbe(s: Status, outcome: Outcome, now: Instant)
    requires Valid(s) && Orderly(s) && Advance(s, outcome, now).Ok?
    ensures Orderly(Advance(s, outcome, now).value)
  {
    ProbeMoves(s, outcome, now);
    AdvanceCloses(s, outcome, now);
    OrderlyMove(s, Advance(s, outcome, now).value, now);
  }

  lemma OrderlyMove(s: Status, t: Status, now: Instant)
    requires Orderly(s) && Moves(s, t, now)
    requires ValidAnchor(s) && (s.changedAt.Some? ==> s.changedAt.value <= now)
    requires s.state == DOWN && s.pending != [] ==> s.pending[|s.pending| - 1].kind == DownKind
    ensures Orderly(t)
  {
    forall i | 0 <= i < |s.pending|
      ensures s.pending[i].transition.at <= now
    {
      assert s.pending[i] in s.pending;
    }
    if t.pending != s.pending {
      OrderlyAppend(s, t, t.pending[|s.pending|]);
    }
  }

  lemma OrderlyAppend(s: Status, t: Status, n: Notification)
    requires Orderly(s) && t.pending == s.pending + [n] && t.changedAt == Some(n.transition.at)
    requires forall i | 0 <= i < |s.pending| :: s.pending[i].transition.at <= n.transition.at
    requires n.transition.from == UNKNOWN ==> n.id == 1
    ensures Orderly(t)
  {
    forall i, j | 0 <= i < j < |t.pending|
      ensures t.pending[i].transition.at <= t.pending[j].transition.at
    {
      if j < |s.pending| {
        assert s.pending[i].transition.at <= s.pending[j].transition.at;
      }
    }
  }

  lemma OrderlyAcknowledge(s: Status, id: int)
    requires Valid(s) && Orderly(s) && Acknowledge(s, id).Ok?
    ensures Orderly(Acknowledge(s, id).value)
  {
    AcknowledgeCloses(s, id);
    var t := Acknowledge(s, id).value;
    assert t.pending == s.pending[1..];
  }

  lemma {:induction false} ReachableIsOrderly(word: seq<Event>)
    ensures Valid(Run(word)) && Orderly(Run(word))
  {
    if word != [] {
      ReachableIsOrderly(word[..|word| - 1]);
      match word[|word| - 1]
      case Probe(outcome, now) =>
        if Advance(Run(word[..|word| - 1]), outcome, now).Ok? {
          OrderlyProbe(Run(word[..|word| - 1]), outcome, now);
        }
      case Ack(id) =>
        if Acknowledge(Run(word[..|word| - 1]), id).Ok? {
          OrderlyAcknowledge(Run(word[..|word| - 1]), id);
        }
    }
  }

  // ---- liveness is a function of the accepted probes ----

  function SignalOf(outcome: Outcome): Latch.Signal {
    if outcome == FAILED then Latch.Lost else Latch.Alive
  }

  /** The outcomes of the probes the machine accepted, in order. */
  function Accepted(word: seq<Event>): seq<Latch.Signal> {
    if word == [] then []
    else
      var before := word[..|word| - 1];
      var e := word[|word| - 1];
      if e.Probe? && React(Run(before), e).Ok? then Accepted(before) + [SignalOf(e.outcome)] else Accepted(before)
  }

  predicate Agrees(s: Status, m: Latch.Memory) {
    (s.state == DOWN, s.failures, s.successes) == (m.down, m.failures, m.successes)
  }

  lemma ProbeFollowsLatch(s: Status, outcome: Outcome, now: Instant, m: Latch.Memory)
    requires Valid(s) && Agrees(s, m) && Advance(s, outcome, now).Ok?
    ensures var t := Advance(s, outcome, now).value;
            && Agrees(t, Latch.Step(m, SignalOf(outcome), DOWN_CONFIRMATIONS, RECOVERY_CONFIRMATIONS))
            && (t.state == UNKNOWN <==> s.state == UNKNOWN && outcome == FAILED && s.failures + 1 < DOWN_CONFIRMATIONS)
  {}

  /** The status is the latch of what was heard, and UNKNOWN while that was a short run of failures only. */
  predicate Follows(s: Status, heard: seq<Latch.Signal>) {
    && Agrees(s, Latch.Fold(heard, DOWN_CONFIRMATIONS, RECOVERY_CONFIRMATIONS))
    && (s.state == UNKNOWN <==> Latch.TrailingRun(heard, Latch.Lost) == |heard| < DOWN_CONFIRMATIONS)
  }

  lemma ProbeFollows(s: Status, outcome: Outcome, now: Instant, heard: seq<Latch.Signal>)
    requires Valid(s) && Follows(s, heard) && Advance(s, outcome, now).Ok?
    ensures Follows(Advance(s, outcome, now).value, heard + [SignalOf(outcome)])
  {
    hide Valid, Advance, Latch.Step, Latch.Latched;
    var longer := heard + [SignalOf(outcome)];
    assert longer[..|heard|] == heard;
    Latch.FoldIsLatch(heard, DOWN_CONFIRMATIONS, RECOVERY_CONFIRMATIONS);
    ProbeFollowsLatch(s, outcome, now, Latch.Fold(heard, DOWN_CONFIRMATIONS, RECOVERY_CONFIRMATIONS));
  }

  lemma AcknowledgementFollows(s: Status, id: int, heard: seq<Latch.Signal>)
    requires Valid(s) && Follows(s, heard) && Acknowledge(s, id).Ok?
    ensures Follows(Acknowledge(s, id).value, heard)
  {
    hide Valid, Acknowledge, Latch.Fold, Latch.TrailingRun;
    AcknowledgeCloses(s, id);
  }

  lemma {:induction false} RunFollowsLatch(word: seq<Event>)
    ensures Follows(Run(word), Accepted(word))
  {
    if word != [] {
      hide Valid, Advance, Acknowledge, Follows;
      var before, e := word[..|word| - 1], word[|word| - 1];
      RunFollowsLatch(before);
      match e
      case Probe(outcome, now) =>
        if Advance(Run(before), outcome, now).Ok? {
          ProbeFollows(Run(before), outcome, now, Accepted(before));
        }
      case Ack(id) =>
        if Acknowledge(Run(before), id).Ok? {
          AcknowledgementFollows(Run(before), id, Accepted(before));
        }
    }
  }

  /** Under any interleaving, the state is the three-failure, two-success latch of the accepted
      probes with a silent baseline, UNKNOWN covers exactly the all-failed histories
      shorter than three, and the streaks are trailing runs. */
  lemma LivenessDependsOnProbesAlone(word: seq<Event>)
    ensures var s, heard := Run(word), Accepted(word);
            && (s.state == DOWN <==> Latch.Latched(heard, 3, 2))
            && (s.state == UNKNOWN <==> |heard| < 3 && forall signal | signal in heard :: signal == Latch.Lost)
            && s.failures == (if s.state == DOWN then 0 else Latch.TrailingRun(heard, Latch.Lost))
            && s.successes == (if s.state == DOWN then Latch.TrailingRun(heard, Latch.Alive) else 0)
  {
    hide Run, Accepted, Latch.Latched, Latch.Fold, Valid;
    var heard := Accepted(word);
    RunFollowsLatch(word);
    Latch.FoldIsLatch(heard, 3, 2);
    Latch.TrailingRunMeaning(heard, Latch.Lost, |heard|);
    assert forall i | 0 <= i < |heard| :: heard[i] in heard;
  }

  /** The probes of a word, refused ones included. */
  function Probes(word: seq<Event>): seq<Event> {
    if word == [] then []
    else
      var last := word[|word| - 1];
      Probes(word[..|word| - 1]) + if last.Probe? then [last] else []
  }

  /** The part of a status that no acknowledgement touches. */
  datatype Liveness = Liveness(state: State, failures: int, successes: int, changedAt: Option<Instant>)

  function LivenessOf(s: Status): Liveness {
    Liveness(s.state, s.failures, s.successes, s.changedAt)
  }

  /** What an accepted probe makes of it. */
  function NextLiveness(l: Liveness, outcome: Outcome, now: Instant): Liveness {
    if l.state == DOWN then
      if outcome == FAILED then l.(successes := 0)
      else if l.successes + 1 < RECOVERY_CONFIRMATIONS then l.(successes := l.successes + 1)
      else Liveness(UP, 0, 0, Some(now))
    else if outcome == FAILED then
      if l.failures + 1 < DOWN_CONFIRMATIONS then l.(failures := l.failures + 1)
      else Liveness(DOWN, 0, 0, Some(now))
    else if l.state == UNKNOWN then Liveness(UP, 0, 0, Some(now))
    else l.(failures := 0)
  }

  lemma AdvanceLiveness(s: Status, outcome: Outcome, now: Instant)
    requires Valid(s) && Advance(s, outcome, now).Ok?
    ensures LivenessOf(Advance(s, outcome, now).value) == NextLiveness(LivenessOf(s), outcome, now)
  {
  }

  lemma ProbeKeepsLiveness(s: Status, t: Status, outcome: Outcome, now: Instant)
    requires Valid(s) && Valid(t) && LivenessOf(s) == LivenessOf(t)
    ensures LivenessOf(After(s, Probe(outcome, now))) == LivenessOf(After(t, Probe(outcome, now)))
    ensures Advance(s, outcome, now).Ok? == Advance(t, outcome, now).Ok?
  {
    hide Valid, Advance;
    AdvanceCloses(s, outcome, now);
    AdvanceCloses(t, outcome, now);
    if Advance(s, outcome, now).Ok? {
      AdvanceLiveness(s, outcome, now);
      AdvanceLiveness(t, outcome, now);
    }
  }

  /** Dropping every acknowledgement from a word changes neither which probes are accepted nor what they
      lead to. */
  lemma {:induction false} AcknowledgementsDoNotMatter(word: seq<Event>)
    ensures LivenessOf(Run(word)) == LivenessOf(Run(Probes(word)))
    ensures Accepted(word) == Accepted(Probes(word))
  {
    hide Valid, Advance, Acknowledge;
    if word != [] {
      var before, last := word[..|word| - 1], word[|word| - 1];
      AcknowledgementsDoNotMatter(before);
      var probes := Probes(before);
      match last
      case Probe(outcome, now) =>
        assert (probes + [last])[..|probes|] == probes;
        ProbeKeepsLiveness(Run(before), Run(probes), outcome, now);
      case Ack(id) =>
        AcknowledgeCloses(Run(before), id);
        assert Probes(word) == probes;
    }
  }

  /** Words with the same probes agree on liveness, however their acknowledgements differ. */
  lemma SameProbesSameLiveness(v: seq<Event>, w: seq<Event>)
    requires Probes(v) == Probes(w)
    ensures LivenessOf(Run(v)) == LivenessOf(Run(w))
  {
    AcknowledgementsDoNotMatter(v);
    AcknowledgementsDoNotMatter(w);
  }
}
