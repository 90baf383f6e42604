/** How fast a backlog drains when every save and every send succeeds, for every sequence of probes. */
module DeadManDrain {
  import opened Common
  import opened DeadMan

  datatype Observation = Observation(outcome: Outcome, now: Instant)

  predicate Accepts(s: Status, o: Observation) {
    s.changedAt.Some? ==> s.changedAt.value <= o.now
  }

  /** The durable status after one cycle in which nothing fails. */
  function Cycle(s: Status, o: Observation): (t: Status)
    requires Valid(s)
    ensures Valid(t)
  {
    AdvanceCloses(s, o.outcome, o.now);
    if !Accepts(s, o) then s
    else
      var advanced := Advance(s, o.outcome, o.now).value;
      if advanced.pending == [] then advanced
      else
        AcknowledgeCloses(advanced, advanced.pending[0].id);
        Acknowledge(advanced, advanced.pending[0].id).value
  }

  function Cycles(s: Status, observations: seq<Observation>): (t: Status)
    requires Valid(s)
    ensures Valid(t)
    decreases |observations|
  {
    if observations == [] then s else Cycles(Cycle(s, observations[0]), observations[1..])
  }

  predicate AllAccepted(s: Status, observations: seq<Observation>)
    requires Valid(s)
    decreases |observations|
  {
    observations == [] ||
    (Accepts(s, observations[0]) && AllAccepted(Cycle(s, observations[0]), observations[1..]))
  }

  /** Fewest further cycles until an outage can be confirmed. */
  function Distance(s: Status): int {
    if s.state == DOWN then 5 - s.successes else 3 - s.failures
  }

  function Potential(s: Status): int {
    5 * |s.pending| + 5 - Distance(s)
  }

  /** The probe that brings the next outage nearer. */
  function Worst(s: Status): Outcome {
    if s.state == DOWN then HEALTHY else FAILED
  }

  lemma CycleDrains(s: Status, o: Observation)
    requires Valid(s) && s.pending != [] && Accepts(s, o)
    ensures Potential(Cycle(s, o)) <= Potential(s) - 4
    ensures o.outcome == Worst(s) ==> Potential(Cycle(s, o)) == Potential(s) - 4
    ensures Cycle(s, o).pending != [] ==> 1 <= Distance(Cycle(s, o)) <= 5
    ensures forall n | n in Cycle(s, o).pending && n !in s.pending :: n.kind == DownKind
  {
    AdvanceCloses(s, o.outcome, o.now);
    var t := Advance(s, o.outcome, o.now).value;
    ProbeMoves(s, o.outcome, o.now);
    AdvanceStreaks(s, o.outcome, o.now);
    assert t.pending != [];
    AcknowledgeCloses(t, t.pending[0].id);
  }

  lemma AdvanceStreaks(s: Status, outcome: Outcome, now: Instant)
    requires Valid(s) && Advance(s, outcome, now).Ok?
    ensures var t := Advance(s, outcome, now).value;
            if s.state == DOWN then
              if outcome == FAILED then (t.state, t.successes) == (DOWN, 0)
              else if s.successes == 1 then (t.state, t.failures) == (UP, 0)
              else (t.state, t.successes) == (DOWN, 1)
            else if outcome == HEALTHY then (t.state, t.failures) == (UP, 0)
            else if s.failures == 2 then (t.state, t.successes) == (DOWN, 0)
            else (t.state, t.failures) == (s.state, s.failures + 1)
  {}

  /** After `k` cycles that left something pending each time, the potential has dropped by `4k`. */
  lemma {:induction false} StaysPending(s: Status, observations: seq<Observation>)
    requires Valid(s) && AllAccepted(s, observations)
    requires forall i | 0 <= i <= |observations| :: Cycles(s, observations[..i]).pending != []
    ensures 5 <= Potential(s) - 4 * |observations|
    decreases |observations|
  {
    assert observations[..0] == [];
    if observations != [] {
      var t := Cycle(s, observations[0]);
      CycleDrains(s, observations[0]);
      forall i | 0 <= i <= |observations| - 1
        ensures Cycles(t, observations[1..][..i]).pending != []
      {
        assert observations[..i + 1][1..] == observations[1..][..i];
        assert Cycles(s, observations[..i + 1]).pending != [];
      }
      StaysPending(t, observations[1..]);
    }
  }

  /** A backlog of p intents is empty at the end of one of the first ceil(5p/4) good cycles,
      for every sequence of probe outcomes. */
  lemma BacklogDrains(s: Status, observations: seq<Observation>)
    requires Valid(s) && s.pending != [] && AllAccepted(s, observations)
    requires |observations| >= (5 * |s.pending| + 3) / 4
    ensures exists i | 1 <= i <= |observations| :: Cycles(s, observations[..i]).pending == []
  {
    if forall i | 1 <= i <= |observations| :: Cycles(s, observations[..i]).pending != [] {
      StaysPending(s, observations);
    }
  }

  // ---- outages are apart ----

  lemma AdvanceApproaches(s: Status, outcome: Outcome, now: Instant)
    requires Valid(s) && Advance(s, outcome, now).Ok?
    ensures var t := Advance(s, outcome, now).value;
            && Distance(t) >= Distance(s) - 1
            && (s.state != DOWN && t.state == DOWN ==> Distance(s) == 1 && Distance(t) == 5)
  {
    AdvanceStreaks(s, outcome, now);
    hide Advance;
  }

  lemma CycleApproaches(s: Status, o: Observation)
    requires Valid(s)
    ensures Distance(Cycle(s, o)) >= Distance(s) - 1
    ensures s.state != DOWN && Cycle(s, o).state == DOWN ==> Distance(s) == 1 && Distance(Cycle(s, o)) == 5
  {
    hide Valid, Advance, Acknowledge;
    AdvanceCloses(s, o.outcome, o.now);
    if Accepts(s, o) {
      var t := Advance(s, o.outcome, o.now).value;
      AdvanceApproaches(s, o.outcome, o.now);
      if t.pending != [] {
        AcknowledgeCloses(t, t.pending[0].id);
      }
    }
  }

  lemma {:induction false} CyclesApproach(s: Status, observations: seq<Observation>)
    requires Valid(s)
    ensures Distance(Cycles(s, observations)) >= Distance(s) - |observations|
    decreases |observations|
  {
    hide Cycle;
    if observations != [] {
      CycleApproaches(s, observations[0]);
      CyclesApproach(Cycle(s, observations[0]), observations[1..]);
    }
  }

  /** From a cycle that confirmed an outage to the next one that does, at least five cycles pass,
      whatever is observed. */
  lemma OutagesAreApart(s: Status, o: Observation, between: seq<Observation>, p: Observation)
    requires Valid(s) && s.state != DOWN && Cycle(s, o).state == DOWN
    requires Cycles(Cycle(s, o), between).state != DOWN && Cycle(Cycles(Cycle(s, o), between), p).state == DOWN
    ensures |between + [p]| >= 5
  {
    hide Cycle, Cycles;
    CycleApproaches(s, o);
    CyclesApproach(Cycle(s, o), between);
    CycleApproaches(Cycles(Cycle(s, o), between), p);
  }

  // ---- the bound is attained ----

  function WorstProbe(s: Status): Observation {
    Observation(Worst(s), if s.changedAt.Some? then s.changedAt.value else 0)
  }

  function WorstProbes(s: Status, n: nat): (observations: seq<Observation>)
    requires Valid(s)
    ensures |observations| == n && AllAccepted(s, observations)
    decreases n
  {
    if n == 0 then []
    else
      [WorstProbe(s)] + WorstProbes(Cycle(s, WorstProbe(s)), n - 1)
  }

  lemma {:induction false} WorstProbesStayPending(s: Status, n: nat)
    requires Valid(s) && 5 <= Potential(s) - 4 * n
    ensures Cycles(s, WorstProbes(s, n)).pending != []
    decreases n
  {
    if n > 0 {
      var o := WorstProbe(s);
      CycleDrains(s, o);
      assert WorstProbes(s, n)[1..] == WorstProbes(Cycle(s, o), n - 1);
      WorstProbesStayPending(Cycle(s, o), n - 1);
    }
  }

  /** One failure short of an outage, with p unacknowledged outages. */
  function Backlog(p: nat): (s: Status)
    requires p >= 1
    ensures Valid(s) && |s.pending| == p
  {
    Status(UP, 2, 0, Some(0),
           seq(p, i requires 0 <= i < p => Notification(i + 1, DownKind, Transition(UP, DOWN, 0))), p + 1, None)
  }

  /** No smaller bound holds, for any p: some backlog of p survives ceil(5p/4) - 1 good cycles. */
  lemma BoundIsTight(p: nat)
    requires p >= 1
    ensures exists observations :: |observations| == (5 * p + 3) / 4 - 1 && AllAccepted(Backlog(p), observations)
                                   && Cycles(Backlog(p), observations).pending != []
  {
    var n := (5 * p + 3) / 4 - 1;
    WorstProbesStayPending(Backlog(p), n);
    assert |WorstProbes(Backlog(p), n)| == n;
  }
}
