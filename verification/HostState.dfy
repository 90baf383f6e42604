/** The host state resolver: a counting debounce with arbitrary thresholds. */
module HostState {
  import opened Common
  import Latch

  datatype State = HEALTHY | DEGRADED | DOWN

  datatype Freshness = FRESH | STALE | MISSING

  datatype Reachability = REACHABLE | UNREACHABLE

  datatype Evidence = Evidence(freshness: Freshness, breached: bool, reachability: Reachability)

  datatype Resolution = Resolution(state: State, downFailures: int, recoverySuccesses: int)

  /** What a constructed resolution guarantees. */
  predicate Valid(r: Resolution) {
    && r.downFailures >= 0 && r.recoverySuccesses >= 0
    && (if r.state == DOWN then r.downFailures == 0 else r.recoverySuccesses == 0)
  }

  function BaseState(e: Evidence): State {
    if e.freshness == FRESH && e.reachability == REACHABLE && !e.breached then HEALTHY else DEGRADED
  }

  predicate IsDownObservation(e: Evidence) {
    e.freshness in {MISSING, STALE} && e.reachability == UNREACHABLE
  }

  function Resolve(previous: Option<Resolution>, e: Evidence, confirm: nat, recover: nat): Resolution {
    if previous.Some? && previous.value.state == DOWN then
      if e.reachability == UNREACHABLE then Resolution(DOWN, 0, 0)
      else
        var successes := previous.value.recoverySuccesses + 1;
        if successes >= recover then Resolution(BaseState(e), 0, 0) else Resolution(DOWN, 0, successes)
    else if IsDownObservation(e) then
      var failures := (if previous.None? then 0 else previous.value.downFailures) + 1;
      if failures >= confirm then Resolution(DOWN, 0, 0) else Resolution(DEGRADED, failures, 0)
    else Resolution(BaseState(e), 0, 0)
  }

  function Fold(history: seq<Evidence>, confirm: nat, recover: nat): Option<Resolution> {
    if history == [] then None
    else Some(Resolve(Fold(history[..|history| - 1], confirm, recover), history[|history| - 1], confirm, recover))
  }

  function SignalOf(e: Evidence): Latch.Signal {
    if e.reachability == REACHABLE then Latch.Alive
    else if e.freshness == FRESH then Latch.Neither
    else Latch.Lost
  }

  function Signals(history: seq<Evidence>): (s: seq<Latch.Signal>)
    ensures |s| == |history|
  {
    seq(|history|, i requires 0 <= i < |history| => SignalOf(history[i]))
  }

  lemma {:induction false} FoldFollowsLatch(history: seq<Evidence>, confirm: nat, recover: nat)
    requires history != [] && confirm >= 1 && recover >= 1
    ensures var m := Latch.Fold(Signals(history), confirm, recover);
            Fold(history, confirm, recover) ==
            Some(Resolution(if m.down then DOWN else BaseState(history[|history| - 1]), m.failures, m.successes))
  {
    var before := history[..|history| - 1];
    assert Signals(history)[..|history| - 1] == Signals(before);
    if before != [] {
      FoldFollowsLatch(before, confirm, recover);
      Latch.FoldIsLatch(Signals(before), confirm, recover);
    }
  }

  /** The resolution needs no memory: after any history a host is DOWN exactly when its latest run of
      `confirm` lost-and-unreachable observations is more recent than its latest run of `recover`
      reachable ones; otherwise its state is the base state of the last observation. The counters
      are the trailing runs of the full history. */
  lemma ResolutionIsMemoryFree(history: seq<Evidence>, confirm: nat, recover: nat)
    requires history != [] && confirm >= 1 && recover >= 1
    ensures var heard, r := Signals(history), Fold(history, confirm, recover).value;
            && Valid(r)
            && (r.state == DOWN <==> Latch.Latched(heard, confirm, recover))
            && (r.state != DOWN ==> r.state == BaseState(history[|history| - 1]))
            && r.downFailures == (if r.state == DOWN then 0 else Latch.TrailingRun(heard, Latch.Lost))
            && r.recoverySuccesses == (if r.state == DOWN then Latch.TrailingRun(heard, Latch.Alive) else 0)
            && r.downFailures < confirm && r.recoverySuccesses < recover
  {
    FoldFollowsLatch(history, confirm, recover);
    Latch.FoldIsLatch(Signals(history), confirm, recover);
  }
}
