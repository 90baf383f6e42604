/** The cooperative loop: at most one monitoring cycle and exactly one bounded request wait per
    iteration, on a completion-anchored schedule. */
module Scheduler {
  import opened Common

  /** The machine's rounded sum and difference, and its next representable number (nextUp in
      section 5.3.1 of IEEE 754-2019). */
  datatype Arithmetic = Arithmetic(add: (real, real) -> real, subtract: (real, real) -> real, nextUp: real -> real)

  /** What every binary floating-point arithmetic with gradual underflow gives: nothing representable
      lies between a number and the next one, and different numbers have a non-zero difference. */
  ghost predicate Faithful(a: Arithmetic) {
    && (forall x :: a.nextUp(x) > x)
    && (forall x, y :: a.add(x, y) > x ==> a.add(x, y) >= a.nextUp(x))
    && (forall x, y :: x > y ==> a.subtract(x, y) > 0.0)
  }

  function Max(x: real, y: real): real {
    if x <= y then y else x
  }

  function Min(x: real, y: real): real {
    if x <= y then x else y
  }

  /** The later of the rounded sum and the first moment after the completion. */
  function Deadline(a: Arithmetic, completion: real, interval: real): real {
    Max(a.add(completion, interval), a.nextUp(completion))
  }

  method DeadlineAfter(a: Arithmetic, completion: real, interval: real) returns (deadline: real)
    requires Faithful(a)
    ensures deadline > completion && deadline >= a.add(completion, interval)
    ensures deadline == Deadline(a, completion, interval)
  {
    DeadlineIsLater(a, completion, interval);
    deadline := a.add(completion, interval);
    if deadline <= completion {
      deadline := a.nextUp(completion);
    }
  }

  /** Strictly later than the completion, even when the sum collapses onto it; the ordinary sum is
      kept whenever it is later itself. */
  lemma DeadlineIsLater(a: Arithmetic, completion: real, interval: real)
    requires Faithful(a)
    ensures var deadline := Deadline(a, completion, interval);
            && deadline > completion
            && deadline == if a.add(completion, interval) > completion then a.add(completion, interval)
                           else a.nextUp(completion)
  {
    assert a.nextUp(completion) > completion;
    assert a.add(completion, interval) > completion ==> a.add(completion, interval) >= a.nextUp(completion);
  }

  /** What the injected collaborators do in one iteration. */
  datatype Tick = Tick(stop: bool, now: real, cycleFails: bool, completion: real, requestFails: bool)

  datatype CycleRun = CycleRun(start: real, completion: real, deadline: real)

  /** One request wait: its timeout, the last clock reading and the next due time then. */
  datatype Wait = Wait(timeout: real, now: real, due: real)

  datatype State = State(
    running: bool, nextDue: Option<real>, clock: Option<real>, cycles: seq<CycleRun>, waits: seq<Wait>)

  const START := State(true, None, None, [], [])

  datatype Plan = Plan(arithmetic: Arithmetic, interval: real, poll: real)

  /** The part of an iteration after the schedule check. */
  function Serve(plan: Plan, s: State, tick: Tick, now: real, due: real): State {
    var remaining := Max(plan.arithmetic.subtract(due, now), 0.0);
    s.(running := !tick.requestFails, nextDue := Some(due), clock := Some(now),
       waits := s.waits + [Wait(Min(plan.poll, remaining), now, due)])
  }

  /** One iteration. */
  function Iterate(plan: Plan, s: State, tick: Tick): State {
    if !s.running then s
    else if tick.stop then s.(running := false)
    else
      var due := if s.nextDue.Some? then s.nextDue.value else tick.now;
      if tick.now < due then Serve(plan, s, tick, tick.now, due)
      else if tick.cycleFails then s.(running := false, clock := Some(tick.now))
      else
        var deadline := Deadline(plan.arithmetic, tick.completion, plan.interval);
        var ran := s.(cycles := s.cycles + [CycleRun(tick.now, tick.completion, deadline)]);
        Serve(plan, ran, tick, tick.completion, deadline)
  }

  function Fold(plan: Plan, ticks: seq<Tick>): State {
    if ticks == [] then START else Iterate(plan, Fold(plan, ticks[..|ticks| - 1]), ticks[|ticks| - 1])
  }

  /** The i-th iteration is reached, not stopped, and ended by a failing cycle or a failing request. */
  predicate FailsAt(plan: Plan, ticks: seq<Tick>, i: nat)
    requires i < |ticks|
  {
    var s, tick := Fold(plan, ticks[..i]), ticks[i];
    var due := s.nextDue.None? || s.nextDue.value <= tick.now;
    s.running && !tick.stop && (tick.requestFails || (due && tick.cycleFails))
  }

  /** What the loop relies on in the server: one bounded wait per call. */
  class HeartbeatServer {
    var timeout: real
    var waits: seq<real>

    method HandleRequest(fails: bool) returns (ok: bool)
      modifies this
      ensures ok == !fails && waits == old(waits) + [timeout] && timeout == old(timeout)
    {
      waits := waits + [timeout];
      ok := !fails;
    }
  }

  /** What the loop relies on in the monitoring pass: it completes or fails. */
  class MonitoringPass {
    var runs: nat

    method Run(fails: bool) returns (ok: bool)
      modifies this
      ensures ok == !fails && runs == old(runs) + (if fails then 0 else 1)
    {
      ok := !fails;
      if ok { runs := runs + 1; }
    }
  }

  class SentinelRuntime {
    const plan: Plan
    const server: HeartbeatServer
    const cycle: MonitoringPass

    constructor (plan: Plan, server: HeartbeatServer, cycle: MonitoringPass)
      requires plan.interval > 0.0 && plan.poll > 0.0
      ensures (this.plan, this.server, this.cycle) == (plan, server, cycle)
    {
      this.plan, this.server, this.cycle := plan, server, cycle;
    }

    /** The loop over what the collaborators do, as long as they go on. `completed` is false when a
        collaborator's failure ended it. */
    method RunForever(ticks: seq<Tick>) returns (completed: bool, ghost s: State)
      requires Faithful(plan.arithmetic)
      modifies server, cycle
      ensures s == Fold(plan, ticks)
      ensures completed <==> forall i | 0 <= i < |ticks| :: !FailsAt(plan, ticks, i)
      ensures |server.waits| == |old(server.waits)| + |s.waits| && cycle.runs == old(cycle.runs) + |s.cycles|
      ensures forall i | 0 <= i < |s.waits| :: server.waits[|old(server.waits)| + i] == s.waits[i].timeout
    {
      hide Fold, Deadline, FailsAt, Min, Max, Faithful;
      assert Fold(plan, ticks[..0]) == START by { FoldNothing(plan); }
      assert ticks[..|ticks|] == ticks;
      s := START;
      var nextDue: Option<real> := None;
      var i := 0;
      while i < |ticks| && !ticks[i].stop
        invariant 0 <= i <= |ticks| && s == Fold(plan, ticks[..i]) && s.running && s.nextDue == nextDue
        invariant forall k | 0 <= k < i :: !FailsAt(plan, ticks, k)
        invariant |server.waits| == |old(server.waits)| + |s.waits| && cycle.runs == old(cycle.runs) + |s.cycles|
        invariant forall k | 0 <= k < |s.waits| :: server.waits[|old(server.waits)| + k] == s.waits[k].timeout
      {
        var tick := ticks[i];
        FoldNext(plan, ticks, i);
        FailureEnds(plan, ticks, i);
        s := Fold(plan, ticks[..i + 1]);
        var now := tick.now;
        if nextDue.None? {
          nextDue := Some(now);
        }
        if now >= nextDue.value {
          var ran := cycle.Run(tick.cycleFails);
          if !ran {
            StoppedStays(plan, ticks, i + 1, |ticks|);
            return false, s;
          }
          now := tick.completion;
          var deadline := DeadlineAfter(plan.arithmetic, now, plan.interval);
          nextDue := Some(deadline);
        }
        var remaining := Max(plan.arithmetic.subtract(nextDue.value, now), 0.0);
        server.timeout := Min(plan.poll, remaining);
        var served := server.HandleRequest(tick.requestFails);
        i := i + 1;
        if !served {
          StoppedStays(plan, ticks, i, |ticks|);
          return false, s;
        }
      }
      if i < |ticks| {
        FoldNext(plan, ticks, i);
        StoppedStays(plan, ticks, i + 1, |ticks|);
        s := Fold(plan, ticks[..i + 1]);
        StopIsNoFailure(plan, ticks, i);
      }
      return true, s;
    }
  }

  lemma FoldNothing(plan: Plan)
    ensures Fold(plan, []) == START
  {
  }

  lemma FoldNext(plan: Plan, ticks: seq<Tick>, i: nat)
    requires i < |ticks|
    ensures Fold(plan, ticks[..i + 1]) == Iterate(plan, Fold(plan, ticks[..i]), ticks[i])
  {
    assert ticks[..i + 1][..i] == ticks[..i];
  }

  lemma {:induction false} StoppedStays(plan: Plan, ticks: seq<Tick>, i: nat, j: nat)
    requires i <= j <= |ticks| && !Fold(plan, ticks[..i]).running
    ensures Fold(plan, ticks[..j]) == Fold(plan, ticks[..i])
  {
    if i < j {
      StoppedStays(plan, ticks, i, j - 1);
      FoldNext(plan, ticks, j - 1);
    }
  }

  lemma FailureEnds(plan: Plan, ticks: seq<Tick>, i: nat)
    requires i < |ticks| && Fold(plan, ticks[..i]).running && !ticks[i].stop
    ensures FailsAt(plan, ticks, i) <==> !Fold(plan, ticks[..i + 1]).running
  {
    FoldNext(plan, ticks, i);
    hide Fold, Deadline;
  }

  lemma StopIsNoFailure(plan: Plan, ticks: seq<Tick>, i: nat)
    requires i < |ticks| && ticks[i].stop
    ensures forall k | i <= k < |ticks| :: !FailsAt(plan, ticks, k)
  {
    FoldNext(plan, ticks, i);
    forall k | i < k < |ticks|
      ensures !FailsAt(plan, ticks, k)
    {
      StoppedStays(plan, ticks, i + 1, k);
    }
  }

  // ---- every run with a clock that never goes back ----

  /** Readings come in order: each iteration's first reading, then its completion reading. */
  predicate NonDecreasing(ticks: seq<Tick>) {
    && (forall i | 0 <= i < |ticks| :: ticks[i].now <= ticks[i].completion)
    && (forall i, j | 0 <= i < j < |ticks| :: ticks[i].completion <= ticks[j].now)
  }

  predicate Spaced(cycles: seq<CycleRun>, i: nat)
    requires 0 < i < |cycles|
  {
    cycles[i].start >= cycles[i - 1].deadline
  }

  /** Each deadline follows from its completion, and no cycle starts before the deadline set before it. */
  predicate Scheduled(plan: Plan, s: State) {
    && (forall i | 0 <= i < |s.cycles| ::
          && s.cycles[i].start <= s.cycles[i].completion
          && s.cycles[i].deadline == Deadline(plan.arithmetic, s.cycles[i].completion, plan.interval))
    && (forall i {:trigger Spaced(s.cycles, i)} | 0 < i < |s.cycles| :: Spaced(s.cycles, i))
    && (s.nextDue.Some? ==> s.cycles != [] && s.nextDue.value == s.cycles[|s.cycles| - 1].deadline)
    && (s.nextDue.None? ==> s.cycles == [])
  }

  /** Deadlines lie strictly after completions; no wait begins with a cycle due, and each lasts for the lesser of
      the poll bound and the computed time to the next due point, which is positive. */
  ghost predicate Guaranteed(plan: Plan, s: State) {
    && (forall i | 0 <= i < |s.cycles| :: s.cycles[i].completion < s.cycles[i].deadline)
    && (forall i | 0 <= i < |s.waits| ::
          && s.waits[i].now < s.waits[i].due
          && var remaining := plan.arithmetic.subtract(s.waits[i].due, s.waits[i].now);
             && s.waits[i].timeout == (if plan.poll <= remaining then plan.poll else remaining)
             && s.waits[i].timeout > 0.0)
  }

  lemma {:induction false} RunsAreScheduled(plan: Plan, ticks: seq<Tick>)
    requires NonDecreasing(ticks)
    ensures Scheduled(plan, Fold(plan, ticks))
  {
    if ticks != [] {
      var before, tick := ticks[..|ticks| - 1], ticks[|ticks| - 1];
      RunsAreScheduled(plan, before);
      IterateSchedules(plan, Fold(plan, before), tick);
    }
  }

  lemma IterateSchedules(plan: Plan, s: State, tick: Tick)
    requires tick.now <= tick.completion && Scheduled(plan, s)
    ensures Scheduled(plan, Iterate(plan, s, tick))
  {
    hide Deadline;
    var t := Iterate(plan, s, tick);
    forall i | 0 < i < |t.cycles|
      ensures Spaced(t.cycles, i)
    {
      if i < |s.cycles| {
        assert Spaced(s.cycles, i);
      }
    }
  }

  lemma {:induction false} RunsAreGuaranteed(plan: Plan, ticks: seq<Tick>)
    requires Faithful(plan.arithmetic) && plan.poll > 0.0 && NonDecreasing(ticks)
    ensures Scheduled(plan, Fold(plan, ticks)) && Guaranteed(plan, Fold(plan, ticks))
  {
    RunsAreScheduled(plan, ticks);
    if ticks != [] {
      var before, tick := ticks[..|ticks| - 1], ticks[|ticks| - 1];
      RunsAreGuaranteed(plan, before);
      IterateGuarantees(plan, Fold(plan, before), tick);
    }
  }

  lemma IterateGuarantees(plan: Plan, s: State, tick: Tick)
    requires Faithful(plan.arithmetic) && plan.poll > 0.0 && Guaranteed(plan, s)
    ensures Guaranteed(plan, Iterate(plan, s, tick))
  {
    DeadlineIsLater(plan.arithmetic, tick.completion, plan.interval);
  }

  /** One iteration runs at most one cycle, and it runs one when and only when it is due and does not fail;
      it waits for exactly one request unless it stopped before. The loop goes on unless stopped, or ended by
      a failing cycle or a failing request. */
  lemma OneRequestPerIteration(plan: Plan, ticks: seq<Tick>, i: nat)
    requires i < |ticks|
    ensures var s, t, tick := Fold(plan, ticks[..i]), Fold(plan, ticks[..i + 1]), ticks[i];
            var served := s.running && !tick.stop;
            var due := served && (s.nextDue.None? || s.nextDue.value <= tick.now);
            && s.cycles <= t.cycles && s.waits <= t.waits
            && |t.cycles| == |s.cycles| + (if due && !tick.cycleFails then 1 else 0)
            && |t.waits| == |s.waits| + (if served && !(due && tick.cycleFails) then 1 else 0)
            && (t.running ==> |t.waits| == |s.waits| + 1)
            && (t.running <==> served && !(due && tick.cycleFails) && !tick.requestFails)
  {
    FoldNext(plan, ticks, i);
  }

  /** As long as the loop goes on, the waits count its iterations. */
  lemma {:induction false} WaitsCountIterations(plan: Plan, ticks: seq<Tick>)
    ensures var s := Fold(plan, ticks);
            |s.waits| <= |ticks| && (s.running ==> |s.waits| == |ticks|) && |s.cycles| <= |s.waits|
  {
    if ticks != [] {
      WaitsCountIterations(plan, ticks[..|ticks| - 1]);
    }
  }

  /** What rounding took from the interval after one cycle. */
  function Loss(plan: Plan, cycle: CycleRun): real {
    cycle.completion + plan.interval - cycle.deadline
  }

  function TotalLoss(plan: Plan, cycles: seq<CycleRun>): real {
    if cycles == [] then 0.0
    else TotalLoss(plan, cycles[..|cycles| - 1]) + Loss(plan, cycles[|cycles| - 1])
  }

  lemma {:induction false} CyclesAreSpread(plan: Plan, s: State, k: nat)
    requires Scheduled(plan, s) && 1 <= k <= |s.cycles|
    ensures s.cycles[k - 1].completion - s.cycles[0].start
         >= (k - 1) as real * plan.interval - TotalLoss(plan, s.cycles[..k - 1])
  {
    hide Deadline;
    if k > 1 {
      CyclesAreSpread(plan, s, k - 1);
      assert Spaced(s.cycles, k - 1);
      assert s.cycles[..k - 1][..k - 2] == s.cycles[..k - 2];
      assert (k - 1) as real * plan.interval == (k - 2) as real * plan.interval + plan.interval;
    }
  }

  /** No catch-up bursts, in any arithmetic: k completed cycles span at least k - 1 intervals, less
      exactly what rounding took from those intervals. */
  lemma RunsAreSpread(plan: Plan, ticks: seq<Tick>, k: nat)
    requires NonDecreasing(ticks) && 1 <= k <= |Fold(plan, ticks).cycles|
    ensures var cycles := Fold(plan, ticks).cycles;
            cycles[k - 1].completion - cycles[0].start >=
            (k - 1) as real * plan.interval - TotalLoss(plan, cycles[..k - 1])
  {
    RunsAreScheduled(plan, ticks);
    CyclesAreSpread(plan, Fold(plan, ticks), k);
  }

  /** When the sums of these cycles lose at most `slack` each, so do their intervals: with exact sums
      nothing is lost. */
  lemma {:induction false} LossIsBounded(plan: Plan, cycles: seq<CycleRun>, slack: real)
    requires forall i | 0 <= i < |cycles| ::
               plan.arithmetic.add(cycles[i].completion, plan.interval) >= cycles[i].completion + plan.interval - slack
    requires forall i | 0 <= i < |cycles| ::
               cycles[i].deadline == Deadline(plan.arithmetic, cycles[i].completion, plan.interval)
    ensures TotalLoss(plan, cycles) <= |cycles| as real * slack
  {
    if cycles != [] {
      LossIsBounded(plan, cycles[..|cycles| - 1], slack);
      assert |cycles| as real * slack == (|cycles| - 1) as real * slack + slack;
    }
  }
}
