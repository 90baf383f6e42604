/** Incidents, the coordinator that sends at most one per transition, and the host-ordered pass
    that stops at the first failure. */
module Monitoring {
  import opened Common
  import HostState
  import opened HealthEngine

  datatype Kind = DownIncident | RecoveredIncident

  datatype Incident = Incident(kind: Kind, transition: Transition)

  /** A constructed incident agrees with its transition. */
  predicate ValidIncident(i: Incident) {
    if i.kind == DownIncident then IsDownEvent(i.transition) else IsRecoveryEvent(i.transition)
  }

  function IncidentFromTransition(t: Transition): (i: Option<Incident>)
    ensures i.Some? ==> ValidIncident(i.value) && i.value.transition == t
    ensures i.None? <==> t.to != HostState.DOWN && t.from != HostState.DOWN
    ensures i.Some? ==> i.value.kind == if t.to == HostState.DOWN then DownIncident else RecoveredIncident
  {
    if IsDownEvent(t) then Some(Incident(DownIncident, t))
    else if IsRecoveryEvent(t) then Some(Incident(RecoveredIncident, t))
    else None
  }

  class Sender {
    /** Every incident handed over, delivered or not. */
    var attempts: seq<Incident>

    method Send(incident: Incident, works: bool) returns (ok: bool)
      modifies this
      ensures ok == works && attempts == old(attempts) + [incident]
    {
      attempts := attempts + [incident];
      ok := works;
    }
  }

  datatype Failure = EngineFailed(error: EngineError) | SendFailed

  class Coordinator {
    const sender: Sender

    constructor (sender: Sender)
      ensures this.sender == sender
    {
      this.sender := sender;
    }

    /** At most one attempt per transition, and an incident only after a successful one. */
    method NotifyTransition(transition: Option<Transition>, works: bool) returns (r: Result<Option<Incident>, Failure>)
      modifies sender
      ensures var incident := if transition.Some? then IncidentFromTransition(transition.value) else None;
              && sender.attempts == old(sender.attempts) + (if incident.Some? then [incident.value] else [])
              && r == if incident.Some? && !works then Err(SendFailed) else Ok(incident)
    {
      if transition.None? { return Ok(None); }
      var incident := IncidentFromTransition(transition.value);
      if incident.None? { return Ok(None); }
      var ok := sender.Send(incident.value, works);
      if !ok { return Err(SendFailed); }
      return Ok(incident);
    }
  }

  datatype HostResult = HostResult(evaluation: Evaluation, incident: Option<Incident>)

  /** What the world does for one host of a pass. */
  datatype Turn = Turn(reading: Reading, sendWorks: bool)

  type Memory = map<string, HostState.Resolution>

  /** What one host's turn did, as a function of the memory. */
  datatype TurnOutcome = TurnOutcome(memory: Memory, attempts: seq<Incident>, result: Result<HostResult, Failure>)

  function TakeTurn(config: Configuration, memory: Memory, host: string, turn: Turn): TurnOutcome {
    var (r, after) := Evaluate(config, memory, host, turn.reading);
    if r.Err? then TurnOutcome(after, [], Err(EngineFailed(r.error)))
    else
      var incident := if r.value.transition.Some? then IncidentFromTransition(r.value.transition.value) else None;
      if incident.None? then TurnOutcome(after, [], Ok(HostResult(r.value, None)))
      else
        var result := if turn.sendWorks then Ok(HostResult(r.value, incident)) else Err(SendFailed);
        TurnOutcome(after, [incident.value], result)
  }

  datatype PassOutcome = PassOutcome(calls: seq<Call>, memory: Memory, attempts: seq<Incident>,
                                     results: Result<seq<HostResult>, Failure>)

  /** A pass over the first `n` hosts, stopped by the first failure. */
  function Pass(config: Configuration, hosts: seq<string>, turns: seq<Turn>, memory: Memory, n: nat): PassOutcome
    requires n <= |hosts| == |turns|
  {
    if n == 0 then PassOutcome([], memory, [], Ok([]))
    else
      var before := Pass(config, hosts, turns, memory, n - 1);
      if before.results.Err? then before
      else
        var t := TakeTurn(config, before.memory, hosts[n - 1], turns[n - 1]);
        PassOutcome(before.calls + [Call(hosts[n - 1], turns[n - 1].reading)], t.memory, before.attempts + t.attempts,
                    match t.result
                    case Ok(result) => Ok(before.results.value + [result])
                    case Err(e) => Err(e))
  }

  lemma PassUnfolds(config: Configuration, hosts: seq<string>, turns: seq<Turn>, memory: Memory, n: nat)
    requires n <= |hosts| == |turns|
    ensures var p := Pass(config, hosts, turns, memory, n);
            if n == 0 then (p.memory, p.attempts, p.results) == (memory, [], Ok([]))
            else
              var before := Pass(config, hosts, turns, memory, n - 1);
              before.results.Ok? ==>
                var t := TakeTurn(config, before.memory, hosts[n - 1], turns[n - 1]);
                && (p.memory, p.attempts) == (t.memory, before.attempts + t.attempts)
                && p.results ==
                   match t.result
                   case Ok(result) => Ok(before.results.value + [result])
                   case Err(e) => Err(e)
  {
    hide TakeTurn;
  }

  lemma {:induction false} FailedPassStays(
    config: Configuration, hosts: seq<string>, turns: seq<Turn>, memory: Memory, k: nat, n: nat)
    requires k <= n <= |hosts| == |turns|
    requires Pass(config, hosts, turns, memory, k).results.Err?
    ensures Pass(config, hosts, turns, memory, n) == Pass(config, hosts, turns, memory, k)
  {
    if k < n {
      FailedPassStays(config, hosts, turns, memory, k, n - 1);
    }
  }

  class MonitoringCycle {
    const hosts: seq<string>
    const engine: Engine
    const coordinator: Coordinator

    constructor (hosts: seq<string>, engine: Engine, coordinator: Coordinator)
      ensures (this.hosts, this.engine, this.coordinator) == (hosts, engine, coordinator)
    {
      this.hosts, this.engine, this.coordinator := hosts, engine, coordinator;
    }

    /** One pass in configured order: each host evaluated once and its transition handed over once,
        nothing after the first failure. */
    method Run(turns: seq<Turn>) returns (r: Result<seq<HostResult>, Failure>)
      requires |turns| == |hosts|
      modifies engine, coordinator.sender
      ensures var p := Pass(engine.config, hosts, turns, old(engine.resolutions), |hosts|);
              && engine.resolutions == p.memory
              && coordinator.sender.attempts == old(coordinator.sender.attempts) + p.attempts
              && r == p.results
    {
      hide HostState.Resolve, BuildTransition, IncidentFromTransition, Evaluate, Pass;
      ghost var memory := engine.resolutions;
      var results: seq<HostResult> := [];
      PassUnfolds(engine.config, hosts, turns, memory, 0);
      for n := 0 to |hosts|
        invariant Pass(engine.config, hosts, turns, memory, n).results == Ok(results)
        invariant engine.resolutions == Pass(engine.config, hosts, turns, memory, n).memory
        invariant coordinator.sender.attempts
               == old(coordinator.sender.attempts) + Pass(engine.config, hosts, turns, memory, n).attempts
      {
        PassUnfolds(engine.config, hosts, turns, memory, n + 1);
        var evaluation := engine.EvaluateHost(hosts[n], turns[n].reading);
        if evaluation.Err? {
          FailedPassStays(engine.config, hosts, turns, memory, n + 1, |hosts|);
          return Err(EngineFailed(evaluation.error));
        }
        var incident := coordinator.NotifyTransition(evaluation.value.transition, turns[n].sendWorks);
        if incident.Err? {
          FailedPassStays(engine.config, hosts, turns, memory, n + 1, |hosts|);
          return Err(incident.error);
        }
        results := results + [HostResult(evaluation.value, incident.value)];
      }
      return Ok(results);
    }
  }

  // ---- any number of passes, each of which may stop early ----

  /** The incident of every emitted transition, in order. */
  function Incidents(transitions: seq<Transition>): seq<Incident> {
    if transitions == [] then []
    else
      var before := Incidents(transitions[..|transitions| - 1]);
      var incident := IncidentFromTransition(transitions[|transitions| - 1]);
      if incident.Some? then before + [incident.value] else before
  }

  datatype History = History(calls: seq<Call>, memory: Memory, attempts: seq<Incident>)

  function Passes(config: Configuration, hosts: seq<string>, rounds: seq<seq<Turn>>): History
    requires forall turns | turns in rounds :: |turns| == |hosts|
  {
    if rounds == [] then History([], map[], [])
    else
      var before := Passes(config, hosts, rounds[..|rounds| - 1]);
      assert rounds[|rounds| - 1] in rounds;
      var p := Pass(config, hosts, rounds[|rounds| - 1], before.memory, |hosts|);
      History(before.calls + p.calls, p.memory, before.attempts + p.attempts)
  }

  /** A pass evaluates a prefix of the hosts in configured order, and stops short only by failing. */
  lemma {:induction false} PassIsPrefix(
    config: Configuration, hosts: seq<string>, turns: seq<Turn>, memory: Memory, n: nat)
    requires n <= |hosts| == |turns|
    ensures var p := Pass(config, hosts, turns, memory, n);
            && |p.calls| <= n
            && (forall i | 0 <= i < |p.calls| :: p.calls[i] == Call(hosts[i], turns[i].reading))
            && (p.results.Ok? ==> |p.calls| == n == |p.results.value|)
  {
    hide TakeTurn;
    if n > 0 {
      PassIsPrefix(config, hosts, turns, memory, n - 1);
    }
  }

  lemma TurnIsCall(config: Configuration, calls: seq<Call>, host: string, turn: Turn)
    ensures var t := TakeTurn(config, MemoryAfter(config, calls), host, turn);
            var longer := calls + [Call(host, turn.reading)];
            && MemoryAfter(config, longer) == t.memory
            && Incidents(Emitted(config, longer)) == Incidents(Emitted(config, calls)) + t.attempts
  {
    hide HostState.Resolve, BuildTransition, IncidentFromTransition, Evaluate;
    var longer := calls + [Call(host, turn.reading)];
    assert longer[..|calls|] == calls;
    var emitted := Emitted(config, calls);
    var r := Evaluate(config, MemoryAfter(config, calls), host, turn.reading).0;
    if r.Ok? && r.value.transition.Some? {
      assert (emitted + [r.value.transition.value])[..|emitted|] == emitted;
    }
  }

  /** A pass is that many more calls of the engine, and its attempts are the incidents they emit. */
  lemma {:induction false} PassIsCalls(
    config: Configuration, calls: seq<Call>, hosts: seq<string>, turns: seq<Turn>, n: nat)
    requires n <= |hosts| == |turns|
    ensures var p := Pass(config, hosts, turns, MemoryAfter(config, calls), n);
            && MemoryAfter(config, calls + p.calls) == p.memory
            && Incidents(Emitted(config, calls + p.calls)) == Incidents(Emitted(config, calls)) + p.attempts
  {
    hide TakeTurn, MemoryAfter, Emitted, Incidents;
    if n == 0 {
      assert calls + [] == calls;
    } else {
      PassIsCalls(config, calls, hosts, turns, n - 1);
      var before := Pass(config, hosts, turns, MemoryAfter(config, calls), n - 1);
      if before.results.Ok? {
        TurnIsCall(config, calls + before.calls, hosts[n - 1], turns[n - 1]);
        assert calls + (before.calls + [Call(hosts[n - 1], turns[n - 1].reading)])
            == calls + before.calls + [Call(hosts[n - 1], turns[n - 1].reading)];
      }
    }
  }

  /** Across passes that may abort, every transition the engine ever emitted was attempted exactly
      once, in emission order: a lost send is never retried and nothing is sent twice. */
  lemma {:induction false} AttemptedExactlyOnce(config: Configuration, hosts: seq<string>, rounds: seq<seq<Turn>>)
    requires forall turns | turns in rounds :: |turns| == |hosts|
    ensures var h := Passes(config, hosts, rounds);
            && h.memory == MemoryAfter(config, h.calls)
            && h.attempts == Incidents(Emitted(config, h.calls))
  {
    if rounds != [] {
      var before := Passes(config, hosts, rounds[..|rounds| - 1]);
      AttemptedExactlyOnce(config, hosts, rounds[..|rounds| - 1]);
      assert rounds[|rounds| - 1] in rounds;
      PassIsCalls(config, before.calls, hosts, rounds[|rounds| - 1], |hosts|);
    }
  }

  /** Every emitted transition is incident-worthy, so nothing the engine emits goes unsent. */
  lemma {:induction false} EveryEmissionIsAnIncident(config: Configuration, calls: seq<Call>)
    ensures |Incidents(Emitted(config, calls))| == |Emitted(config, calls)|
    ensures forall i | 0 <= i < |Emitted(config, calls)| ::
              Incidents(Emitted(config, calls))[i].transition == Emitted(config, calls)[i]
  {
    if calls != [] {
      var before, last := calls[..|calls| - 1], calls[|calls| - 1];
      EveryEmissionIsAnIncident(config, before);
      var r := Evaluate(config, MemoryAfter(config, before), last.host, last.reading).0;
      if r.Ok? && r.value.transition.Some? {
        var emitted := Emitted(config, before);
        assert (emitted + [r.value.transition.value])[..|emitted|] == emitted;
      }
    }
  }

  // ---- what a pass returns ----

  /** The k-th evaluation of a pass that follows the calls. */
  function EvaluationAt(config: Configuration, calls: seq<Call>, made: seq<Call>, k: nat)
    : Result<Evaluation, EngineError>
    requires k < |made|
  {
    Evaluate(config, MemoryAfter(config, calls + made[..k]), made[k].host, made[k].reading).0
  }

  /** What is to be sent for a transition. */
  function DueIncident(transition: Option<Transition>): Option<Incident> {
    match transition
    case None => None
    case Some(t) =>
      if t.to == HostState.DOWN then Some(Incident(DownIncident, t))
      else if t.from == HostState.DOWN then Some(Incident(RecoveredIncident, t))
      else None
  }

  predicate SendFails(e: Result<Evaluation, EngineError>, sendWorks: bool) {
    e.Ok? && DueIncident(e.value.transition).Some? && !sendWorks
  }

  /** The turn goes wrong: the evaluation fails, or the send of its incident does. */
  predicate TurnFails(config: Configuration, calls: seq<Call>, made: seq<Call>, turns: seq<Turn>, k: nat)
    requires k < |made| <= |turns|
  {
    EvaluationAt(config, calls, made, k).Err? || SendFails(EvaluationAt(config, calls, made, k), turns[k].sendWorks)
  }

  /** Success reports every host's own evaluation with exactly the incident of its transition, all of them sent;
      a failure is that of the last call, the first turn that went wrong. */
  predicate Reports(
    config: Configuration, calls: seq<Call>, made: seq<Call>, turns: seq<Turn>,
    results: Result<seq<HostResult>, Failure>)
    requires |made| <= |turns|
  {
    match results
    case Ok(reported) =>
      && |reported| == |made|
      && (forall k | 0 <= k < |made| :: !TurnFails(config, calls, made, turns, k))
      && (forall k | 0 <= k < |made| ::
            EvaluationAt(config, calls, made, k) == Ok(reported[k].evaluation)
            && reported[k].incident == DueIncident(reported[k].evaluation.transition))
    case Err(failure) =>
      && made != []
      && TurnFails(config, calls, made, turns, |made| - 1)
      && (forall k | 0 <= k < |made| - 1 :: !TurnFails(config, calls, made, turns, k))
      && var last := EvaluationAt(config, calls, made, |made| - 1);
         failure == if last.Err? then EngineFailed(last.error) else SendFailed
  }

  lemma TurnReports(config: Configuration, memory: Memory, host: string, turn: Turn)
    ensures var e := Evaluate(config, memory, host, turn.reading).0;
            var result := TakeTurn(config, memory, host, turn).result;
            if e.Err? then result == Err(EngineFailed(e.error))
            else if SendFails(e, turn.sendWorks) then result == Err(SendFailed)
            else result == Ok(HostResult(e.value, DueIncident(e.value.transition)))
  {
    hide Evaluate;
  }

  /** After any calls, a pass returns results if and only if nothing in it went wrong, and stops at the first
      turn that did. */
  lemma {:induction false} PassReports(
    config: Configuration, calls: seq<Call>, hosts: seq<string>, turns: seq<Turn>, n: nat)
    requires n <= |hosts| == |turns|
    ensures var p := Pass(config, hosts, turns, MemoryAfter(config, calls), n);
            && |p.calls| <= n
            && (p.results.Ok? ==> |p.calls| == n)
            && Reports(config, calls, p.calls, turns, p.results)
  {
    hide TakeTurn, MemoryAfter, Evaluate, DueIncident, Reports, SendFails, EvaluationAt;
    PassIsPrefix(config, hosts, turns, MemoryAfter(config, calls), n);
    if n == 0 {
      NothingReported(config, calls, turns);
    } else {
      PassReports(config, calls, hosts, turns, n - 1);
      var before := Pass(config, hosts, turns, MemoryAfter(config, calls), n - 1);
      if before.results.Ok? {
        PassIsCalls(config, calls, hosts, turns, n - 1);
        TurnReports(config, before.memory, hosts[n - 1], turns[n - 1]);
        var call := Call(hosts[n - 1], turns[n - 1].reading);
        ReportsAppend(config, calls, before.calls, call, turns, before.results.value);
      }
    }
  }

  lemma NothingReported(config: Configuration, calls: seq<Call>, turns: seq<Turn>)
    ensures Reports(config, calls, [], turns, Ok([]))
  {
  }

  lemma ReportsAppend(
    config: Configuration, calls: seq<Call>, made: seq<Call>, c: Call, turns: seq<Turn>, reported: seq<HostResult>)
    requires |made| < |turns| && Reports(config, calls, made, turns, Ok(reported))
    ensures var e := Evaluate(config, MemoryAfter(config, calls + made), c.host, c.reading).0;
            && EvaluationAt(config, calls, made + [c], |made|) == e
            && (e.Err? ==> Reports(config, calls, made + [c], turns, Err(EngineFailed(e.error))))
            && (SendFails(e, turns[|made|].sendWorks) ==> Reports(config, calls, made + [c], turns, Err(SendFailed)))
            && (e.Ok? && !SendFails(e, turns[|made|].sendWorks) ==>
                  var result := HostResult(e.value, DueIncident(e.value.transition));
                  Reports(config, calls, made + [c], turns, Ok(reported + [result])))
  {
    hide MemoryAfter, Evaluate, DueIncident;
    var longer := made + [c];
    assert longer[..|made|] == made;
    forall k | 0 <= k < |made|
      ensures EvaluationAt(config, calls, longer, k) == EvaluationAt(config, calls, made, k)
      ensures !TurnFails(config, calls, longer, turns, k)
    {
      assert longer[..k] == made[..k];
      assert !TurnFails(config, calls, made, turns, k);
    }
    assert EvaluationAt(config, calls, longer, |made|) ==
           Evaluate(config, MemoryAfter(config, calls + made), c.host, c.reading).0;
  }
}
