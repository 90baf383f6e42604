/** Per-host evaluation with memory committed only on success, and what any interleaving of hosts
    and failures leaves behind for one host. */
module HealthEngine {
  import opened Common
  import opened HostState
  import Latch

  datatype Thresholds = Thresholds(confirm: nat, recover: nat)

  type Configuration = map<string, Thresholds>

  datatype Transition = Transition(host: string, from: State, to: State, at: int)

  /** What the collaborators deliver for one evaluation; any of them may fail. `breached` is absent
      when no heartbeat was ever stored. */
  datatype Reading =
    | ClockFails
    | RepositoryFails
    | FreshnessFails
    | ProbeFails
    | Observed(at: int, freshness: Freshness, breached: Option<bool>, reachability: Reachability)

  datatype EngineError = UnknownHost | CollaboratorFailed

  datatype Evaluation = Evaluation(host: string, at: int, breached: Option<bool>, resolution: Resolution,
                                   transition: Option<Transition>)

  function EvidenceOf(r: Reading): Evidence
    requires r.Observed?
  {
    Evidence(r.freshness, r.breached.Some? && r.breached.value, r.reachability)
  }

  function Remembered(memory: map<string, Resolution>, host: string): Option<Resolution> {
    if host in memory then Some(memory[host]) else None
  }

  /** Emitted only on entering or leaving DOWN with an established previous state. */
  function BuildTransition(host: string, previous: Option<Resolution>, resolution: Resolution, at: int)
    : Option<Transition>
  {
    if previous.None? then None
    else if (previous.value.state == DOWN) == (resolution.state == DOWN) then None
    else Some(Transition(host, previous.value.state, resolution.state, at))
  }

  /** One evaluation as a function of the memory. */
  function Evaluate(config: Configuration, memory: map<string, Resolution>, host: string, reading: Reading)
    : (r: (Result<Evaluation, EngineError>, map<string, Resolution>))
  {
    if host !in config then (Err(UnknownHost), memory)
    else if !reading.Observed? then (Err(CollaboratorFailed), memory)
    else
      var previous := Remembered(memory, host);
      var resolution := Resolve(previous, EvidenceOf(reading), config[host].confirm, config[host].recover);
      var transition := BuildTransition(host, previous, resolution, reading.at);
      (Ok(Evaluation(host, reading.at, reading.breached, resolution, transition)),
       memory[host := resolution])
  }

  class Engine {
    const config: Configuration
    var resolutions: map<string, Resolution>

    constructor (config: Configuration)
      ensures this.config == config && resolutions == map[]
    {
      this.config := config;
      resolutions := map[];
    }

    method EvaluateHost(host: string, reading: Reading) returns (r: Result<Evaluation, EngineError>)
      modifies this
      ensures (r, resolutions) == Evaluate(config, old(resolutions), host, reading)
      ensures r.Err? ==> resolutions == old(resolutions)
    {
      if host !in config { return Err(UnknownHost); }
      var thresholds := config[host];
      if reading.ClockFails? { return Err(CollaboratorFailed); }
      if reading.RepositoryFails? { return Err(CollaboratorFailed); }
      if reading.FreshnessFails? { return Err(CollaboratorFailed); }
      if reading.ProbeFails? { return Err(CollaboratorFailed); }
      var previous := if host in resolutions then Some(resolutions[host]) else None;
      var resolution := Resolve(previous, EvidenceOf(reading), thresholds.confirm, thresholds.recover);
      var transition := BuildTransition(host, previous, resolution, reading.at);
      var evaluation := Evaluation(host, reading.at, reading.breached, resolution, transition);
      resolutions := resolutions[host := resolution];
      return Ok(evaluation);
    }
  }

  // ---- any interleaving of calls ----

  datatype Call = Call(host: string, reading: Reading)

  function MemoryAfter(config: Configuration, calls: seq<Call>): map<string, Resolution> {
    if calls == [] then map[]
    else
      var last := calls[|calls| - 1];
      Evaluate(config, MemoryAfter(config, calls[..|calls| - 1]), last.host, last.reading).1
  }

  /** The transitions all evaluations emitted, in call order. */
  function Emitted(config: Configuration, calls: seq<Call>): seq<Transition> {
    if calls == [] then []
    else
      var before, last := calls[..|calls| - 1], calls[|calls| - 1];
      var r := Evaluate(config, MemoryAfter(config, before), last.host, last.reading).0;
      if r.Ok? && r.value.transition.Some? then Emitted(config, before) + [r.value.transition.value]
      else Emitted(config, before)
  }

  function For(transitions: seq<Transition>, host: string): seq<Transition> {
    if transitions == [] then []
    else
      var last := transitions[|transitions| - 1];
      var before := For(transitions[..|transitions| - 1], host);
      if last.host == host then before + [last] else before
  }

  /** The calls of one host that did not fail. */
  function Committed(calls: seq<Call>, host: string): seq<Call> {
    if calls == [] then []
    else
      var last := calls[|calls| - 1];
      var before := Committed(calls[..|calls| - 1], host);
      if last.host == host && last.reading.Observed? then before + [last] else before
  }

  function Evidences(calls: seq<Call>): (e: seq<Evidence>)
    requires forall c | c in calls :: c.reading.Observed?
    ensures |e| == |calls|
  {
    seq(|calls|, i requires 0 <= i < |calls| => assert calls[i] in calls; EvidenceOf(calls[i].reading))
  }

  lemma {:induction false} CommittedObserved(calls: seq<Call>, host: string)
    ensures forall c | c in Committed(calls, host) :: c.host == host && c.reading.Observed?
  {
    if calls != [] {
      CommittedObserved(calls[..|calls| - 1], host);
    }
  }

  lemma ForAppend(transitions: seq<Transition>, t: Transition, host: string)
    ensures For(transitions + [t], host) ==
            if t.host == host then For(transitions, host) + [t] else For(transitions, host)
  {
    assert (transitions + [t])[..|transitions|] == transitions;
  }

  lemma EvidencesAppend(calls: seq<Call>, c: Call)
    requires (forall d | d in calls :: d.reading.Observed?) && c.reading.Observed?
    ensures Evidences(calls + [c]) == Evidences(calls) + [EvidenceOf(c.reading)]
    ensures Evidences(calls + [c])[..|calls|] == Evidences(calls)
  {
    assert Evidences(calls + [c]) == Evidences(calls) + [EvidenceOf(c.reading)];
  }

  /** A host's remembered resolution is the fold of its own successful observations. */
  lemma {:induction false} MemoryProjects(config: Configuration, calls: seq<Call>, host: string)
    requires host in config
    ensures forall c | c in Committed(calls, host) :: c.reading.Observed?
    ensures Remembered(MemoryAfter(config, calls), host)
            == HostState.Fold(Evidences(Committed(calls, host)), config[host].confirm, config[host].recover)
  {
    CommittedObserved(calls, host);
    if calls != [] {
      var before, last := calls[..|calls| - 1], calls[|calls| - 1];
      CommittedObserved(before, host);
      MemoryProjects(config, before, host);
      hide Resolve, BuildTransition, EvidenceOf;
      if last.host == host && last.reading.Observed? {
        EvidencesAppend(Committed(before, host), last);
      }
    }
  }

  /** A run of its successful calls alone leaves the host's memory the same. */
  lemma MemoryIsIsolated(config: Configuration, calls: seq<Call>, host: string)
    requires host in config
    ensures Remembered(MemoryAfter(config, Committed(calls, host)), host) ==
            Remembered(MemoryAfter(config, calls), host)
  {
    MemoryProjects(config, calls, host);
    MemoryProjects(config, Committed(calls, host), host);
    CommittedTwice(calls, host);
  }

  lemma {:induction false} CommittedTwice(calls: seq<Call>, host: string)
    ensures Committed(Committed(calls, host), host) == Committed(calls, host)
  {
    if calls != [] {
      var before := Committed(calls[..|calls| - 1], host);
      CommittedTwice(calls[..|calls| - 1], host);
      assert (before + [calls[|calls| - 1]])[..|before|] == before;
    }
  }

  /** Interleaved, failing runs project to clean single-host runs: the transitions a host emitted are
      those its successful calls emit alone. */
  lemma {:induction false} EmissionsProject(config: Configuration, calls: seq<Call>, host: string)
    requires host in config
    ensures For(Emitted(config, calls), host) == Emitted(config, Committed(calls, host))
  {
    if calls != [] {
      var before, last := calls[..|calls| - 1], calls[|calls| - 1];
      EmissionsProject(config, before, host);
      MemoryIsIsolated(config, before, host);
      hide Resolve, EvidenceOf, MemoryAfter, BuildTransition;
      var own := Committed(before, host);
      var r := Evaluate(config, MemoryAfter(config, before), last.host, last.reading).0;
      if r.Ok? && r.value.transition.Some? {
        BuiltForHost(last.host, Remembered(MemoryAfter(config, before), last.host), r.value.resolution, r.value.at);
        ForAppend(Emitted(config, before), r.value.transition.value, host);
      }
      assert (own + [last])[..|own|] == own;
    }
  }

  predicate IsDownEvent(t: Transition) {
    t.to == DOWN
  }

  predicate IsRecoveryEvent(t: Transition) {
    t.from == DOWN && t.to != DOWN
  }

  predicate Alternates(transitions: seq<Transition>) {
    && (forall i | 0 <= i < |transitions| :: IsDownEvent(transitions[i]) != IsRecoveryEvent(transitions[i]))
    && (forall i {:trigger Opposite(transitions, i)} | 0 < i < |transitions| :: Opposite(transitions, i))
  }

  predicate Opposite(transitions: seq<Transition>, i: nat)
    requires 0 < i < |transitions|
  {
    IsDownEvent(transitions[i]) != IsDownEvent(transitions[i - 1])
  }

  lemma AlternatesAppend(transitions: seq<Transition>, t: Transition)
    requires Alternates(transitions) && IsDownEvent(t) != IsRecoveryEvent(t)
    requires transitions != [] ==> IsDownEvent(t) != IsDownEvent(transitions[|transitions| - 1])
    ensures Alternates(transitions + [t])
  {
    var longer := transitions + [t];
    forall i | 0 < i < |longer|
      ensures Opposite(longer, i)
    {
      if i < |transitions| {
        assert Opposite(transitions, i);
      }
    }
  }

  predicate LastTells(own: seq<Transition>, memory: Option<Resolution>) {
    && Alternates(own)
    && (own != [] ==> memory.Some? && (memory.value.state == DOWN <==> IsDownEvent(own[|own| - 1])))
  }

  lemma LastTellsStep(own: seq<Transition>, previous: Option<Resolution>, host: string, resolution: Resolution, at: int)
    requires LastTells(own, previous)
    ensures var t := BuildTransition(host, previous, resolution, at);
            LastTells(if t.Some? then own + [t.value] else own, Some(resolution))
  {
    var t := BuildTransition(host, previous, resolution, at);
    if t.Some? {
      AlternatesAppend(own, t.value);
    }
  }

  /** The transitions of one host strictly alternate, whatever else was evaluated and whatever failed;
      the last one tells whether the host is DOWN. */
  lemma {:induction false} EmissionsAlternate(config: Configuration, calls: seq<Call>, host: string)
    ensures LastTells(For(Emitted(config, calls), host), Remembered(MemoryAfter(config, calls), host))
  {
    if calls != [] {
      var before, last := calls[..|calls| - 1], calls[|calls| - 1];
      EmissionsAlternate(config, before, host);
      hide Resolve, EvidenceOf, LastTells, BuildTransition;
      var r := Evaluate(config, MemoryAfter(config, before), last.host, last.reading).0;
      if r.Ok? {
        if r.value.transition.Some? {
          ForAppend(Emitted(config, before), r.value.transition.value, host);
        }
        BuiltForHost(last.host, Remembered(MemoryAfter(config, before), last.host), r.value.resolution, r.value.at);
        if last.host == host {
          LastTellsStep(For(Emitted(config, before), host), Remembered(MemoryAfter(config, before), host), host,
                        r.value.resolution, r.value.at);
        }
      }
    }
  }

  lemma BuiltForHost(host: string, previous: Option<Resolution>, resolution: Resolution, at: int)
    ensures var t := BuildTransition(host, previous, resolution, at); t.Some? ==> t.value.host == host
  {}

  /** They start with a recovery exactly when the first successful evaluation already resolved DOWN,
      which emits nothing. */
  lemma {:induction false} FirstEmission(config: Configuration, calls: seq<Call>, host: string)
    requires host in config
    ensures var own, clean := For(Emitted(config, calls), host), Committed(calls, host);
            own != [] ==>
              && clean != [] && clean[0].reading.Observed?
              && (IsRecoveryEvent(own[0]) <==>
                    config[host].confirm <= 1 && IsDownObservation(EvidenceOf(clean[0].reading)))
  {
    EmissionsProject(config, calls, host);
    CommittedObserved(calls, host);
    var clean := Committed(calls, host);
    if clean != [] {
      FirstOfOwn(config, clean, host);
    }
  }

  predicate FirstIsDown(config: Configuration, own: seq<Call>, host: string)
    requires host in config && own != [] && own[0].reading.Observed?
  {
    config[host].confirm <= 1 && IsDownObservation(EvidenceOf(own[0].reading))
  }

  lemma {:induction false} FirstOfOwn(config: Configuration, own: seq<Call>, host: string)
    requires host in config && own != []
    requires forall c | c in own :: c.host == host && c.reading.Observed?
    ensures own[0].reading.Observed? && host in MemoryAfter(config, own)
    ensures if Emitted(config, own) == [] then
              MemoryAfter(config, own)[host].state == DOWN <==> FirstIsDown(config, own, host)
            else
              var t := Emitted(config, own)[0];
              IsDownEvent(t) != IsRecoveryEvent(t) && (IsRecoveryEvent(t) <==> FirstIsDown(config, own, host))
  {
    var before, last := own[..|own| - 1], own[|own| - 1];
    assert own[0] in own && last in own;
    if before == [] {
      assert MemoryAfter(config, before) == map[];
    } else {
      FirstOfOwn(config, before, host);
      assert before[0] == own[0];
      hide Resolve, EvidenceOf, FirstIsDown;
      assert host in MemoryAfter(config, own);
    }
  }

  // ---- what a host's state means, read off the observations themselves ----

  /** What one reading says about being up, from its own fields. */
  function SignalOfReading(r: Reading): Latch.Signal
    requires r.Observed?
  {
    match (r.reachability, r.freshness)
    case (REACHABLE, _) => Latch.Alive
    case (UNREACHABLE, FRESH) => Latch.Neither
    case (UNREACHABLE, STALE) => Latch.Lost
    case (UNREACHABLE, MISSING) => Latch.Lost
  }

  /** The signals of a host's own successful readings, in order. */
  function Heard(calls: seq<Call>, host: string): seq<Latch.Signal> {
    if calls == [] then []
    else
      var last := calls[|calls| - 1];
      Heard(calls[..|calls| - 1], host) +
      if last.host == host && last.reading.Observed? then [SignalOfReading(last.reading)] else []
  }

  predicate LooksHealthy(r: Reading) {
    r.Observed? && r.freshness == FRESH && r.reachability == REACHABLE && r.breached != Some(true)
  }

  /** The i-th call is the host's last successful one. */
  predicate LastSuccess(calls: seq<Call>, host: string, i: nat) {
    && i < |calls| && calls[i].host == host && calls[i].reading.Observed?
    && forall j | i < j < |calls| :: !(calls[j].host == host && calls[j].reading.Observed?)
  }

  lemma {:induction false} HeardIsCommitted(calls: seq<Call>, host: string)
    ensures forall c | c in Committed(calls, host) :: c.reading.Observed?
    ensures Heard(calls, host) == Signals(Evidences(Committed(calls, host)))
  {
    CommittedObserved(calls, host);
    if calls != [] {
      var before, last := calls[..|calls| - 1], calls[|calls| - 1];
      CommittedObserved(before, host);
      HeardIsCommitted(before, host);
      if last.host == host && last.reading.Observed? {
        EvidencesAppend(Committed(before, host), last);
        SignalsAppend(Evidences(Committed(before, host)), EvidenceOf(last.reading));
      }
    }
  }

  lemma SignalsAppend(history: seq<Evidence>, e: Evidence)
    ensures Signals(history + [e]) == Signals(history) + [SignalOf(e)]
  {
  }

  lemma {:induction false} LastCommitted(calls: seq<Call>, host: string, i: nat)
    requires LastSuccess(calls, host, i)
    ensures var clean := Committed(calls, host); clean != [] && clean[|clean| - 1] == calls[i]
    decreases |calls|
  {
    if i < |calls| - 1 {
      LastCommitted(calls[..|calls| - 1], host, i);
    }
  }

  /** After any interleaving of hosts and failures a host is DOWN exactly when its latest run of `confirm`
      lost readings is more recent than its latest run of `recover` reachable ones; otherwise it is HEALTHY if and
      only if its last successful reading was fresh, reachable and without a breached threshold. */
  lemma HostStateMeaning(config: Configuration, calls: seq<Call>, host: string, i: nat)
    requires host in config && config[host].confirm >= 1 && config[host].recover >= 1
    requires LastSuccess(calls, host, i)
    ensures host in MemoryAfter(config, calls)
    ensures var state := MemoryAfter(config, calls)[host].state;
            && (state == DOWN <==> Latch.Latched(Heard(calls, host), config[host].confirm, config[host].recover))
            && (state != DOWN ==> state == if LooksHealthy(calls[i].reading) then HEALTHY else DEGRADED)
  {
    MemoryProjects(config, calls, host);
    HeardIsCommitted(calls, host);
    LastCommitted(calls, host, i);
    var history := Evidences(Committed(calls, host));
    hide MemoryAfter, Committed, HostState.Fold, Latch.Latched, Heard;
    HostState.ResolutionIsMemoryFree(history, config[host].confirm, config[host].recover);
    assert history[|history| - 1] == EvidenceOf(calls[i].reading);
  }

  /** What one evaluation reports: the reading's own moment and thresholds, the remembered resolution, and a
      transition exactly when a known host enters or leaves DOWN, from and to those states. */
  lemma EvaluationMeaning(config: Configuration, memory: map<string, Resolution>, host: string, reading: Reading)
    ensures var (r, after) := Evaluate(config, memory, host, reading);
            && (r.Ok? <==> host in config && reading.Observed?)
            && (r.Err? ==> after == memory && (r.error == UnknownHost <==> host !in config))
            && (r.Ok? ==>
                  && r.value.host == host && r.value.at == reading.at && r.value.breached == reading.breached
                  && host in after && r.value.resolution == after[host]
                  && after - {host} == memory - {host}
                  && var crosses := host in memory && (memory[host].state == DOWN) != (after[host].state == DOWN);
                     if crosses then
                       r.value.transition == Some(Transition(host, memory[host].state, after[host].state, reading.at))
                     else r.value.transition == None)
  {
    hide Resolve;
  }
}
