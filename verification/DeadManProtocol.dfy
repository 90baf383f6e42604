/** Whole runs of the oneshot dead-man process over one durable cell, as small steps:
    load, probe, evaluate, save, deliver the oldest intent, save its acknowledgement.
    A save may be refused, or crash leaving the old or the new content; a delivery may be
    refused, confirmed, or accepted without the process learning of it; and the process may
    die between any two steps. */
module DeadManProtocol {
  import opened Common
  import opened DeadMan

  datatype Phase =
    | Idle
    | Loaded(status: Status)
    | Observed(status: Status, outcome: Outcome)
    | Evaluated(status: Status, outcome: Outcome, now: Instant, next: Status)
    | Persisted(status: Status)
    | Delivered(status: Status)

  datatype SaveEffect = Replaced | Refused | CrashedOld | CrashedNew

  datatype DeliverEffect = Confirmed | Unconfirmed | NotAccepted

  datatype Step =
    | Load
    | Probed(outcome: Outcome)
    | Evaluate(now: Instant)
    | SaveAdvanced(save: SaveEffect)
    | Finish
    | Deliver(effect: DeliverEffect)
    | SaveAcknowledged(save: SaveEffect)
    | Crash

  /** A message the transport accepted; `confirmed` when the process saw the success. */
  datatype Delivery = Delivery(intent: Notification, confirmed: bool)

  /** The durable cell and the running process, with bookkeeping no program reads:
      every accepted message, every intent that became durable, every acknowledgement that
      became durable, and every accepted message whose acknowledgement never did. */
  datatype System = System(
    cell: Option<Status>,
    phase: Phase,
    log: seq<Delivery>,
    history: seq<Notification>,
    acks: seq<int>,
    lost: seq<int>)

  const START := System(None, Idle, [], [], [], [])

  /** An absent state file is the fresh start. */
  function Durable(x: System): Status {
    if x.cell.None? then INITIAL else x.cell.value
  }

  predicate Sound(x: System) {
    && Valid(Durable(x))
    && match x.phase
       case Idle => true
       case Loaded(s) => s == Durable(x)
       case Observed(s, _) => s == Durable(x)
       case Evaluated(s, outcome, now, next) => s == Durable(x) && Advance(s, outcome, now) == Ok(next)
       case Persisted(s) => s == Durable(x)
       case Delivered(s) => s == Durable(x) && s.pending != []
  }

  function AfterEvaluate(x: System, now: Instant): (y: System)
    requires Sound(x) && x.phase.Observed?
    ensures Sound(y)
  {
    match Advance(x.phase.status, x.phase.outcome, now)
    case Ok(next) => x.(phase := Evaluated(x.phase.status, x.phase.outcome, now, next))
    case Err(_) => x.(phase := Idle)
  }

  function AfterSaveAdvanced(x: System, save: SaveEffect): (y: System)
    requires Sound(x) && x.phase.Evaluated?
    ensures Sound(y)
  {
    var Evaluated(s, outcome, now, next) := x.phase;
    NextIsLonger(s, outcome, now);
    var stored := x.(cell := Some(next), history := x.history + next.pending[|s.pending|..]);
    match save
    case Replaced => stored.(phase := Persisted(next))
    case CrashedNew => stored.(phase := Idle)
    case _ => x.(phase := Idle)
  }

  function AfterDeliver(x: System, effect: DeliverEffect): (y: System)
    requires Sound(x) && x.phase.Persisted?
    ensures Sound(y)
  {
    var s := x.phase.status;
    if s.pending == [] then x
    else
      var head := s.pending[0];
      match effect
      case Confirmed => x.(log := x.log + [Delivery(head, true)], phase := Delivered(s))
      case Unconfirmed => x.(log := x.log + [Delivery(head, false)], lost := x.lost + [head.id], phase := Idle)
      case NotAccepted => x.(phase := Idle)
  }

  function AfterSaveAcknowledged(x: System, save: SaveEffect): (y: System)
    requires Sound(x) && x.phase.Delivered?
    ensures Sound(y)
  {
    var s := x.phase.status;
    var id := s.pending[0].id;
    AcknowledgeCloses(s, id);
    var final := Acknowledge(s, id).value;
    if save == Replaced || save == CrashedNew then
      x.(cell := Some(final), acks := x.acks + [id], phase := Idle)
    else x.(lost := x.lost + [id], phase := Idle)
  }

  lemma NextIsLonger(s: Status, outcome: Outcome, now: Instant)
    requires Valid(s) && Advance(s, outcome, now).Ok?
    ensures var next := Advance(s, outcome, now).value; Valid(next) && |s.pending| <= |next.pending|
  {
    hide Valid, Advance;
    AdvanceCloses(s, outcome, now);
    ProbeMoves(s, outcome, now);
  }

  /** A step that does not fit the phase changes nothing. */
  function Apply(x: System, step: Step): (y: System)
    requires Sound(x)
    ensures Sound(y)
  {
    match (step, x.phase)
    case (Load, Idle) => x.(phase := Loaded(Durable(x)))
    case (Probed(outcome), Loaded(s)) => x.(phase := Observed(s, outcome))
    case (Evaluate(now), Observed(_, _)) => AfterEvaluate(x, now)
    case (SaveAdvanced(save), Evaluated(_, _, _, _)) => AfterSaveAdvanced(x, save)
    case (Finish, Persisted(s)) => if s.pending == [] then x.(phase := Idle) else x
    case (Deliver(effect), Persisted(_)) => AfterDeliver(x, effect)
    case (SaveAcknowledged(save), Delivered(_)) => AfterSaveAcknowledged(x, save)
    case (Crash, Delivered(s)) => x.(lost := x.lost + [s.pending[0].id], phase := Idle)
    case (Crash, _) => x.(phase := Idle)
    case _ => x
  }

  function Run(steps: seq<Step>): (x: System)
    ensures Sound(x)
  {
    if steps == [] then START else Apply(Run(steps[..|steps| - 1]), steps[|steps| - 1])
  }

  // ---- runs piece by piece ----

  function ApplyAll(x: System, steps: seq<Step>): (y: System)
    requires Sound(x)
    ensures Sound(y)
    decreases |steps|
  {
    if steps == [] then x else ApplyAll(Apply(x, steps[0]), steps[1..])
  }

  lemma RunSnoc(before: seq<Step>, step: Step)
    ensures Run(before + [step]) == Apply(Run(before), step)
  {
    assert (before + [step])[..|before|] == before;
  }

  lemma {:induction false} RunThen(before: seq<Step>, after: seq<Step>)
    ensures Run(before + after) == ApplyAll(Run(before), after)
    decreases |after|
  {
    hide Apply, Sound;
    if after == [] {
      assert before + after == before;
    } else {
      RunSnoc(before, after[0]);
      RunThen(before + [after[0]], after[1..]);
      assert before + [after[0]] + after[1..] == before + after;
    }
  }

  lemma {:induction false} ApplyAllSplit(x: System, before: seq<Step>, after: seq<Step>)
    requires Sound(x)
    ensures ApplyAll(x, before + after) == ApplyAll(ApplyAll(x, before), after)
    decreases |before|
  {
    hide Apply, Sound;
    if before == [] {
      assert before + after == after;
    } else {
      assert (before + after)[1..] == before[1..] + after;
      ApplyAllSplit(Apply(x, before[0]), before[1..], after);
    }
  }

  // ---- what one step can do to what is durable or sent ----

  predicate Quiet(x: System, y: System) {
    (y.cell, y.log, y.history, y.acks) == (x.cell, x.log, x.history, x.acks)
  }

  predicate ProbeSaved(x: System, y: System, now: Instant) {
    var s, t := Durable(x), Durable(y);
    && (y.log, y.acks) == (x.log, x.acks)
    && Moves(s, t, now)
    && (s.changedAt.Some? ==> s.changedAt.value <= now)
    && |s.pending| <= |t.pending|
    && y.history == x.history + t.pending[|s.pending|..]
  }

  predicate Sent(x: System, y: System, confirmed: bool) {
    var s := Durable(x);
    && (y.cell, y.history, y.acks) == (x.cell, x.history, x.acks)
    && s.pending != []
    && y.log == x.log + [Delivery(s.pending[0], confirmed)]
  }

  predicate AcknowledgementSaved(x: System, y: System) {
    var s, t := Durable(x), Durable(y);
    && (y.log, y.history) == (x.log, x.history)
    && s.pending != []
    && t.pending == s.pending[1..]
    && (t.state, t.changedAt, t.nextId) == (s.state, s.changedAt, s.nextId)
    && y.acks == x.acks + [s.pending[0].id]
  }

  predicate Saves(save: SaveEffect) {
    save == Replaced || save == CrashedNew
  }

  lemma Effects(x: System, step: Step)
    requires Sound(x)
    ensures var y := Apply(x, step);
            if step.SaveAdvanced? && x.phase.Evaluated? && Saves(step.save) then ProbeSaved(x, y, x.phase.now)
            else if step.Deliver? && x.phase.Persisted? && Durable(x).pending != [] && step.effect != NotAccepted then
              Sent(x, y, step.effect == Confirmed)
            else if step.SaveAcknowledged? && x.phase.Delivered? && Saves(step.save) then AcknowledgementSaved(x, y)
            else Quiet(x, y)
  {
    if step.SaveAdvanced? && x.phase.Evaluated? {
      SaveAdvancedEffect(x, step.save);
    } else if step.SaveAcknowledged? && x.phase.Delivered? {
      SaveAcknowledgedEffect(x, step.save);
    }
  }

  lemma SaveAdvancedEffect(x: System, save: SaveEffect)
    requires Sound(x) && x.phase.Evaluated?
    ensures var y := Apply(x, SaveAdvanced(save));
            if Saves(save) then ProbeSaved(x, y, x.phase.now) else Quiet(x, y)
  {
    hide Valid, Advance, Moves;
    NextIsLonger(x.phase.status, x.phase.outcome, x.phase.now);
    AdvanceCloses(x.phase.status, x.phase.outcome, x.phase.now);
    ProbeMoves(x.phase.status, x.phase.outcome, x.phase.now);
  }

  lemma SaveAcknowledgedEffect(x: System, save: SaveEffect)
    requires Sound(x) && x.phase.Delivered?
    ensures var y := Apply(x, SaveAcknowledged(save));
            if Saves(save) then AcknowledgementSaved(x, y) else Quiet(x, y)
  {
    hide Valid, Acknowledge;
    AcknowledgeCloses(x.phase.status, x.phase.status.pending[0].id);
  }

  // ---- the durable ledger ----

  /** History lists every durable intent by id, pending is its unacknowledged end, and the
      acknowledged ids are 1, 2, ... in order. */
  predicate Ledger(s: Status, history: seq<Notification>, acks: seq<int>) {
    && |history| == s.nextId - 1
    && |acks| == |history| - |s.pending|
    && s.pending == history[|acks|..]
    && (forall i | 0 <= i < |acks| :: acks[i] == i + 1)
    && (forall i | 0 <= i < |history| :: history[i].id == i + 1 && ValidNotification(history[i]))
  }

  /** Intents are dated in id order up to the anchor. */
  predicate Chronicle(s: Status, history: seq<Notification>) {
    && (forall i, j | 0 <= i < j < |history| :: history[i].transition.at <= history[j].transition.at)
    && (forall i | 0 <= i < |history| :: s.changedAt.Some? && history[i].transition.at <= s.changedAt.value)
  }

  /** A RECOVERED directly follows the DOWN of its outage, which was durably acknowledged. */
  predicate Paired(history: seq<Notification>, acks: seq<int>, i: nat)
    requires i < |history|
  {
    history[i].kind == RecoveredKind ==> 1 <= i <= |acks| && history[i - 1].kind == DownKind
  }

  /** While DOWN, the last intent is the current outage's DOWN. */
  predicate Pairing(s: Status, history: seq<Notification>, acks: seq<int>) {
    && (forall i {:trigger Paired(history, acks, i)} | 0 <= i < |history| :: Paired(history, acks, i))
    && (s.state == DOWN ==> history != [] && history[|history| - 1].kind == DownKind)
  }

  predicate Accounts(x: System) {
    && Ledger(Durable(x), x.history, x.acks)
    && Chronicle(Durable(x), x.history)
    && Pairing(Durable(x), x.history, x.acks)
  }

  lemma AllocationKeepsAccounts(s: Status, t: Status, n: Notification, history: seq<Notification>, acks: seq<int>)
    requires Ledger(s, history, acks) && Chronicle(s, history) && Pairing(s, history, acks)
    requires t.pending == s.pending + [n] && t.nextId == s.nextId + 1 == n.id + 1 && ValidNotification(n)
    requires t.changedAt == Some(n.transition.at)
    requires s.changedAt.Some? ==> s.changedAt.value <= n.transition.at
    requires n.kind == RecoveredKind ==> s.state == DOWN && s.pending == []
    requires t.state == DOWN ==> n.kind == DownKind
    ensures var longer := history + [n];
            Ledger(t, longer, acks) && Chronicle(t, longer) && Pairing(t, longer, acks)
  {
    assert |history| == n.id - 1 && (s.pending == [] ==> |acks| == |history|);
    AllocationKeepsLedger(s, t, n, history, acks);
    hide Ledger;
    AllocationKeepsChronicle(s, t, n, history);
    hide Chronicle;
    AllocationKeepsPairing(s, t, n, history, acks);
  }

  lemma AllocationKeepsLedger(s: Status, t: Status, n: Notification, history: seq<Notification>, acks: seq<int>)
    requires Ledger(s, history, acks)
    requires t.pending == s.pending + [n] && t.nextId == s.nextId + 1 == n.id + 1 && ValidNotification(n)
    ensures Ledger(t, history + [n], acks)
  {
    hide ValidNotification;
    assert (history + [n])[|acks|..] == history[|acks|..] + [n];
  }

  lemma AllocationKeepsChronicle(s: Status, t: Status, n: Notification, history: seq<Notification>)
    requires Chronicle(s, history) && t.changedAt == Some(n.transition.at)
    requires s.changedAt.Some? ==> s.changedAt.value <= n.transition.at
    ensures Chronicle(t, history + [n])
  {
  }

  lemma AllocationKeepsPairing(s: Status, t: Status, n: Notification, history: seq<Notification>, acks: seq<int>)
    requires Pairing(s, history, acks)
    requires n.kind == RecoveredKind ==> s.state == DOWN && |acks| == |history|
    requires t.state == DOWN ==> n.kind == DownKind
    ensures Pairing(t, history + [n], acks)
  {
    var longer := history + [n];
    forall i | 0 <= i < |longer|
      ensures Paired(longer, acks, i)
    {
      if i < |history| {
        assert Paired(history, acks, i);
      }
    }
  }

  lemma AllocatedIntent(s: Status, t: Status, now: Instant)
    requires Valid(s) && Valid(t) && Moves(s, t, now)
    ensures t.pending != s.pending ==>
              && |t.pending| == |s.pending| + 1
              && var n := t.pending[|s.pending|];
                 && t.pending == s.pending + [n] && t.nextId == s.nextId + 1 == n.id + 1 && ValidNotification(n)
                 && t.changedAt == Some(n.transition.at) == Some(now)
                 && (n.kind == RecoveredKind ==> s.state == DOWN && s.pending == [])
                 && (t.state == DOWN ==> n.kind == DownKind)
    ensures t.pending == s.pending ==>
              && t.nextId == s.nextId && (t.state == DOWN ==> s.state == DOWN)
              && (t.changedAt == s.changedAt || t.changedAt == Some(now))
  {}

  lemma ProbeKeepsAccounts(x: System, y: System, now: Instant)
    requires Accounts(x) && ProbeSaved(x, y, now) && Valid(Durable(x)) && Valid(Durable(y))
    ensures Accounts(y)
  {
    hide Valid, ValidNotification;
    var s, t := Durable(x), Durable(y);
    AllocatedIntent(s, t, now);
    if t.pending == s.pending {
      assert y.history == x.history;
    } else {
      hide Ledger, Chronicle, Pairing;
      var n := t.pending[|s.pending|];
      assert t.pending[|s.pending|..] == [n];
      AllocationKeepsAccounts(s, t, n, x.history, x.acks);
    }
  }

  lemma AcknowledgementKeepsAccounts(x: System, y: System)
    requires Accounts(x) && AcknowledgementSaved(x, y)
    ensures Accounts(y) && y.acks == x.acks + [|x.acks| + 1]
  {
    assert x.history[|x.acks|..][1..] == x.history[|x.acks| + 1..];
    forall i | 0 <= i < |x.history|
      ensures Paired(x.history, y.acks, i)
    {
      assert Paired(x.history, x.acks, i);
    }
  }

  lemma AccountsStep(x: System, step: Step)
    requires Sound(x) && Accounts(x)
    ensures Accounts(Apply(x, step))
  {
    hide Apply, Valid, Ledger, Chronicle, Pairing;
    var y := Apply(x, step);
    Effects(x, step);
    if Quiet(x, y) {
    } else if step.SaveAdvanced? {
      ProbeKeepsAccounts(x, y, x.phase.now);
    } else if step.SaveAcknowledged? {
      AcknowledgementKeepsAccounts(x, y);
    }
  }

  // ---- the delivery log ----

  predicate ConfirmedWithin(log: seq<Delivery>, n: nat, id: int)
    requires n <= |log|
  {
    exists j | 0 <= j < n :: log[j].confirmed && log[j].intent.id == id
  }

  predicate RepeatsOrAdvances(log: seq<Delivery>, j: nat)
    requires 0 < j < |log|
  {
    log[j].intent.id == log[j - 1].intent.id || log[j].intent.id == log[j - 1].intent.id + 1
  }

  /** Every message is the durable intent of its id, the ids start at 1 and then repeat or
      move on by one, and nothing is sent before everything older was confirmed. */
  predicate Deliveries(log: seq<Delivery>, history: seq<Notification>, acks: seq<int>) {
    && (forall j | 0 <= j < |log| ::
          1 <= log[j].intent.id <= |history| && log[j].intent == history[log[j].intent.id - 1])
    && (log != [] ==> log[0].intent.id == 1)
    && (forall j {:trigger RepeatsOrAdvances(log, j)} | 0 < j < |log| :: RepeatsOrAdvances(log, j))
    && (if log == [] then acks == [] else |acks| <= log[|log| - 1].intent.id <= |acks| + 1)
    && (forall j, k | 0 <= j < |log| && 1 <= k < log[j].intent.id :: ConfirmedWithin(log, j, k))
    && (forall k | 1 <= k <= |acks| :: ConfirmedWithin(log, |log|, k))
  }

  /** After a confirmed send the log ends with the head awaiting its acknowledgement. */
  predicate Awaiting(x: System)
    requires Sound(x)
  {
    x.phase.Delivered? ==> x.log != [] && x.log[|x.log| - 1] == Delivery(x.phase.status.pending[0], true)
  }

  predicate Logged(x: System)
    requires Sound(x)
  {
    Deliveries(x.log, x.history, x.acks) && Awaiting(x)
  }

  lemma SendKeepsDeliveries(d: Delivery, log: seq<Delivery>, history: seq<Notification>, acks: seq<int>)
    requires Deliveries(log, history, acks)
    requires |acks| < |history| && d.intent == history[|acks|] && d.intent.id == |acks| + 1
    ensures Deliveries(log + [d], history, acks)
  {
    var longer := log + [d];
    forall j | 0 < j < |longer|
      ensures RepeatsOrAdvances(longer, j)
    {
      if j < |log| {
        assert RepeatsOrAdvances(log, j);
      }
    }
    forall j, k | 0 <= j < |longer| && 1 <= k < longer[j].intent.id
      ensures ConfirmedWithin(longer, j, k)
    {
      assert ConfirmedWithin(log, j, k);
      var i :| 0 <= i < j && log[i].confirmed && log[i].intent.id == k;
      assert longer[i] == log[i];
    }
    forall k | 1 <= k <= |acks|
      ensures ConfirmedWithin(longer, |longer|, k)
    {
      assert ConfirmedWithin(log, |log|, k);
      var i :| 0 <= i < |log| && log[i].confirmed && log[i].intent.id == k;
      assert longer[i] == log[i];
    }
  }

  lemma AcknowledgeKeepsDeliveries(log: seq<Delivery>, history: seq<Notification>, acks: seq<int>)
    requires Deliveries(log, history, acks)
    requires log != [] && log[|log| - 1].confirmed && log[|log| - 1].intent.id == |acks| + 1
    ensures Deliveries(log, history, acks + [|acks| + 1])
  {
    assert ConfirmedWithin(log, |log|, |acks| + 1);
  }

  lemma LoggedStep(x: System, step: Step)
    requires Sound(x) && Accounts(x) && Logged(x)
    ensures var y := Apply(x, step); Deliveries(y.log, y.history, y.acks)
  {
    var y := Apply(x, step);
    Effects(x, step);
    if Quiet(x, y) {
    } else if step.SaveAdvanced? {
      LongerHistoryKeepsDeliveries(x.log, x.history, y.history, x.acks);
    } else if step.Deliver? {
      SendKeepsDeliveries(y.log[|x.log|], x.log, x.history, x.acks);
    } else {
      AcknowledgementKeepsAccounts(x, y);
      AcknowledgeKeepsDeliveries(x.log, x.history, x.acks);
    }
  }

  lemma LongerHistoryKeepsDeliveries(
    log: seq<Delivery>, history: seq<Notification>, longer: seq<Notification>, acks: seq<int>)
    requires Deliveries(log, history, acks) && history <= longer
    ensures Deliveries(log, longer, acks)
  {}

  lemma AwaitingStep(x: System, step: Step)
    requires Sound(x) && Awaiting(x)
    ensures Awaiting(Apply(x, step))
  {}

  lemma StartIsLogged()
    ensures Accounts(START) && Logged(START)
  {}

  lemma {:induction false} RunKeepsLog(steps: seq<Step>)
    ensures Accounts(Run(steps)) && Logged(Run(steps))
  {
    if steps == [] {
      StartIsLogged();
    } else {
      var x := Run(steps[..|steps| - 1]);
      RunKeepsLog(steps[..|steps| - 1]);
      AccountsStep(x, steps[|steps| - 1]);
      LoggedStep(x, steps[|steps| - 1]);
      AwaitingStep(x, steps[|steps| - 1]);
    }
  }
}
