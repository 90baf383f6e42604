/** What the step order and the queue together guarantee over every run, whatever fails or crashes. */
module DeadManGuarantees {
  import opened DeadMan
  import opened DeadManProtocol

  // ---- accounting of messages ----

  function Ids(log: seq<Delivery>): seq<int> {
    seq(|log|, j requires 0 <= j < |log| => log[j].intent.id)
  }

  function InFlight(phase: Phase): multiset<int> {
    if phase.Delivered? && phase.status.pending != [] then multiset{phase.status.pending[0].id} else multiset{}
  }

  /** Every message is accounted for once: its acknowledgement became durable, or was lost, or is under way. */
  predicate Conserved(x: System) {
    multiset(Ids(x.log)) == multiset(x.acks) + multiset(x.lost) + InFlight(x.phase)
  }

  /** How one step moves the books: nothing, a message sent, or a message in flight settled. */
  ghost predicate Books(x: System, y: System) {
    || (BooksRest(x, y) && InFlight(x.phase) == InFlight(y.phase))
    || (exists d :: BookSent(x, y, d))
    || (exists id :: BookSettled(x, y, id))
  }

  predicate BooksRest(x: System, y: System) {
    (y.log, y.acks, y.lost) == (x.log, x.acks, x.lost)
  }

  predicate BookSent(x: System, y: System, d: Delivery) {
    && y.log == x.log + [d] && y.acks == x.acks && InFlight(x.phase) == multiset{}
    && if y.phase.Delivered? then y.lost == x.lost && InFlight(y.phase) == multiset{d.intent.id}
       else y.lost == x.lost + [d.intent.id]
  }

  predicate BookSettled(x: System, y: System, id: int) {
    && y.log == x.log && InFlight(y.phase) == multiset{} && InFlight(x.phase) == multiset{id}
    && ((y.acks, y.lost) == (x.acks + [id], x.lost) || (y.acks, y.lost) == (x.acks, x.lost + [id]))
  }

  lemma StepKeepsBooks(x: System, step: Step)
    requires Sound(x)
    ensures Books(x, Apply(x, step))
  {
    hide Valid, Advance, Acknowledge;
    var y := Apply(x, step);
    if step.Deliver? && x.phase.Persisted? && x.phase.status.pending != [] && step.effect != NotAccepted {
      assert BookSent(x, y, Delivery(x.phase.status.pending[0], step.effect == Confirmed));
    } else if x.phase.Delivered? && (step.SaveAcknowledged? || step.Crash?) {
      assert BookSettled(x, y, x.phase.status.pending[0].id);
    } else {
      assert BooksRest(x, y);
    }
  }

  lemma ConservedStep(x: System, y: System)
    requires Books(x, y) && Conserved(x)
    ensures Conserved(y)
  {
    hide InFlight, Ids, BookSent, BookSettled;
    if BooksRest(x, y) && InFlight(x.phase) == InFlight(y.phase) {
    } else if d :| BookSent(x, y, d) {
      SentConserves(x, y, d);
    } else {
      var id :| BookSettled(x, y, id);
      SettledConserves(x, y, id);
    }
  }

  lemma SentConserves(x: System, y: System, d: Delivery)
    requires Conserved(x) && BookSent(x, y, d)
    ensures Conserved(y)
  {
    assert !y.phase.Delivered? ==> InFlight(y.phase) == multiset{};
    hide InFlight;
    IdsAppend(x.log, d);
    hide Ids;
    assert multiset(Ids(y.log)) == multiset(Ids(x.log)) + multiset{d.intent.id};
  }

  lemma SettledConserves(x: System, y: System, id: int)
    requires Conserved(x) && BookSettled(x, y, id)
    ensures Conserved(y)
  {
    hide InFlight, Ids;
  }

  lemma IdsAppend(log: seq<Delivery>, d: Delivery)
    ensures Ids(log + [d]) == Ids(log) + [d.intent.id]
  {}

  lemma {:induction false} RunConserves(steps: seq<Step>)
    ensures Conserved(Run(steps))
  {
    if steps == [] {
      assert Ids(START.log) == [];
    } else {
      RunConserves(steps[..|steps| - 1]);
      StepKeepsBooks(Run(steps[..|steps| - 1]), steps[|steps| - 1]);
      ConservedStep(Run(steps[..|steps| - 1]), Run(steps));
    }
  }

  lemma {:induction false} CountingOnce(acks: seq<int>, id: int)
    requires forall i | 0 <= i < |acks| :: acks[i] == i + 1
    ensures multiset(acks)[id] == if 1 <= id <= |acks| then 1 else 0
  {
    if acks != [] {
      var shorter := acks[..|acks| - 1];
      assert acks == shorter + [|acks|];
      CountingOnce(shorter, id);
    }
  }

  /** An intent is sent at most once more than its acknowledgements were lost. */
  lemma DuplicatesAreLostAcknowledgements(steps: seq<Step>, id: int)
    ensures var x := Run(steps); multiset(Ids(x.log))[id] <= 1 + multiset(x.lost)[id]
  {
    hide Run, Apply, Chronicle, Pairing, Deliveries;
    var x := Run(steps);
    RunConserves(steps);
    RunKeepsLog(steps);
    CountingOnce(x.acks, id);
    if x.phase.Delivered? {
      assert x.phase.status.pending[0].id == |x.acks| + 1;
    }
  }

  // ---- at least once, in order, with a stable identity ----

  /** No intent is ever lost: each allocated id is still pending or was confirmed. */
  lemma NothingIsLost(steps: seq<Step>, id: int)
    requires 1 <= id < Durable(Run(steps)).nextId
    ensures var x := Run(steps);
            (exists n | n in Durable(x).pending :: n.id == id) || ConfirmedWithin(x.log, |x.log|, id)
  {
    hide Run, Apply, Sound, Chronicle, Pairing, ConfirmedWithin;
    var x := Run(steps);
    RunKeepsLog(steps);
    if id > |x.acks| {
      var n := Durable(x).pending[id - 1 - |x.acks|];
      assert n == x.history[id - 1] && n in Durable(x).pending;
    }
  }

  /** Messages start with id 1; each next one repeats the last id or adds one; and nothing is
      sent before every older intent was confirmed. */
  lemma DeliveredInOrder(steps: seq<Step>, j: nat)
    requires j < |Run(steps).log|
    ensures var log := Run(steps).log;
            && (j == 0 ==> log[j].intent.id == 1)
            && (j > 0 ==> log[j].intent.id - log[j - 1].intent.id in {0, 1})
            && (forall k | 1 <= k < log[j].intent.id :: ConfirmedWithin(log, j, k))
  {
    RunKeepsLog(steps);
    if j > 0 {
      assert RepeatsOrAdvances(Run(steps).log, j);
    }
  }

  lemma StepOnlyAdds(x: System, step: Step)
    requires Sound(x)
    ensures var y := Apply(x, step); x.history <= y.history && x.log <= y.log && x.acks <= y.acks
  {
    hide Apply, Sound, Moves;
    Effects(x, step);
  }

  lemma {:induction false} RecordsOnlyGrow(steps: seq<Step>, m: nat)
    requires m <= |steps|
    ensures var x, y := Run(steps[..m]), Run(steps);
            x.history <= y.history && x.log <= y.log && x.acks <= y.acks
    decreases |steps| - m
  {
    hide Run, Apply, Sound;
    if m < |steps| {
      var shorter := steps[..m + 1];
      StepOnlyAdds(Run(steps[..m]), shorter[m]);
      RunSnoc(steps[..m], shorter[m]);
      assert steps[..m] + [shorter[m]] == shorter;
      RecordsOnlyGrow(steps, m + 1);
    } else {
      assert steps[..m] == steps;
    }
  }

  /** An id denotes one intent for ever: any message ever sent and any intent ever durably
      pending under the same id, at whatever two moments of a run, are the same value. */
  lemma IdentityIsStable(steps: seq<Step>, m: nat, n: Notification, j: nat)
    requires m <= |steps| && j < |Run(steps).log|
    requires
      || n in Durable(Run(steps[..m])).pending
      || exists i | 0 <= i < |Run(steps[..m]).log| :: n == Run(steps[..m]).log[i].intent
    requires n.id == Run(steps).log[j].intent.id
    ensures n == Run(steps).log[j].intent
  {
    hide Run, Sound, Ledger, Chronicle, Pairing;
    var x := Run(steps[..m]);
    RunKeepsLog(steps[..m]);
    RunKeepsLog(steps);
    RecordsOnlyGrow(steps, m);
    InHistory(x, n);
  }

  lemma InHistory(x: System, n: Notification)
    requires Sound(x) && Accounts(x) && Logged(x)
    requires n in Durable(x).pending || exists i | 0 <= i < |x.log| :: n == x.log[i].intent
    ensures 1 <= n.id <= |x.history| && n == x.history[n.id - 1]
  {
    if n in Durable(x).pending {
      var i :| 0 <= i < |Durable(x).pending| && Durable(x).pending[i] == n;
      assert n == x.history[|x.acks| + i];
    }
  }

  // ---- RECOVERED is sound and complete ----

  /** Any RECOVERED ever pending or sent directly follows the DOWN of its outage in the
      history, is dated no earlier, and that DOWN was confirmed before: in the log so far, and
      before the RECOVERED's own first message. */
  lemma RecoveredIsSound(steps: seq<Step>, n: Notification)
    requires n.kind == RecoveredKind
    requires n in Durable(Run(steps)).pending || exists i | 0 <= i < |Run(steps).log| :: n == Run(steps).log[i].intent
    ensures var x := Run(steps);
            && 2 <= n.id <= |x.history| && x.history[n.id - 1] == n
            && x.history[n.id - 2].kind == DownKind
            && x.history[n.id - 2].transition.at <= n.transition.at
            && ConfirmedWithin(x.log, |x.log|, n.id - 1)
            && (forall j | 0 <= j < |x.log| && x.log[j].intent == n :: ConfirmedWithin(x.log, j, n.id - 1))
  {
    var x := Run(steps);
    RunKeepsLog(steps);
    InHistory(x, n);
    assert Paired(x.history, x.acks, n.id - 1);
  }

  /** A durable recovery allocates exactly one RECOVERED if and only if that outage's DOWN had
      already been durably acknowledged. */
  lemma RecoveryIsComplete(steps: seq<Step>, step: Step)
    requires Durable(Run(steps)).state == DOWN && Durable(Apply(Run(steps), step)).state != DOWN
    ensures RecoveryRecorded(Run(steps), Apply(Run(steps), step))
  {
    RunKeepsLog(steps);
    Effects(Run(steps), step);
    RecoverySaved(Run(steps), Apply(Run(steps), step), Run(steps).phase.now);
  }

  predicate RecoveryRecorded(x: System, y: System) {
    && Durable(x).current.Some?
    && var id := Durable(x).current.value.id;
       && 1 <= id == |x.history|
       && x.history[id - 1].kind == DownKind
       && if id in x.acks then
            && |y.history| == id + 1 && x.history <= y.history
            && (y.history[id].id, y.history[id].kind) == (id + 1, RecoveredKind)
          else y.history == x.history
  }

  lemma RecoverySaved(x: System, y: System, now: Instant)
    requires Valid(Durable(x)) && Accounts(x) && ProbeSaved(x, y, now)
    requires Durable(x).state == DOWN && Durable(y).state != DOWN
    ensures RecoveryRecorded(x, y)
  {
    var s := Durable(x);
    if s.pending == [] {
      assert x.acks[|x.acks| - 1] == s.current.value.id;
    }
  }
}
