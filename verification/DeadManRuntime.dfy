/** The oneshot cycle over the store and the messenger, and its agreement with the small steps. */
module DeadManRuntime {
  import opened Common
  import opened DeadMan
  import opened DeadManProtocol
  import opened DeadManCodec
  import opened DeadManStore
  import opened DeadManSize
  import DeadManDrain
  import JsonTree
  import Text
  import Timestamps

  datatype CycleResult = CycleResult(state: State, pendingCount: nat, delivered: Option<int>, acknowledged: Option<int>)

  datatype Failure = Storage(error: StoreError) | BadClock | Machine(why: Error) | NotDelivered

  /** Everything outside the process during one cycle; the clock may answer with something that is not
      an aware datetime. */
  datatype World = World(
    unreadable: bool, outcome: Outcome, now: Option<Instant>, first: Fault, delivery: DeliverEffect, second: Fault)

  /** The evaluation of one cycle, refused by a bad clock or by the machine. */
  function Evaluation(s: Status, w: World): Result<Status, Failure>
    requires Valid(s)
  {
    if w.now.None? then Err(BadClock)
    else
      match Advance(s, w.outcome, w.now.value)
      case Ok(a) => Ok(a)
      case Err(why) => Err(Machine(why))
  }

  lemma EvaluationIsValid(s: Status, w: World)
    requires Valid(s)
    ensures Evaluation(s, w).Ok? ==> Valid(Evaluation(s, w).value)
  {
    if w.now.Some? {
      AdvanceCloses(s, w.outcome, w.now.value);
    }
  }

  class Messenger {
    var log: seq<Delivery>

    method Send(intent: Notification, effect: DeliverEffect) returns (ok: bool)
      modifies this
      ensures ok <==> effect == Confirmed
      ensures log == if effect == NotAccepted then old(log) else old(log) + [Delivery(intent, ok)]
    {
      ok := effect == Confirmed;
      if effect != NotAccepted {
        log := log + [Delivery(intent, ok)];
      }
    }
  }

  /** How a save with this fault looks to the protocol. */
  function EffectOf(s: Status, fault: Fault): SaveEffect
    requires Valid(s)
  {
    if !Fits(s) then Refused
    else
      match fault
      case NoFault => Replaced
      case DiesBeforeReplace => CrashedOld
      case DiesAfterReplace => CrashedNew
      case _ => Refused
  }

  /** The durable status, the message accepted and whether the process completed, after one cycle. */
  datatype Ending = Ending(durable: Status, message: Option<Delivery>, completed: bool)

  function Cycle(s: Status, w: World): (e: Ending)
    requires Valid(s)
    ensures Valid(e.durable)
  {
    EvaluationIsValid(s, w);
    var advanced := Evaluation(s, w);
    if advanced.Err? then Ending(s, None, false)
    else
      var a := advanced.value;
      if EffectOf(a, w.first) != Replaced then Ending(if Lands(a, w.first) then a else s, None, false)
      else if a.pending == [] then Ending(a, None, true)
      else if w.delivery == NotAccepted then Ending(a, None, false)
      else if w.delivery == Unconfirmed then Ending(a, Some(Delivery(a.pending[0], false)), false)
      else
        AcknowledgeCloses(a, a.pending[0].id);
        var k := Acknowledge(a, a.pending[0].id).value;
        var message := Some(Delivery(a.pending[0], true));
        Ending(if Lands(k, w.second) then k else a, message, EffectOf(k, w.second) == Replaced)
  }

  function Messages(e: Ending): seq<Delivery> {
    if e.message.Some? then [e.message.value] else []
  }

  /** Why a loaded cycle does not complete: the clock is no datetime or lies before the anchor, the send was not
      confirmed after a successful save, or else a save failed. */
  predicate Explains(s: Status, w: World, failure: Failure)
    requires Valid(s)
  {
    if w.now.None? then failure == BadClock
    else if s.changedAt.Some? && w.now.value < s.changedAt.value then failure == Machine(ClockMovedBack)
    else if Persists(s, w) && w.delivery != Confirmed then failure == NotDelivered
    else failure.Storage?
  }

  /** The evaluated status becomes durable before anything is sent. */
  predicate Persists(s: Status, w: World)
    requires Valid(s)
  {
    EvaluationIsValid(s, w);
    Evaluation(s, w).Ok? && EffectOf(Evaluation(s, w).value, w.first) == Replaced
  }

  /** Load, probe, evaluate, save, deliver the oldest intent, acknowledge it, save again.
      A file that cannot be loaded stops the cycle before anything is written or sent. */
  method RunDeadManCycle(store: StateStore, messenger: Messenger, w: World) returns (r: Result<CycleResult, Failure>)
    requires ReadsCanonical(store.read)
    modifies store, messenger
    ensures var before := old(store.file);
            before.Some? && (w.unreadable || !Intact(store.read, before.value)) ==>
              r.Err? && r.error.Storage? && store.file == before && messenger.log == old(messenger.log)
    ensures var before := old(store.file);
            if (w.unreadable && before.Some?) || Read(store.read, before).Err? then
              r.Err? && store.file == before && messenger.log == old(messenger.log)
            else
              && Valid(Read(store.read, before).value)
              && var e := Cycle(Read(store.read, before).value, w);
                 && Read(store.read, store.file) == Ok(e.durable)
                 && messenger.log == old(messenger.log) + Messages(e)
                 && (r.Ok? <==> e.completed)
                 && (r.Err? ==> Explains(Read(store.read, before).value, w, r.error))
                 && (r.Ok? ==>
                       var id := if e.message.Some? then Some(e.message.value.intent.id) else None;
                       r.value == CycleResult(e.durable.state, |e.durable.pending|, id, id))
  {
    hide Valid, Fits, ContentOf, Read;
    var loaded := store.Load(w.unreadable);
    if loaded.Err? { return Err(Storage(loaded.error)); }
    assert loaded == Read(store.read, store.file);
    var s := loaded.value;
    if w.now.None? { return Err(BadClock); }
    AdvanceCloses(s, w.outcome, w.now.value);
    var advanced := Advance(s, w.outcome, w.now.value);
    if advanced.Err? { return Err(Machine(advanced.error)); }
    var a := advanced.value;
    if Fits(a) { WrittenIsRead(store.read, a); }
    var saved := store.Save(a, w.first);
    if saved.Err? { return Err(Storage(saved.error)); }
    if a.pending == [] { return Ok(CycleResult(a.state, 0, None, None)); }
    var oldest := a.pending[0];
    var ok := messenger.Send(oldest, w.delivery);
    if !ok { return Err(NotDelivered); }
    AcknowledgeCloses(a, oldest.id);
    var k := Acknowledge(a, oldest.id).value;
    if Fits(k) { WrittenIsRead(store.read, k); }
    var again := store.Save(k, w.second);
    if again.Err? { return Err(Storage(again.error)); }
    return Ok(CycleResult(k.state, |k.pending|, Some(oldest.id), Some(oldest.id)));
  }

  // ---- cycles are runs of the small steps ----

  /** The effects of the two saves, each decided by the status being saved. */
  function Saves(s: Status, w: World): (SaveEffect, SaveEffect)
    requires Valid(s)
  {
    EvaluationIsValid(s, w);
    var advanced := Evaluation(s, w);
    if advanced.Err? then (Refused, Refused)
    else
      var a := advanced.value;
      if a.pending == [] then (EffectOf(a, w.first), Refused)
      else
        AcknowledgeCloses(a, a.pending[0].id);
        (EffectOf(a, w.first), EffectOf(Acknowledge(a, a.pending[0].id).value, w.second))
  }

  function CycleSteps(s: Status, w: World): seq<Step>
    requires Valid(s)
  {
    ProbeSteps(w) + StorageSteps(Saves(s, w), w)
  }

  function ProbeSteps(w: World): seq<Step> {
    [Load, Probed(w.outcome), if w.now.Some? then Evaluate(w.now.value) else Crash]
  }

  function StorageSteps(saves: (SaveEffect, SaveEffect), w: World): seq<Step> {
    [SaveAdvanced(saves.0), Deliver(w.delivery), SaveAcknowledged(saves.1), Finish]
  }

  lemma ThreeSteps(x: System, a: Step, b: Step, c: Step)
    requires Sound(x)
    ensures ApplyAll(x, [a, b, c]) == Apply(Apply(Apply(x, a), b), c)
  {
    hide Apply, Sound;
    assert [a, b, c][1..] == [b, c] && [b, c][1..] == [c];
    assert ApplyAll(Apply(Apply(x, a), b), [c]) == Apply(Apply(Apply(x, a), b), c);
  }

  lemma FourSteps(x: System, a: Step, b: Step, c: Step, d: Step)
    requires Sound(x)
    ensures ApplyAll(x, [a, b, c, d]) == Apply(Apply(Apply(Apply(x, a), b), c), d)
  {
    hide Apply, Sound;
    assert [a, b, c, d][1..] == [b, c, d];
    ThreeSteps(Apply(x, a), b, c, d);
  }

  lemma ProbePart(x: System, w: World)
    requires Sound(x) && x.phase == Idle
    ensures var s, y := Durable(x), ApplyAll(x, ProbeSteps(w));
            match Evaluation(s, w)
            case Ok(a) => y == x.(phase := Evaluated(s, w.outcome, w.now.value, a))
            case Err(_) => y == x
  {
    hide Valid;
    ThreeSteps(x, Load, Probed(w.outcome), if w.now.Some? then Evaluate(w.now.value) else Crash);
  }

  lemma IdleStays(x: System, w: World, second: SaveEffect)
    requires Sound(x) && x.phase == Idle
    ensures Apply(Apply(Apply(x, Deliver(w.delivery)), SaveAcknowledged(second)), Finish) == x
    ensures forall first :: Apply(x, SaveAdvanced(first)) == x
  {
    hide Valid;
  }

  lemma SavePart(x: System, a: Status, first: SaveEffect)
    requires Sound(x) && x.phase.Evaluated? && x.phase.next == a
    ensures var y := Apply(x, SaveAdvanced(first));
            && y.log == x.log
            && y.phase == (if first == Replaced then Persisted(a) else Idle)
            && Durable(y) == if first == Replaced || first == CrashedNew then a else Durable(x)
  {
    hide Valid;
  }

  lemma DeliveryPart(x: System, w: World, second: SaveEffect)
    requires Sound(x) && x.phase == Persisted(Durable(x)) && Durable(x).pending == []
    ensures var y := Apply(Apply(Apply(x, Deliver(w.delivery)), SaveAcknowledged(second)), Finish);
            y == x.(phase := Idle)
  {
    hide Valid;
  }

  lemma AcknowledgePart(x: System, w: World, second: SaveEffect)
    requires Sound(x) && x.phase == Persisted(Durable(x)) && Durable(x).pending != []
    ensures var s := Durable(x);
            var y := Apply(Apply(Apply(x, Deliver(w.delivery)), SaveAcknowledged(second)), Finish);
            && y.phase == Idle
            && Acknowledge(s, s.pending[0].id).Ok?
            && y.log == (if w.delivery == NotAccepted then x.log
                         else x.log + [Delivery(s.pending[0], w.delivery == Confirmed)])
            && Durable(y) == if w.delivery == Confirmed && (second == Replaced || second == CrashedNew)
                             then Acknowledge(s, s.pending[0].id).value else s
  {
    hide Valid, Acknowledge, Advance;
    AcknowledgeCloses(Durable(x), Durable(x).pending[0].id);
  }

  /** What saving, delivering and acknowledging an evaluated status leave durable and send. */
  predicate Stores(x: System, w: World, a: Status, saves: (SaveEffect, SaveEffect), durable: Status, log: seq<Delivery>)
    requires Valid(a)
  {
    if saves.0 != Replaced then log == x.log && durable == if saves.0 == CrashedNew then a else Durable(x)
    else if a.pending == [] then log == x.log && durable == a
    else
      && Acknowledge(a, a.pending[0].id).Ok?
      && log == (if w.delivery == NotAccepted then x.log
                 else x.log + [Delivery(a.pending[0], w.delivery == Confirmed)])
      && durable == if w.delivery == Confirmed && (saves.1 == Replaced || saves.1 == CrashedNew)
                    then Acknowledge(a, a.pending[0].id).value else a
  }

  lemma StoragePart(x: System, w: World, saves: (SaveEffect, SaveEffect))
    requires Sound(x) && x.phase.Evaluated? && Valid(x.phase.next)
    ensures var y := ApplyAll(x, StorageSteps(saves, w));
            y.phase == Idle && Stores(x, w, x.phase.next, saves, Durable(y), y.log)
  {
    hide Valid, Acknowledge, Apply, Advance;
    var a := x.phase.next;
    FourSteps(x, SaveAdvanced(saves.0), Deliver(w.delivery), SaveAcknowledged(saves.1), Finish);
    SavePart(x, a, saves.0);
    hide ApplyAll;
    var z := Apply(x, SaveAdvanced(saves.0));
    if z.phase == Idle {
      IdleStays(z, w, saves.1);
    } else if a.pending == [] {
      DeliveryPart(z, w, saves.1);
    } else {
      AcknowledgePart(z, w, saves.1);
    }
  }

  lemma RefusedCycle(s: Status, w: World)
    requires Valid(s) && Evaluation(s, w).Err?
    ensures Cycle(s, w) == Ending(s, None, false)
  {
    hide Valid, Acknowledge, Evaluation, Fits;
  }

  lemma CycleStores(x: System, w: World)
    requires Valid(Durable(x)) && Evaluation(Durable(x), w).Ok? && Valid(Evaluation(Durable(x), w).value)
    ensures var e := Cycle(Durable(x), w);
            Stores(x, w, Evaluation(Durable(x), w).value, Saves(Durable(x), w), e.durable, x.log + Messages(e))
  {
    hide Valid, Acknowledge, Evaluation, Fits;
    EvaluationIsValid(Durable(x), w);
    var a := Evaluation(Durable(x), w).value;
    if a.pending != [] {
      AcknowledgeCloses(a, a.pending[0].id);
    }
  }

  lemma RefusedPart(x: System, w: World, saves: (SaveEffect, SaveEffect))
    requires Sound(x) && x.phase == Idle
    ensures ApplyAll(x, StorageSteps(saves, w)) == x
  {
    hide Apply, ApplyAll;
    FourSteps(x, SaveAdvanced(saves.0), Deliver(w.delivery), SaveAcknowledged(saves.1), Finish);
    IdleStays(x, w, saves.1);
  }

  /** Whatever the world does, one cycle from an idle process is a run of the small steps: it leaves
      the same durable status and has sent the same messages. */
  lemma CycleIsARun(x: System, w: World)
    requires Sound(x) && x.phase == Idle
    ensures var e, y := Cycle(Durable(x), w), ApplyAll(x, CycleSteps(Durable(x), w));
            y.phase == Idle && Durable(y) == e.durable && y.log == x.log + Messages(e)
  {
    var s := Durable(x);
    hide Valid, Acknowledge, Apply, ApplyAll, StorageSteps, ProbeSteps, Evaluation, Saves, Cycle;
    var saves := Saves(s, w);
    ApplyAllSplit(x, ProbeSteps(w), StorageSteps(saves, w));
    ProbePart(x, w);
    var y := ApplyAll(x, ProbeSteps(w));
    EvaluationIsValid(s, w);
    if Evaluation(s, w).Err? {
      RefusedCycle(s, w);
      RefusedPart(y, w, saves);
    } else {
      StoragePart(y, w, saves);
      CycleStores(x, w);
    }
  }

  // ---- any number of cycles ----

  /** The durable status and every accepted message after a sequence of cycles from a fresh start. */
  function Lifetime(worlds: seq<World>): (r: (Status, seq<Delivery>))
    ensures Valid(r.0)
  {
    if worlds == [] then (INITIAL, [])
    else
      var (s, log) := Lifetime(worlds[..|worlds| - 1]);
      var e := Cycle(s, worlds[|worlds| - 1]);
      (e.durable, log + Messages(e))
  }

  /** Everything proved of all runs holds of all sequences of cycles. */
  lemma {:induction false} LifetimeIsARun(worlds: seq<World>) returns (steps: seq<Step>)
    ensures var x := Run(steps);
            x.phase == Idle && (Durable(x), x.log) == Lifetime(worlds)
  {
    hide Valid, Apply, Cycle, Sound;
    if worlds == [] {
      steps := [];
    } else {
      var before := LifetimeIsARun(worlds[..|worlds| - 1]);
      var w := worlds[|worlds| - 1];
      CycleIsARun(Run(before), w);
      RunThen(before, CycleSteps(Durable(Run(before)), w));
      steps := before + CycleSteps(Durable(Run(before)), w);
    }
  }

  function Observed(w: World): DeadManDrain.Observation {
    DeadManDrain.Observation(w.outcome, if w.now.Some? then w.now.value else 0)
  }

  /** When nothing fails a cycle is the fault-free one whose backlog is bounded. */
  lemma FaultFreeCycle(s: Status, w: World)
    requires Valid(s) && Cycle(s, w).completed
    ensures w.now.Some? && DeadManDrain.Accepts(s, Observed(w))
    ensures Cycle(s, w).durable == DeadManDrain.Cycle(s, Observed(w))
  {
    hide Valid, Fits, Advance, Acknowledge;
    if w.now.Some? {
      AdvanceCloses(s, w.outcome, w.now.value);
    }
  }

  function After(s: Status, worlds: seq<World>): (t: Status)
    requires Valid(s)
    ensures Valid(t)
    decreases |worlds|
  {
    if worlds == [] then s else After(Cycle(s, worlds[0]).durable, worlds[1..])
  }

  predicate AllCompleted(s: Status, worlds: seq<World>)
    requires Valid(s)
    decreases |worlds|
  {
    worlds == [] || (Cycle(s, worlds[0]).completed && AllCompleted(Cycle(s, worlds[0]).durable, worlds[1..]))
  }

  function Observations(worlds: seq<World>): (observations: seq<DeadManDrain.Observation>)
    ensures |observations| == |worlds|
  {
    seq(|worlds|, i requires 0 <= i < |worlds| => Observed(worlds[i]))
  }

  lemma {:induction false} CompletedCyclesAreFaultFree(s: Status, worlds: seq<World>, k: nat)
    requires Valid(s) && AllCompleted(s, worlds) && k <= |worlds|
    ensures DeadManDrain.AllAccepted(s, Observations(worlds))
    ensures After(s, worlds[..k]) == DeadManDrain.Cycles(s, Observations(worlds)[..k])
    decreases |worlds|
  {
    hide Valid, Cycle, DeadManDrain.Cycle, DeadManDrain.Accepts;
    if worlds != [] {
      FaultFreeCycle(s, worlds[0]);
      var t := Cycle(s, worlds[0]).durable;
      assert Observations(worlds)[1..] == Observations(worlds[1..]);
      CompletedCyclesAreFaultFree(t, worlds[1..], if k == 0 then 0 else k - 1);
      if k > 0 {
        assert worlds[..k][1..] == worlds[1..][..k - 1];
        assert Observations(worlds)[..k][1..] == Observations(worlds[1..])[..k - 1];
      }
    }
  }

  /** From any status with p intents pending, the durable queue is empty at the end of one of the first
      ceil(5p/4) cycles that complete, whatever they observe. */
  lemma CompletedCyclesDrain(s: Status, worlds: seq<World>)
    requires Valid(s) && s.pending != [] && AllCompleted(s, worlds)
    requires |worlds| >= (5 * |s.pending| + 3) / 4
    ensures exists k | 1 <= k <= |worlds| :: After(s, worlds[..k]).pending == []
  {
    hide Valid, After, DeadManDrain.Cycles;
    CompletedCyclesAreFaultFree(s, worlds, 0);
    DeadManDrain.BacklogDrains(s, Observations(worlds));
    var k :| 1 <= k <= |worlds| && DeadManDrain.Cycles(s, Observations(worlds)[..k]).pending == [];
    CompletedCyclesAreFaultFree(s, worlds, k);
  }

  // ---- completion is a matter of faults and backlog ----

  /** Where a cycle can leave the durable status: as it was, evaluated, or evaluated and acknowledged. */
  predicate Leaves(s: Status, w: World, t: Status)
    requires Valid(s)
  {
    || t == s
    || (Evaluation(s, w).Ok? && t == Evaluation(s, w).value)
    || (Evaluation(s, w).Ok? && Evaluation(s, w).value.pending != []
        && Acknowledge(Evaluation(s, w).value, Evaluation(s, w).value.pending[0].id) == Ok(t))
  }

  lemma CycleLeaves(s: Status, w: World)
    requires Valid(s)
    ensures Leaves(s, w, Cycle(s, w).durable)
  {
    hide Valid, Acknowledge, Evaluation, Fits;
    EvaluationIsValid(s, w);
    if Evaluation(s, w).Ok? {
      var a := Evaluation(s, w).value;
      if a.pending != [] {
        AcknowledgeCloses(a, a.pending[0].id);
      }
    }
  }

  lemma EvaluationIsEncodable(s: Status, w: World)
    requires Valid(s) && Encodable(s) && Evaluation(s, w).Ok? && Timestamps.Representable(w.now.value)
    ensures Encodable(Evaluation(s, w).value)
  {
    hide Valid, Advance, Timestamps.Representable;
    ProbeMoves(s, w.outcome, w.now.value);
  }

  lemma AcknowledgedIsEncodable(a: Status)
    requires Valid(a) && Encodable(a) && a.pending != []
    ensures var k := Acknowledge(a, a.pending[0].id); k.Ok? && Encodable(k.value)
  {
    hide Valid, Acknowledge, EncodableNotification;
    AcknowledgeCloses(a, a.pending[0].id);
  }

  /** Every cycle leaves an encodable status, whatever fails, as long as the clock stays in the years 1 to 9999. */
  lemma CycleKeepsEncodable(s: Status, w: World)
    requires Valid(s) && Encodable(s) && (w.now.Some? ==> Timestamps.Representable(w.now.value))
    ensures Encodable(Cycle(s, w).durable)
  {
    CycleLeaves(s, w);
    EvaluationIsValid(s, w);
    if Evaluation(s, w).Ok? {
      assert w.now.Some?;
      hide Valid, Encodable, Cycle, Acknowledge, Evaluation;
      EvaluationIsEncodable(s, w);
      var a := Evaluation(s, w).value;
      if a.pending != [] {
        AcknowledgedIsEncodable(a);
      }
    }
  }

  const BACKLOG := 7000

  /** Nothing fails and the clock answers within the years 1 to 9999. */
  predicate Benign(w: World) {
    && !w.unreadable && w.first == NoFault && w.second == NoFault && w.delivery == Confirmed
    && w.now.Some? && Timestamps.Representable(w.now.value)
  }

  predicate NotBefore(s: Status, w: World) {
    s.changedAt.Some? && w.now.Some? ==> s.changedAt.value <= w.now.value
  }

  lemma BenignEvaluation(s: Status, w: World)
    requires Valid(s) && w.now.Some? && NotBefore(s, w)
    ensures var e := Evaluation(s, w);
            && e.Ok? && Valid(e.value) && NotBefore(e.value, w)
            && |e.value.pending| <= |s.pending| + 1 && e.value.nextId <= s.nextId + 1
  {
    hide Valid, Advance;
    AdvanceCloses(s, w.outcome, w.now.value);
    ProbeMoves(s, w.outcome, w.now.value);
  }

  lemma SmallFits(s: Status)
    requires Valid(s) && Encodable(s) && |s.pending| <= BACKLOG && s.nextId < Text.Power10(18)
    ensures Fits(s)
  {
    hide Valid, Encodable, Document, JsonTree.Print, JsonTree.Plain, Text.Power10;
    BacklogFits(s);
  }

  /** What a cycle without faults leaves durable. */
  function Settled(a: Status): Result<Status, Error>
    requires Valid(a)
  {
    if a.pending == [] then Ok(a) else Acknowledge(a, a.pending[0].id)
  }

  lemma NothingFails(s: Status, w: World)
    requires Valid(s) && Benign(w) && Evaluation(s, w).Ok? && Valid(Evaluation(s, w).value)
    requires var k := Settled(Evaluation(s, w).value); k.Ok? && Valid(k.value) && Fits(k.value)
    requires Fits(Evaluation(s, w).value)
    ensures Cycle(s, w).completed && Cycle(s, w).durable == Settled(Evaluation(s, w).value).value
  {
    hide Valid, Evaluation, Acknowledge, Fits;
  }

  lemma SettledIsSmaller(a: Status, w: World)
    requires Valid(a) && Encodable(a) && NotBefore(a, w)
    ensures var k := Settled(a);
            && k.Ok? && Valid(k.value) && Encodable(k.value) && NotBefore(k.value, w)
            && k.value.nextId == a.nextId && |k.value.pending| == if a.pending == [] then 0 else |a.pending| - 1
  {
    hide Valid, Encodable, Acknowledge;
    if a.pending != [] {
      AcknowledgeCloses(a, a.pending[0].id);
      AcknowledgedIsEncodable(a);
    }
  }

  /** A benign cycle on a small enough backlog completes, and leaves no larger a backlog. */
  lemma BenignCycleCompletes(s: Status, w: World)
    requires Valid(s) && Encodable(s) && Benign(w) && NotBefore(s, w)
    requires |s.pending| < BACKLOG && s.nextId + 1 < Text.Power10(18)
    ensures Cycle(s, w).completed
    ensures var t := Cycle(s, w).durable;
            Encodable(t) && |t.pending| <= |s.pending| && t.nextId <= s.nextId + 1 && NotBefore(t, w)
  {
    hide Valid, Encodable, Evaluation, Settled, Fits, Cycle, Text.Power10, NotBefore;
    BenignEvaluation(s, w);
    EvaluationIsEncodable(s, w);
    var a := Evaluation(s, w).value;
    SettledIsSmaller(a, w);
    SmallFits(a);
    SmallFits(Settled(a).value);
    NothingFails(s, w);
  }

  predicate InOrder(worlds: seq<World>) {
    forall i, j | 0 <= i < j < |worlds| ::
      worlds[i].now.Some? && worlds[j].now.Some? ==> worlds[i].now.value <= worlds[j].now.value
  }

  predicate AllBenign(worlds: seq<World>) {
    forall i | 0 <= i < |worlds| :: Benign(worlds[i])
  }

  lemma {:induction false} BenignCyclesComplete(s: Status, worlds: seq<World>)
    requires Valid(s) && Encodable(s) && AllBenign(worlds) && InOrder(worlds)
    requires worlds != [] ==> NotBefore(s, worlds[0])
    requires |s.pending| < BACKLOG && s.nextId + |worlds| < Text.Power10(18)
    ensures AllCompleted(s, worlds)
    decreases |worlds|
  {
    hide Valid, Encodable, Cycle, Text.Power10;
    if worlds != [] {
      BenignCycleCompletes(s, worlds[0]);
      BenignCyclesComplete(Cycle(s, worlds[0]).durable, worlds[1..]);
    }
  }

  /** While nothing fails and the clock does not go back, a backlog of p < 7000 is gone at the end of one of
      the first ceil(5p/4) cycles. */
  lemma BenignCyclesDrain(s: Status, worlds: seq<World>)
    requires Valid(s) && Encodable(s) && AllBenign(worlds) && InOrder(worlds)
    requires worlds != [] && NotBefore(s, worlds[0])
    requires 0 < |s.pending| < BACKLOG && s.nextId + |worlds| < Text.Power10(18)
    requires |worlds| >= (5 * |s.pending| + 3) / 4
    ensures exists k | 1 <= k <= |worlds| :: After(s, worlds[..k]).pending == []
  {
    hide Valid, Encodable, After, AllCompleted, Text.Power10;
    BenignCyclesComplete(s, worlds);
    CompletedCyclesDrain(s, worlds);
  }

  // ---- outages are apart, whatever fails ----

  lemma CycleApproaches(s: Status, w: World)
    requires Valid(s)
    ensures var t := Cycle(s, w).durable;
            && DeadManDrain.Distance(t) >= DeadManDrain.Distance(s) - 1
            && (s.state != DOWN && t.state == DOWN ==> DeadManDrain.Distance(s) == 1 && DeadManDrain.Distance(t) == 5)
  {
    CycleLeaves(s, w);
    EvaluationIsValid(s, w);
    hide Cycle, Acknowledge;
    if Evaluation(s, w).Ok? {
      var a := Evaluation(s, w).value;
      DeadManDrain.AdvanceApproaches(s, w.outcome, w.now.value);
      hide Valid, Advance, Evaluation;
      if a.pending != [] {
        AcknowledgeCloses(a, a.pending[0].id);
      }
    }
  }

  lemma {:induction false} CyclesApproach(s: Status, worlds: seq<World>)
    requires Valid(s)
    ensures DeadManDrain.Distance(After(s, worlds)) >= DeadManDrain.Distance(s) - |worlds|
    decreases |worlds|
  {
    hide Cycle, Valid, DeadManDrain.Distance;
    if worlds != [] {
      CycleApproaches(s, worlds[0]);
      CyclesApproach(Cycle(s, worlds[0]).durable, worlds[1..]);
    }
  }

  /** From a cycle that durably confirmed an outage to the next one that does, at least five cycles pass,
      whatever is observed and whatever fails. */
  lemma OutagesAreApart(s: Status, first: World, between: seq<World>, next: World)
    requires Valid(s) && s.state != DOWN && Cycle(s, first).durable.state == DOWN
    requires var t := After(Cycle(s, first).durable, between); t.state != DOWN && Cycle(t, next).durable.state == DOWN
    ensures |between + [next]| >= 5
  {
    hide Cycle, After, Valid;
    CycleApproaches(s, first);
    CyclesApproach(Cycle(s, first).durable, between);
    CycleApproaches(After(Cycle(s, first).durable, between), next);
  }
}
