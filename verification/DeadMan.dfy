/** The external dead-man state machine: debounce, durable notification queue,
    id allocation and the binding of the current outage to its DOWN intent.
    Aware datetimes are instants in microseconds. */
module DeadMan {
  import opened Common

  type Instant = int

  const DOWN_CONFIRMATIONS := 3
  const RECOVERY_CONFIRMATIONS := 2

  datatype State = UNKNOWN | UP | DOWN

  datatype Outcome = HEALTHY | FAILED

  datatype Kind = DownKind | RecoveredKind

  datatype Transition = Transition(from: State, to: State, at: Instant)

  datatype Notification = Notification(id: int, kind: Kind, transition: Transition)

  datatype CurrentDown = CurrentDown(id: int, acknowledged: bool)

  datatype Status = Status(
    state: State,
    failures: int,
    successes: int,
    changedAt: Option<Instant>,
    pending: seq<Notification>,
    nextId: int,
    current: Option<CurrentDown>)

  datatype Error = InvalidValue | ClockMovedBack | NothingPending | NotOldest

  const INITIAL := Status(UNKNOWN, 0, 0, None, [], 1, None)

  // ---- what a constructed value guarantees ----

  predicate ValidTransition(t: Transition) {
    (t.from, t.to) == (UNKNOWN, DOWN) || (t.from, t.to) == (UP, DOWN) || (t.from, t.to) == (DOWN, UP)
  }

  predicate ValidNotification(n: Notification) {
    && n.id >= 1
    && ValidTransition(n.transition)
    && (n.kind == DownKind <==> n.transition.to == DOWN)
    && (n.kind == RecoveredKind ==> n.id != 1)
  }

  predicate ValidStreaks(s: Status) {
    if s.state == DOWN then s.failures == 0 && 0 <= s.successes < RECOVERY_CONFIRMATIONS
    else s.successes == 0 && 0 <= s.failures < DOWN_CONFIRMATIONS
  }

  /** The queue is the newest stretch of the allocated ids 1, 2, ..., nextId - 1,
      and only its oldest entry may be a RECOVERED. */
  predicate ValidQueue(s: Status) {
    && s.nextId >= 1
    && |s.pending| < s.nextId
    && (forall i | 0 <= i < |s.pending| ::
          && ValidNotification(s.pending[i])
          && s.pending[i].id == s.nextId - |s.pending| + i
          && (i > 0 ==> s.pending[i].kind == DownKind))
  }

  predicate ValidAnchor(s: Status) {
    match s.changedAt
    case None => s.state == UNKNOWN && s.pending == [] && s.nextId == 1
    case Some(at) => s.state != UNKNOWN && forall n | n in s.pending :: n.transition.at <= at
  }

  /** DOWN is bound to the last allocated id: still the queue's tail, dated at the
      anchor, until acknowledged; nothing is pending afterwards. */
  predicate ValidBinding(s: Status)
    requires ValidQueue(s) && ValidAnchor(s)
  {
    if s.state != DOWN then s.current == None
    else
      && s.current.Some?
      && s.current.value.id == s.nextId - 1 >= 1
      && s.current.value.acknowledged == (s.pending == [])
      && (s.pending != [] ==>
            var tail := s.pending[|s.pending| - 1];
            tail.kind == DownKind && tail.transition.at == s.changedAt.value)
  }

  predicate Valid(s: Status) {
    ValidStreaks(s) && ValidQueue(s) && ValidAnchor(s) && ValidBinding(s)
  }

  // ---- construction: every value passes its checks or is refused ----

  function MakeNotification(n: Notification): Result<Notification, Error> {
    if ValidNotification(n) then Ok(n) else Err(InvalidValue)
  }

  function MakeStatus(s: Status): Result<Status, Error> {
    if Valid(s) then Ok(s) else Err(InvalidValue)
  }

  // ---- one classified probe ----

  function AdvanceSuccess(s: Status, now: Instant): Result<Status, Error>
    requires Valid(s)
  {
    if s.state == UNKNOWN then
      MakeStatus(s.(state := UP, failures := 0, successes := 0, changedAt := Some(now)))
    else if s.state == UP then
      MakeStatus(s.(failures := 0, successes := 0))
    else if s.successes + 1 < RECOVERY_CONFIRMATIONS then
      MakeStatus(s.(failures := 0, successes := s.successes + 1))
    else if !s.current.value.acknowledged then
      MakeStatus(Status(UP, 0, 0, Some(now), s.pending, s.nextId, None))
    else
      var recovered :- MakeNotification(Notification(s.nextId, RecoveredKind, Transition(DOWN, UP, now)));
      MakeStatus(Status(UP, 0, 0, Some(now), s.pending + [recovered], s.nextId + 1, None))
  }

  function AdvanceFailure(s: Status, now: Instant): Result<Status, Error>
    requires Valid(s)
  {
    if s.state == DOWN then
      MakeStatus(s.(failures := 0, successes := 0))
    else if s.failures + 1 < DOWN_CONFIRMATIONS then
      MakeStatus(s.(failures := s.failures + 1, successes := 0))
    else
      var intent :- MakeNotification(Notification(s.nextId, DownKind, Transition(s.state, DOWN, now)));
      MakeStatus(Status(DOWN, 0, 0, Some(now), s.pending + [intent], s.nextId + 1,
                        Some(CurrentDown(s.nextId, false))))
  }

  function Advance(s: Status, outcome: Outcome, now: Instant): Result<Status, Error>
    requires Valid(s)
  {
    if s.changedAt.Some? && now < s.changedAt.value then Err(ClockMovedBack)
    else if outcome == HEALTHY then AdvanceSuccess(s, now)
    else AdvanceFailure(s, now)
  }

  /** Acknowledgement is by id and oldest-first. */
  function Acknowledge(s: Status, id: int): Result<Status, Error>
    requires Valid(s)
  {
    if id < 1 then Err(InvalidValue)
    else if s.pending == [] then Err(NothingPending)
    else if id != s.pending[0].id then Err(NotOldest)
    else
      var marked := if s.current.Some? && s.current.value.id == id
                    then Some(s.current.value.(acknowledged := true)) else s.current;
      MakeStatus(s.(pending := s.pending[1..], current := marked))
  }

  // ---- the checks as the constructor performs them ----

  /** Strictly increasing integers whose span equals their count have no holes. */
  lemma {:induction false} NoHoles(ids: seq<int>, i: nat)
    requires i < |ids|
    requires forall j | 0 < j < |ids| :: ids[j - 1] < ids[j]
    requires ids[|ids| - 1] - ids[0] == |ids| - 1
    ensures ids[i] == ids[0] + i
  {
    Climbs(ids, 0, i);
    Climbs(ids, i, |ids| - 1);
  }

  lemma {:induction false} Climbs(ids: seq<int>, i: nat, j: nat)
    requires i <= j < |ids|
    requires forall k | 0 < k < |ids| :: ids[k - 1] < ids[k]
    ensures ids[j] >= ids[i] + (j - i)
    decreases j - i
  {
    if i < j {
      Climbs(ids, i, j - 1);
    }
  }

  lemma AnchoredIds(s: Status)
    requires s.pending != [] && forall j | 0 < j < |s.pending| :: s.pending[j - 1].id < s.pending[j].id
    requires s.pending[|s.pending| - 1].id == s.nextId - 1 && s.pending[0].id == s.nextId - |s.pending|
    ensures forall i | 0 <= i < |s.pending| :: s.pending[i].id == s.nextId - |s.pending| + i
  {
    var ids := seq(|s.pending|, i requires 0 <= i < |s.pending| => s.pending[i].id);
    forall i | 0 <= i < |s.pending|
      ensures s.pending[i].id == s.nextId - |s.pending| + i
    {
      NoHoles(ids, i);
    }
  }

  /** The constructor's own order of checks: ids strictly increasing, tail anchored at
      the allocator, head where the length puts it, then grammar, ledger time,
      UNKNOWN and the outage binding. Together they decide exactly `Valid`. */
  method CheckStatus(s: Status) returns (accepted: bool)
    requires forall i | 0 <= i < |s.pending| :: ValidNotification(s.pending[i])
    requires s.current.Some? ==> s.current.value.id >= 1
    ensures accepted <==> Valid(s)
  {
    if s.failures < 0 || s.successes < 0 { return false; }
    if s.state == DOWN {
      if s.failures != 0 || s.successes >= RECOVERY_CONFIRMATIONS { return false; }
    } else if s.successes != 0 || s.failures >= DOWN_CONFIRMATIONS { return false; }

    var previous: Option<int> := None;
    for i := 0 to |s.pending|
      invariant previous == if i == 0 then None else Some(s.pending[i - 1].id)
      invariant forall j | 0 < j < i :: s.pending[j - 1].id < s.pending[j].id
    {
      if previous.Some? && s.pending[i].id <= previous.value {
        assert !ValidQueue(s);
        return false;
      }
      previous := Some(s.pending[i].id);
    }
    if s.nextId < 1 { return false; }
    if s.pending != [] {
      var tail := s.pending[|s.pending| - 1].id;
      if tail != s.nextId - 1 { return false; }
      if s.pending[0].id != tail - |s.pending| + 1 { return false; }
      AnchoredIds(s);
      assert s.pending[0] in s.pending;
    }
    for i := 0 to |s.pending|
      invariant forall j | 0 < j < i :: s.pending[j].kind == DownKind
    {
      if i > 0 && s.pending[i].kind == RecoveredKind { return false; }
    }
    assert ValidQueue(s);
    if s.changedAt.Some? {
      for i := 0 to |s.pending|
        invariant forall j | 0 <= j < i :: s.pending[j].transition.at <= s.changedAt.value
      {
        if s.pending[i].transition.at > s.changedAt.value {
          assert s.pending[i] in s.pending;
          return false;
        }
      }
    } else if s.state != UNKNOWN { return false; }
    if s.state == UNKNOWN && (s.changedAt.Some? || s.pending != [] || s.nextId != 1) { return false; }
    assert ValidAnchor(s);
    if s.state != DOWN { return s.current.None?; }
    if s.current.None? { return false; }
    if s.current.value.id != s.nextId - 1 { return false; }
    if s.current.value.acknowledged { return s.pending == []; }
    if s.pending == [] { return false; }
    var last := s.pending[|s.pending| - 1];
    if last.id != s.current.value.id { return false; }
    if last.kind != DownKind { return false; }
    return s.changedAt.Some? && last.transition.at == s.changedAt.value;
  }

  // ---- closure ----

  /** A probe never fails construction: the only refusal is a clock before the anchor. */
  lemma AdvanceCloses(s: Status, outcome: Outcome, now: Instant)
    requires Valid(s)
    ensures Advance(s, outcome, now).Ok? <==> (s.changedAt.Some? ==> s.changedAt.value <= now)
    ensures Advance(s, outcome, now).Ok? ==> Valid(Advance(s, outcome, now).value)
    ensures Advance(s, outcome, now).Err? ==> Advance(s, outcome, now).error == ClockMovedBack
  {
    assert forall n | n in s.pending :: s.changedAt.Some? && n.transition.at <= s.changedAt.value;
  }

  /** Acknowledgement succeeds for the head id and for no other. */
  lemma AcknowledgeCloses(s: Status, id: int)
    requires Valid(s)
    ensures Acknowledge(s, id).Ok? <==> s.pending != [] && id == s.pending[0].id
    ensures Acknowledge(s, id).Ok? ==>
              var t := Acknowledge(s, id).value;
              && Valid(t)
              && t.pending == s.pending[1..]
              && (t.state, t.failures, t.successes, t.changedAt, t.nextId)
                 == (s.state, s.failures, s.successes, s.changedAt, s.nextId)
              && (s.state == DOWN ==> t.current.value.acknowledged == (id == s.current.value.id))
  {
    if s.pending != [] && id == s.pending[0].id {
      assert ValidNotification(s.pending[0]);
      assert forall n | n in s.pending[1..] :: n in s.pending;
    }
  }

  /** Entering DOWN appends exactly one DOWN bound to its id, leaving DOWN appends exactly one
      RECOVERED if and only if that outage's DOWN was acknowledged, and nothing else touches
      the queue, the allocator, the anchor or the binding. */
  predicate Moves(s: Status, t: Status, now: Instant) {
    if s.state != DOWN && t.state == DOWN then
      && t.pending == s.pending + [Notification(s.nextId, DownKind, Transition(s.state, DOWN, now))]
      && (t.nextId, t.changedAt, t.current) == (s.nextId + 1, Some(now), Some(CurrentDown(s.nextId, false)))
    else if s.state == DOWN && t.state == UP && s.current.Some? && s.current.value.acknowledged then
      && t.pending == s.pending + [Notification(s.nextId, RecoveredKind, Transition(DOWN, UP, now))]
      && (t.nextId, t.changedAt, t.current) == (s.nextId + 1, Some(now), None)
    else
      && (t.pending, t.nextId) == (s.pending, s.nextId)
      && t.changedAt == (if t.state == s.state then s.changedAt else Some(now))
      && t.current == (if t.state == s.state then s.current else None)
      && (t.state == UNKNOWN ==> s.state == UNKNOWN)
  }

  lemma ProbeMoves(s: Status, outcome: Outcome, now: Instant)
    requires Valid(s) && Advance(s, outcome, now).Ok?
    ensures Moves(s, Advance(s, outcome, now).value, now)
  {}
}
