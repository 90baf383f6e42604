/** The hysteresis both monitors share, stated twice: as a counting machine that
    remembers two streaks, and without memory over the whole signal history. */
module Latch {
  /** What one observation says: evidence of loss, evidence of life, or neither. */
  datatype Signal = Lost | Alive | Neither

  /** A counting machine: `failures` counts outside DOWN, `successes` inside it. */
  datatype Memory = Memory(down: bool, failures: nat, successes: nat)

  const START := Memory(false, 0, 0)

  function Step(m: Memory, signal: Signal, confirm: nat, recover: nat): Memory {
    if m.down then
      if signal != Alive then Memory(true, 0, 0)
      else if m.successes + 1 >= recover then Memory(false, 0, 0)
      else Memory(true, 0, m.successes + 1)
    else if signal != Lost then Memory(false, 0, 0)
    else if m.failures + 1 >= confirm then Memory(true, 0, 0)
    else Memory(false, m.failures + 1, 0)
  }

  function Fold(history: seq<Signal>, confirm: nat, recover: nat): Memory {
    if history == [] then START
    else Step(Fold(history[..|history| - 1], confirm, recover), history[|history| - 1], confirm, recover)
  }

  /** Length of the longest suffix made of `signal` only. */
  function TrailingRun(history: seq<Signal>, signal: Signal): (n: nat)
    ensures n <= |history|
  {
    if history == [] || history[|history| - 1] != signal then 0
    else 1 + TrailingRun(history[..|history| - 1], signal)
  }

  /** Length of the longest prefix that ends in `n` consecutive `signal`s, 0 when there is none. */
  function LastConfirmed(history: seq<Signal>, signal: Signal, n: nat): (k: nat)
    ensures k <= |history|
  {
    if history == [] then 0
    else if TrailingRun(history, signal) >= n then |history|
    else LastConfirmed(history[..|history| - 1], signal, n)
  }

  /** The memory-free state: loss was confirmed more recently than recovery. */
  predicate Latched(history: seq<Signal>, confirm: nat, recover: nat) {
    LastConfirmed(history, Lost, confirm) > LastConfirmed(history, Alive, recover)
  }

  ghost predicate EndsIn(history: seq<Signal>, signal: Signal, n: nat) {
    n <= |history| && forall i | |history| - n <= i < |history| :: history[i] == signal
  }

  /** `TrailingRun` reaches `n` exactly when the last `n` signals are all `signal`. */
  lemma {:induction false} TrailingRunMeaning(history: seq<Signal>, signal: Signal, n: nat)
    ensures TrailingRun(history, signal) >= n <==> EndsIn(history, signal, n)
  {
    if history != [] && n > 0 {
      var shorter := history[..|history| - 1];
      TrailingRunMeaning(shorter, signal, n - 1);
      if history[|history| - 1] == signal {
        assert EndsIn(shorter, signal, n - 1) <==> EndsIn(history, signal, n);
      }
    }
  }

  /** `LastConfirmed` is the latest confirmed prefix: it is confirmed itself, and nothing longer is. */
  lemma {:induction false} LastConfirmedMeaning(history: seq<Signal>, signal: Signal, n: nat)
    requires n >= 1
    ensures var k := LastConfirmed(history, signal, n);
            && (k > 0 ==> EndsIn(history[..k], signal, n))
            && (forall i | k < i <= |history| :: !EndsIn(history[..i], signal, n))
  {
    if history != [] {
      TrailingRunMeaning(history, signal, n);
      assert history[..|history|] == history;
      var shorter := history[..|history| - 1];
      LastConfirmedMeaning(shorter, signal, n);
      forall i | 0 <= i <= |shorter|
        ensures shorter[..i] == history[..i]
      {}
    }
  }

  /** The counting machine computes the memory-free latch, and its counters are
      the trailing runs of the full history. */
  lemma {:induction false} FoldIsLatch(history: seq<Signal>, confirm: nat, recover: nat)
    requires confirm >= 1 && recover >= 1
    ensures Fold(history, confirm, recover) ==
            if Latched(history, confirm, recover) then Memory(true, 0, TrailingRun(history, Alive))
            else Memory(false, TrailingRun(history, Lost), 0)
    ensures TrailingRun(history, Lost) >= confirm ==> Latched(history, confirm, recover)
    ensures TrailingRun(history, Alive) >= recover ==> !Latched(history, confirm, recover)
  {
    if history != [] {
      FoldIsLatch(history[..|history| - 1], confirm, recover);
    }
  }
}
