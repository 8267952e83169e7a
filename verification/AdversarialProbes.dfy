/**
 The counting probes of adversarial_probes.py and where they sit in the two
 hypothesis classes: running majority is computed by a one-state counter machine and
 by no Mealy machine of any size; a count threshold t needs exactly t + 1 states;
 parity needs exactly two.
 */
module AdversarialProbes {
  import opened Prelude
  import opened RuleAutomata
  import opened CounterMachines

  function CountOf(w: Word, y: nat): nat {
    if w == [] then 0 else CountOf(w[..|w| - 1], y) + if w[|w| - 1] == y then 1 else 0
  }

  /** How far `first` leads `second`. */
  function Balance(w: Word, first: nat, second: nat): int {
    CountOf(w, first) - CountOf(w, second)
  }

  /** `running_majority`: pressed while one symbol has occurred strictly more often. */
  function MajorityBit(w: Word, first: nat, second: nat): nat {
    if Balance(w, first, second) > 0 then 1 else 0
  }

  /** `count_threshold`: pressed once enough copies have been seen. */
  function ThresholdBit(w: Word, symbol: nat, threshold: nat): nat {
    if CountOf(w, symbol) >= threshold then 1 else 0
  }

  /** `count_parity`: pressed on an odd count. */
  function ParityBit(w: Word, symbol: nat): nat {
    CountOf(w, symbol) % 2
  }

  method RunningMajority(first: nat, second: nat, symbols: Word) returns (produced: seq<nat>)
    ensures |produced| == |symbols|
    ensures forall i :: 0 <= i < |symbols| ==> produced[i] == MajorityBit(symbols[..i + 1], first, second)
  {
    var balance: int := 0;
    produced := [];
    for i := 0 to |symbols|
      invariant balance == Balance(symbols[..i], first, second)
      invariant |produced| == i
      invariant forall k :: 0 <= k < i ==> produced[k] == MajorityBit(symbols[..k + 1], first, second)
    {
      var w := symbols[..i + 1];
      assert w[..|w| - 1] == symbols[..i];
      balance := balance + (if symbols[i] == first then 1 else 0) - (if symbols[i] == second then 1 else 0);
      assert balance == Balance(w, first, second);
      produced := produced + [if balance > 0 then 1 else 0];
    }
  }

  method CountThreshold(symbol: nat, threshold: nat, symbols: Word) returns (produced: seq<nat>)
    ensures |produced| == |symbols|
    ensures forall i :: 0 <= i < |symbols| ==> produced[i] == ThresholdBit(symbols[..i + 1], symbol, threshold)
  {
    var seen: nat := 0;
    produced := [];
    for i := 0 to |symbols|
      invariant seen == CountOf(symbols[..i], symbol)
      invariant |produced| == i
      invariant forall k :: 0 <= k < i ==> produced[k] == ThresholdBit(symbols[..k + 1], symbol, threshold)
    {
      var w := symbols[..i + 1];
      assert w[..|w| - 1] == symbols[..i];
      seen := seen + if symbols[i] == symbol then 1 else 0;
      assert seen == CountOf(w, symbol);
      produced := produced + [if seen >= threshold then 1 else 0];
    }
  }

  // ------------------------------------------------------------------ repeated symbols

  function Repeat(y: nat, n: nat): (w: Word)
    ensures |w| == n
    ensures forall i :: 0 <= i < n ==> w[i] == y
  {
    seq(n, _ => y)
  }

  lemma {:induction false} CountAppend(u: Word, v: Word, y: nat)
    ensures CountOf(u + v, y) == CountOf(u, y) + CountOf(v, y)
    decreases |v|
  {
    if v == [] {
      assert u + v == u;
    } else {
      CountAppend(u, v[..|v| - 1], y);
      assert (u + v)[..|u + v| - 1] == u + v[..|v| - 1];
    }
  }

  lemma {:induction false} CountRepeat(z: nat, n: nat, y: nat)
    ensures CountOf(Repeat(z, n), y) == if z == y then n else 0
    decreases n
  {
    if n > 0 {
      assert Repeat(z, n)[..n - 1] == Repeat(z, n - 1);
      CountRepeat(z, n - 1, y);
    }
  }

  /** Among more repetitions of a symbol than there are states, two land in the same state. */
  lemma RepetitionsCollide(m: RuleAutomaton, y: nat, n: nat) returns (i: nat, j: nat)
    requires m.Valid() && y < m.symbolCount && m.StateCount() <= n
    ensures i < j <= n
    ensures Reach(m, 0, Repeat(y, i)) == Reach(m, 0, Repeat(y, j))
  {
    var landing := seq(n + 1, k requires 0 <= k < n + 1 => Reach(m, 0, Repeat(y, k)));
    i, j := Pigeonhole(landing, m.StateCount());
    assert landing[i] == landing[j];
  }

  /** Words that reach the same state get the same answer after any common continuation. */
  lemma SameStateSameAnswer(m: RuleAutomaton, u: Word, v: Word, w: Word)
    requires m.Valid() && InAlphabet(u, m.symbolCount) && InAlphabet(v, m.symbolCount) && InAlphabet(w, m.symbolCount)
      && |w| > 0
    requires Reach(m, 0, u) == Reach(m, 0, v)
    ensures InAlphabet(u + w, m.symbolCount) && InAlphabet(v + w, m.symbolCount)
    ensures Emit(m, u + w) == Emit(m, v + w)
  {
    EmitAppend(m, 0, u, w);
    EmitAppend(m, 0, v, w);
  }

  // ------------------------------------------------------------------ running majority

  /** No Mealy machine of any size computes the running majority of two different symbols. */
  lemma MajorityIsNotFiniteState(m: RuleAutomaton, first: nat, second: nat) returns (w: Word)
    requires m.Valid() && first < m.symbolCount && second < m.symbolCount && first != second
    ensures |w| > 0 && InAlphabet(w, m.symbolCount)
    ensures Emit(m, w) != MajorityBit(w, first, second)
  {
    var i, j := RepetitionsCollide(m, first, m.StateCount());
    var tail := Repeat(first, 1) + Repeat(second, i + 1);
    var u, v := Repeat(first, i) + tail, Repeat(first, j) + tail;
    TailBalance(first, second, i, i + 1);
    TailBalance(first, second, j, i + 1);
    SameStateSameAnswer(m, Repeat(first, i), Repeat(first, j), tail);
    w := if Emit(m, u) != MajorityBit(u, first, second) then u else v;
  }

  lemma TailBalance(first: nat, second: nat, k: nat, n: nat)
    requires first != second
    ensures Balance(Repeat(first, k) + (Repeat(first, 1) + Repeat(second, n)), first, second) == k + 1 - n
  {
    var tail := Repeat(first, 1) + Repeat(second, n);
    CountAppend(Repeat(first, k), tail, first);
    CountAppend(Repeat(first, k), tail, second);
    CountAppend(Repeat(first, 1), Repeat(second, n), first);
    CountAppend(Repeat(first, 1), Repeat(second, n), second);
    CountRepeat(first, k, first);
    CountRepeat(first, k, second);
    CountRepeat(first, 1, first);
    CountRepeat(first, 1, second);
    CountRepeat(second, n, first);
    CountRepeat(second, n, second);
  }

  /**
   One control state: count up on one symbol and down on the other, and answer by whether the
   count is zero, positive or negative.
   */
  function BalanceMachine(symbolCount: nat, first: nat, second: nat, answers: seq<nat>): CounterMachine {
    CounterMachine(
      symbolCount,
      [seq(symbolCount, _ => 0)],
      [seq(symbolCount, y => if y == first then 1 else if y == second then -1 else 0)],
      [seq(symbolCount, _ => answers)])
  }

  lemma {:induction false} BalanceConfig(symbolCount: nat, first: nat, second: nat, answers: seq<nat>, w: Word)
    requires first != second && InAlphabet(w, symbolCount) && |answers| == 3
    ensures BalanceMachine(symbolCount, first, second, answers).Valid()
    ensures ConfigAfter(BalanceMachine(symbolCount, first, second, answers), w) == Config(0, Balance(w, first, second))
    decreases |w|
  {
    if w != [] {
      BalanceConfig(symbolCount, first, second, answers, w[..|w| - 1]);
    }
  }

  /**
   What the three outputs of a cell are for, over counts: one control state tells apart a tie
   of the two symbols, the first leading, and the second leading, on every stream.
   */
  lemma OutputsByCounts(symbolCount: nat, first: nat, second: nat, answers: seq<nat>, w: Word)
    requires first != second && InAlphabet(w, symbolCount) && |answers| == 3 && |w| > 0
    ensures var m := BalanceMachine(symbolCount, first, second, answers);
      && m.Valid() && m.StateCount() == 1
      && (CountOf(w, first) == CountOf(w, second) ==> EmitCounter(m, w) == answers[0])
      && (CountOf(w, first) > CountOf(w, second) ==> EmitCounter(m, w) == answers[1])
      && (CountOf(w, first) < CountOf(w, second) ==> EmitCounter(m, w) == answers[2])
  {
    BalanceConfig(symbolCount, first, second, answers, w[..|w| - 1]);
  }

  /** Press on a positive count. */
  function MajorityMachine(symbolCount: nat, first: nat, second: nat): CounterMachine {
    BalanceMachine(symbolCount, first, second, [0, 1, 0])
  }

  /** A single-state counter machine computes it on every stream. */
  lemma MajorityIsOneCounter(symbolCount: nat, first: nat, second: nat, w: Word)
    requires first != second && InAlphabet(w, symbolCount) && |w| > 0
    ensures var m := MajorityMachine(symbolCount, first, second);
      m.Valid() && m.StateCount() == 1 && EmitCounter(m, w) == MajorityBit(w, first, second)
  {
    OutputsByCounts(symbolCount, first, second, [0, 1, 0], w);
  }

  // ------------------------------------------------------------- Mealy within one-counter

  /** A Mealy machine as a counter machine that never moves its counter. */
  function Embedded(m: RuleAutomaton): CounterMachine
    requires m.Valid()
  {
    CounterMachine(
      m.symbolCount,
      m.transitions,
      seq(m.StateCount(), _ => seq(m.symbolCount, _ => 0)),
      seq(m.StateCount(), s requires 0 <= s < m.StateCount() =>
        seq(m.symbolCount, y requires 0 <= y < m.symbolCount => [m.outputs[s][y], m.outputs[s][y], m.outputs[s][y]])))
  }

  lemma {:induction false} EmbeddedConfig(m: RuleAutomaton, w: Word)
    requires m.Valid() && InAlphabet(w, m.symbolCount)
    ensures Embedded(m).Valid() && Embedded(m).StateCount() == m.StateCount()
    ensures ConfigAfter(Embedded(m), w) == Config(Reach(m, 0, w), 0)
    decreases |w|
  {
    if w != [] {
      EmbeddedConfig(m, w[..|w| - 1]);
    }
  }

  /** The counter class contains the finite-state class. */
  lemma EveryMealyMachineIsACounterMachine(m: RuleAutomaton, w: Word)
    requires m.Valid() && InAlphabet(w, m.symbolCount) && |w| > 0
    ensures Embedded(m).Valid() && Embedded(m).StateCount() == m.StateCount()
    ensures EmitCounter(Embedded(m), w) == Emit(m, w)
  {
    EmbeddedConfig(m, w[..|w| - 1]);
  }

  // ------------------------------------------------------------------- count threshold

  ghost predicate ComputesThreshold(m: RuleAutomaton, symbol: nat, threshold: nat)
    requires m.Valid()
  {
    forall w: Word :: InAlphabet(w, m.symbolCount) && |w| > 0 ==> Emit(m, w) == ThresholdBit(w, symbol, threshold)
  }

  /** State s has seen s copies, saturating at the threshold. */
  function ThresholdMachine(symbolCount: nat, symbol: nat, threshold: nat): RuleAutomaton {
    RuleAutomaton(
      symbolCount,
      seq(threshold + 1, s requires 0 <= s < threshold + 1 =>
        seq(symbolCount, y requires 0 <= y < symbolCount => if y == symbol && s < threshold then s + 1 else s)),
      seq(threshold + 1, s requires 0 <= s < threshold + 1 =>
        seq(symbolCount, y requires 0 <= y < symbolCount =>
          if s + (if y == symbol then 1 else 0) >= threshold then 1 else 0)),
      2)
  }

  lemma ThresholdCells(symbolCount: nat, symbol: nat, threshold: nat)
    requires symbolCount >= 2
    ensures var m := ThresholdMachine(symbolCount, symbol, threshold);
      && m.Valid() && m.StateCount() == threshold + 1 && m.symbolCount == symbolCount
      && forall s, y :: 0 <= s <= threshold && 0 <= y < symbolCount ==>
        m.transitions[s][y] == if y == symbol && s < threshold then s + 1 else s
  {
  }

  lemma {:induction false} ThresholdReach(symbolCount: nat, symbol: nat, threshold: nat, w: Word)
    requires symbolCount >= 2 && InAlphabet(w, symbolCount)
    ensures ThresholdMachine(symbolCount, symbol, threshold).Valid()
    ensures Reach(ThresholdMachine(symbolCount, symbol, threshold), 0, w) == Min(CountOf(w, symbol), threshold)
    decreases |w|
  {
    hide ThresholdMachine, RuleAutomaton.Valid;
    ThresholdCells(symbolCount, symbol, threshold);
    if w != [] {
      ThresholdReach(symbolCount, symbol, threshold, w[..|w| - 1]);
    }
  }

  /** t + 1 states suffice for threshold t. */
  lemma ThresholdSuffices(symbolCount: nat, symbol: nat, threshold: nat)
    requires symbolCount >= 2
    ensures var m := ThresholdMachine(symbolCount, symbol, threshold);
      m.Valid() && m.StateCount() == threshold + 1 && ComputesThreshold(m, symbol, threshold)
  {
    var m := ThresholdMachine(symbolCount, symbol, threshold);
    ThresholdReach(symbolCount, symbol, threshold, []);
    forall w: Word | InAlphabet(w, symbolCount) && |w| > 0
      ensures Emit(m, w) == ThresholdBit(w, symbol, threshold)
    {
      ThresholdReach(symbolCount, symbol, threshold, w[..|w| - 1]);
    }
  }

  lemma TailCount(symbol: nat, other: nat, k: nat, n: nat)
    requires symbol != other
    ensures CountOf(Repeat(symbol, k) + (Repeat(symbol, n) + [other]), symbol) == k + n
  {
    var tail := Repeat(symbol, n) + [other];
    CountAppend(Repeat(symbol, k), tail, symbol);
    CountAppend(Repeat(symbol, n), [other], symbol);
    CountRepeat(symbol, k, symbol);
    CountRepeat(symbol, n, symbol);
    assert [other][..0] == [];
  }

  /** After i < j copies, this continuation is pressed for j and not for i. */
  lemma ThresholdSeparates(m: RuleAutomaton, symbol: nat, other: nat, threshold: nat, i: nat, j: nat)
    requires m.Valid() && symbol < m.symbolCount && other < m.symbolCount && symbol != other
    requires ComputesThreshold(m, symbol, threshold) && i < j <= threshold
    ensures var tail := Repeat(symbol, threshold - j) + [other];
      && InAlphabet(tail, m.symbolCount)
      && InAlphabet(Repeat(symbol, i) + tail, m.symbolCount) && InAlphabet(Repeat(symbol, j) + tail, m.symbolCount)
      && Emit(m, Repeat(symbol, i) + tail) == 0 && Emit(m, Repeat(symbol, j) + tail) == 1
  {
    hide Reach, EmitFrom, Emit, CountOf;
    TailCount(symbol, other, i, threshold - j);
    TailCount(symbol, other, j, threshold - j);
  }

  /** Over an alphabet with a second symbol, no machine with fewer states computes threshold t. */
  lemma ThresholdNeedsStates(m: RuleAutomaton, symbol: nat, threshold: nat)
    requires m.Valid() && symbol < m.symbolCount && ComputesThreshold(m, symbol, threshold)
    ensures m.StateCount() >= threshold + 1
  {
    hide Reach, EmitFrom, Emit, ComputesThreshold;
    if m.StateCount() <= threshold {
      var other := if symbol == 0 then 1 else 0;
      var i, j := RepetitionsCollide(m, symbol, threshold);
      ThresholdSeparates(m, symbol, other, threshold, i, j);
      SameStateSameAnswer(m, Repeat(symbol, i), Repeat(symbol, j), Repeat(symbol, threshold - j) + [other]);
    }
  }

  // ---------------------------------------------------------------------------- parity

  ghost predicate ComputesParity(m: RuleAutomaton, symbol: nat)
    requires m.Valid()
  {
    forall w: Word :: InAlphabet(w, m.symbolCount) && |w| > 0 ==> Emit(m, w) == ParityBit(w, symbol)
  }

  function ParityMachine(symbolCount: nat, symbol: nat): RuleAutomaton {
    var flip := (s: nat) => seq(symbolCount, y requires 0 <= y < symbolCount =>
      if y == symbol then 1 - s % 2 else s % 2);
    RuleAutomaton(symbolCount, [flip(0), flip(1)], [flip(0), flip(1)], 2)
  }

  lemma {:induction false} ParityReach(symbolCount: nat, symbol: nat, w: Word)
    requires symbolCount >= 2 && InAlphabet(w, symbolCount)
    ensures ParityMachine(symbolCount, symbol).Valid()
    ensures Reach(ParityMachine(symbolCount, symbol), 0, w) == ParityBit(w, symbol)
    decreases |w|
  {
    if w != [] {
      ParityReach(symbolCount, symbol, w[..|w| - 1]);
    }
  }

  /** Two states suffice for parity, however long the stream. */
  lemma ParitySuffices(symbolCount: nat, symbol: nat)
    requires symbolCount >= 2
    ensures var m := ParityMachine(symbolCount, symbol);
      m.Valid() && m.StateCount() == 2 && ComputesParity(m, symbol)
  {
    var parity := ParityMachine(symbolCount, symbol);
    ParityReach(symbolCount, symbol, []);
    forall w: Word | InAlphabet(w, symbolCount) && |w| > 0
      ensures Emit(parity, w) == ParityBit(w, symbol)
    {
      ParityReach(symbolCount, symbol, w[..|w| - 1]);
    }
  }

  lemma ParityOfRepeats(m: RuleAutomaton, symbol: nat, k: nat)
    requires m.Valid() && symbol < m.symbolCount && ComputesParity(m, symbol)
    ensures InAlphabet(Repeat(symbol, k) + Repeat(symbol, 1), m.symbolCount)
    ensures Emit(m, Repeat(symbol, k) + Repeat(symbol, 1)) == (k + 1) % 2
  {
    hide Reach, EmitFrom, Emit, CountOf;
    CountAppend(Repeat(symbol, k), Repeat(symbol, 1), symbol);
    CountRepeat(symbol, k, symbol);
    CountRepeat(symbol, 1, symbol);
  }

  /** One state does not. */
  lemma ParityNeedsTwoStates(m: RuleAutomaton, symbol: nat)
    requires m.Valid() && symbol < m.symbolCount && ComputesParity(m, symbol)
    ensures m.StateCount() >= 2
  {
    hide Reach, EmitFrom, Emit, ComputesParity;
    if m.StateCount() < 2 {
      var i, j := RepetitionsCollide(m, symbol, 1);
      ParityOfRepeats(m, symbol, i);
      ParityOfRepeats(m, symbol, j);
      SameStateSameAnswer(m, Repeat(symbol, i), Repeat(symbol, j), Repeat(symbol, 1));
    }
  }
}
