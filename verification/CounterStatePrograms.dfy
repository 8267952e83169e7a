/**
 Press/no-press rules as counter programs (counter_state_programs.py), with an
 arbitrary map from symbols to input channels, and the rewriting of a rule into
 channel names (`in_cluster_symbols`, compositional_transfer.py).
 */
module CounterStatePrograms {
  import opened Prelude
  import opened RuleAutomata
  import opened ControlFlow
  import opened CounterAssembly
  import opened TickSimulation
  import opened TickDriver

  /** Counter 0 is the press, then one input channel per cluster, then 2 working counters per state. */
  function RulePlan(m: RuleAutomaton, channelOf: seq<nat>, clusterCount: nat): Plan
    requires m.Valid() && |channelOf| == m.symbolCount
  {
    Plan(
      1 + clusterCount,
      seq(m.symbolCount, y requires 0 <= y < m.symbolCount => 1 + channelOf[y]),
      seq(m.StateCount(), s requires 0 <= s < m.StateCount() =>
        seq(m.symbolCount, y requires 0 <= y < m.symbolCount => if m.outputs[s][y] != 0 then Some(0) else None)),
      m.transitions)
  }

  lemma RulePlanFits(m: RuleAutomaton, channelOf: seq<nat>, clusterCount: nat)
    requires m.Valid() && |channelOf| == m.symbolCount
    ensures RulePlan(m, channelOf, clusterCount).Shaped()
    ensures Implements(RulePlan(m, channelOf, clusterCount), m, 1, clusterCount, channelOf)
  {
  }

  /**
   `compile_rule`: the exceptions are an invalid rule, a map of the wrong length, no input
   channel, and a channel whose counter does not exist.
   */
  method CompileRule(m: RuleAutomaton, channelOf: seq<nat>, clusterCount: nat) returns (r: Result<Program>)
    ensures r.Success? <==>
      && m.Valid() && |channelOf| == m.symbolCount && clusterCount >= 1
      && forall y :: 0 <= y < |channelOf| ==> channelOf[y] < clusterCount + 2 * m.StateCount()
    ensures r.Success? ==>
      && RulePlan(m, channelOf, clusterCount).Shaped()
      && r.value == Assembled(RulePlan(m, channelOf, clusterCount)) && r.value.Valid()
      && r.value.counterCount == 1 + clusterCount + 2 * m.StateCount()
  {
    if !m.Valid() {
      return Failure("invalid rule automaton");
    }
    if |channelOf| != m.symbolCount {
      return Failure("symbol-to-channel map does not cover the alphabet");
    }
    if clusterCount < 1 {
      return Failure("a counter layout needs inputs and working state");
    }
    hide Program.Valid;
    RulePlanFits(m, channelOf, clusterCount);
    var program := Assemble(RulePlan(m, channelOf, clusterCount));
    RuleProgramValid(m, channelOf, clusterCount);
    if !program.Valid() {
      return Failure("conditional jump has an invalid counter");
    }
    return Success(program);
  }

  lemma RuleProgramValid(m: RuleAutomaton, channelOf: seq<nat>, clusterCount: nat)
    requires m.Valid() && |channelOf| == m.symbolCount && RulePlan(m, channelOf, clusterCount).Shaped()
    ensures Assembled(RulePlan(m, channelOf, clusterCount)).Valid()
      <==> forall y :: 0 <= y < |channelOf| ==> channelOf[y] < clusterCount + 2 * m.StateCount()
  {
    var plan := RulePlan(m, channelOf, clusterCount);
    if forall y :: 0 <= y < |channelOf| ==> channelOf[y] < clusterCount + 2 * m.StateCount() {
      AssembledValid(plan);
    } else {
      var y :| 0 <= y < |channelOf| && channelOf[y] >= clusterCount + 2 * m.StateCount();
      GuardBeyondCounters(plan, y);
    }
  }

  /** A block whose input counter does not exist makes the program invalid. */
  lemma GuardBeyondCounters(plan: Plan, y: nat)
    requires plan.Shaped() && y < plan.Symbols() && plan.input[y] >= plan.CounterCount()
    ensures !Assembled(plan).Valid()
  {
    var p := Assembled(plan);
    var blocks := RowsCode(plan, plan.States());
    HasAll(p);
    HasPart(p, 0, blocks, TailCode(plan, |blocks|));
    BlockPlaced(p, plan, 0, y);
    HasAt(p, Start(plan, 0, y), plan.At(0, y).Code(Start(plan, 0, y)), 1);
    assert !p.instructions[Start(plan, 0, y) + 1].Valid(p.counterCount, |p.instructions|);
  }

  /** `initial_counters`: start in state zero. */
  function InitialCounters(p: Program, clusterCount: nat): (c: seq<nat>)
    requires 1 + clusterCount < p.counterCount
    ensures |c| == p.counterCount
  {
    StartCounters(p.counterCount, 1 + clusterCount)
  }

  /** Whether the program presses after reading exactly `w`. */
  function Press(p: Program, start: seq<nat>, clusterCount: nat, budget: nat, w: Word): nat
    requires p.Valid() && |start| == p.counterCount && |w| > 0
  {
    if TickOf(p, start, 1, clusterCount, budget, w).counters[0] > 0 then 1 else 0
  }

  /** `predict_symbols`: presses and statuses of every tick, or the exception raised. */
  method PredictSymbols(p: Program, symbols: Word, clusterCount: nat, start: seq<nat>, budget: nat)
    returns (r: Result<(seq<nat>, set<Status>)>)
    ensures r.Success? <==>
      && p.Valid() && |start| == p.counterCount && InAlphabet(symbols, clusterCount)
      && (symbols == [] || (1 + clusterCount <= p.counterCount && budget >= 1))
    ensures r.Success? ==>
      && |r.value.0| == |symbols|
      && (forall i :: 0 <= i < |symbols| ==> r.value.0[i] == Press(p, start, clusterCount, budget, symbols[..i + 1]))
      && r.value.1 == Statuses(p, start, 1, clusterCount, budget, symbols)
  {
    hide Program.Valid, Run, Load;
    if !p.Valid() {
      return Failure("invalid control-flow program");
    }
    if |start| != p.counterCount {
      return Failure("initial counters do not match the program");
    }
    var counters := start;
    var presses: seq<nat> := [];
    var statuses: set<Status> := {};
    for i := 0 to |symbols|
      invariant InAlphabet(symbols[..i], clusterCount)
      invariant i > 0 ==> 1 + clusterCount <= p.counterCount && budget >= 1
      invariant |presses| == i
      invariant counters == CountersAfter(p, start, 1, clusterCount, budget, symbols[..i])
      invariant forall k :: 0 <= k < i ==> presses[k] == Press(p, start, clusterCount, budget, symbols[..k + 1])
      invariant statuses == Statuses(p, start, 1, clusterCount, budget, symbols[..i])
    {
      if symbols[i] >= clusterCount {
        return Failure("stream symbol is outside the program's alphabet");
      }
      if 1 + clusterCount > |counters| {
        return Failure("list index out of range");
      }
      counters := LoadSymbol(counters, 1, clusterCount, symbols[i]);
      var execution := Execute(p, counters, budget);
      if execution.Failure? {
        return Failure(execution.message);
      }
      var w := symbols[..i + 1];
      assert w[..|w| - 1] == symbols[..i];
      assert execution.value == TickOf(p, start, 1, clusterCount, budget, w);
      statuses := statuses + {execution.value.status};
      counters := execution.value.counters;
      var press := if counters[0] > 0 then 1 else 0;
      assert press == Press(p, start, clusterCount, budget, w);
      presses := presses + [press];
    }
    assert symbols[..|symbols|] == symbols;
    return Success((presses, statuses));
  }

  /** Channels are usable: one per symbol, none shared, all within the alphabet. */
  predicate Channels(m: RuleAutomaton, channelOf: seq<nat>, clusterCount: nat) {
    && |channelOf| == m.symbolCount
    && Distinct(channelOf)
    && forall y :: 0 <= y < |channelOf| ==> channelOf[y] < clusterCount
  }

  /** Instructions of the tick that reads `y` in state `s`: one more when the rule presses. */
  function RuleTick(m: RuleAutomaton, s: nat, y: nat): nat
    requires m.Valid() && s < m.StateCount() && y < m.symbolCount
  {
    TickBound(m.StateCount(), m.symbolCount) - (if m.outputs[s][y] != 0 then 0 else 1)
  }

  lemma RuleTickSteps(m: RuleAutomaton, channelOf: seq<nat>, clusterCount: nat, s: nat, y: nat)
    requires m.Valid() && |channelOf| == m.symbolCount && RulePlan(m, channelOf, clusterCount).Shaped()
    requires s < m.StateCount() && y < m.symbolCount
    ensures TickSteps(RulePlan(m, channelOf, clusterCount), s, y) == RuleTick(m, s, y)
    ensures RulePlan(m, channelOf, clusterCount).emit[s][y] == if m.outputs[s][y] != 0 then Some(0) else None
  {
  }

  /**
   The budget a stream needs: the longest tick is the one that presses, so one
   instruction less will do exactly for a stream the rule never presses on.
   */
  predicate WithinBudget(m: RuleAutomaton, w: Word, budget: nat)
    requires m.Valid() && InAlphabet(w, m.symbolCount)
  {
    || w == []
    || TickBound(m.StateCount(), m.symbolCount) <= budget
    || (TickBound(m.StateCount(), m.symbolCount) == budget + 1 && forall i :: 0 < i <= |w| ==> Emit(m, w[..i]) == 0)
  }

  lemma RuleAffordable(m: RuleAutomaton, channelOf: seq<nat>, clusterCount: nat, w: Word, budget: nat)
    requires m.Valid() && |channelOf| == m.symbolCount && RulePlan(m, channelOf, clusterCount).Shaped()
    requires InAlphabet(w, m.symbolCount)
    ensures Affordable(RulePlan(m, channelOf, clusterCount), m, w, budget) <==> WithinBudget(m, w, budget)
  {
    hide RulePlan, TickSteps, TickBound;
    var plan := RulePlan(m, channelOf, clusterCount);
    RulePlanFits(m, channelOf, clusterCount);
    forall i | 0 <= i < |w|
      ensures TickSteps(plan, Reach(m, 0, w[..i]), w[i]) == RuleTick(m, Reach(m, 0, w[..i]), w[i])
      ensures m.outputs[Reach(m, 0, w[..i])][w[i]] == Emit(m, w[..i + 1])
    {
      RuleTickSteps(m, channelOf, clusterCount, Reach(m, 0, w[..i]), w[i]);
      assert w[..i + 1][..i] == w[..i];
    }
    if w != [] && Affordable(plan, m, w, budget) && !(TickBound(m.StateCount(), m.symbolCount) <= budget) {
      assert TickSteps(plan, Reach(m, 0, w[..0]), w[0]) <= budget;
      forall i | 0 < i <= |w|
        ensures Emit(m, w[..i]) == 0
      {
        var k := i - 1;
        assert TickSteps(plan, Reach(m, 0, w[..k]), w[k]) <= budget;
      }
    }
    if WithinBudget(m, w, budget) {
      forall i | 0 <= i < |w|
        ensures TickSteps(plan, Reach(m, 0, w[..i]), w[i]) <= budget
      {
        var n := i + 1;
        assert Emit(m, w[..n]) == m.outputs[Reach(m, 0, w[..i])][w[i]];
      }
    }
  }

  lemma RuleFacts(m: RuleAutomaton, channelOf: seq<nat>, clusterCount: nat, plan: Plan, p: Program)
    requires m.Valid() && Channels(m, channelOf, clusterCount)
    requires plan == RulePlan(m, channelOf, clusterCount) && plan.Shaped() && p == Assembled(plan)
    ensures p.Valid() && p.counterCount == plan.CounterCount() && 1 + clusterCount == plan.working < p.counterCount
    ensures InitialCounters(p, clusterCount) == StartCounters(p.counterCount, plan.working)
  {
    RuleProgramValid(m, channelOf, clusterCount);
  }

  /**
   The oracle compiler is right for every injective channel map: on the stream as it
   arrives over the channels, every tick halts and the press is the rule's output.
   */
  lemma RulePrediction(m: RuleAutomaton, channelOf: seq<nat>, clusterCount: nat, p: Program, w: Word, budget: nat)
    requires m.Valid() && Channels(m, channelOf, clusterCount) && InAlphabet(w, m.symbolCount) && |w| > 0
    requires RulePlan(m, channelOf, clusterCount).Shaped() && p == Assembled(RulePlan(m, channelOf, clusterCount))
    requires WithinBudget(m, w, budget)
    ensures p.Valid() && 1 + clusterCount < p.counterCount
    ensures var v := OnChannels(w, channelOf);
      && Press(p, InitialCounters(p, clusterCount), clusterCount, budget, v) == (if Emit(m, w) != 0 then 1 else 0)
      && TickOf(p, InitialCounters(p, clusterCount), 1, clusterCount, budget, v).status == Halted
      && OneHot(RulePlan(m, channelOf, clusterCount),
        TickOf(p, InitialCounters(p, clusterCount), 1, clusterCount, budget, v).counters, Reach(m, 0, w))
  {
    hide Program.Valid, TickOf, CountersAfter, OneHot, WithinBudget, Affordable, TickSteps;
    var plan := RulePlan(m, channelOf, clusterCount);
    RulePlanFits(m, channelOf, clusterCount);
    RuleFacts(m, channelOf, clusterCount, plan, p);
    RuleAffordable(m, channelOf, clusterCount, w, budget);
    hide Assembled;
    StreamSimulates(p, plan, m, 1, clusterCount, channelOf, w, budget);
    RuleTickSteps(m, channelOf, clusterCount, Reach(m, 0, w[..|w| - 1]), w[|w| - 1]);
  }

  lemma OnChannelsInAlphabet(m: RuleAutomaton, channelOf: seq<nat>, clusterCount: nat, w: Word)
    requires Channels(m, channelOf, clusterCount) && InAlphabet(w, m.symbolCount)
    ensures InAlphabet(OnChannels(w, channelOf), clusterCount)
  {
  }

  /**
   The statuses `predict_symbols` collects on a mapped stream, for every budget: it
   raises nothing, and all ticks halt exactly when the stream is within the budget.
   */
  lemma RuleAllHalted(m: RuleAutomaton, channelOf: seq<nat>, clusterCount: nat, p: Program, w: Word, budget: nat)
    requires m.Valid() && Channels(m, channelOf, clusterCount) && InAlphabet(w, m.symbolCount)
    requires RulePlan(m, channelOf, clusterCount).Shaped() && p == Assembled(RulePlan(m, channelOf, clusterCount))
    ensures p.Valid() && 1 + clusterCount < p.counterCount && InAlphabet(OnChannels(w, channelOf), clusterCount)
    ensures var seen := Statuses(p, InitialCounters(p, clusterCount), 1, clusterCount, budget,
      OnChannels(w, channelOf));
      if WithinBudget(m, w, budget) then seen == (if w == [] then {} else {Halted}) else StepBudgetExhausted in seen
  {
    hide Program.Valid, TickOf, Statuses, WithinBudget, Affordable;
    var plan := RulePlan(m, channelOf, clusterCount);
    RulePlanFits(m, channelOf, clusterCount);
    RuleFacts(m, channelOf, clusterCount, plan, p);
    RuleAffordable(m, channelOf, clusterCount, w, budget);
    OnChannelsInAlphabet(m, channelOf, clusterCount, w);
    StreamHalts(p, plan, m, 1, clusterCount, channelOf, w, budget);
  }

  // ------------------------------------------------------------- in channel names

  /** The rule `renamed` does on channel `channelOf[y]` what `m` does on symbol y. */
  predicate Renames(m: RuleAutomaton, renamed: RuleAutomaton, channelOf: seq<nat>)
    requires m.Valid() && IsPermutation(channelOf, m.symbolCount)
  {
    && renamed.symbolCount == m.symbolCount
    && renamed.actionCount == 2
    && |renamed.transitions| == |renamed.outputs| == m.StateCount()
    && (forall s :: 0 <= s < m.StateCount() ==> |renamed.transitions[s]| == |renamed.outputs[s]| == m.symbolCount)
    && (forall s, y :: 0 <= s < m.StateCount() && 0 <= y < m.symbolCount ==>
          && renamed.transitions[s][channelOf[y]] == m.transitions[s][y]
          && renamed.outputs[s][channelOf[y]] == m.outputs[s][y])
  }

  /** A permutation of `0..n-1` reaches every channel. */
  lemma PermutationCovers(channelOf: seq<nat>, n: nat, c: nat)
    requires IsPermutation(channelOf, n) && c < n
    ensures c in channelOf
  {
    if c !in channelOf {
      // n distinct values would fit below n - 1 once the largest is renamed to c.
      var squeezed := seq(n, k requires 0 <= k < n => if channelOf[k] == n - 1 then c else channelOf[k]);
      assert forall k :: 0 <= k < n ==> squeezed[k] < n - 1;
      var i, j := Pigeonhole(squeezed, n - 1);
    }
  }

  method FillRow(source: seq<nat>, channelOf: seq<nat>) returns (row: seq<nat>)
    requires IsPermutation(channelOf, |source|)
    ensures |row| == |source|
    ensures forall y :: 0 <= y < |source| ==> row[channelOf[y]] == source[y]
  {
    row := seq(|source|, _ => 0);
    for symbol := 0 to |source|
      invariant |row| == |source|
      invariant forall y :: 0 <= y < symbol ==> row[channelOf[y]] == source[y]
    {
      row := row[channelOf[symbol] := source[symbol]];
    }
  }

  /** The rule never answers with a third action. */
  predicate AnswersBits(m: RuleAutomaton)
    requires m.Valid()
  {
    forall s, y :: 0 <= s < m.StateCount() && 0 <= y < m.symbolCount ==> m.outputs[s][y] < 2
  }

  /**
   `in_cluster_symbols`: fills both tables cell by cell. The rebuilt machine has the
   default two actions, so a rule that uses a third action is refused as well.
   */
  method InClusterSymbols(m: RuleAutomaton, channelOf: seq<nat>) returns (r: Result<RuleAutomaton>)
    ensures r.Success? <==> m.Valid() && IsPermutation(channelOf, m.symbolCount) && AnswersBits(m)
    ensures r.Success? ==> Renames(m, r.value, channelOf) && r.value.Valid()
  {
    if !m.Valid() {
      return Failure("invalid rule automaton");
    }
    if !IsPermutation(channelOf, m.symbolCount) {
      return Failure("the symbol map is not a permutation of the alphabet");
    }
    var transitions: seq<seq<nat>> := [];
    var outputs: seq<seq<nat>> := [];
    for state := 0 to m.StateCount()
      invariant |transitions| == |outputs| == state
      invariant forall s :: 0 <= s < state ==> |transitions[s]| == |outputs[s]| == m.symbolCount
      invariant forall s, y :: 0 <= s < state && 0 <= y < m.symbolCount ==>
        transitions[s][channelOf[y]] == m.transitions[s][y] && outputs[s][channelOf[y]] == m.outputs[s][y]
    {
      var row := FillRow(m.transitions[state], channelOf);
      var emission := FillRow(m.outputs[state], channelOf);
      transitions := transitions + [row];
      outputs := outputs + [emission];
    }
    var renamed := RuleAutomaton(m.symbolCount, transitions, outputs, 2);
    RenamesValid(m, renamed, channelOf);
    if !renamed.Valid() {
      return Failure("rule automaton output is outside the action set");
    }
    return Success(renamed);
  }

  lemma RenamesValid(m: RuleAutomaton, renamed: RuleAutomaton, channelOf: seq<nat>)
    requires m.Valid() && IsPermutation(channelOf, m.symbolCount) && Renames(m, renamed, channelOf)
    ensures renamed.Valid() <==> AnswersBits(m)
  {
    if AnswersBits(m) {
      forall s, c: nat | 0 <= s < m.StateCount() && c < m.symbolCount
        ensures renamed.transitions[s][c] < m.StateCount() && renamed.outputs[s][c] < 2
      {
        PermutationCovers(channelOf, m.symbolCount, c);
        var y :| 0 <= y < m.symbolCount && channelOf[y] == c;
      }
    }
    if renamed.Valid() {
      forall s, y | 0 <= s < m.StateCount() && 0 <= y < m.symbolCount
        ensures m.outputs[s][y] < 2
      {
        assert renamed.outputs[s][channelOf[y]] < 2;
      }
    }
  }

  lemma {:induction false} RenamedReach(m: RuleAutomaton, renamed: RuleAutomaton, channelOf: seq<nat>, w: Word)
    requires m.Valid() && IsPermutation(channelOf, m.symbolCount) && Renames(m, renamed, channelOf) && renamed.Valid()
    requires InAlphabet(w, m.symbolCount)
    ensures Reach(renamed, 0, OnChannels(w, channelOf)) == Reach(m, 0, w)
    decreases |w|
  {
    if w != [] {
      RenamedReach(m, renamed, channelOf, w[..|w| - 1]);
      var v := OnChannels(w, channelOf);
      assert v[..|v| - 1] == OnChannels(w[..|w| - 1], channelOf);
    }
  }

  /** The renamed rule answers the channel stream as the rule answers the symbol stream. */
  lemma RenamedBehaviour(m: RuleAutomaton, renamed: RuleAutomaton, channelOf: seq<nat>, w: Word)
    requires m.Valid() && IsPermutation(channelOf, m.symbolCount) && Renames(m, renamed, channelOf) && renamed.Valid()
    requires InAlphabet(w, m.symbolCount) && |w| > 0
    ensures InAlphabet(OnChannels(w, channelOf), renamed.symbolCount)
    ensures Emit(renamed, OnChannels(w, channelOf)) == Emit(m, w)
  {
    RenamedReach(m, renamed, channelOf, w[..|w| - 1]);
    var v := OnChannels(w, channelOf);
    assert v[..|v| - 1] == OnChannels(w[..|w| - 1], channelOf);
  }

  /** Compiling with the map and renaming by the map are two routes to the same presses. */
  lemma CompiledEqualsRenamed(m: RuleAutomaton, renamed: RuleAutomaton, channelOf: seq<nat>, p: Program, w: Word,
      budget: nat)
    requires m.Valid() && IsPermutation(channelOf, m.symbolCount) && InAlphabet(w, m.symbolCount) && |w| > 0
    requires Renames(m, renamed, channelOf) && renamed.Valid()
    requires RulePlan(m, channelOf, m.symbolCount).Shaped() && p == Assembled(RulePlan(m, channelOf, m.symbolCount))
    requires WithinBudget(m, w, budget)
    ensures p.Valid() && 1 + m.symbolCount < p.counterCount
    ensures var v := OnChannels(w, channelOf);
      && InAlphabet(v, renamed.symbolCount)
      && Press(p, InitialCounters(p, m.symbolCount), m.symbolCount, budget, v) == Emit(renamed, v) == Emit(m, w)
  {
    hide Program.Valid, TickOf, Assembled, OneHot, WithinBudget;
    RulePrediction(m, channelOf, m.symbolCount, p, w, budget);
    RenamedBehaviour(m, renamed, channelOf, w);
  }

  predicate Inverse(channelOf: seq<nat>, symbolOf: seq<nat>, n: nat)
    requires IsPermutation(channelOf, n) && IsPermutation(symbolOf, n)
  {
    forall y :: 0 <= y < n ==> symbolOf[channelOf[y]] == y
  }

  /** Renaming by the inverse map undoes the renaming. */
  lemma RenameInverse(m: RuleAutomaton, there: RuleAutomaton, back: RuleAutomaton, channelOf: seq<nat>,
      symbolOf: seq<nat>)
    requires m.Valid() && there.Valid()
    requires IsPermutation(channelOf, m.symbolCount) && IsPermutation(symbolOf, m.symbolCount)
    requires Inverse(channelOf, symbolOf, m.symbolCount)
    requires Renames(m, there, channelOf) && Renames(there, back, symbolOf)
    ensures back == m.(actionCount := 2)
  {
    forall s | 0 <= s < m.StateCount()
      ensures back.transitions[s] == m.transitions[s] && back.outputs[s] == m.outputs[s]
    {
      forall y | 0 <= y < m.symbolCount
        ensures back.transitions[s][y] == m.transitions[s][y] && back.outputs[s][y] == m.outputs[s][y]
      {
        var c := channelOf[y];
        assert back.transitions[s][symbolOf[c]] == there.transitions[s][c];
      }
    }
    assert back.transitions == m.transitions && back.outputs == m.outputs;
  }
}
