/**
 k-action rules as counter programs (choice_programs.py): the layout, the compiler,
 and prediction on a stream already in hand, with the theorem that prediction
 through the compiled program is the rule itself.
 */
module ChoicePrograms {
  import opened Prelude
  import opened RuleAutomata
  import opened ControlFlow
  import opened CounterAssembly
  import opened TickSimulation
  import opened TickDriver

  /** Answers first, then one input channel per cluster, then 2 working counters per state. */
  function ChoicePlan(m: RuleAutomaton, clusterCount: nat): Plan
    requires m.Valid()
  {
    Plan(
      m.actionCount + clusterCount,
      seq(m.symbolCount, y requires 0 <= y < m.symbolCount => m.actionCount + y),
      seq(m.StateCount(), s requires 0 <= s < m.StateCount() =>
        seq(m.symbolCount, y requires 0 <= y < m.symbolCount => Some(m.outputs[s][y]))),
      m.transitions)
  }

  function ChoiceProgram(m: RuleAutomaton, clusterCount: nat): Program
    requires m.Valid() && ChoicePlan(m, clusterCount).Shaped()
  {
    Assembled(ChoicePlan(m, clusterCount))
  }

  lemma ChoicePlanFits(m: RuleAutomaton, clusterCount: nat)
    requires m.Valid()
    ensures ChoicePlan(m, clusterCount).Shaped()
    ensures Implements(ChoicePlan(m, clusterCount), m, m.actionCount, clusterCount, Identity(m.symbolCount))
  {
  }

  /**
   `compile_choice_rule`: raises exactly on an invalid machine, on an empty alphabet,
   or when a symbol's input counter would lie beyond the last counter; otherwise the
   program of `ChoicePlan`.
   */
  method CompileChoiceRule(m: RuleAutomaton, clusterCount: nat) returns (r: Result<Program>)
    ensures r.Success? <==> m.Valid() && clusterCount >= 1 && m.symbolCount <= clusterCount + 2 * m.StateCount()
    ensures r.Success? ==>
      ChoicePlan(m, clusterCount).Shaped() && r.value == ChoiceProgram(m, clusterCount) && r.value.Valid()
        && r.value.counterCount == m.actionCount + clusterCount + 2 * m.StateCount()
  {
    if !m.Valid() {
      return Failure("invalid rule automaton");
    }
    if clusterCount < 1 {
      return Failure("a choice layout needs actions, inputs and working state");
    }
    hide Program.Valid;
    ChoicePlanFits(m, clusterCount);
    var program := Assemble(ChoicePlan(m, clusterCount));
    ChoiceProgramValid(m, clusterCount);
    if !program.Valid() {
      return Failure("conditional jump has an invalid counter");
    }
    return Success(program);
  }

  lemma ChoiceProgramValid(m: RuleAutomaton, clusterCount: nat)
    requires m.Valid() && clusterCount >= 1 && ChoicePlan(m, clusterCount).Shaped()
    ensures ChoiceProgram(m, clusterCount).Valid() <==> m.symbolCount <= clusterCount + 2 * m.StateCount()
  {
    var plan := ChoicePlan(m, clusterCount);
    var p := ChoiceProgram(m, clusterCount);
    if m.symbolCount <= clusterCount + 2 * m.StateCount() {
      AssembledValid(plan);
    } else {
      // The second guard of the first state's last block reads a counter that does not exist.
      var y := m.symbolCount - 1;
      var blocks := RowsCode(plan, plan.States());
      HasAll(p);
      HasPart(p, 0, blocks, TailCode(plan, |blocks|));
      BlockPlaced(p, plan, 0, y);
      HasAt(p, Start(plan, 0, y), plan.At(0, y).Code(Start(plan, 0, y)), 1);
      assert !p.instructions[Start(plan, 0, y) + 1].Valid(p.counterCount, |p.instructions|);
    }
  }

  /** A compiled program has exactly 4SY + 7S + 1 instructions. */
  lemma ChoiceProgramSize(m: RuleAutomaton, clusterCount: nat)
    requires m.Valid() && ChoicePlan(m, clusterCount).Shaped()
    ensures |ChoiceProgram(m, clusterCount).instructions|
      == 4 * (m.StateCount() * m.symbolCount) + 7 * m.StateCount() + 1
  {
    ChoiceRowsSize(m, clusterCount, m.StateCount());
  }

  lemma {:induction false} ChoiceRowSize(m: RuleAutomaton, clusterCount: nat, s: nat, n: nat, at: nat)
    requires m.Valid() && ChoicePlan(m, clusterCount).Shaped() && s < m.StateCount() && n <= m.symbolCount
    ensures |RowCode(ChoicePlan(m, clusterCount), s, n, at)| == 4 * n
    decreases n
  {
    if n > 0 {
      ChoiceRowSize(m, clusterCount, s, n - 1, at);
    }
  }

  lemma {:induction false} ChoiceRowsSize(m: RuleAutomaton, clusterCount: nat, rows: nat)
    requires m.Valid() && ChoicePlan(m, clusterCount).Shaped() && rows <= m.StateCount()
    ensures |RowsCode(ChoicePlan(m, clusterCount), rows)| == 4 * (rows * m.symbolCount)
    decreases rows
  {
    if rows > 0 {
      ChoiceRowsSize(m, clusterCount, rows - 1);
      ChoiceRowSize(m, clusterCount, rows - 1, m.symbolCount, |RowsCode(ChoicePlan(m, clusterCount), rows - 1)|);
      assert rows * m.symbolCount == (rows - 1) * m.symbolCount + m.symbolCount;
    }
  }

  /** `choice_initial_counters`: start in state zero. */
  function ChoiceInitialCounters(m: RuleAutomaton, clusterCount: nat): seq<nat>
    requires m.Valid()
  {
    StartCounters(m.actionCount + clusterCount + 2 * m.StateCount(), m.actionCount + clusterCount)
  }

  // ----------------------------------------------------------------- the answer

  /** `a` is the largest of the first `n` counters, and the lowest one among equals. */
  predicate IsAnswer(c: seq<nat>, n: nat, a: nat)
    requires 0 < n <= |c|
  {
    && a < n
    && (forall b :: 0 <= b < n ==> c[b] <= c[a])
    && (forall b :: 0 <= b < a ==> c[b] < c[a])
  }

  /** `_answer` over the first `n` counters. */
  function Answer(c: seq<nat>, n: nat): (a: nat)
    requires n <= |c|
    ensures n > 0 ==> IsAnswer(c, n, a)
  {
    if n <= 1 then 0
    else
      var best := Answer(c, n - 1);
      if c[n - 1] > c[best] then n - 1 else best
  }

  method ChooseAnswer(c: seq<nat>, actionCount: nat) returns (best: nat)
    requires actionCount <= |c|
    ensures best == Answer(c, actionCount)
  {
    best := 0;
    var action := 1;
    while action < actionCount
      invariant action >= 1 && (action <= actionCount || actionCount == 0)
      invariant best == Answer(c, if actionCount == 0 then 0 else action)
    {
      if c[action] > c[best] {
        best := action;
      }
      action := action + 1;
    }
  }

  // ------------------------------------------------------------------ prediction

  /** What the program answers after reading exactly `w`. */
  function PredictedAnswer(p: Program, start: seq<nat>, actionCount: nat, clusterCount: nat, budget: nat, w: Word): nat
    requires p.Valid() && |start| == p.counterCount && actionCount <= p.counterCount && |w| > 0
  {
    Answer(TickOf(p, start, actionCount, clusterCount, budget, w).counters, actionCount)
  }

  /** The program, the counters and the layout agree, so that no list access can fail. */
  predicate Runnable(p: Program, start: seq<nat>, actionCount: nat, clusterCount: nat, budget: nat) {
    && |start| == p.counterCount
    && actionCount + clusterCount <= p.counterCount
    && budget >= 1
  }

  /**
   `predict_choice_symbols`: the answer and the execution status of every tick. An
   invalid program, a symbol outside the alphabet, counters that do not fit and a
   budget below one are the exceptions.
   */
  method PredictChoiceSymbols(p: Program, symbols: Word, actionCount: nat, clusterCount: nat, start: seq<nat>,
      budget: nat)
    returns (r: Result<(seq<nat>, set<Status>)>)
    ensures r.Success? <==>
      p.Valid() && (symbols == [] || Runnable(p, start, actionCount, clusterCount, budget))
        && InAlphabet(symbols, clusterCount)
    ensures r.Success? && symbols != [] ==>
      && |r.value.0| == |symbols|
      && (forall i :: 0 <= i < |symbols| ==>
            r.value.0[i] == PredictedAnswer(p, start, actionCount, clusterCount, budget, symbols[..i + 1]))
      && r.value.1 == Statuses(p, start, actionCount, clusterCount, budget, symbols)
    ensures r.Success? && symbols == [] ==> r.value == ([], {})
  {
    hide Program.Valid, Run, Load, Answer;
    if !p.Valid() {
      return Failure("invalid control-flow program");
    }
    var counters := start;
    var answers: seq<nat> := [];
    var statuses: set<Status> := {};
    for i := 0 to |symbols|
      invariant InAlphabet(symbols[..i], clusterCount)
      invariant i > 0 ==> Runnable(p, start, actionCount, clusterCount, budget)
      invariant i == 0 ==> counters == start && statuses == {}
      invariant |answers| == i
      invariant i > 0 ==> counters == CountersAfter(p, start, actionCount, clusterCount, budget, symbols[..i])
      invariant i > 0 ==> forall k :: 0 <= k < i ==>
        answers[k] == PredictedAnswer(p, start, actionCount, clusterCount, budget, symbols[..k + 1])
      invariant i > 0 ==> statuses == Statuses(p, start, actionCount, clusterCount, budget, symbols[..i])
    {
      if symbols[i] >= clusterCount {
        return Failure("stream symbol is outside the program's alphabet");
      }
      if actionCount + clusterCount > |counters| {
        return Failure("list index out of range");
      }
      counters := LoadSymbol(counters, actionCount, clusterCount, symbols[i]);
      var execution := Execute(p, counters, budget);
      if execution.Failure? {
        return Failure(execution.message);
      }
      var w := symbols[..i + 1];
      assert w[..|w| - 1] == symbols[..i];
      assert execution.value == TickOf(p, start, actionCount, clusterCount, budget, w);
      statuses := statuses + {execution.value.status};
      counters := execution.value.counters;
      var answer := ChooseAnswer(counters, actionCount);
      assert answer == PredictedAnswer(p, start, actionCount, clusterCount, budget, w);
      answers := answers + [answer];
    }
    assert symbols[..|symbols|] == symbols;
    return Success((answers, statuses));
  }

  // ---------------------------------------------------- the program is the machine

  /** The compiled program of `m` on `clusterCount` channels, and where it starts. */
  ghost predicate Compiled(m: RuleAutomaton, clusterCount: nat, p: Program, start: seq<nat>)
    requires m.Valid()
  {
    && ChoicePlan(m, clusterCount).Shaped()
    && p == ChoiceProgram(m, clusterCount)
    && p.Valid()
    && start == ChoiceInitialCounters(m, clusterCount)
  }

  lemma ChoiceTickSteps(m: RuleAutomaton, clusterCount: nat, s: nat, y: nat)
    requires m.Valid() && ChoicePlan(m, clusterCount).Shaped() && s < m.StateCount() && y < m.symbolCount
    ensures TickSteps(ChoicePlan(m, clusterCount), s, y) == TickBound(m.StateCount(), m.symbolCount)
    ensures ChoicePlan(m, clusterCount).emit[s][y] == Some(m.outputs[s][y])
  {
  }

  /** Every tick takes the same number of instructions. */
  lemma ChoiceAffordable(m: RuleAutomaton, clusterCount: nat, w: Word, budget: nat)
    requires m.Valid() && ChoicePlan(m, clusterCount).Shaped() && InAlphabet(w, m.symbolCount)
    ensures Affordable(ChoicePlan(m, clusterCount), m, w, budget)
      <==> w == [] || TickBound(m.StateCount(), m.symbolCount) <= budget
  {
    hide TickSteps, TickBound;
    var plan := ChoicePlan(m, clusterCount);
    forall i | 0 <= i < |w|
      ensures TickSteps(plan, Reach(m, 0, w[..i]), w[i]) == TickBound(m.StateCount(), m.symbolCount)
    {
      ChoiceTickSteps(m, clusterCount, Reach(m, 0, w[..i]), w[i]);
    }
    if w != [] && Affordable(plan, m, w, budget) {
      assert TickSteps(plan, Reach(m, 0, w[..0]), w[0]) <= budget;
    }
  }

  lemma CompiledFacts(m: RuleAutomaton, clusterCount: nat, plan: Plan, p: Program, start: seq<nat>)
    requires m.Valid() && Compiled(m, clusterCount, p, start) && plan == ChoicePlan(m, clusterCount)
    ensures plan.Shaped() && p == Assembled(plan) && p.Valid() && p.counterCount == plan.CounterCount()
    ensures m.actionCount + clusterCount == plan.working < p.counterCount
    ensures start == StartCounters(p.counterCount, plan.working)
  {
  }

  lemma ChoiceTracks(m: RuleAutomaton, clusterCount: nat, plan: Plan, p: Program, start: seq<nat>, w: Word, budget: nat)
    requires m.Valid() && m.symbolCount <= clusterCount && Compiled(m, clusterCount, p, start)
    requires plan == ChoicePlan(m, clusterCount)
    requires InAlphabet(w, m.symbolCount) && TickBound(m.StateCount(), m.symbolCount) <= budget
    ensures OneHot(plan, CountersAfter(p, start, m.actionCount, clusterCount, budget, w), Reach(m, 0, w))
    ensures |w| > 0 ==>
      var s, y := Reach(m, 0, w[..|w| - 1]), w[|w| - 1];
      var e := TickOf(p, start, m.actionCount, clusterCount, budget, w);
      TickTracks(plan, e, s, y) && Raises(e.counters, m.actionCount, plan.emit[s][y])
  {
    hide Program.Valid, TickOf, CountersAfter, OneHot, Raises, TickTracks, Affordable, TickSteps;
    ChoicePlanFits(m, clusterCount);
    IdentityFacts(m.symbolCount, clusterCount, w);
    CompiledFacts(m, clusterCount, plan, p, start);
    ChoiceAffordable(m, clusterCount, w, budget);
    hide Compiled, StartCounters, Assembled;
    StreamSimulates(p, plan, m, m.actionCount, clusterCount, Identity(m.symbolCount), w, budget);
  }

  /**
   With a sufficient budget every tick halts after exactly `TickBound` steps, the
   counters between ticks are one-hot in the machine's state, and the answer to
   every stream is the machine's answer.
   */
  lemma ChoicePrediction(m: RuleAutomaton, clusterCount: nat, p: Program, start: seq<nat>, w: Word, budget: nat)
    requires m.Valid() && m.symbolCount <= clusterCount && Compiled(m, clusterCount, p, start)
    requires InAlphabet(w, m.symbolCount) && TickBound(m.StateCount(), m.symbolCount) <= budget
    ensures Runnable(p, start, m.actionCount, clusterCount, budget)
    ensures OneHot(ChoicePlan(m, clusterCount), CountersAfter(p, start, m.actionCount, clusterCount, budget, w),
      Reach(m, 0, w))
    ensures |w| > 0 ==>
      && PredictedAnswer(p, start, m.actionCount, clusterCount, budget, w) == Emit(m, w)
      && TickOf(p, start, m.actionCount, clusterCount, budget, w).status == Halted
      && TickOf(p, start, m.actionCount, clusterCount, budget, w).steps == TickBound(m.StateCount(), m.symbolCount)
  {
    hide Program.Valid, TickOf, CountersAfter, OneHot, Raises;
    var plan := ChoicePlan(m, clusterCount);
    CompiledFacts(m, clusterCount, plan, p, start);
    hide Assembled, StartCounters;
    ChoiceTracks(m, clusterCount, plan, p, start, w, budget);
    if |w| > 0 {
      var s, y := Reach(m, 0, w[..|w| - 1]), w[|w| - 1];
      ChoiceTickSteps(m, clusterCount, s, y);
      OnlyRaisedWins(TickOf(p, start, m.actionCount, clusterCount, budget, w).counters, m.actionCount, m.outputs[s][y]);
    }
  }

  lemma OnlyRaisedWins(c: seq<nat>, n: nat, a: nat)
    requires a < n <= |c|
    requires Raises(c, n, Some(a))
    ensures Answer(c, n) == a
  {
    var best := Answer(c, n);
    assert c[a] <= c[best];
  }

  /**
   The statuses of a stream, for every budget: all ticks halt exactly when the budget
   covers `TickBound`, and otherwise one of them exhausts it.
   */
  lemma HaltsExactlyWithinBudget(m: RuleAutomaton, clusterCount: nat, p: Program, start: seq<nat>, w: Word, budget: nat)
    requires m.Valid() && m.symbolCount <= clusterCount && Compiled(m, clusterCount, p, start)
    requires InAlphabet(w, m.symbolCount)
    ensures |start| == p.counterCount
    ensures var seen := Statuses(p, start, m.actionCount, clusterCount, budget, w);
      if w == [] then seen == {}
      else if TickBound(m.StateCount(), m.symbolCount) <= budget then seen == {Halted}
      else StepBudgetExhausted in seen
  {
    hide Program.Valid, Statuses, Affordable, TickBound;
    var plan := ChoicePlan(m, clusterCount);
    ChoicePlanFits(m, clusterCount);
    IdentityFacts(m.symbolCount, clusterCount, w);
    CompiledFacts(m, clusterCount, plan, p, start);
    ChoiceAffordable(m, clusterCount, w, budget);
    StreamHalts(p, plan, m, m.actionCount, clusterCount, Identity(m.symbolCount), w, budget);
  }
}
