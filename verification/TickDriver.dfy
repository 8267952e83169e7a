/**
 Driving a compiled program tick by tick, and the simulation over whole streams.

 Both prediction loops (choice_programs.py, counter_state_programs.py) do the
 same to the counters before each tick: clear the answer counters, set the input
 channels one-hot, leave the rest. `StreamSimulates` says that a compiled rule
 then tracks its machine along every stream the step budget allows, and `StreamHalts`
 which streams those are.
 */
module TickDriver {
  import opened Prelude
  import opened RuleAutomata
  import opened ControlFlow
  import opened CounterAssembly
  import opened TickSimulation

  const DEFAULT_STEP_BUDGET: nat := 8192

  /** The counters as they are handed to `execute` for one symbol. */
  function Load(c: seq<nat>, answers: nat, channels: nat, symbol: nat): (r: seq<nat>)
    ensures |r| == |c|
  {
    seq(|c|, i requires 0 <= i < |c| =>
      if i < answers then 0
      else if i < answers + channels then (if i - answers == symbol then 1 else 0)
      else c[i])
  }

  /** The loops of the driver: clear every answer, then set the channel of the symbol to 1 and the others to 0. */
  method LoadSymbol(counters: seq<nat>, answers: nat, channels: nat, symbol: nat) returns (loaded: seq<nat>)
    requires answers + channels <= |counters|
    ensures loaded == Load(counters, answers, channels, symbol)
    ensures forall a :: 0 <= a < answers ==> loaded[a] == 0
    ensures symbol < channels ==> loaded[answers + symbol] == 1
    ensures forall i :: answers <= i < answers + channels && i != answers + symbol ==> loaded[i] == 0
    ensures forall i :: answers + channels <= i < |counters| ==> loaded[i] == counters[i]
  {
    loaded := counters;
    for action := 0 to answers
      invariant |loaded| == |counters|
      invariant forall i :: 0 <= i < |counters| ==> loaded[i] == if i < action then 0 else counters[i]
    {
      loaded := loaded[action := 0];
    }
    for channel := 0 to channels
      invariant |loaded| == |counters|
      invariant forall i :: 0 <= i < |counters| ==>
        loaded[i] == if i < answers then 0 else if i < answers + channel then (if i - answers == symbol then 1 else 0)
          else counters[i]
    {
      loaded := loaded[answers + channel := if channel == symbol then 1 else 0];
    }
  }

  /** The execution of the tick that reads the last symbol of `w`. */
  function TickOf(p: Program, start: seq<nat>, answers: nat, channels: nat, budget: nat, w: Word): (e: Execution)
    requires p.Valid() && |start| == p.counterCount && |w| > 0
    ensures |e.counters| == p.counterCount
    decreases |w|, 0
  {
    Run(p, Load(CountersAfter(p, start, answers, channels, budget, w[..|w| - 1]), answers, channels, w[|w| - 1]), 0, 0,
      budget)
  }

  /** The persistent counters once `w` has been read. */
  function CountersAfter(p: Program, start: seq<nat>, answers: nat, channels: nat, budget: nat, w: Word): (c: seq<nat>)
    requires p.Valid() && |start| == p.counterCount
    ensures |c| == p.counterCount
    decreases |w|, 1
  {
    if w == [] then start else TickOf(p, start, answers, channels, budget, w).counters
  }

  /** The execution statuses seen while reading `w`. */
  function Statuses(p: Program, start: seq<nat>, answers: nat, channels: nat, budget: nat, w: Word): set<Status>
    requires p.Valid() && |start| == p.counterCount
    decreases |w|
  {
    if w == [] then {}
    else
      Statuses(p, start, answers, channels, budget, w[..|w| - 1])
      + {TickOf(p, start, answers, channels, budget, w).status}
  }

  /** The stream a rule's words become when symbol y arrives on channel `channelOf[y]`. */
  function OnChannels(w: Word, channelOf: seq<nat>): (v: Word)
    requires InAlphabet(w, |channelOf|)
    ensures |v| == |w|
  {
    seq(|w|, i requires 0 <= i < |w| => channelOf[w[i]])
  }

  lemma OnChannelsPrefix(w: Word, channelOf: seq<nat>)
    requires InAlphabet(w, |channelOf|) && |w| > 0
    ensures OnChannels(w, channelOf)[..|w| - 1] == OnChannels(w[..|w| - 1], channelOf)
  {
  }

  /** Symbol y reads channel y: the map is the identity. */
  function Identity(n: nat): seq<nat> {
    seq(n, y requires 0 <= y < n => y)
  }

  lemma IdentityFacts(n: nat, channels: nat, w: Word)
    requires n <= channels && InAlphabet(w, n)
    ensures Distinct(Identity(n)) && forall y :: 0 <= y < n ==> Identity(n)[y] < channels
    ensures OnChannels(w, Identity(n)) == w
  {
  }

  /** A plan that lays `m` out with symbol y on input counter `answers + channelOf[y]`. */
  predicate Implements(plan: Plan, m: RuleAutomaton, answers: nat, channels: nat, channelOf: seq<nat>)
    requires m.Valid()
  {
    && plan.working == answers + channels
    && |channelOf| == m.symbolCount
    && |plan.input| == m.symbolCount
    && (forall y :: 0 <= y < |channelOf| ==> plan.input[y] == answers + channelOf[y])
    && plan.next == m.transitions
    && |plan.emit| == m.StateCount()
    && (forall s :: 0 <= s < |plan.emit| ==> |plan.emit[s]| == m.symbolCount)
    && (forall s, y :: 0 <= s < |plan.emit| && 0 <= y < m.symbolCount && plan.emit[s][y].Some? ==>
      plan.emit[s][y].value < answers)
  }

  /** All counters zero except the first state counter. */
  function StartCounters(counterCount: nat, working: nat): (c: seq<nat>)
    requires working < counterCount
    ensures |c| == counterCount
  {
    seq(counterCount, _ => 0)[working := 1]
  }

  /** No tick of a rule with `states` states over `symbols` symbols takes more steps than this. */
  function TickBound(states: nat, symbols: nat): (bound: nat)
    ensures bound >= 10
  {
    states * symbols + symbols + 2 * states + 10
  }

  lemma ImplementsFacts(plan: Plan, m: RuleAutomaton, answers: nat, channels: nat, channelOf: seq<nat>)
    requires m.Valid() && Implements(plan, m, answers, channels, channelOf)
    requires forall y :: 0 <= y < |channelOf| ==> channelOf[y] < channels
    ensures plan.Shaped() && plan.Separated() && InRange(plan)
    ensures Assembled(plan).Valid() && Assembled(plan).counterCount == plan.CounterCount()
  {
    assert plan.Shaped();
    forall s, y | 0 <= s < plan.States() && 0 <= y < plan.Symbols() && plan.emit[s][y].Some?
      ensures plan.emit[s][y].value !in plan.input
    {
      assert plan.emit[s][y].value < answers;
    }
    AssembledValid(plan);
  }

  /** Loading one symbol on its own channel is reading that symbol. */
  lemma LoadReads(plan: Plan, m: RuleAutomaton, answers: nat, channels: nat, channelOf: seq<nat>, c: seq<nat>,
      active: nat, y: nat)
    requires m.Valid() && Implements(plan, m, answers, channels, channelOf) && plan.Shaped()
    requires Distinct(channelOf) && forall z :: 0 <= z < |channelOf| ==> channelOf[z] < channels
    requires OneHot(plan, c, active) && y < m.symbolCount
    ensures var d := Load(c, answers, channels, channelOf[y]);
      OneHot(plan, d, active) && Reading(plan, d, y) && Small(d)
  {
    var d := Load(c, answers, channels, channelOf[y]);
    var n := plan.States();
    forall z | 0 <= z < plan.Symbols()
      ensures d[plan.input[z]] > 0 <==> z == y
    {
      assert z != y ==> channelOf[z] != channelOf[y];
    }
    forall i | 0 <= i < |d|
      ensures d[i] + 2 <= MAX_COUNTER
    {
      assert i < plan.working || plan.working <= i < plan.working + n || plan.working + n <= i < plan.working + n + n;
    }
  }

  lemma {:induction false} StartOneHot(plan: Plan)
    requires plan.Shaped()
    ensures OneHot(plan, StartCounters(plan.CounterCount(), plan.working), 0)
  {
  }

  /** Among the answer counters only the emitted one is raised, to one. */
  predicate Raises(c: seq<nat>, answers: nat, emitted: Option<nat>)
    requires answers <= |c|
  {
    forall i :: 0 <= i < answers ==> c[i] == if emitted == Some(i) then 1 else 0
  }

  /** What one tick of a compiled rule establishes, from the one-hot state before it. */
  ghost predicate TickTracks(plan: Plan, e: Execution, active: nat, y: nat)
    requires plan.Shaped() && active < plan.States() && y < plan.Symbols()
  {
    && e.status == Halted
    && e.steps == TickSteps(plan, active, y)
    && OneHot(plan, e.counters, plan.next[active][y])
  }

  lemma OneTick(p: Program, plan: Plan, m: RuleAutomaton, answers: nat, channels: nat, channelOf: seq<nat>, c: seq<nat>,
      active: nat, y: nat, budget: nat)
    requires m.Valid() && Implements(plan, m, answers, channels, channelOf)
    requires Distinct(channelOf) && forall z :: 0 <= z < |channelOf| ==> channelOf[z] < channels
    requires plan.Shaped() && p == Assembled(plan) && p.Valid() && |c| == p.counterCount
    requires OneHot(plan, c, active) && y < m.symbolCount
    ensures TickSteps(plan, active, y) <= budget ==>
      var e := Run(p, Load(c, answers, channels, channelOf[y]), 0, 0, budget);
      TickTracks(plan, e, active, y) && Raises(e.counters, answers, plan.emit[active][y])
    ensures budget < TickSteps(plan, active, y) ==>
      Run(p, Load(c, answers, channels, channelOf[y]), 0, 0, budget).status == StepBudgetExhausted
  {
    ImplementsFacts(plan, m, answers, channels, channelOf);
    LoadReads(plan, m, answers, channels, channelOf, c, active, y);
    TickRun(p, plan, Load(c, answers, channels, channelOf[y]), active, y, budget);
  }

  /** The budget covers every tick the machine takes along `w`. */
  predicate Affordable(plan: Plan, m: RuleAutomaton, w: Word, budget: nat)
    requires m.Valid() && plan.Shaped() && plan.next == m.transitions && |plan.input| == m.symbolCount
    requires InAlphabet(w, m.symbolCount)
  {
    forall i :: 0 <= i < |w| ==> TickSteps(plan, Reach(m, 0, w[..i]), w[i]) <= budget
  }

  lemma AffordablePrefix(plan: Plan, m: RuleAutomaton, w: Word, budget: nat)
    requires m.Valid() && plan.Shaped() && plan.next == m.transitions && |plan.input| == m.symbolCount
    requires InAlphabet(w, m.symbolCount) && |w| > 0
    ensures Affordable(plan, m, w, budget) <==>
      && Affordable(plan, m, w[..|w| - 1], budget)
      && TickSteps(plan, Reach(m, 0, w[..|w| - 1]), w[|w| - 1]) <= budget
  {
    hide TickSteps;
    var u := w[..|w| - 1];
    assert forall i :: 0 <= i < |u| ==> u[..i] == w[..i];
    if Affordable(plan, m, u, budget) && TickSteps(plan, Reach(m, 0, u), w[|w| - 1]) <= budget {
      forall i | 0 <= i < |w|
        ensures TickSteps(plan, Reach(m, 0, w[..i]), w[i]) <= budget
      {
        if i < |u| {
          assert TickSteps(plan, Reach(m, 0, u[..i]), u[i]) <= budget;
        }
      }
    }
    if Affordable(plan, m, w, budget) {
      forall i | 0 <= i < |u|
        ensures TickSteps(plan, Reach(m, 0, u[..i]), u[i]) <= budget
      {
        assert TickSteps(plan, Reach(m, 0, w[..i]), w[i]) <= budget;
      }
    }
  }

  /** One more symbol, from a one-hot state: the tick tracks the machine, or exhausts the budget. */
  lemma NextTick(p: Program, plan: Plan, m: RuleAutomaton, answers: nat, channels: nat, channelOf: seq<nat>, w: Word,
      budget: nat)
    requires m.Valid() && Implements(plan, m, answers, channels, channelOf)
    requires Distinct(channelOf) && forall z :: 0 <= z < |channelOf| ==> channelOf[z] < channels
    requires plan.Shaped() && p == Assembled(plan) && p.Valid()
    requires InAlphabet(w, m.symbolCount) && |w| > 0
    requires plan.working < p.counterCount == plan.CounterCount()
    requires OneHot(plan, CountersAfter(p, StartCounters(p.counterCount, plan.working), answers, channels, budget,
      OnChannels(w[..|w| - 1], channelOf)),
      Reach(m, 0, w[..|w| - 1]))
    ensures
      var y, s := w[|w| - 1], Reach(m, 0, w[..|w| - 1]);
      var e := TickOf(p, StartCounters(p.counterCount, plan.working), answers, channels, budget,
        OnChannels(w, channelOf));
      && answers <= |e.counters|
      && (TickSteps(plan, s, y) <= budget ==> TickTracks(plan, e, s, y) && Raises(e.counters, answers, plan.emit[s][y]))
      && (budget < TickSteps(plan, s, y) ==> e.status == StepBudgetExhausted)
  {
    hide Program.Valid, Assembled, OneHot, TickTracks, Raises, TickSteps, StartCounters, Load, Run;
    var start := StartCounters(p.counterCount, plan.working);
    var u, y := w[..|w| - 1], w[|w| - 1];
    OnChannelsPrefix(w, channelOf);
    var c := CountersAfter(p, start, answers, channels, budget, OnChannels(u, channelOf));
    OneTick(p, plan, m, answers, channels, channelOf, c, Reach(m, 0, u), y, budget);
  }

  /**
   Along every stream, a compiled rule driven from the start counters halts on every
   tick, is one-hot in exactly the machine's state between ticks, and raises exactly
   the counter of the active cell, as long as the budget covers the ticks it takes.
   */
  lemma {:induction false} StreamSimulates(p: Program, plan: Plan, m: RuleAutomaton, answers: nat, channels: nat,
      channelOf: seq<nat>, w: Word, budget: nat)
    requires m.Valid() && Implements(plan, m, answers, channels, channelOf)
    requires Distinct(channelOf) && forall z :: 0 <= z < |channelOf| ==> channelOf[z] < channels
    requires plan.Shaped() && p == Assembled(plan) && p.Valid()
    requires InAlphabet(w, m.symbolCount)
    requires Affordable(plan, m, w, budget)
    ensures p.counterCount == plan.CounterCount() && plan.working < p.counterCount
    ensures OneHot(plan, CountersAfter(p, StartCounters(p.counterCount, plan.working), answers, channels, budget,
      OnChannels(w, channelOf)), Reach(m, 0, w))
    ensures |w| > 0 ==>
      var y := w[|w| - 1];
      var s := Reach(m, 0, w[..|w| - 1]);
      var e := TickOf(p, StartCounters(p.counterCount, plan.working), answers, channels, budget,
        OnChannels(w, channelOf));
      TickTracks(plan, e, s, y) && answers <= |e.counters| && Raises(e.counters, answers, plan.emit[s][y])
    decreases |w|
  {
    hide Program.Valid, OneHot, Raises, TickSteps, StartCounters, TickOf, Distinct, OnChannels, Affordable;
    if w == [] {
      StartOneHot(plan);
    } else {
      AffordablePrefix(plan, m, w, budget);
      OnChannelsPrefix(w, channelOf);
      StreamSimulates(p, plan, m, answers, channels, channelOf, w[..|w| - 1], budget);
      NextTick(p, plan, m, answers, channels, channelOf, w, budget);
    }
  }

  /**
   The statuses of a stream, for every budget: all ticks halt when the budget covers
   each of them, and otherwise one of them exhausts it.
   */
  lemma {:induction false} StreamHalts(p: Program, plan: Plan, m: RuleAutomaton, answers: nat, channels: nat,
      channelOf: seq<nat>, w: Word, budget: nat)
    requires m.Valid() && Implements(plan, m, answers, channels, channelOf)
    requires Distinct(channelOf) && forall z :: 0 <= z < |channelOf| ==> channelOf[z] < channels
    requires plan.Shaped() && p == Assembled(plan) && p.Valid()
    requires InAlphabet(w, m.symbolCount)
    ensures p.counterCount == plan.CounterCount() && plan.working < p.counterCount
    ensures var seen := Statuses(p, StartCounters(p.counterCount, plan.working), answers, channels, budget,
      OnChannels(w, channelOf));
      if Affordable(plan, m, w, budget) then seen == (if w == [] then {} else {Halted}) else StepBudgetExhausted in seen
    decreases |w|
  {
    hide Program.Valid, OneHot, Raises, TickSteps, StartCounters, TickOf, CountersAfter, Distinct, OnChannels;
    if w == [] {
      StreamSimulates(p, plan, m, answers, channels, channelOf, w, budget);
    } else {
      var u := w[..|w| - 1];
      AffordablePrefix(plan, m, w, budget);
      OnChannelsPrefix(w, channelOf);
      StreamHalts(p, plan, m, answers, channels, channelOf, u, budget);
      if Affordable(plan, m, u, budget) {
        StreamSimulates(p, plan, m, answers, channels, channelOf, u, budget);
        NextTick(p, plan, m, answers, channels, channelOf, w, budget);
      }
    }
  }
}
