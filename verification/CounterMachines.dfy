/**
 One-counter machines (class_escalation.py): finite control plus one integer whose
 sign the output reads, the flattened evidence a search walks over, and what it
 means for a machine to fit it.
 */
module CounterMachines {
  import opened Prelude
  import opened Traces

  datatype CounterMachine = CounterMachine(
    symbolCount: nat,
    transitions: seq<seq<nat>>,
    increments: seq<seq<int>>,
    outputs: seq<seq<seq<nat>>>)
  {
    function StateCount(): nat {
      |transitions|
    }

    /**
     One row per state, one cell per symbol, one output per sign; a cell may move the counter
     by any amount.
     */
    predicate Shaped() {
      && |transitions| > 0
      && |increments| == |outputs| == |transitions|
      && (forall s :: 0 <= s < |transitions| ==> |transitions[s]| == |increments[s]| == |outputs[s]| == symbolCount)
      && (forall s, y :: 0 <= s < |transitions| && 0 <= y < symbolCount ==> transitions[s][y] < |transitions|)
      && (forall s, y :: 0 <= s < |transitions| && 0 <= y < symbolCount ==> |outputs[s][y]| == 3)
    }

    /** The class that is searched: moves of -1, 0 or +1. */
    predicate Valid() {
      && Shaped()
      && forall s, y :: 0 <= s < |transitions| && 0 <= y < symbolCount ==> -1 <= increments[s][y] <= 1
    }
  }

  /** 0 for zero, 1 for positive, 2 for negative. */
  function Sign(counter: int): (s: nat)
    ensures s < 3
  {
    if counter == 0 then 0 else if counter > 0 then 1 else 2
  }

  datatype Config = Config(state: nat, counter: int)

  function Next(m: CounterMachine, c: Config, y: nat): (d: Config)
    requires m.Shaped() && c.state < m.StateCount() && y < m.symbolCount
    ensures d.state < m.StateCount()
  {
    Config(m.transitions[c.state][y], c.counter + m.increments[c.state][y])
  }

  /** The output is read after the counter has moved. */
  function Output(m: CounterMachine, c: Config, y: nat): nat
    requires m.Shaped() && c.state < m.StateCount() && y < m.symbolCount
  {
    m.outputs[c.state][y][Sign(c.counter + m.increments[c.state][y])]
  }

  /** Control state and counter after `w`, from state 0 and counter 0. */
  function ConfigAfter(m: CounterMachine, w: Word): (c: Config)
    requires m.Shaped() && InAlphabet(w, m.symbolCount)
    ensures c.state < m.StateCount()
    decreases |w|
  {
    if w == [] then Config(0, 0) else Next(m, ConfigAfter(m, w[..|w| - 1]), w[|w| - 1])
  }

  /** What the machine emits on the last symbol of `w`. */
  function EmitCounter(m: CounterMachine, w: Word): nat
    requires m.Shaped() && InAlphabet(w, m.symbolCount) && |w| > 0
  {
    Output(m, ConfigAfter(m, w[..|w| - 1]), w[|w| - 1])
  }

  /** `CounterMachine.expected`: one pass with state and counter in variables. */
  method ComputeExpected(m: CounterMachine, symbols: Word) returns (produced: seq<nat>)
    requires m.Shaped() && InAlphabet(symbols, m.symbolCount)
    ensures |produced| == |symbols|
    ensures forall i :: 0 <= i < |symbols| ==> produced[i] == EmitCounter(m, symbols[..i + 1])
  {
    var state: nat, counter: int := 0, 0;
    produced := [];
    for i := 0 to |symbols|
      invariant Config(state, counter) == ConfigAfter(m, symbols[..i])
      invariant |produced| == i
      invariant forall k :: 0 <= k < i ==> produced[k] == EmitCounter(m, symbols[..k + 1])
    {
      var y := symbols[i];
      var w := symbols[..i + 1];
      assert w[..|w| - 1] == symbols[..i];
      counter := counter + m.increments[state][y];
      assert m.outputs[state][y][Sign(counter)] == EmitCounter(m, w);
      produced := produced + [m.outputs[state][y][Sign(counter)]];
      state := m.transitions[state][y];
    }
  }

  // ------------------------------------------------------------- flattened evidence

  /** Episode and position of one step. */
  type StepAt = (nat, nat)

  /** What a search works on: the episodes, their steps in order, and the size tried. */
  datatype Problem = Problem(traces: seq<Trace>, steps: seq<StepAt>, states: nat, symbolCount: nat) {
    ghost predicate Valid() {
      && states >= 1
      && (forall i :: 0 <= i < |steps| ==> steps[i].0 < |traces| && steps[i].1 < |traces[steps[i].0].symbols|)
      && (forall i :: 0 <= i < |steps| ==> traces[steps[i].0].symbols[steps[i].1] < symbolCount)
    }

    function Symbol(i: nat): nat
      requires i < |steps| && steps[i].0 < |traces| && steps[i].1 < |traces[steps[i].0].symbols|
    {
      traces[steps[i].0].symbols[steps[i].1]
    }

    /** The label to reproduce, if the step is scored. */
    function Want(i: nat): Option<nat>
      requires i < |steps| && steps[i].0 < |traces| && steps[i].1 < |traces[steps[i].0].symbols|
    {
      if traces[steps[i].0].eligible[steps[i].1] then Some(traces[steps[i].0].outputs[steps[i].1]) else None
    }

    /** Whether the step after this one opens a new episode. */
    predicate RestartAfter(i: nat) {
      i + 1 < |steps| && steps[i + 1].1 == 0
    }
  }

  /** The configuration in which step i+1 is entered. */
  function Enter(p: Problem, i: nat, c: Config): Config {
    if p.RestartAfter(i) then Config(0, 0) else c
  }

  /** From step `i` on, the machine reproduces every scored label. */
  ghost predicate Fits(p: Problem, m: CounterMachine, i: nat, c: Config)
    requires p.Valid() && m.Valid() && m.symbolCount == p.symbolCount && c.state < m.StateCount()
    decreases |p.steps| - i
  {
    i < |p.steps| ==>
      && (p.Want(i).Some? ==> Output(m, c, p.Symbol(i)) == p.Want(i).value)
      && Fits(p, m, i + 1, Enter(p, i, Next(m, c, p.Symbol(i))))
  }

  /** The machine reproduces every scored label of every episode, each run from the start. */
  ghost predicate FitsTraces(m: CounterMachine, traces: seq<Trace>)
    requires m.Valid()
  {
    forall k, i :: 0 <= k < |traces| && 0 <= i < |traces[k].symbols| && traces[k].eligible[i] ==>
      LabelMet(m, traces[k], i)
  }

  ghost predicate LabelMet(m: CounterMachine, t: Trace, i: nat)
    requires m.Valid() && i < |t.symbols|
  {
    InAlphabet(t.symbols[..i + 1], m.symbolCount) && EmitCounter(m, t.symbols[..i + 1]) == t.outputs[i]
  }

  // --------------------------------------------------------------- the list of steps

  function TraceSteps(k: nat, n: nat): (steps: seq<StepAt>)
    ensures |steps| == n
    ensures forall i :: 0 <= i < n ==> steps[i] == (k, i)
  {
    seq(n, i requires 0 <= i < n => (k, i))
  }

  /** All steps of the first `k` episodes, in order. */
  function StepsOf(traces: seq<Trace>, k: nat): seq<StepAt>
    requires k <= |traces|
  {
    if k == 0 then [] else StepsOf(traces, k - 1) + TraceSteps(k - 1, |traces[k - 1].symbols|)
  }

  /** Steps stay in bounds, episodes start at position 0, and positions advance by one. */
  ghost predicate Ordered(traces: seq<Trace>, steps: seq<StepAt>) {
    && (forall i :: 0 <= i < |steps| ==> steps[i].0 < |traces| && steps[i].1 < |traces[steps[i].0].symbols|)
    && (|steps| > 0 ==> steps[0].1 == 0)
    && (forall i :: 0 < i < |steps| && steps[i].1 != 0 ==> steps[i - 1] == (steps[i].0, steps[i].1 - 1))
  }

  lemma {:induction false} StepsOrdered(traces: seq<Trace>, k: nat)
    requires k <= |traces|
    ensures Ordered(traces, StepsOf(traces, k))
    decreases k
  {
    hide Ordered;
    if k == 0 {
      NoStepsOrdered(traces);
    } else {
      StepsOrdered(traces, k - 1);
      OrderedAppend(traces, StepsOf(traces, k - 1), k - 1);
    }
  }

  lemma NoStepsOrdered(traces: seq<Trace>)
    ensures Ordered(traces, [])
  {
  }

  lemma OrderedAppend(traces: seq<Trace>, before: seq<StepAt>, k: nat)
    requires k < |traces| && Ordered(traces, before)
    ensures Ordered(traces, before + TraceSteps(k, |traces[k].symbols|))
  {
    var more := TraceSteps(k, |traces[k].symbols|);
    var steps := before + more;
    forall i | 0 <= i < |steps|
      ensures steps[i] == if i < |before| then before[i] else (k, i - |before|)
    {
    }
  }

  lemma {:induction false} StepsComplete(traces: seq<Trace>, k: nat, j: nat, i: nat)
    requires j < k <= |traces| && i < |traces[j].symbols|
    ensures (j, i) in StepsOf(traces, k)
    decreases k
  {
    if j < k - 1 {
      StepsComplete(traces, k - 1, j, i);
    } else {
      assert TraceSteps(j, |traces[j].symbols|)[i] == (j, i);
    }
  }

  /** The configuration in which an episode run from the start reaches step `i`. */
  function Arrival(p: Problem, m: CounterMachine, i: nat): (c: Config)
    requires m.Valid() && i < |p.steps| && p.steps[i].0 < |p.traces| && p.steps[i].1 < |p.traces[p.steps[i].0].symbols|
    requires InAlphabet(p.traces[p.steps[i].0].symbols, m.symbolCount)
    ensures c.state < m.StateCount()
  {
    ConfigAfter(m, p.traces[p.steps[i].0].symbols[..p.steps[i].1])
  }

  lemma ArrivalNext(p: Problem, m: CounterMachine, i: nat)
    requires p.Valid() && m.Valid() && m.symbolCount == p.symbolCount && ReadableBy(p.traces, p.symbolCount)
    requires Ordered(p.traces, p.steps) && i + 1 < |p.steps|
    ensures Enter(p, i, Next(m, Arrival(p, m, i), p.Symbol(i))) == Arrival(p, m, i + 1)
  {
    if p.RestartAfter(i) {
      assert p.traces[p.steps[i + 1].0].symbols[..0] == [];
    } else {
      assert p.steps[(i + 1) - 1] == (p.steps[i + 1].0, p.steps[i + 1].1 - 1);
      var w := p.traces[p.steps[i].0].symbols[..p.steps[i].1 + 1];
      assert w[..|w| - 1] == p.traces[p.steps[i].0].symbols[..p.steps[i].1];
    }
  }

  ghost predicate StepMet(p: Problem, m: CounterMachine, i: nat)
    requires m.Valid() && i < |p.steps| && p.steps[i].0 < |p.traces| && p.steps[i].1 < |p.traces[p.steps[i].0].symbols|
  {
    p.Want(i).Some? ==> LabelMet(m, p.traces[p.steps[i].0], p.steps[i].1)
  }

  lemma {:induction false} FitsMeansStepsMet(p: Problem, m: CounterMachine, i: nat)
    requires p.Valid() && m.Valid() && m.symbolCount == p.symbolCount && ReadableBy(p.traces, p.symbolCount)
    requires Ordered(p.traces, p.steps) && i < |p.steps|
    ensures Fits(p, m, i, Arrival(p, m, i)) <==> forall j :: i <= j < |p.steps| ==> StepMet(p, m, j)
    decreases |p.steps| - i
  {
    var c := Arrival(p, m, i);
    var t := p.traces[p.steps[i].0];
    var w := t.symbols[..p.steps[i].1 + 1];
    assert w[..|w| - 1] == t.symbols[..p.steps[i].1];
    assert StepMet(p, m, i) <==> (p.Want(i).Some? ==> Output(m, c, p.Symbol(i)) == p.Want(i).value);
    var d := Enter(p, i, Next(m, c, p.Symbol(i)));
    if i + 1 < |p.steps| {
      ArrivalNext(p, m, i);
      FitsMeansStepsMet(p, m, i + 1);
    } else {
      assert Fits(p, m, i + 1, d);
    }
  }

  ghost predicate AllMet(p: Problem, m: CounterMachine)
    requires p.Valid() && m.Valid()
  {
    forall j :: 0 <= j < |p.steps| ==> StepMet(p, m, j)
  }

  lemma TracesMeetSteps(p: Problem, m: CounterMachine)
    requires p.Valid() && m.Valid() && FitsTraces(m, p.traces)
    ensures AllMet(p, m)
  {
    hide LabelMet;
    forall j | 0 <= j < |p.steps|
      ensures StepMet(p, m, j)
    {
      if p.Want(j).Some? {
        assert LabelMet(m, p.traces[p.steps[j].0], p.steps[j].1);
      }
    }
  }

  lemma StepsMeetTraces(p: Problem, m: CounterMachine)
    requires p.Valid() && m.Valid() && AllMet(p, m) && p.steps == StepsOf(p.traces, |p.traces|)
    ensures FitsTraces(m, p.traces)
  {
    hide LabelMet, StepsOf;
    forall k, i | 0 <= k < |p.traces| && 0 <= i < |p.traces[k].symbols| && p.traces[k].eligible[i]
      ensures LabelMet(m, p.traces[k], i)
    {
      StepsComplete(p.traces, |p.traces|, k, i);
      var j :| 0 <= j < |p.steps| && p.steps[j] == (k, i);
      assert StepMet(p, m, j);
    }
  }

  /** The flattened view and the episode-by-episode view of fitting are the same. */
  lemma FitsIsFitsTraces(p: Problem, m: CounterMachine)
    requires p.Valid() && m.Valid() && m.symbolCount == p.symbolCount && ReadableBy(p.traces, p.symbolCount)
    requires p.steps == StepsOf(p.traces, |p.traces|)
    ensures Fits(p, m, 0, Config(0, 0)) <==> FitsTraces(m, p.traces)
  {
    hide StepMet, FitsTraces, Fits, StepsOf;
    StepsOrdered(p.traces, |p.traces|);
    FitsIsAllMet(p, m);
    if FitsTraces(m, p.traces) {
      TracesMeetSteps(p, m);
    }
    if AllMet(p, m) {
      StepsMeetTraces(p, m);
    }
  }

  lemma FitsIsAllMet(p: Problem, m: CounterMachine)
    requires p.Valid() && m.Valid() && m.symbolCount == p.symbolCount && ReadableBy(p.traces, p.symbolCount)
    requires Ordered(p.traces, p.steps)
    ensures Fits(p, m, 0, Config(0, 0)) <==> AllMet(p, m)
  {
    hide StepMet;
    if p.steps != [] {
      assert p.traces[p.steps[0].0].symbols[..0] == [];
      assert Arrival(p, m, 0) == Config(0, 0);
      FitsMeansStepsMet(p, m, 0);
    }
  }
}
