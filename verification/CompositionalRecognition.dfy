/**
 Recognising evidence as something the library can already build
 (compositional_recognition.py). Stored programs are run once and give one press vector
 each; a pair under a combiner is scored on its two cached vectors. The module proves that
 this cheap score is exactly the score of the product machine and, where the step budget
 covers the compiled product, that the merged vector is what running it gives.
 */
module CompositionalRecognition {
  import opened Prelude
  import opened RuleAutomata
  import opened Traces
  import opened ControlFlow
  import opened CounterAssembly
  import opened TickSimulation
  import opened TickDriver
  import opened CounterStatePrograms
  import opened CompositionalRules

  /**
   A stored program with its start counters, its alphabet, and the hypothesis it was compiled
   from, if kept.
   */
  datatype Record = Record(program: Program, initialCounters: seq<nat>, alphabet: nat, machine: Option<RuleAutomaton>)

  // ---------------------------------------------------------------- flattened labels

  /** Episode and step of a scored label. */
  type Position = (nat, nat)

  ghost predicate LocatedAt(traces: seq<Trace>, position: Position, prefix: Word) {
    && position.0 < |traces| && position.1 < |traces[position.0].symbols|
    && traces[position.0].symbols[..position.1 + 1] == prefix
  }

  /** Targets and positions list the observations one by one. */
  ghost predicate Flattens(traces: seq<Trace>, obs: seq<Observation>, targets: seq<nat>, positions: seq<Position>) {
    && |targets| == |positions| == |obs|
    && (forall i :: 0 <= i < |obs| ==> targets[i] == obs[i].want)
    && (forall i :: 0 <= i < |obs| ==> LocatedAt(traces, positions[i], obs[i].prefix))
  }

  lemma FlattensAppend(traces: seq<Trace>, obs: seq<Observation>, targets: seq<nat>, positions: seq<Position>, k: nat,
      i: nat)
    requires Flattens(traces, obs, targets, positions) && k < |traces| && i < |traces[k].symbols|
    ensures Flattens(traces, obs + [Observation(traces[k].symbols[..i + 1], traces[k].outputs[i])],
      targets + [traces[k].outputs[i]], positions + [(k, i)])
  {
  }

  /** `flatten_targets`: every scored label and where it came from. */
  method FlattenTargets(traces: seq<Trace>) returns (targets: seq<nat>, positions: seq<Position>)
    ensures Flattens(traces, AllObservations(traces), targets, positions)
  {
    hide Flattens;
    targets, positions := [], [];
    FlattensNothing(traces);
    for index := 0 to |traces|
      invariant Flattens(traces, Observations(traces, index), targets, positions)
    {
      var t := traces[index];
      ghost var before := Observations(traces, index);
      assert before + TraceObservations(t, 0) == before;
      for step := 0 to |t.symbols|
        invariant Flattens(traces, before + TraceObservations(t, step), targets, positions)
      {
        if t.eligible[step] {
          FlattensAppend(traces, before + TraceObservations(t, step), targets, positions, index, step);
          assert before + TraceObservations(t, step + 1)
            == before + TraceObservations(t, step) + [Observation(t.symbols[..step + 1], t.outputs[step])];
          targets := targets + [t.outputs[step]];
          positions := positions + [(index, step)];
        }
      }
    }
  }

  lemma FlattensNothing(traces: seq<Trace>)
    ensures Flattens(traces, [], [], [])
  {
  }

  // -------------------------------------------------------------- cached press vectors

  /** No exception is raised when the record is run over the traces. */
  predicate Runs(record: Record, t: Trace) {
    && record.program.Valid() && |record.initialCounters| == record.program.counterCount
    && InAlphabet(t.symbols, record.alphabet)
    && (t.symbols == [] || 1 + record.alphabet <= record.program.counterCount)
  }

  predicate RunsAll(record: Record, traces: seq<Trace>, n: nat) {
    forall k :: 0 <= k < n && k < |traces| ==> Runs(record, traces[k])
  }

  /** The press of a stored program on a prefix. */
  ghost function Presses(record: Record, w: Word): nat {
    if record.program.Valid() && |record.initialCounters| == record.program.counterCount && |w| > 0
    then Press(record.program, record.initialCounters, record.alphabet, DEFAULT_STEP_BUDGET, w) else 0
  }

  /** The vector holds the record's press at every observation. */
  ghost predicate Caches(record: Record, obs: seq<Observation>, vector: seq<nat>) {
    |vector| == |obs| && forall i :: 0 <= i < |obs| ==> vector[i] == Presses(record, obs[i].prefix)
  }

  /** `record_predictions`: run once per episode, then read off the scored steps. */
  method RecordPredictions(record: Record, traces: seq<Trace>, positions: seq<Position>, ghost obs: seq<Observation>,
      ghost targets: seq<nat>)
    returns (r: Result<seq<nat>>)
    requires Flattens(traces, obs, targets, positions)
    ensures r.Success? <==> RunsAll(record, traces, |traces|)
    ensures r.Success? ==> Caches(record, obs, r.value)
  {
    hide Program.Valid, TickOf;
    var byTrace: seq<seq<nat>> := [];
    for index := 0 to |traces|
      invariant RunsAll(record, traces, index)
      invariant |byTrace| == index
      invariant forall k :: 0 <= k < index ==> PressesOf(record, traces[k], byTrace[k])
    {
      var presses := PredictSymbols(record.program, traces[index].symbols, record.alphabet, record.initialCounters,
        DEFAULT_STEP_BUDGET);
      if presses.Failure? {
        return Failure(presses.message);
      }
      assert PressesOf(record, traces[index], presses.value.0);
      byTrace := byTrace + [presses.value.0];
    }
    var vector: seq<nat> := [];
    for i := 0 to |positions|
      invariant |vector| == i
      invariant forall k :: 0 <= k < i ==> vector[k] == Presses(record, obs[k].prefix)
    {
      var (index, step) := positions[i];
      assert LocatedAt(traces, positions[i], obs[i].prefix);
      assert PressesOf(record, traces[index], byTrace[index]);
      vector := vector + [byTrace[index][step]];
    }
    return Success(vector);
  }

  ghost predicate PressesOf(record: Record, t: Trace, presses: seq<nat>) {
    |presses| == |t.symbols| && forall i :: 0 <= i < |t.symbols| ==> presses[i] == Presses(record, t.symbols[..i + 1])
  }

  /** `_merge`: elementwise, on vectors of equal length. */
  function MergeVectors(left: seq<nat>, right: seq<nat>, combiner: Combiner): (r: seq<nat>)
    requires |left| == |right|
    ensures |r| == |left|
    ensures forall i :: 0 <= i < |left| ==> r[i] == Merge(combiner, left[i], right[i]) <= 1
    ensures combiner.And? ==> forall i :: 0 <= i < |left| ==> (r[i] == 1 <==> left[i] != 0 && right[i] != 0)
    ensures combiner.Or? ==> forall i :: 0 <= i < |left| ==> (r[i] == 0 <==> left[i] == 0 && right[i] == 0)
    ensures combiner.Xor? ==> forall i :: 0 <= i < |left| ==> (r[i] == 0 <==> (left[i] == 0 <==> right[i] == 0))
  {
    seq(|left|, i requires 0 <= i < |left| => Merge(combiner, left[i], right[i]))
  }

  /** `_hits`: positions on which two vectors agree. */
  function Hits(predicted: seq<nat>, targets: seq<nat>): nat
    requires |predicted| == |targets|
    decreases |predicted|
  {
    if predicted == [] then 0
    else
      Hits(predicted[..|predicted| - 1], targets[..|targets| - 1])
      + (if predicted[|predicted| - 1] == targets[|targets| - 1] then 1 else 0)
  }

  /** A vector of a predictor's answers hits exactly where the predictor does not err. */
  lemma {:induction false} HitsAndErrors(obs: seq<Observation>, f: Word -> nat, predicted: seq<nat>, targets: seq<nat>)
    requires |predicted| == |targets| == |obs|
    requires forall i :: 0 <= i < |obs| ==> predicted[i] == f(obs[i].prefix) && targets[i] == obs[i].want
    ensures Hits(predicted, targets) + Errors(obs, f) == |obs|
    decreases |obs|
  {
    if obs != [] {
      var n := |obs| - 1;
      HitsAndErrors(obs[..n], f, predicted[..n], targets[..n]);
    }
  }

  // ----------------------------------------------------------------- exact pair scores

  /** The record is the compiled form of `m` under the identity channel map. */
  ghost predicate CompiledFrom(record: Record, m: RuleAutomaton) {
    && m.Valid() && m.actionCount == 2
    && record.alphabet == m.symbolCount
    && RulePlan(m, Identity(m.symbolCount), m.symbolCount).Shaped()
    && record.program == Assembled(RulePlan(m, Identity(m.symbolCount), m.symbolCount))
    && record.program.Valid() && 1 + m.symbolCount < record.program.counterCount
    && record.initialCounters == InitialCounters(record.program, m.symbolCount)
  }

  /** The step budget covers every tick the machine's program takes on the scored prefixes it can read. */
  ghost predicate Affords(m: RuleAutomaton, obs: seq<Observation>)
    requires m.Valid()
  {
    forall i :: 0 <= i < |obs| && InAlphabet(obs[i].prefix, m.symbolCount) ==>
      WithinBudget(m, obs[i].prefix, DEFAULT_STEP_BUDGET)
  }

  /** Running the stored program is running the machine. */
  lemma CompiledPresses(record: Record, m: RuleAutomaton, w: Word)
    requires CompiledFrom(record, m) && InAlphabet(w, m.symbolCount) && |w| > 0
    requires WithinBudget(m, w, DEFAULT_STEP_BUDGET)
    ensures Presses(record, w) == Emit(m, w)
  {
    hide Program.Valid, TickOf, Assembled, OneHot, WithinBudget;
    IdentityFacts(m.symbolCount, m.symbolCount, w);
    RulePrediction(m, Identity(m.symbolCount), m.symbolCount, record.program, w, DEFAULT_STEP_BUDGET);
  }

  ghost predicate AllWithin(obs: seq<Observation>, symbolCount: nat) {
    forall i :: 0 <= i < |obs| ==> |obs[i].prefix| > 0 && InAlphabet(obs[i].prefix, symbolCount)
  }

  /** The merged cached vectors are the product machine's answers. */
  lemma MergedIsProduct(left: Record, right: Record, l: RuleAutomaton, r: RuleAutomaton, product: RuleAutomaton,
      combiner: Combiner, obs: seq<Observation>, leftVector: seq<nat>, rightVector: seq<nat>, i: nat)
    requires CompiledFrom(left, l) && CompiledFrom(right, r) && product.Valid() && Composes(product, l, r, combiner)
    requires Affords(l, obs) && Affords(r, obs)
    requires Caches(left, obs, leftVector) && Caches(right, obs, rightVector)
    requires AllWithin(obs, l.symbolCount) && i < |obs|
    ensures MergeVectors(leftVector, rightVector, combiner)[i] == Emit(product, obs[i].prefix)
  {
    hide CompiledFrom, WithinBudget, Emit, Presses, Merge;
    CompiledIsValid(left, l);
    CompiledIsValid(right, r);
    CompiledPresses(left, l, obs[i].prefix);
    CompiledPresses(right, r, obs[i].prefix);
  }

  lemma CompiledIsValid(record: Record, m: RuleAutomaton)
    requires CompiledFrom(record, m)
    ensures m.Valid()
  {
  }

  /** The targets are the scored labels, in order. */
  predicate LabelsOf(obs: seq<Observation>, targets: seq<nat>) {
    |targets| == |obs| && forall i :: 0 <= i < |obs| ==> targets[i] == obs[i].want
  }

  /**
   Single scoring is exact: the hits of a cached vector are the scored steps its machine
   answers right.
   */
  lemma SingleScoreExact(record: Record, m: RuleAutomaton, obs: seq<Observation>, vector: seq<nat>, targets: seq<nat>)
    requires CompiledFrom(record, m) && Affords(m, obs) && Caches(record, obs, vector)
    requires AllWithin(obs, m.symbolCount) && LabelsOf(obs, targets)
    ensures m.Valid() && |vector| == |targets| && Hits(vector, targets) == |obs| - Errors(obs, Predictor(m))
  {
    hide CompiledFrom, WithinBudget, Emit, Presses, Hits, Errors;
    CompiledIsValid(record, m);
    forall i | 0 <= i < |obs|
      ensures vector[i] == Predictor(m)(obs[i].prefix)
    {
      CompiledPresses(record, m, obs[i].prefix);
    }
    HitsAndErrors(obs, Predictor(m), vector, targets);
  }

  /**
   Pair scoring is exact: the hits of two merged cached vectors are the scored steps the
   product machine answers right, however large the product is.
   */
  lemma PairScoreExact(left: Record, right: Record, l: RuleAutomaton, r: RuleAutomaton, product: RuleAutomaton,
      combiner: Combiner, obs: seq<Observation>, leftVector: seq<nat>, rightVector: seq<nat>, targets: seq<nat>)
    requires CompiledFrom(left, l) && CompiledFrom(right, r) && product.Valid() && Composes(product, l, r, combiner)
    requires Affords(l, obs) && Affords(r, obs)
    requires Caches(left, obs, leftVector) && Caches(right, obs, rightVector)
    requires AllWithin(obs, l.symbolCount) && LabelsOf(obs, targets)
    ensures |leftVector| == |rightVector| == |targets|
    ensures Hits(MergeVectors(leftVector, rightVector, combiner), targets) == |obs| - Errors(obs, Predictor(product))
  {
    hide CompiledFrom, WithinBudget, Emit, Presses, Merge, Hits, Errors;
    var merged := MergeVectors(leftVector, rightVector, combiner);
    CompiledIsValid(left, l);
    CompiledIsValid(right, r);
    forall i | 0 <= i < |obs|
      ensures merged[i] == Predictor(product)(obs[i].prefix)
    {
      MergedIsProduct(left, right, l, r, product, combiner, obs, leftVector, rightVector, i);
    }
    HitsAndErrors(obs, Predictor(product), merged, targets);
  }

  /**
   Where the step budget covers the compiled product on the evidence, running it gives the
   merged vector itself.
   */
  lemma MergedIsCompiledProduct(left: Record, right: Record, l: RuleAutomaton, r: RuleAutomaton, product: RuleAutomaton,
      compiled: Record, combiner: Combiner, obs: seq<Observation>, leftVector: seq<nat>, rightVector: seq<nat>,
      productVector: seq<nat>)
    requires CompiledFrom(left, l) && CompiledFrom(right, r) && product.Valid() && Composes(product, l, r, combiner)
    requires Affords(l, obs) && Affords(r, obs)
    requires Caches(left, obs, leftVector) && Caches(right, obs, rightVector)
    requires CompiledFrom(compiled, product) && Affords(product, obs) && Caches(compiled, obs, productVector)
    requires AllWithin(obs, l.symbolCount)
    ensures |leftVector| == |rightVector| && MergeVectors(leftVector, rightVector, combiner) == productVector
  {
    hide CompiledFrom, WithinBudget, Emit, Presses, Merge;
    CompiledIsValid(left, l);
    CompiledIsValid(right, r);
    forall i | 0 <= i < |obs|
      ensures MergeVectors(leftVector, rightVector, combiner)[i] == productVector[i]
    {
      MergedIsProduct(left, right, l, r, product, combiner, obs, leftVector, rightVector, i);
      CompiledPresses(compiled, product, obs[i].prefix);
    }
  }
}
