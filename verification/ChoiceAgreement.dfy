/**
 How a machine is judged on choices (choice_induction.py, `agreement`), tied to the
 counts the fit minimises: the score reported by the fit is the complement of the
 fitted machine's agreement, and no machine with those transitions agrees with more.
 */
module ChoiceAgreement {
  import opened Prelude
  import opened RuleAutomata
  import opened ChoiceInduction
  import opened ChoiceClimbing

  predicate Readable(m: RuleAutomaton, traces: seq<ChoiceTrace>) {
    m.Valid() && forall k :: 0 <= k < |traces| ==> ReadsTrace(m, traces[k])
  }

  predicate ReadsTrace(m: RuleAutomaton, t: ChoiceTrace) {
    m.Valid() && t.Square() && InAlphabet(t.symbols, m.symbolCount)
  }

  /** The outcome of step `i` is one the machine's answer does not contradict. */
  predicate StepAgrees(m: RuleAutomaton, t: ChoiceTrace, i: nat)
    requires ReadsTrace(m, t) && i < |t.symbols|
  {
    if t.rewards[i] != 0 then Emit(m, t.symbols[..i + 1]) == t.actions[i]
    else Emit(m, t.symbols[..i + 1]) != t.actions[i]
  }

  function ConsistentIn(m: RuleAutomaton, t: ChoiceTrace, n: nat): nat
    requires ReadsTrace(m, t) && n <= |t.symbols|
  {
    if n == 0 then 0 else ConsistentIn(m, t, n - 1) + if t.eligible[n - 1] && StepAgrees(m, t, n - 1) then 1 else 0
  }

  function ScoredIn(t: ChoiceTrace, n: nat): nat
    requires n <= |t.eligible|
  {
    if n == 0 then 0 else ScoredIn(t, n - 1) + if t.eligible[n - 1] then 1 else 0
  }

  function Consistent(m: RuleAutomaton, traces: seq<ChoiceTrace>, k: nat): nat
    requires Readable(m, traces) && k <= |traces|
  {
    if k == 0 then 0 else Consistent(m, traces, k - 1) + ConsistentIn(m, traces[k - 1], |traces[k - 1].symbols|)
  }

  function Trials(traces: seq<ChoiceTrace>, k: nat): nat
    requires k <= |traces| && forall j :: 0 <= j < |traces| ==> traces[j].Square()
  {
    if k == 0 then 0 else Trials(traces, k - 1) + ScoredIn(traces[k - 1], |traces[k - 1].symbols|)
  }

  /** One episode of `agreement`, added to the counts so far. */
  method CountEpisode(m: RuleAutomaton, t: ChoiceTrace, predicted: seq<nat>, before: nat, scored: nat)
    returns (consistent: nat, trials: nat)
    requires ReadsTrace(m, t) && predicted == Expected(m, t.symbols)
    ensures consistent == before + ConsistentIn(m, t, |t.symbols|)
    ensures trials == scored + ScoredIn(t, |t.symbols|)
  {
    hide Emit, RuleAutomaton.Valid;
    consistent, trials := before, scored;
    for i: nat := 0 to |t.eligible|
      invariant trials == scored + ScoredIn(t, i)
      invariant consistent == before + ConsistentIn(m, t, i)
    {
      if !t.eligible[i] {
        continue;
      }
      trials := trials + 1;
      var chose := t.actions[i];
      assert predicted[i] == Emit(m, t.symbols[..i + 1]);
      if t.rewards[i] != 0 {
        consistent := consistent + if predicted[i] == chose then 1 else 0;
      } else {
        consistent := consistent + if predicted[i] != chose then 1 else 0;
      }
    }
  }

  /** `agreement`: fails exactly when some episode cannot be read by the machine. */
  method Agreement(m: RuleAutomaton, traces: seq<ChoiceTrace>) returns (r: Result<(nat, nat)>)
    requires forall k :: 0 <= k < |traces| ==> traces[k].Square()
    ensures r.Success? <==> traces == [] || Readable(m, traces)
    ensures r.Success? ==> r.value.1 == Trials(traces, |traces|)
    ensures r.Success? && Readable(m, traces) ==> r.value.0 == Consistent(m, traces, |traces|)
  {
    var consistent, trials: nat := 0, 0;
    for k := 0 to |traces|
      invariant k > 0 ==> m.Valid()
      invariant forall j :: 0 <= j < k ==> ReadsTrace(m, traces[j])
      invariant trials == Trials(traces, k)
      invariant Readable(m, traces) ==> consistent == Consistent(m, traces, k)
    {
      var t := traces[k];
      var predicted := ComputeExpected(m, t.symbols);
      if predicted.Failure? {
        assert !ReadsTrace(m, t);
        return Failure(predicted.message);
      }
      consistent, trials := CountEpisode(m, t, predicted.value, consistent, trials);
    }
    return Success((consistent, trials));
  }

  // ------------------------------------------------- agreement and disagreement counts

  lemma {:induction false} WalkIsReach(m: RuleAutomaton, w: Word)
    requires m.Valid() && InAlphabet(w, m.symbolCount)
    ensures Grid(m.transitions, |m.transitions|, m.symbolCount, |m.transitions|)
    ensures Walk(m.transitions, m.symbolCount, w) == Reach(m, 0, w)
    decreases |w|
  {
    if w != [] {
      WalkIsReach(m, w[..|w| - 1]);
    }
  }

  lemma ValidIsGrids(m: RuleAutomaton)
    requires m.Valid()
    ensures Grid(m.transitions, m.StateCount(), m.symbolCount, m.StateCount())
    ensures Grid(m.outputs, m.StateCount(), m.symbolCount, m.actionCount)
  {
  }

  lemma {:induction false} DisagreementsAppend(obs: seq<Outcome>, more: seq<Outcome>, table: seq<seq<nat>>, states: nat,
      symbolCount: nat, actionCount: nat)
    requires Located(obs, states, symbolCount, actionCount) && Located(more, states, symbolCount, actionCount)
    requires Grid(table, states, symbolCount, actionCount)
    ensures Located(obs + more, states, symbolCount, actionCount)
    ensures Disagreements(obs + more, table, states, symbolCount, actionCount)
      == Disagreements(obs, table, states, symbolCount, actionCount)
        + Disagreements(more, table, states, symbolCount, actionCount)
    decreases |more|
  {
    if more == [] {
      assert obs + more == obs;
    } else {
      var init := more[..|more| - 1];
      DisagreementsAppend(obs, init, table, states, symbolCount, actionCount);
      assert (obs + more)[..|obs + more| - 1] == obs + init;
      assert (obs + more)[|obs + more| - 1] == more[|more| - 1];
    }
  }

  /** The machine reads `t`, and its choices are within its actions. */
  predicate Plays(m: RuleAutomaton, t: ChoiceTrace) {
    && ReadsTrace(m, t)
    && Grid(m.transitions, |m.transitions|, m.symbolCount, |m.transitions|)
    && Grid(m.outputs, |m.transitions|, m.symbolCount, m.actionCount)
    && forall i :: 0 <= i < |t.actions| ==> t.actions[i] < m.actionCount
  }

  /** A step is consistent exactly when the machine's own output does not clash with it. */
  lemma StepIsNoClash(m: RuleAutomaton, t: ChoiceTrace, i: nat)
    requires Plays(m, t) && i < |t.symbols| && |t.eligible| == |t.symbols|
    ensures var before := TraceOutcomes(m.transitions, m.symbolCount, t, i);
      var after := TraceOutcomes(m.transitions, m.symbolCount, t, i + 1);
      if t.eligible[i] then
        && |after| == |before| + 1 && after[..|after| - 1] == before
        && var o := after[|after| - 1];
        o.state < |m.transitions| && o.symbol < m.symbolCount
          && (StepAgrees(m, t, i) <==> !Clashes(o, m.outputs[o.state][o.symbol]))
      else after == before
  {
    var w := t.symbols[..i + 1];
    assert w[..|w| - 1] == t.symbols[..i];
    WalkIsReach(m, t.symbols[..i]);
  }

  /** Within one episode every scored step is either consistent or a contradiction. */
  lemma {:induction false} TraceComplement(m: RuleAutomaton, t: ChoiceTrace, n: nat)
    requires Plays(m, t) && n <= |t.symbols|
    ensures Located(TraceOutcomes(m.transitions, m.symbolCount, t, n), |m.transitions|, m.symbolCount, m.actionCount)
    ensures ConsistentIn(m, t, n)
      + Disagreements(TraceOutcomes(m.transitions, m.symbolCount, t, n), m.outputs, |m.transitions|, m.symbolCount,
        m.actionCount)
      == ScoredIn(t, n)
    decreases n
  {
    TraceOutcomesLocated(m.transitions, m.symbolCount, m.actionCount, t, n);
    if n > 0 {
      TraceComplement(m, t, n - 1);
      StepIsNoClash(m, t, n - 1);
    }
  }

  /**
   Over all episodes the consistent outcomes and the contradictions of the machine's own
   output table add up to the trials.
   */
  lemma {:induction false} AgreementComplement(m: RuleAutomaton, traces: seq<ChoiceTrace>, k: nat)
    requires m.Valid() && Ready(m.transitions, traces, m.symbolCount, m.actionCount) && Readable(m, traces)
      && k <= |traces|
    requires Grid(m.outputs, |m.transitions|, m.symbolCount, m.actionCount)
    ensures Located(Outcomes(m.transitions, traces, m.symbolCount, m.actionCount, k), |m.transitions|, m.symbolCount,
      m.actionCount)
    ensures Consistent(m, traces, k)
      + Disagreements(Outcomes(m.transitions, traces, m.symbolCount, m.actionCount, k), m.outputs, |m.transitions|,
        m.symbolCount, m.actionCount)
      == Trials(traces, k)
    decreases k
  {
    OutcomesLocated(m.transitions, traces, m.symbolCount, m.actionCount, k);
    if k > 0 {
      var t := traces[k - 1];
      AgreementComplement(m, traces, k - 1);
      assert ReadsTrace(m, t) && Plays(m, t);
      TraceComplement(m, t, |t.symbols|);
      DisagreementsAppend(Outcomes(m.transitions, traces, m.symbolCount, m.actionCount, k - 1),
        TraceOutcomes(m.transitions, m.symbolCount, t, |t.symbols|), m.outputs, |m.transitions|, m.symbolCount,
          m.actionCount);
    }
  }

  // --------------------------------------------------------- the fitted machine, end to end

  /** The climb's view of a machine on the episodes laid end to end. */
  function FittingOf(m: RuleAutomaton, flat: Flat): Fitting {
    Fitting(flat, |m.transitions|, m.symbolCount, m.actionCount)
  }

  predicate Fittable(m: RuleAutomaton, traces: seq<ChoiceTrace>, flat: Flat) {
    && m.Valid() && Fits(traces, m.symbolCount, m.actionCount) && LaidOut(flat, traces, |traces|)
  }

  lemma FittableFacts(m: RuleAutomaton, traces: seq<ChoiceTrace>, flat: Flat)
    requires Fittable(m, traces, flat)
    ensures Readable(m, traces) && Ready(m.transitions, traces, m.symbolCount, m.actionCount)
    ensures Grid(m.outputs, |m.transitions|, m.symbolCount, m.actionCount)
    ensures FittingOf(m, flat).Admits(m.transitions)
    ensures Seen(m.transitions, flat, |m.transitions|, m.symbolCount, m.actionCount)
      == AllOutcomes(m.transitions, traces, m.symbolCount, m.actionCount)
  {
    ValidIsGrids(m);
    forall p | 0 <= p < |flat.symbols|
      ensures flat.symbols[p] < m.symbolCount && flat.actions[p] < m.actionCount
    {
      FlatInAlphabet(flat, traces, m.symbolCount, m.actionCount, p);
    }
    FlatIsEpisodes(m.transitions, m.symbolCount, m.actionCount, flat, traces, |traces|);
  }

  /** The score a fit reports is exactly what `agreement` says the fitted machine misses. */
  lemma FitIsAgreement(m: RuleAutomaton, traces: seq<ChoiceTrace>, flat: Flat, best: nat)
    requires Fittable(m, traces, flat) && FittingOf(m, flat).Fitted(m.transitions, m.outputs, best)
    ensures Readable(m, traces) && Consistent(m, traces, |traces|) + best == Trials(traces, |traces|)
  {
    hide Fittable, Readable, Ready, Consistent, Trials, Grid, Disagreements, Seen, Outcomes;
    FittableFacts(m, traces, flat);
    FittableValid(m, traces, flat);
    AgreementComplement(m, traces, |traces|);
  }

  lemma FittableValid(m: RuleAutomaton, traces: seq<ChoiceTrace>, flat: Flat)
    requires Fittable(m, traces, flat)
    ensures m.Valid() && m.actionCount >= 1
  {
  }

  /** No machine with the same transitions is consistent with more outcomes. */
  lemma FitIsBestForTransitions(m: RuleAutomaton, other: RuleAutomaton, traces: seq<ChoiceTrace>, flat: Flat, best: nat)
    requires Fittable(m, traces, flat) && FittingOf(m, flat).Fitted(m.transitions, m.outputs, best)
    requires Fittable(other, traces, flat)
    requires other.transitions == m.transitions && other.symbolCount == m.symbolCount
      && other.actionCount == m.actionCount
    ensures Readable(m, traces) && Readable(other, traces)
    ensures Consistent(other, traces, |traces|) <= Consistent(m, traces, |traces|)
  {
    hide Fittable, Readable, Ready, Consistent, Trials, Grid, Disagreements, Seen, Outcomes, BestTable;
    FittableFacts(m, traces, flat);
    FittableFacts(other, traces, flat);
    FittableValid(m, traces, flat);
    FittableValid(other, traces, flat);
    AgreementComplement(m, traces, |traces|);
    AgreementComplement(other, traces, |traces|);
    BestTableIsOptimal(AllOutcomes(m.transitions, traces, m.symbolCount, m.actionCount), other.outputs,
      |m.transitions|, m.symbolCount, m.actionCount);
  }

  /** The rewards are the ones machine `m` would have given. */
  predicate Generated(m: RuleAutomaton, t: ChoiceTrace) {
    ReadsTrace(m, t) && forall i :: 0 <= i < |t.symbols| && t.eligible[i] ==>
      (t.rewards[i] != 0 <==> Emit(m, t.symbols[..i + 1]) == t.actions[i])
  }

  lemma {:induction false} GeneratedTrace(m: RuleAutomaton, t: ChoiceTrace, n: nat)
    requires Generated(m, t) && n <= |t.symbols|
    ensures ConsistentIn(m, t, n) == ScoredIn(t, n)
    decreases n
  {
    if n > 0 {
      GeneratedTrace(m, t, n - 1);
    }
  }

  lemma {:induction false} GeneratedAgrees(m: RuleAutomaton, traces: seq<ChoiceTrace>, k: nat)
    requires Readable(m, traces) && k <= |traces|
    requires forall j :: 0 <= j < |traces| ==> Generated(m, traces[j])
    ensures Consistent(m, traces, k) == Trials(traces, k)
    decreases k
  {
    if k > 0 {
      GeneratedAgrees(m, traces, k - 1);
      GeneratedTrace(m, traces[k - 1], |traces[k - 1].symbols|);
    }
  }

  /** The machine that gave the rewards contradicts nothing, so its transitions fit at cost 0. */
  lemma GeneratorCostsNothing(m: RuleAutomaton, traces: seq<ChoiceTrace>, flat: Flat)
    requires Fittable(m, traces, flat)
    requires forall j :: 0 <= j < |traces| ==> Generated(m, traces[j])
    ensures FittingOf(m, flat).Cost(m.transitions) == 0
  {
    hide Fittable, Readable, Ready, Consistent, Trials, Grid, Disagreements, Seen, Outcomes, BestTable, Generated;
    FittableFacts(m, traces, flat);
    FittableValid(m, traces, flat);
    GeneratedAgrees(m, traces, |traces|);
    AgreementComplement(m, traces, |traces|);
    BestTableIsOptimal(AllOutcomes(m.transitions, traces, m.symbolCount, m.actionCount), m.outputs,
      |m.transitions|, m.symbolCount, m.actionCount);
  }
}
