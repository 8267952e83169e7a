/**
 The choice induction loop (choice_induction.py, `induce_from_choices`): at each size climb
 from the all-zero table and from drawn tables, keep the lowest score, stop early at zero,
 minimize what was kept; over the sizes, keep the first of the shortest descriptions. The
 draws and the length of a description are parameters.
 */
module ChoiceRestarts {
  import opened Prelude
  import opened RuleAutomata
  import opened ChoiceInduction
  import opened ChoiceClimbing
  import opened ChoiceAgreement
  import Minimization

  function LargestAlphabet(traces: seq<ChoiceTrace>): (n: nat)
    ensures forall k :: 0 <= k < |traces| ==> traces[k].symbolCount <= n
    ensures traces != [] ==> exists k :: 0 <= k < |traces| && traces[k].symbolCount == n
  {
    if traces == [] then 0 else Max(LargestAlphabet(traces[..|traces| - 1]), traces[|traces| - 1].symbolCount)
  }

  function LargestProtocol(traces: seq<ChoiceTrace>): (n: nat)
    ensures forall k :: 0 <= k < |traces| ==> traces[k].actionCount <= n
    ensures traces != [] ==> exists k :: 0 <= k < |traces| && traces[k].actionCount == n
  {
    if traces == [] then 0 else Max(LargestProtocol(traces[..|traces| - 1]), traces[|traces| - 1].actionCount)
  }

  /** The machine reads the largest alphabet of an episode and offers the most actions of one. */
  predicate SpansEpisodes(m: RuleAutomaton, traces: seq<ChoiceTrace>) {
    && (forall k :: 0 <= k < |traces| ==>
      traces[k].symbolCount <= m.symbolCount && traces[k].actionCount <= m.actionCount)
    && (exists k :: 0 <= k < |traces| && traces[k].symbolCount == m.symbolCount)
    && (exists k :: 0 <= k < |traces| && traces[k].actionCount == m.actionCount)
  }

  predicate Validated(traces: seq<ChoiceTrace>) {
    traces != [] && forall k :: 0 <= k < |traces| ==> traces[k].Valid()
  }

  /** The largest alphabets fit every validated episode. */
  lemma ValidatedFits(traces: seq<ChoiceTrace>, flat: Flat, states: nat)
    requires Validated(traces) && LaidOut(flat, traces, |traces|) && states > 0
    ensures var fitting := Fitting(flat, states, LargestAlphabet(traces), LargestProtocol(traces));
      && fitting.symbolCount >= 2 && fitting.actionCount >= 2
      && Usable(flat, fitting.symbolCount, fitting.actionCount)
      && Fits(traces, fitting.symbolCount, fitting.actionCount)
  {
    var symbolCount, actionCount := LargestAlphabet(traces), LargestProtocol(traces);
    assert traces[0].Valid();
    assert Fits(traces, symbolCount, actionCount) by {
      forall k | 0 <= k < |traces|
        ensures traces[k].Square() && InAlphabet(traces[k].symbols, symbolCount)
        ensures forall i :: 0 <= i < |traces[k].actions| ==> traces[k].actions[i] < actionCount
      {
        assert traces[k].Valid();
      }
    }
    forall p | 0 <= p < |flat.symbols|
      ensures flat.symbols[p] < symbolCount && flat.actions[p] < actionCount
    {
      FlatInAlphabet(flat, traces, symbolCount, actionCount, p);
    }
  }

  function Zeros(states: nat, symbolCount: nat): seq<seq<nat>> {
    seq(states, _ => seq(symbolCount, _ => 0))
  }

  /** A table as a mutable array. */
  method Thaw(rows: seq<seq<nat>>, states: nat, symbolCount: nat) returns (table: array2<nat>)
    requires Transitions(rows, states, symbolCount)
    ensures fresh(table) && table.Length0 == states && table.Length1 == symbolCount && Rows(table) == rows
  {
    table := new nat[states, symbolCount]((s, y) requires 0 <= s < states && 0 <= y < symbolCount => rows[s][y]);
    forall s | 0 <= s < states
      ensures Rows(table)[s] == rows[s]
    {
    }
  }

  /** The transitions as rows again. */
  method Freeze(table: array2<nat>) returns (rows: seq<seq<nat>>)
    ensures rows == Rows(table)
  {
    rows := [];
    for s: nat := 0 to table.Length0
      invariant |rows| == s && rows == Rows(table)[..s]
    {
      var row: seq<nat> := [];
      for y: nat := 0 to table.Length1
        invariant |row| == y && row == Rows(table)[s][..y]
      {
        row := row + [table[s, y]];
      }
      assert row == Rows(table)[s];
      rows := rows + [row];
    }
  }

  /** Where restart `d` starts: the all-zero table first, then the draws. */
  function StartOf(fitting: Fitting, draws: seq<seq<seq<nat>>>, d: nat): (rows: seq<seq<nat>>)
    ensures d == 0 ==> forall s, y :: 0 <= s < |rows| && 0 <= y < |rows[s]| ==> rows[s][y] == 0
  {
    if 0 < d <= |draws| then draws[d - 1] else Zeros(fitting.states, fitting.symbolCount)
  }

  /** Where the climb of restart `d` ends. */
  ghost function Top(fitting: Fitting, draws: seq<seq<seq<nat>>>, d: nat): seq<seq<nat>> {
    Climbed(fitting, StartOf(fitting, draws, d), MAX_SWEEPS)
  }

  /** Of the first `n` restarts, `d` is the first to climb lowest. */
  ghost predicate FirstLowest(fitting: Fitting, draws: seq<seq<seq<nat>>>, n: nat, d: nat) {
    && d < n
    && (forall e: nat :: e < n ==> fitting.Cost(Top(fitting, draws, d)) <= fitting.Cost(Top(fitting, draws, e)))
    && (forall e: nat :: e < d ==> fitting.Cost(Top(fitting, draws, d)) < fitting.Cost(Top(fitting, draws, e)))
  }

  /** Every draw is a transition table of the size being fitted. */
  predicate Drawn(fitting: Fitting, restarts: nat, draws: seq<seq<seq<nat>>>) {
    |draws| + 1 >= restarts && forall d :: 0 <= d < |draws| ==>
      Transitions(draws[d], fitting.states, fitting.symbolCount)
  }

  lemma StartAdmitted(fitting: Fitting, restarts: nat, draws: seq<seq<seq<nat>>>, d: nat)
    requires fitting.states > 0 && Usable(fitting.flat, fitting.symbolCount, fitting.actionCount)
      && Drawn(fitting, restarts, draws)
    ensures Transitions(StartOf(fitting, draws, d), fitting.states, fitting.symbolCount)
      && fitting.Admits(StartOf(fitting, draws, d))
  {
  }

  /** The table kept is no worse than any table started from, and where it ended no single change helps. */
  lemma WinnerSettles(fitting: Fitting, restarts: nat, draws: seq<seq<seq<nat>>>, d: nat)
    requires fitting.states > 0 && Usable(fitting.flat, fitting.symbolCount, fitting.actionCount)
      && Drawn(fitting, restarts, draws)
    requires FirstLowest(fitting, draws, restarts, d)
    ensures NoBetterStart(fitting, draws, restarts, fitting.Cost(Top(fitting, draws, d)))
    ensures LocallyOptimal(fitting, Top(fitting, draws, d))
      || fitting.Cost(Top(fitting, draws, d)) + MAX_SWEEPS <= fitting.Cost(StartOf(fitting, draws, d))
  {
    hide Fitting.Cost, Fitting.Admits, LocallyOptimal, Climbed, Transitions, Usable, Drawn;
    forall e: nat | e < restarts
      ensures fitting.Cost(Top(fitting, draws, d)) <= fitting.Cost(StartOf(fitting, draws, e))
    {
      StartAdmitted(fitting, restarts, draws, e);
      ClimbedSettles(fitting, StartOf(fitting, draws, e), MAX_SWEEPS);
      assert fitting.Cost(Top(fitting, draws, d)) <= fitting.Cost(Top(fitting, draws, e));
    }
    forall e | 0 <= e < restarts - 1 && e < |draws|
      ensures fitting.Cost(Top(fitting, draws, d)) <= fitting.Cost(draws[e])
    {
      var k := e + 1;
      assert StartOf(fitting, draws, k) == draws[e];
    }
    if restarts > 0 {
      assert StartOf(fitting, draws, 0) == Zeros(fitting.states, fitting.symbolCount);
    }
    StartAdmitted(fitting, restarts, draws, d);
    ClimbedSettles(fitting, StartOf(fitting, draws, d), MAX_SWEEPS);
  }

  /** No table among the first `n` started from costs less. */
  ghost predicate NoBetterStart(fitting: Fitting, draws: seq<seq<seq<nat>>>, n: nat, best: nat) {
    && (n > 0 ==> best <= fitting.Cost(Zeros(fitting.states, fitting.symbolCount)))
    && forall d :: 0 <= d < n - 1 && d < |draws| ==> best <= fitting.Cost(draws[d])
  }

  /**
   The restart loop. What is kept is the end of the first climb to end lowest among all
   the restarts, those an early stop at zero leaves out included; nothing is kept only
   when there are no restarts.
   */
  method BestOfRestarts(fitting: Fitting, restarts: nat, draws: seq<seq<seq<nat>>>)
    returns (kept: Option<(nat, seq<seq<nat>>, seq<seq<nat>>)>, ghost winner: nat)
    requires fitting.states > 0 && Usable(fitting.flat, fitting.symbolCount, fitting.actionCount)
      && Drawn(fitting, restarts, draws)
    ensures kept.None? <==> restarts == 0
    ensures kept.Some? ==> fitting.Fitted(kept.value.1, kept.value.2, kept.value.0)
    ensures kept.Some? ==> FirstLowest(fitting, draws, restarts, winner) && kept.value.1 == Top(fitting, draws, winner)
  {
    hide Fitting.Cost, Fitting.Fitted, Fitting.Admits, Usable, Drawn, Climbed, StartOf, Transitions;
    kept := None;
    winner := 0;
    for restart: nat := 0 to restarts
      invariant kept.None? <==> restart == 0
      invariant kept.Some? ==>
        fitting.Fitted(kept.value.1, kept.value.2, kept.value.0) && kept.value.0 == fitting.Cost(kept.value.1)
      invariant kept.Some? ==>
        FirstLowest(fitting, draws, restart, winner) && kept.value.1 == Top(fitting, draws, winner)
    {
      StartAdmitted(fitting, restarts, draws, restart);
      var start := NextStart(fitting, restarts, draws, restart);
      var transitions := Thaw(start, fitting.states, fitting.symbolCount);
      var table, score := Climb(transitions, fitting);
      FittedFacts(fitting, Rows(transitions), table, score);
      assert Rows(transitions) == Top(fitting, draws, restart);
      if kept.None? || score < kept.value.0 {
        var rows := Freeze(transitions);
        kept := Some((score, rows, table));
        winner := restart;
      }
      if score == 0 {
        return;
      }
    }
  }

  /** The table a restart starts from. */
  method NextStart(fitting: Fitting, restarts: nat, draws: seq<seq<seq<nat>>>, restart: nat)
    returns (start: seq<seq<nat>>)
    requires Drawn(fitting, restarts, draws) && restart < restarts
    ensures start == StartOf(fitting, draws, restart)
  {
    start := if restart == 0 then Zeros(fitting.states, fitting.symbolCount) else draws[restart - 1];
  }

  /** The problem of fitting one size to validated episodes. */
  ghost function FittingFor(traces: seq<ChoiceTrace>, flat: Flat, states: nat): Fitting {
    Fitting(flat, states, LargestAlphabet(traces), LargestProtocol(traces))
  }

  /** The machine a transition table is fitted to. */
  ghost function MachineAt(fitting: Fitting, rows: seq<seq<nat>>): RuleAutomaton
    requires fitting.Admits(rows)
  {
    RuleAutomaton(fitting.symbolCount, rows,
      Table(rows, fitting.flat, fitting.states, fitting.symbolCount, fitting.actionCount), fitting.actionCount)
  }

  /**
   `machine` with `score` is what one size yields: the minimized machine of restart `winner`,
   the first to climb lowest, and the number of trials that machine is not consistent with.
   */
  ghost predicate SizeFit(traces: seq<ChoiceTrace>, fitting: Fitting, restarts: nat, draws: seq<seq<seq<nat>>>,
      winner: nat, machine: RuleAutomaton, score: nat)
  {
    && (forall k :: 0 <= k < |traces| ==> traces[k].Square())
    && Readable(machine, traces) && Minimization.Reduced(machine) && Minimization.InStateOrder(machine)
    && Consistent(machine, traces, |traces|) + score == Trials(traces, |traces|)
    && FirstLowest(fitting, draws, restarts, winner)
    && fitting.Admits(Top(fitting, draws, winner)) && score == fitting.Cost(Top(fitting, draws, winner))
    && MachineAt(fitting, Top(fitting, draws, winner)).Valid()
    && SameBehaviour(MachineAt(fitting, Top(fitting, draws, winner)), machine)
  }

  /** One size, from validated episodes to the minimized machine of the best restart. */
  method InduceAtSize(traces: seq<ChoiceTrace>, joined: Flat, states: nat, restarts: nat, draws: seq<seq<seq<nat>>>)
    returns (kept: Option<(RuleAutomaton, nat)>, ghost winner: nat)
    requires Validated(traces) && states > 0 && LaidOut(joined, traces, |traces|)
    requires Drawn(FittingFor(traces, joined, states), restarts, draws)
    ensures kept.None? <==> restarts == 0
    ensures kept.Some? ==>
      SizeFit(traces, FittingFor(traces, joined, states), restarts, draws, winner, kept.value.0, kept.value.1)
    ensures kept.Some? ==> NoBetterStart(FittingFor(traces, joined, states), draws, restarts, kept.value.1)
    ensures kept.Some? ==>
      var fitting := FittingFor(traces, joined, states);
      LocallyOptimal(fitting, Top(fitting, draws, winner))
        || kept.value.1 + MAX_SWEEPS <= fitting.Cost(StartOf(fitting, draws, winner))
  {
    hide Fitting.Cost, Fitting.Fitted, NoBetterStart, LaidOut, Minimization.Reduced, Minimization.InStateOrder,
      Consistent, Trials, Usable, Drawn, FirstLowest, Top, LocallyOptimal, SameBehaviour;
    var symbolCount, actionCount := LargestAlphabet(traces), LargestProtocol(traces);
    ValidatedFits(traces, joined, states);
    var fitting := Fitting(joined, states, symbolCount, actionCount);
    var best;
    best, winner := BestOfRestarts(fitting, restarts, draws);
    if best.None? {
      return None, winner;
    }
    var (score, rows, table) := best.value;
    var machine := RuleAutomaton(symbolCount, rows, table, actionCount);
    FittedMachine(fitting, machine, traces, score);
    FittedFacts(fitting, rows, table, score);
    FittedIs(fitting, rows, table, score);
    var reduced := Minimization.Minimize(machine);
    Minimization.ReducedIsValid(reduced.value);
    ConsistentSame(machine, reduced.value, traces, |traces|);
    WinnerSettles(fitting, restarts, draws, winner);
    return Some((reduced.value, score)), winner;
  }

  // ------------------------------------------------------------------ over the sizes

  function CountEligible(flat: Flat, p: nat): nat
    requires p <= |flat.eligible|
  {
    if p == 0 then 0 else CountEligible(flat, p - 1) + if flat.eligible[p - 1] then 1 else 0
  }

  /** Counting the scored steps of the flat episodes is counting the trials. */
  lemma {:induction false} FlatTrials(flat: Flat, traces: seq<ChoiceTrace>, k: nat)
    requires forall j :: 0 <= j < |traces| ==> traces[j].Square()
    requires LaidOut(flat, traces, |traces|) && k <= |traces|
    ensures Offset(traces, k) <= |flat.eligible| && CountEligible(flat, Offset(traces, k)) == Trials(traces, k)
    decreases k
  {
    hide StepLaid;
    OffsetMonotone(traces, k, |traces|);
    if k > 0 {
      FlatTrials(flat, traces, k - 1);
      FlatScored(flat, traces, k - 1, |traces[k - 1].symbols|);
    }
  }

  lemma {:induction false} FlatScored(flat: Flat, traces: seq<ChoiceTrace>, k: nat, n: nat)
    requires forall j :: 0 <= j < |traces| ==> traces[j].Square()
    requires LaidOut(flat, traces, |traces|) && k < |traces| && n <= |traces[k].symbols|
    ensures Offset(traces, k) + n <= |flat.eligible| && traces[k].Square()
    ensures CountEligible(flat, Offset(traces, k) + n)
      == CountEligible(flat, Offset(traces, k)) + ScoredIn(traces[k], n)
    decreases n
  {
    OffsetMonotone(traces, k + 1, |traces|);
    if n > 0 {
      FlatScored(flat, traces, k, n - 1);
      assert StepLaid(flat, traces[k], Offset(traces, k), n - 1);
    }
  }

  datatype ChoiceFit = ChoiceFit(machine: RuleAutomaton, disagreements: nat, trials: nat)

  /** Of the first `n` sizes, the fit of size `i + 1` is the first with the fewest bits. */
  ghost predicate FirstShortest(fits: seq<ChoiceFit>, bits: ChoiceFit -> real, n: nat, i: nat) {
    && i < n <= |fits|
    && (forall j :: 0 <= j < n ==> bits(fits[i]) <= bits(fits[j]))
    && (forall j :: 0 <= j < i ==> bits(fits[i]) < bits(fits[j]))
  }

  /** What the loop has kept once it has the fits `fits`. */
  ghost predicate Keeps(fits: seq<ChoiceFit>, bits: ChoiceFit -> real, best: Option<ChoiceFit>, i: nat) {
    if fits == [] then best.None?
    else FirstShortest(fits, bits, |fits|, i) && best == Some(fits[i])
  }

  lemma KeepsNext(fits: seq<ChoiceFit>, bits: ChoiceFit -> real, best: Option<ChoiceFit>, i: nat, candidate: ChoiceFit)
    requires Keeps(fits, bits, best, i)
    ensures fits + [candidate] != []
    ensures if best.None? || bits(candidate) < bits(best.value)
      then Keeps(fits + [candidate], bits, Some(candidate), |fits|)
      else Keeps(fits + [candidate], bits, best, i)
  {
  }

  /** The fit of size `i + 1`. */
  ghost predicate FitAt(traces: seq<ChoiceTrace>, flat: Flat, restarts: nat, draws: seq<seq<seq<seq<nat>>>>,
      winners: seq<nat>, fits: seq<ChoiceFit>, i: nat)
  {
    && (forall k :: 0 <= k < |traces| ==> traces[k].Square())
    && i < |winners| && i < |fits| && i < |draws|
    && fits[i].trials == Trials(traces, |traces|)
    && SizeFit(traces, FittingFor(traces, flat, i + 1), restarts, draws[i], winners[i], fits[i].machine,
      fits[i].disagreements)
  }

  /** What every size of the loop yielded. */
  ghost predicate SizeFits(traces: seq<ChoiceTrace>, flat: Flat, restarts: nat, draws: seq<seq<seq<seq<nat>>>>,
      winners: seq<nat>, fits: seq<ChoiceFit>)
  {
    && |winners| == |fits| <= |draws|
    && forall i: nat :: i < |fits| ==> FitAt(traces, flat, restarts, draws, winners, fits, i)
  }

  lemma FitAtLast(traces: seq<ChoiceTrace>, flat: Flat, restarts: nat, draws: seq<seq<seq<seq<nat>>>>,
      winners: seq<nat>, fits: seq<ChoiceFit>, winner: nat, fit: ChoiceFit)
    requires |winners| == |fits| < |draws| && forall k :: 0 <= k < |traces| ==> traces[k].Square()
    requires fit.trials == Trials(traces, |traces|)
    requires SizeFit(traces, FittingFor(traces, flat, |fits| + 1), restarts, draws[|fits|], winner, fit.machine,
      fit.disagreements)
    ensures FitAt(traces, flat, restarts, draws, winners + [winner], fits + [fit], |fits|)
  {
    hide SizeFit, Trials, FittingFor;
  }

  lemma FitAtKept(traces: seq<ChoiceTrace>, flat: Flat, restarts: nat, draws: seq<seq<seq<seq<nat>>>>,
      winners: seq<nat>, fits: seq<ChoiceFit>, winner: nat, fit: ChoiceFit, i: nat)
    requires FitAt(traces, flat, restarts, draws, winners, fits, i)
    ensures FitAt(traces, flat, restarts, draws, winners + [winner], fits + [fit], i)
  {
    hide SizeFit, Trials, FittingFor;
  }

  lemma SizeFitsNext(traces: seq<ChoiceTrace>, flat: Flat, restarts: nat, draws: seq<seq<seq<seq<nat>>>>,
      winners: seq<nat>, fits: seq<ChoiceFit>, winner: nat, fit: ChoiceFit)
    requires SizeFits(traces, flat, restarts, draws, winners, fits) && |fits| < |draws|
    requires forall k :: 0 <= k < |traces| ==> traces[k].Square()
    requires fit.trials == Trials(traces, |traces|)
    requires SizeFit(traces, FittingFor(traces, flat, |fits| + 1), restarts, draws[|fits|], winner, fit.machine,
      fit.disagreements)
    ensures SizeFits(traces, flat, restarts, draws, winners + [winner], fits + [fit])
  {
    hide SizeFit, FitAt, FittingFor;
    FitAtLast(traces, flat, restarts, draws, winners, fits, winner, fit);
    forall i: nat | i < |fits|
      ensures FitAt(traces, flat, restarts, draws, winners + [winner], fits + [fit], i)
    {
      FitAtKept(traces, flat, restarts, draws, winners, fits, winner, fit, i);
    }
  }

  /**
   `induce_from_choices`. It raises exactly for an ill-formed episode, and has nothing to
   return exactly when there are fewer than two trials, no sizes or no restarts. Otherwise
   it returns the fit of the first size whose description is shortest.
   */
  method InduceFromChoices(traces: seq<ChoiceTrace>, maxStates: nat, restarts: nat, draws: seq<seq<seq<seq<nat>>>>,
      bits: ChoiceFit -> real)
    returns (r: Result<Option<ChoiceFit>>, ghost flat: Flat, ghost winners: seq<nat>, ghost fits: seq<ChoiceFit>,
      ghost chosen: nat)
    requires |draws| >= maxStates
    requires forall i :: 0 <= i < maxStates ==>
      |draws[i]| + 1 >= restarts && forall d :: 0 <= d < |draws[i]| ==>
        Transitions(draws[i][d], i + 1, LargestAlphabet(traces))
    ensures r.Failure? <==> exists k :: 0 <= k < |traces| && !traces[k].Valid()
    ensures r.Success? ==> forall k :: 0 <= k < |traces| ==> traces[k].Square()
    ensures r.Success? ==> (r.value.None? <==> Trials(traces, |traces|) < 2 || maxStates == 0 || restarts == 0)
    ensures r.Success? && r.value.Some? ==>
      && LaidOut(flat, traces, |traces|) && |fits| == maxStates
        && SizeFits(traces, flat, restarts, draws, winners, fits)
      && FirstShortest(fits, bits, maxStates, chosen) && r.value.value == fits[chosen]
      && SpansEpisodes(r.value.value.machine, traces)
  {
    hide LaidOut, SizeFit, Drawn, ChoiceTrace.Valid, ChoiceTrace.Square, CountEligible, Transitions, LargestAlphabet,
      NoBetterStart, LocallyOptimal, Top, StartOf, Fitting.Cost, FirstShortest, FitAt, FittingFor, SpansEpisodes;
    flat, winners, fits, chosen := Flat([], [], [], [], {}), [], [], 0;
    for k := 0 to |traces|
      invariant forall j :: 0 <= j < k ==> traces[j].Valid()
    {
      if !traces[k].Valid() {
        return Failure("an ill-formed choice trace"), flat, winners, fits, chosen;
      }
    }
    AllSquare(traces);
    if traces == [] {
      return Success(None), flat, winners, fits, chosen;
    }
    var joined := Flatten(traces);
    flat := joined;
    var trials := CountTrials(joined, traces);
    if trials < 2 {
      return Success(None), flat, winners, fits, chosen;
    }
    var best: Option<ChoiceFit> := None;
    assert SizeFits(traces, flat, restarts, draws, winners, fits);
    for states: nat := 1 to maxStates + 1
      invariant |fits| == if restarts == 0 then 0 else states - 1
      invariant SizeFits(traces, flat, restarts, draws, winners, fits) && Keeps(fits, bits, best, chosen)
    {
      DrawnFor(traces, flat, maxStates, restarts, draws, states);
      var kept;
      ghost var winner;
      kept, winner := InduceAtSize(traces, joined, states, restarts, draws[states - 1]);
      if kept.None? {
        continue;
      }
      var candidate := ChoiceFit(kept.value.0, kept.value.1, trials);
      SizeFitsNext(traces, flat, restarts, draws, winners, fits, winner, candidate);
      KeepsNext(fits, bits, best, chosen, candidate);
      winners, fits := winners + [winner], fits + [candidate];
      if best.None? || bits(candidate) < bits(best.value) {
        best := Some(candidate);
        chosen := states - 1;
      }
    }
    KeptLast(fits, bits, best, chosen);
    if best.Some? {
      FitSpans(traces, flat, restarts, draws, winners, fits, chosen);
    }
    return Success(best), flat, winners, fits, chosen;
  }

  lemma FitSpans(traces: seq<ChoiceTrace>, flat: Flat, restarts: nat, draws: seq<seq<seq<seq<nat>>>>,
      winners: seq<nat>, fits: seq<ChoiceFit>, i: nat)
    requires traces != [] && SizeFits(traces, flat, restarts, draws, winners, fits) && i < |fits|
    ensures SpansEpisodes(fits[i].machine, traces)
  {
    hide Consistent, Trials, FirstLowest, Top, Fitting.Cost, Fitting.Admits, Minimization.Reduced,
      Minimization.InStateOrder, Table;
    assert FitAt(traces, flat, restarts, draws, winners, fits, i);
  }

  lemma KeptLast(fits: seq<ChoiceFit>, bits: ChoiceFit -> real, best: Option<ChoiceFit>, i: nat)
    requires Keeps(fits, bits, best, i)
    ensures best.None? <==> fits == []
    ensures best.Some? ==> FirstShortest(fits, bits, |fits|, i) && i < |fits| && best.value == fits[i]
  {
  }

  lemma AllSquare(traces: seq<ChoiceTrace>)
    requires forall k :: 0 <= k < |traces| ==> traces[k].Valid()
    ensures forall k :: 0 <= k < |traces| ==> traces[k].Square()
  {
  }

  lemma DrawnFor(traces: seq<ChoiceTrace>, flat: Flat, maxStates: nat, restarts: nat, draws: seq<seq<seq<seq<nat>>>>,
      states: nat)
    requires 1 <= states <= maxStates <= |draws|
    requires forall i :: 0 <= i < maxStates ==>
      |draws[i]| + 1 >= restarts && forall d :: 0 <= d < |draws[i]| ==>
        Transitions(draws[i][d], i + 1, LargestAlphabet(traces))
    ensures Drawn(FittingFor(traces, flat, states), restarts, draws[states - 1])
  {
  }

  /** The trials, counted over the flat episodes. */
  method CountTrials(flat: Flat, traces: seq<ChoiceTrace>) returns (trials: nat)
    requires forall j :: 0 <= j < |traces| ==> traces[j].Square()
    requires LaidOut(flat, traces, |traces|)
    ensures trials == Trials(traces, |traces|)
  {
    trials := 0;
    for p := 0 to |flat.eligible|
      invariant trials == CountEligible(flat, p)
    {
      if flat.eligible[p] {
        trials := trials + 1;
      }
    }
    FlatTrials(flat, traces, |traces|);
  }

  lemma FittedMachine(fitting: Fitting, machine: RuleAutomaton, traces: seq<ChoiceTrace>, score: nat)
    requires machine.symbolCount == fitting.symbolCount >= 2 && machine.actionCount == fitting.actionCount >= 2
    requires Fits(traces, fitting.symbolCount, fitting.actionCount) && LaidOut(fitting.flat, traces, |traces|)
    requires fitting.Fitted(machine.transitions, machine.outputs, score)
    ensures machine.Valid() && Readable(machine, traces)
    ensures Consistent(machine, traces, |traces|) + score == Trials(traces, |traces|)
  {
    GridsAreValid(fitting, machine, score);
    assert FittingOf(machine, fitting.flat) == fitting;
    FitIsAgreement(machine, traces, fitting.flat, score);
  }

  lemma GridsAreValid(fitting: Fitting, machine: RuleAutomaton, score: nat)
    requires machine.symbolCount == fitting.symbolCount >= 2 && machine.actionCount == fitting.actionCount >= 2
    requires fitting.Fitted(machine.transitions, machine.outputs, score)
    ensures machine.Valid() && |machine.transitions| == fitting.states
  {
  }

  /** Agreement depends only on what the machine answers. */
  lemma {:induction false} ConsistentSame(a: RuleAutomaton, b: RuleAutomaton, traces: seq<ChoiceTrace>, k: nat)
    requires a.Valid() && b.Valid() && SameBehaviour(a, b) && Readable(a, traces) && k <= |traces|
    ensures Readable(b, traces) && Consistent(a, traces, k) == Consistent(b, traces, k)
    decreases k
  {
    hide ConsistentIn, SameBehaviour, ReadsTrace, RuleAutomaton.Valid;
    SameReads(a, b, traces);
    if k > 0 {
      ConsistentSame(a, b, traces, k - 1);
      ReadsLength(a, traces[k - 1]);
      TraceSame(a, b, traces[k - 1], |traces[k - 1].symbols|);
    }
  }

  lemma SameReads(a: RuleAutomaton, b: RuleAutomaton, traces: seq<ChoiceTrace>)
    requires a.Valid() && b.Valid() && SameBehaviour(a, b) && Readable(a, traces)
    ensures Readable(b, traces)
  {
    hide SameBehaviour;
    SameAlphabet(a, b);
    forall j | 0 <= j < |traces|
      ensures ReadsTrace(b, traces[j])
    {
      assert ReadsTrace(a, traces[j]);
    }
  }

  lemma ReadsLength(m: RuleAutomaton, t: ChoiceTrace)
    requires ReadsTrace(m, t)
    ensures |t.eligible| == |t.symbols|
  {
  }

  lemma SameAlphabet(a: RuleAutomaton, b: RuleAutomaton)
    requires a.Valid() && b.Valid() && SameBehaviour(a, b)
    ensures a.symbolCount == b.symbolCount
  {
  }

  lemma StepSame(a: RuleAutomaton, b: RuleAutomaton, t: ChoiceTrace, i: nat)
    requires a.Valid() && b.Valid() && SameBehaviour(a, b) && ReadsTrace(a, t) && ReadsTrace(b, t) && i < |t.symbols|
    ensures StepAgrees(a, t, i) == StepAgrees(b, t, i)
  {
    hide Emit;
    assert InAlphabet(t.symbols[..i + 1], a.symbolCount);
    assert Emit(a, t.symbols[..i + 1]) == Emit(b, t.symbols[..i + 1]);
  }

  lemma {:induction false} TraceSame(a: RuleAutomaton, b: RuleAutomaton, t: ChoiceTrace, n: nat)
    requires a.Valid() && b.Valid() && SameBehaviour(a, b) && ReadsTrace(a, t) && ReadsTrace(b, t) && n <= |t.symbols|
    ensures ConsistentIn(a, t, n) == ConsistentIn(b, t, n)
    decreases n
  {
    hide StepAgrees, SameBehaviour;
    if n > 0 {
      TraceSame(a, b, t, n - 1);
      StepSame(a, b, t, n - 1);
    }
  }
}
