/**
 Which size the choice induction keeps (choice_induction.py, `induce_from_choices`).

 Its documentation promises the smallest machine that contradicts the fewest outcomes; its
 code keeps the first size with the shortest description. The module says exactly when the
 two are the same, and gives two outcomes on which they are not.
 */
module ChoiceSelection {
  import opened RuleAutomata
  import opened Minimization
  import opened ChoiceInduction
  import opened ChoiceClimbing
  import opened ChoiceAgreement
  import opened ChoiceRestarts

  /** Of the first `n` sizes, size `i + 1` is the smallest with the fewest contradictions. */
  predicate FirstFewest(fits: seq<ChoiceFit>, n: nat, i: nat) {
    && i < n <= |fits|
    && (forall j :: 0 <= j < n ==> fits[i].disagreements <= fits[j].disagreements)
    && (forall j :: 0 <= j < i ==> fits[i].disagreements < fits[j].disagreements)
  }

  /** Size `j + 1` is described in fewer bits than size `i + 1`, or is smaller and needs no more. */
  ghost predicate Outbids(fits: seq<ChoiceFit>, bits: ChoiceFit -> real, j: nat, i: nat)
    requires i < |fits| && j < |fits|
  {
    bits(fits[j]) < bits(fits[i]) || (j < i && bits(fits[j]) == bits(fits[i]))
  }

  lemma {:induction false} SomeFewest(fits: seq<ChoiceFit>, n: nat) returns (i: nat)
    requires 0 < n <= |fits|
    ensures FirstFewest(fits, n, i)
    decreases n
  {
    if n == 1 {
      i := 0;
    } else {
      i := SomeFewest(fits, n - 1);
      if fits[n - 1].disagreements < fits[i].disagreements {
        i := n - 1;
      }
    }
  }

  /**
   Exactly when the documentation is right, for every way of measuring descriptions: the
   size kept is the smallest with the fewest contradictions if and only if no other size,
   which contradicts more or is larger and contradicts as much, outbids that one.
   */
  lemma DocumentedExactly(fits: seq<ChoiceFit>, bits: ChoiceFit -> real, n: nat, chosen: nat) returns (fewest: nat)
    requires FirstShortest(fits, bits, n, chosen)
    ensures FirstFewest(fits, n, fewest)
    ensures FirstFewest(fits, n, chosen) <==> forall j: nat :: j < n ==> !Outbids(fits, bits, j, fewest)
    ensures forall j: nat :: j < n && j != fewest ==>
      fits[j].disagreements > fits[fewest].disagreements
        || (j > fewest && fits[j].disagreements == fits[fewest].disagreements)
  {
    fewest := SomeFewest(fits, n);
    var c, f := bits(fits[chosen]), bits(fits[fewest]);
    assert c <= f && (fewest < chosen ==> c < f);
    if FirstFewest(fits, n, chosen) {
      FewestUnique(fits, n, chosen, fewest);
    }
    if forall j: nat :: j < n ==> !Outbids(fits, bits, j, fewest) {
      assert !Outbids(fits, bits, chosen, fewest);
    }
  }

  lemma FewestUnique(fits: seq<ChoiceFit>, n: nat, a: nat, b: nat)
    requires FirstFewest(fits, n, a) && FirstFewest(fits, n, b)
    ensures a == b
  {
    var x, y := fits[a].disagreements, fits[b].disagreements;
    assert x <= y && y <= x && (a < b ==> y < x) && (b < a ==> x < y);
  }

  /**
   Size `i + 1` yields a machine with the fewest contradictions, and with the fewest states
   among those. Machines are minimized, so this need not be the smallest size.
   */
  predicate SmallestFewest(fits: seq<ChoiceFit>, n: nat, i: nat) {
    && i < n <= |fits|
    && forall j :: 0 <= j < n ==>
      || fits[i].disagreements < fits[j].disagreements
      || (fits[i].disagreements == fits[j].disagreements
          && fits[i].machine.StateCount() <= fits[j].machine.StateCount())
  }

  /** No size whose machine contradicts more, or contradicts as much with more states, outbids this one. */
  ghost predicate Unrivalled(fits: seq<ChoiceFit>, bits: ChoiceFit -> real, n: nat, i: nat)
    requires i < n <= |fits|
  {
    forall j: nat :: j < n && !SmallestFewest(fits, n, j) ==> !Outbids(fits, bits, j, i)
  }

  /**
   Exactly when the documentation is right about machines: the one kept is a smallest one
   with the fewest contradictions if and only if such a machine is outbid by no other kind.
   */
  lemma SmallestExactly(fits: seq<ChoiceFit>, bits: ChoiceFit -> real, n: nat, chosen: nat)
    requires FirstShortest(fits, bits, n, chosen)
    ensures SmallestFewest(fits, n, chosen) <==>
      exists i: nat :: SmallestFewest(fits, n, i) && Unrivalled(fits, bits, n, i)
  {
    assert forall j: nat :: j < n ==> !Outbids(fits, bits, j, chosen);
    if SmallestFewest(fits, n, chosen) {
      assert Unrivalled(fits, bits, n, chosen);
    }
    if i: nat :| SmallestFewest(fits, n, i) && Unrivalled(fits, bits, n, i) {
      assert chosen == i || Outbids(fits, bits, chosen, i);
    }
  }

  // ------------------------------------------------------ two outcomes that disagree

  /**
   What the prices of `description_bits` and `error_bits` come to where their logarithms are
   whole: a cell takes two bits up to two states and no less above, and the exceptions take
   nothing when there are none, one bit a trial when half of the trials are exceptions, and
   never less than nothing.
   */
  ghost predicate Priced(bits: ChoiceFit -> real) {
    forall fit: ChoiceFit :: PricedFit(fit, bits(fit))
  }

  predicate PricedFit(fit: ChoiceFit, price: real) {
    var cells := fit.machine.StateCount() * fit.machine.symbolCount;
    && price >= (2 * cells) as real
    && (2 * fit.disagreements == fit.trials ==> price >= (2 * cells + fit.trials) as real)
    && (fit.machine.StateCount() <= 2 && 2 * fit.disagreements == fit.trials ==>
      price == (2 * cells + fit.trials) as real)
  }

  /** One symbol twice; the first time action 0 was right, the second time action 1. */
  const TWO_OUTCOMES: ChoiceTrace := ChoiceTrace([0, 0], [0, 1], [1, 1], [true, true], 2, 2)

  lemma TwoOutcomesLaid(flat: Flat)
    requires LaidOut(flat, [TWO_OUTCOMES], 1)
    ensures TWO_OUTCOMES.Valid() && flat.symbols == [0, 0] && flat.actions == [0, 1] && flat.rewards == [1, 1]
      && flat.eligible == [true, true]
    ensures 1 !in flat.starts
  {
    assert Offset([TWO_OUTCOMES], 1) == 2 && Offset([TWO_OUTCOMES], 0) == 0;
    assert StepLaid(flat, [TWO_OUTCOMES][0], Offset([TWO_OUTCOMES], 0), 0);
    assert StepLaid(flat, [TWO_OUTCOMES][0], Offset([TWO_OUTCOMES], 0), 1);
  }

  /** The second outcome is met in the state the first one leads to. */
  lemma TwoOutcomesSeen(fitting: Fitting, rows: seq<seq<nat>>)
    requires LaidOut(fitting.flat, [TWO_OUTCOMES], 1) && fitting.Admits(rows)
    ensures fitting.symbolCount > 0 && |rows| == fitting.states > 0 && |rows[0]| == fitting.symbolCount
    ensures Seen(rows, fitting.flat, fitting.states, fitting.symbolCount, fitting.actionCount)
      == [Outcome(0, 0, 0, true), Outcome(rows[0][0], 0, 1, true)]
  {
    var flat := fitting.flat;
    TwoOutcomesLaid(flat);
    assert flat.symbols[0] < fitting.symbolCount;
    assert FlatState(rows, fitting.symbolCount, flat, 0) == 0;
    assert FlatState(rows, fitting.symbolCount, flat, 1) == rows[0][0];
    assert FlatOutcomes(rows, fitting.symbolCount, flat, 0) == [];
    assert FlatOutcomes(rows, fitting.symbolCount, flat, 1) == [Outcome(0, 0, 0, true)];
    assert FlatOutcomes(rows, fitting.symbolCount, flat, 2)
      == [Outcome(0, 0, 0, true), Outcome(rows[0][0], 0, 1, true)];
  }

  /** Answering 1 on symbol 0 in every state but the first. */
  function LaterOne(states: nat, symbolCount: nat): seq<seq<nat>> {
    seq(states, s => seq(symbolCount, y => if s > 0 && y == 0 then 1 else 0))
  }

  /** No transitions cost more than one contradiction, and none if the first step leaves state 0. */
  lemma TwoOutcomesCost(fitting: Fitting, rows: seq<seq<nat>>)
    requires LaidOut(fitting.flat, [TWO_OUTCOMES], 1) && fitting.Admits(rows) && fitting.actionCount == 2
    ensures fitting.Cost(rows) <= 1
    ensures |rows| > 0 && |rows[0]| > 0 && (rows[0][0] != 0 ==> fitting.Cost(rows) == 0)
  {
    TwoOutcomesSeen(fitting, rows);
    var states, symbolCount := fitting.states, fitting.symbolCount;
    var obs := Seen(rows, fitting.flat, states, symbolCount, 2);
    var table := LaterOne(states, symbolCount);
    assert Grid(table, states, symbolCount, 2);
    BestTableIsOptimal(obs, table, states, symbolCount, 2);
    assert obs[..1] == [Outcome(0, 0, 0, true)] && obs[..1][..0] == [];
    assert Disagreements(obs[..1][..0], table, states, symbolCount, 2) == 0;
    assert Disagreements(obs[..1], table, states, symbolCount, 2) == 0;
  }

  /** A machine with one state answers both steps alike, and so contradicts one. */
  lemma OneStateContradicts(m: RuleAutomaton)
    requires Readable(m, [TWO_OUTCOMES]) && m.StateCount() == 1
    ensures TWO_OUTCOMES.Square() && Consistent(m, [TWO_OUTCOMES], 1) < 2
  {
    var t := TWO_OUTCOMES;
    assert ReadsTrace(m, [t][0]);
    assert t.symbols[..1] == [0] && t.symbols[..2] == [0, 0];
    assert Emit(m, [0]) == m.outputs[0][0] && Emit(m, [0, 0]) == m.outputs[0][0];
    assert !StepAgrees(m, t, 0) || !StepAgrees(m, t, 1);
    assert ConsistentIn(m, t, 0) == 0;
    assert ConsistentIn(m, t, 1) <= 1;
    assert Consistent(m, [t], 0) == 0;
  }

  lemma TwoTrials()
    ensures TWO_OUTCOMES.Square() && Trials([TWO_OUTCOMES], 1) == 2
  {
    var t := TWO_OUTCOMES;
    assert ScoredIn(t, 0) == 0 && ScoredIn(t, 1) == 1 && ScoredIn(t, 2) == 2;
    assert Trials([t], 0) == 0;
  }

  lemma Alphabets(flat: Flat, states: nat)
    ensures FittingFor([TWO_OUTCOMES], flat, states) == Fitting(flat, states, 2, 2)
  {
    assert [TWO_OUTCOMES][..0] == [];
    assert LargestAlphabet([TWO_OUTCOMES]) == 2 && LargestProtocol([TWO_OUTCOMES]) == 2;
  }

  /** What every size yields on the two outcomes. */
  lemma SizeOnTwoOutcomes(flat: Flat, states: nat, restarts: nat, draws: seq<seq<seq<nat>>>, winner: nat,
      m: RuleAutomaton, score: nat)
    requires LaidOut(flat, [TWO_OUTCOMES], 1) && states > 0
    requires SizeFit([TWO_OUTCOMES], FittingFor([TWO_OUTCOMES], flat, states), restarts, draws, winner, m, score)
    ensures m.symbolCount == 2 && 0 < m.StateCount() <= states
    ensures score <= 1 && (score == 0 ==> m.StateCount() >= 2)
  {
    hide Readable, Consistent, Trials, FirstLowest, Top, Fitting.Cost, Table, SameBehaviour;
    var fitting := FittingFor([TWO_OUTCOMES], flat, states);
    Alphabets(flat, states);
    var top := Top(fitting, draws, winner);
    TwoOutcomesCost(fitting, top);
    TwoTrials();
    SameSizes(MachineAt(fitting, top), m);
    if score == 0 && m.StateCount() == 1 {
      OneStateContradicts(m);
    }
  }

  lemma SameSizes(a: RuleAutomaton, m: RuleAutomaton)
    requires a.Valid() && m.Valid() && Reduced(m) && SameBehaviour(a, m)
    ensures m.symbolCount == a.symbolCount && 0 < m.StateCount() <= a.StateCount()
  {
    hide Reduced;
    SameBehaviourSymmetric(a, m);
    ReducedIsSmallest(m, a);
  }

  /** With two states the climb from the all-zero table, or a better one, contradicts nothing. */
  lemma TwoStatesSuffice(flat: Flat, restarts: nat, draws: seq<seq<seq<nat>>>, winner: nat)
    requires LaidOut(flat, [TWO_OUTCOMES], 1)
    requires var fitting := Fitting(flat, 2, 2, 2);
      Drawn(fitting, restarts, draws) && FirstLowest(fitting, draws, restarts, winner)
    ensures Fitting(flat, 2, 2, 2).Cost(Top(Fitting(flat, 2, 2, 2), draws, winner)) == 0
  {
    hide Fitting.Cost, Top, StartOf, FirstLowest, Drawn, NoBetterStart;
    var fitting := Fitting(flat, 2, 2, 2);
    TwoOutcomesLaid(flat);
    WinnerSettles(fitting, restarts, draws, winner);
    StartAdmitted(fitting, restarts, draws, winner);
    TopAdmitted(fitting, restarts, draws, winner);
    var top := Top(fitting, draws, winner);
    TwoOutcomesCost(fitting, StartOf(fitting, draws, winner));
    TwoOutcomesCost(fitting, top);
    RedirectFacts(fitting, top, 0, 0, 1);
    TwoOutcomesCost(fitting, Redirect(top, 0, 0, 1));
    assert LocallyOptimal(fitting, top);
    assert CellSettled(fitting, top, 0, 0);
  }

  lemma TopAdmitted(fitting: Fitting, restarts: nat, draws: seq<seq<seq<nat>>>, d: nat)
    requires fitting.states > 0 && Usable(fitting.flat, fitting.symbolCount, fitting.actionCount)
      && Drawn(fitting, restarts, draws)
    ensures fitting.Admits(Top(fitting, draws, d))
  {
    hide Fitting.Cost, Fitting.Admits, LocallyOptimal, Climbed, Transitions, Usable, Drawn;
    StartAdmitted(fitting, restarts, draws, d);
    ClimbedSettles(fitting, StartOf(fitting, draws, d), MAX_SWEEPS);
  }

  /**
   The documented promise fails: on the two outcomes, whatever is drawn, two states contradict
   nothing, and yet one state is kept although it contradicts one of them, because a second
   state costs four bits and the exception only two.
   */
  lemma ShorterBeatsFewer(flat: Flat, maxStates: nat, restarts: nat, draws: seq<seq<seq<seq<nat>>>>, winners: seq<nat>,
      fits: seq<ChoiceFit>, bits: ChoiceFit -> real, chosen: nat)
    requires maxStates >= 2 && |fits| == maxStates && Priced(bits) && FirstShortest(fits, bits, maxStates, chosen)
    requires LaidOut(flat, [TWO_OUTCOMES], 1) && SizeFits([TWO_OUTCOMES], flat, restarts, draws, winners, fits)
    requires |draws| >= 2 && Drawn(FittingFor([TWO_OUTCOMES], flat, 2), restarts, draws[1])
    ensures chosen == 0 && fits[chosen].disagreements == 1 && fits[1].disagreements == 0
    ensures !FirstFewest(fits, maxStates, chosen) && !SmallestFewest(fits, maxStates, chosen)
  {
    hide SizeFit, LaidOut, Drawn, Trials, Fitting.Cost;
    TwoTrials();
    forall i: nat | i < maxStates
      ensures fits[i].trials == 2 && fits[i].machine.symbolCount == 2 && 0 < fits[i].machine.StateCount() <= i + 1
      ensures fits[i].disagreements <= 1 && (fits[i].disagreements == 0 ==> fits[i].machine.StateCount() >= 2)
    {
      assert FitAt([TWO_OUTCOMES], flat, restarts, draws, winners, fits, i);
      SizeOnTwoOutcomes(flat, i + 1, restarts, draws[i], winners[i], fits[i].machine, fits[i].disagreements);
    }
    assert FitAt([TWO_OUTCOMES], flat, restarts, draws, winners, fits, 1);
    SecondFit(flat, restarts, draws[1], winners[1], fits[1].machine, fits[1].disagreements);
    assert PricedFit(fits[0], bits(fits[0])) && bits(fits[0]) == 6.0;
    forall i: nat | 0 < i < maxStates
      ensures bits(fits[i]) >= 6.0
    {
      assert PricedFit(fits[i], bits(fits[i]));
    }
  }

  lemma SecondFit(flat: Flat, restarts: nat, draws: seq<seq<seq<nat>>>, winner: nat, m: RuleAutomaton, score: nat)
    requires LaidOut(flat, [TWO_OUTCOMES], 1) && Drawn(FittingFor([TWO_OUTCOMES], flat, 2), restarts, draws)
    requires SizeFit([TWO_OUTCOMES], FittingFor([TWO_OUTCOMES], flat, 2), restarts, draws, winner, m, score)
    ensures score == 0
  {
    hide LaidOut, Drawn, Readable, Consistent, Trials, FirstLowest, Top, Fitting.Cost, Table, SameBehaviour, Reduced;
    Alphabets(flat, 2);
    TwoStatesSuffice(flat, restarts, draws, winner);
  }
}
