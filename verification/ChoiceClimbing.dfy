/**
 Fitting a machine to choices (choice_induction.py, `_best_outputs` and `_climb`): count
 tables filled in one pass, and a hill climb that edits the transition table in place and
 puts back every trial that does not help.
 */
module ChoiceClimbing {
  import opened Prelude
  import opened ChoiceInduction

  /** What the loops over the flat episodes need of their arguments. */
  predicate Usable(flat: Flat, symbolCount: nat, actionCount: nat) {
    && actionCount >= 1
    && InAlphabet(flat.symbols, symbolCount)
    && |flat.actions| == |flat.symbols| && |flat.rewards| == |flat.symbols| && |flat.eligible| == |flat.symbols|
    && forall i :: 0 <= i < |flat.actions| ==> flat.actions[i] < actionCount
  }

  predicate Transitions(rows: seq<seq<nat>>, states: nat, symbolCount: nat) {
    states > 0 && Grid(rows, states, symbolCount, states)
  }

  /** The rows a mutable table currently holds. */
  ghost function Rows(a: array2<nat>): (rows: seq<seq<nat>>)
    reads a
    ensures |rows| == a.Length0
    ensures forall s :: 0 <= s < a.Length0 ==> |rows[s]| == a.Length1
    ensures forall s, y :: 0 <= s < a.Length0 && 0 <= y < a.Length1 ==> rows[s][y] == a[s, y]
  {
    seq(a.Length0, s requires 0 <= s < a.Length0 reads a =>
      seq(a.Length1, y requires 0 <= y < a.Length1 reads a => a[s, y]))
  }

  /** The outcomes of the first `p` steps as the transition table `rows` sees them. */
  ghost function SeenTo(rows: seq<seq<nat>>, flat: Flat, states: nat, symbolCount: nat, actionCount: nat,
      p: nat): (obs: seq<Outcome>)
    requires Transitions(rows, states, symbolCount) && Usable(flat, symbolCount, actionCount) && p <= |flat.symbols|
    ensures Located(obs, states, symbolCount, actionCount)
  {
    FlatLocated(rows, symbolCount, actionCount, flat, p);
    FlatOutcomes(rows, symbolCount, flat, p)
  }

  ghost function StateAt(rows: seq<seq<nat>>, flat: Flat, states: nat, symbolCount: nat, actionCount: nat,
      p: nat): (s: nat)
    requires Transitions(rows, states, symbolCount) && Usable(flat, symbolCount, actionCount) && p <= |flat.symbols|
    ensures s < states
  {
    FlatState(rows, symbolCount, flat, p)
  }

  /** All the evidence as the transition table `rows` sees it. */
  ghost function Seen(rows: seq<seq<nat>>, flat: Flat, states: nat, symbolCount: nat,
      actionCount: nat): (obs: seq<Outcome>)
    requires Transitions(rows, states, symbolCount) && Usable(flat, symbolCount, actionCount)
    ensures Located(obs, states, symbolCount, actionCount)
  {
    SeenTo(rows, flat, states, symbolCount, actionCount, |flat.symbols|)
  }

  lemma {:induction false} FlatLocated(rows: seq<seq<nat>>, symbolCount: nat, actionCount: nat, flat: Flat, p: nat)
    requires Transitions(rows, |rows|, symbolCount) && Usable(flat, symbolCount, actionCount) && p <= |flat.symbols|
    ensures Located(FlatOutcomes(rows, symbolCount, flat, p), |rows|, symbolCount, actionCount)
    decreases p
  {
    if p > 0 {
      FlatLocated(rows, symbolCount, actionCount, flat, p - 1);
    }
  }

  /** The fewest outcomes any output table contradicts, for these transitions. */
  ghost function Score(rows: seq<seq<nat>>, flat: Flat, states: nat, symbolCount: nat, actionCount: nat): nat
    requires Transitions(rows, states, symbolCount) && Usable(flat, symbolCount, actionCount)
  {
    var obs := Seen(rows, flat, states, symbolCount, actionCount);
    Disagreements(obs, BestTable(obs, states, symbolCount, actionCount), states, symbolCount, actionCount)
  }

  ghost function Table(rows: seq<seq<nat>>, flat: Flat, states: nat, symbolCount: nat,
      actionCount: nat): (table: seq<seq<nat>>)
    requires Transitions(rows, states, symbolCount) && Usable(flat, symbolCount, actionCount)
    ensures Grid(table, states, symbolCount, actionCount)
  {
    BestTable(Seen(rows, flat, states, symbolCount, actionCount), states, symbolCount, actionCount)
  }

  // ---------------------------------------------------------------------- counting

  /** The three count tables hold the counts of `obs`. */
  ghost predicate Counted(positives: array3<nat>, negatives: array3<nat>, totals: array2<nat>, obs: seq<Outcome>)
    reads positives, negatives, totals
  {
    && positives.Length0 == negatives.Length0 == totals.Length0
    && positives.Length1 == negatives.Length1 == totals.Length1
    && positives.Length2 == negatives.Length2
    && (forall s, y :: 0 <= s < totals.Length0 && 0 <= y < totals.Length1 ==> totals[s, y] == Successes(obs, s, y))
    && (forall s, y, a :: 0 <= s < positives.Length0 && 0 <= y < positives.Length1 && 0 <= a < positives.Length2 ==>
      positives[s, y, a] == Positives(obs, s, y, a))
    && (forall s, y, a :: 0 <= s < negatives.Length0 && 0 <= y < negatives.Length1 && 0 <= a < negatives.Length2 ==>
      negatives[s, y, a] == Negatives(obs, s, y, a))
  }

  lemma EmptyCounts(positives: array3<nat>, negatives: array3<nat>, totals: array2<nat>)
    requires positives.Length0 == negatives.Length0 == totals.Length0
      && positives.Length1 == negatives.Length1 == totals.Length1
    requires positives.Length2 == negatives.Length2
    requires forall s, y :: 0 <= s < totals.Length0 && 0 <= y < totals.Length1 ==> totals[s, y] == 0
    requires forall s, y, a ::
      0 <= s < positives.Length0 && 0 <= y < positives.Length1 && 0 <= a < positives.Length2 ==> positives[s, y, a] == 0
    requires forall s, y, a ::
      0 <= s < negatives.Length0 && 0 <= y < negatives.Length1 && 0 <= a < negatives.Length2 ==> negatives[s, y, a] == 0
    ensures Counted(positives, negatives, totals, [])
  {
  }

  lemma StartOfPass(rows: seq<seq<nat>>, flat: Flat, states: nat, symbolCount: nat, actionCount: nat)
    requires Transitions(rows, states, symbolCount) && Usable(flat, symbolCount, actionCount)
    ensures states > 0 && SeenTo(rows, flat, states, symbolCount, actionCount, 0) == []
    ensures flat.symbols != [] ==> StateAt(rows, flat, states, symbolCount, actionCount, 0) == 0
  {
  }

  /** One step of the counting pass. */
  lemma FlatStep(rows: seq<seq<nat>>, flat: Flat, states: nat, symbolCount: nat, actionCount: nat, p: nat)
    requires Transitions(rows, states, symbolCount) && Usable(flat, symbolCount, actionCount) && p < |flat.symbols|
    ensures flat.symbols[p] < symbolCount && |flat.eligible| == |flat.actions| == |flat.rewards| == |flat.symbols|
    ensures flat.actions[p] < actionCount
    ensures p in flat.starts || p == 0 ==> StateAt(rows, flat, states, symbolCount, actionCount, p) == 0
    ensures var state := StateAt(rows, flat, states, symbolCount, actionCount, p);
      && state < states == |rows| && flat.symbols[p] < |rows[state]| && rows[state][flat.symbols[p]] < states
      && (p + 1 < |flat.symbols| && p + 1 !in flat.starts ==>
        StateAt(rows, flat, states, symbolCount, actionCount, p + 1) == rows[state][flat.symbols[p]])
      && var obs := SeenTo(rows, flat, states, symbolCount, actionCount, p);
      SeenTo(rows, flat, states, symbolCount, actionCount, p + 1) ==
        if flat.eligible[p] then obs + [Outcome(state, flat.symbols[p], flat.actions[p], flat.rewards[p] != 0)] else obs
  {
  }

  /** Appending one outcome moves exactly the counters of its cell. */
  lemma CountsAfter(obs: seq<Outcome>, o: Outcome)
    ensures forall s, y ::
      Successes(obs + [o], s, y) == Successes(obs, s, y)
      + if o.state == s && o.symbol == y && o.success then 1 else 0
    ensures forall s, y, a ::
      Positives(obs + [o], s, y, a) == Positives(obs, s, y, a)
      + if o.state == s && o.symbol == y && o.success && o.action == a then 1 else 0
    ensures forall s, y, a ::
      Negatives(obs + [o], s, y, a) == Negatives(obs, s, y, a)
      + if o.state == s && o.symbol == y && !o.success && o.action == a then 1 else 0
  {
    assert (obs + [o])[..|obs|] == obs;
  }

  /** Record one outcome in the count tables. */
  method Record(positives: array3<nat>, negatives: array3<nat>, totals: array2<nat>, o: Outcome,
      ghost obs: seq<Outcome>)
    requires positives != negatives && Counted(positives, negatives, totals, obs)
    requires o.state < positives.Length0 && o.symbol < positives.Length1 && o.action < positives.Length2
    modifies positives, negatives, totals
    ensures Counted(positives, negatives, totals, obs + [o])
  {
    hide Successes, Positives, Negatives;
    CountsAfter(obs, o);
    if o.success {
      positives[o.state, o.symbol, o.action] := positives[o.state, o.symbol, o.action] + 1;
      totals[o.state, o.symbol] := totals[o.state, o.symbol] + 1;
    } else {
      negatives[o.state, o.symbol, o.action] := negatives[o.state, o.symbol, o.action] + 1;
    }
  }

  /** The counting pass: the state restarts at every recorded start. */
  method CountOutcomes(transitions: array2<nat>, flat: Flat, states: nat, symbolCount: nat, actionCount: nat)
    returns (positives: array3<nat>, negatives: array3<nat>, totals: array2<nat>)
    requires transitions.Length0 == states && transitions.Length1 == symbolCount
    requires Transitions(Rows(transitions), states, symbolCount) && Usable(flat, symbolCount, actionCount)
    ensures fresh(positives) && fresh(negatives) && fresh(totals)
    ensures positives.Length0 == states && positives.Length1 == symbolCount && positives.Length2 == actionCount
    ensures Counted(positives, negatives, totals, Seen(Rows(transitions), flat, states, symbolCount, actionCount))
  {
    hide Transitions, Usable, StateAt, SeenTo, Located, Counted;
    positives := new nat[states, symbolCount, actionCount]((s, y, a) => 0);
    negatives := new nat[states, symbolCount, actionCount]((s, y, a) => 0);
    totals := new nat[states, symbolCount]((s, y) => 0);
    ghost var rows := Rows(transitions);
    StartOfPass(rows, flat, states, symbolCount, actionCount);
    EmptyCounts(positives, negatives, totals);
    var state: nat := 0;
    for index := 0 to |flat.symbols|
      invariant state < states
      invariant index < |flat.symbols| && index !in flat.starts ==>
        state == StateAt(rows, flat, states, symbolCount, actionCount, index)
      invariant Counted(positives, negatives, totals, SeenTo(rows, flat, states, symbolCount, actionCount, index))
    {
      FlatStep(rows, flat, states, symbolCount, actionCount, index);
      var symbol := flat.symbols[index];
      if index in flat.starts {
        state := 0;
      }
      ghost var obs := SeenTo(rows, flat, states, symbolCount, actionCount, index);
      if flat.eligible[index] {
        Record(positives, negatives, totals, Outcome(state, symbol, flat.actions[index], flat.rewards[index] != 0),
          obs);
      }
      state := transitions[state, symbol];
    }
  }

  lemma ScoreFromTables(positives: array3<nat>, negatives: array3<nat>, totals: array2<nat>, obs: seq<Outcome>, s: nat,
      y: nat, a: nat)
    requires Counted(positives, negatives, totals, obs)
    requires s < positives.Length0 && y < positives.Length1 && a < positives.Length2
    ensures s < totals.Length0 == negatives.Length0 && y < totals.Length1 == negatives.Length1 && a < negatives.Length2
    ensures (totals[s, y] - positives[s, y, a]) + negatives[s, y, a] == CellScore(obs, s, y, a)
  {
    ScoreFromCounts(obs, s, y, a);
  }

  /** Extending the range of actions by `k`. */
  lemma FirstBestNext(obs: seq<Outcome>, s: nat, y: nat, k: nat)
    ensures k == 0 ==> FirstBest(obs, s, y, 1) == 0
    ensures k > 0 ==>
      var best := FirstBest(obs, s, y, k);
      FirstBest(obs, s, y, k + 1) == if CellScore(obs, s, y, k) < CellScore(obs, s, y, best) then k else best
  {
  }

  lemma SomeAction(flat: Flat, actionCount: nat, symbolCount: nat)
    requires Usable(flat, symbolCount, actionCount)
    ensures actionCount >= 1
  {
  }

  /**
   `_best_outputs`: each cell gets the first action with the fewest contradictions, and the
   count returned is what the whole table contradicts.
   */
  method BestOutputs(transitions: array2<nat>, flat: Flat, states: nat, symbolCount: nat, actionCount: nat)
    returns (table: seq<seq<nat>>, disagreements: nat)
    requires transitions.Length0 == states && transitions.Length1 == symbolCount
    requires Transitions(Rows(transitions), states, symbolCount) && Usable(flat, symbolCount, actionCount)
    ensures table == Table(Rows(transitions), flat, states, symbolCount, actionCount)
    ensures disagreements == Score(Rows(transitions), flat, states, symbolCount, actionCount)
    ensures disagreements == Disagreements(Seen(Rows(transitions), flat, states, symbolCount, actionCount), table,
      states, symbolCount, actionCount)
  {
    hide Transitions, Usable, Located, Counted, Seen, Grid, FirstBest;
    SomeAction(flat, actionCount, symbolCount);
    var positives, negatives, totals := CountOutcomes(transitions, flat, states, symbolCount, actionCount);
    ghost var obs := Seen(Rows(transitions), flat, states, symbolCount, actionCount);
    ghost var goal := BestTable(obs, states, symbolCount, actionCount);
    table := [];
    disagreements := 0;
    for s := 0 to states
      invariant Counted(positives, negatives, totals, obs)
      invariant |table| == s && table == goal[..s]
      invariant disagreements == GridScore(obs, goal, s)
    {
      var row: seq<nat>;
      row, disagreements := FillRow(positives, negatives, totals, obs, goal, s, disagreements);
      table := table + [row];
    }
    DisagreementsByCell(obs, goal, states, symbolCount, actionCount);
  }

  /** One row of `_best_outputs`: argmin over the actions of every cell. */
  method FillRow(positives: array3<nat>, negatives: array3<nat>, totals: array2<nat>, ghost obs: seq<Outcome>,
      ghost goal: seq<seq<nat>>, s: nat, before: nat)
    returns (row: seq<nat>, disagreements: nat)
    requires Counted(positives, negatives, totals, obs) && positives.Length2 >= 1
    requires s < positives.Length0 == |goal| && |goal[s]| == positives.Length1
    requires forall y :: 0 <= y < |goal[s]| ==> goal[s][y] == FirstBest(obs, s, y, positives.Length2)
    ensures row == goal[s]
    ensures disagreements == before + RowScore(obs, goal, s, |goal[s]|)
  {
    hide Counted, FirstBest, CellScore;
    row := [];
    disagreements := before;
    for y := 0 to positives.Length1
      invariant |row| == y && row == goal[s][..y]
      invariant disagreements == before + RowScore(obs, goal, s, y)
    {
      var best: nat := 0;
      var bestScore: Option<int> := None;
      for a := 0 to positives.Length2
        invariant a == 0 ==> bestScore == None
        invariant a > 0 ==> best == FirstBest(obs, s, y, a) && bestScore == Some(CellScore(obs, s, y, best))
      {
        FirstBestNext(obs, s, y, a);
        ScoreFromTables(positives, negatives, totals, obs, s, y, a);
        var score := (totals[s, y] - positives[s, y, a]) + negatives[s, y, a];
        if bestScore == None || score < bestScore.value {
          best, bestScore := a, Some(score);
        }
      }
      row := row + [best];
      disagreements := disagreements + bestScore.value;
    }
  }

  // ---------------------------------------------------------------------- climbing

  /** The fixed inputs of one climb. */
  datatype Fitting = Fitting(flat: Flat, states: nat, symbolCount: nat, actionCount: nat) {
    predicate Admits(rows: seq<seq<nat>>) {
      Transitions(rows, states, symbolCount) && Usable(flat, symbolCount, actionCount)
    }

    /** `Score`, made total. */
    ghost function Cost(rows: seq<seq<nat>>): nat {
      if Admits(rows) then Score(rows, flat, states, symbolCount, actionCount) else 0
    }

    /** `table` and `best` are what counting gives for the transitions `rows`. */
    ghost predicate Fitted(rows: seq<seq<nat>>, table: seq<seq<nat>>, best: nat) {
      && Admits(rows)
      && table == Table(rows, flat, states, symbolCount, actionCount)
      && best == Score(rows, flat, states, symbolCount, actionCount)
    }
  }

  /** One transition redirected. */
  function Redirect(rows: seq<seq<nat>>, s: nat, y: nat, target: nat): seq<seq<nat>> {
    if s < |rows| && y < |rows[s]| then
      var row: seq<nat> := rows[s][y := target];
      rows[s := row]
    else rows
  }

  /** No target of the cell gives a lower cost. */
  ghost predicate CellSettled(fitting: Fitting, rows: seq<seq<nat>>, s: nat, y: nat) {
    forall target: nat :: target < fitting.states ==> fitting.Cost(rows) <= fitting.Cost(Redirect(rows, s, y, target))
  }

  /** No single transition change gives a lower cost. */
  ghost predicate LocallyOptimal(fitting: Fitting, rows: seq<seq<nat>>) {
    forall s, y :: 0 <= s < fitting.states && 0 <= y < fitting.symbolCount ==> CellSettled(fitting, rows, s, y)
  }

  lemma RowsWritten(rows: seq<seq<nat>>, written: seq<seq<nat>>, s: nat, y: nat, target: nat)
    requires s < |rows| == |written| && y < |rows[s]|
    requires forall r :: 0 <= r < |rows| ==> |written[r]| == |rows[r]|
    requires forall r, x :: 0 <= r < |rows| && 0 <= x < |rows[r]| ==>
      written[r][x] == if r == s && x == y then target else rows[r][x]
    ensures written == Redirect(rows, s, y, target)
  {
    forall r | 0 <= r < |rows|
      ensures written[r] == Redirect(rows, s, y, target)[r]
    {
    }
  }

  lemma RedirectFacts(fitting: Fitting, rows: seq<seq<nat>>, s: nat, y: nat, target: nat)
    requires fitting.Admits(rows) && s < fitting.states && y < fitting.symbolCount && target < fitting.states
    ensures s < |rows| && y < |rows[s]| && rows[s][y] < fitting.states
    ensures |rows| == fitting.states && |rows[s]| == fitting.symbolCount
    ensures fitting.Admits(Redirect(rows, s, y, target))
    ensures Redirect(rows, s, y, rows[s][y]) == rows
    ensures Redirect(rows, s, y, target)[s][y] == target
    ensures forall other: nat :: Redirect(Redirect(rows, s, y, target), s, y, other) == Redirect(rows, s, y, other)
  {
    forall other: nat
      ensures Redirect(Redirect(rows, s, y, target), s, y, other) == Redirect(rows, s, y, other)
    {
      assert rows[s][y := target][y := other] == rows[s][y := other];
    }
    assert rows[s][y := rows[s][y]] == rows[s];
  }

  lemma FittedIs(fitting: Fitting, rows: seq<seq<nat>>, table: seq<seq<nat>>, best: nat)
    requires fitting.Admits(rows)
    ensures fitting.Fitted(rows, table, best) <==>
      table == Table(rows, fitting.flat, fitting.states, fitting.symbolCount, fitting.actionCount)
      && best == Score(rows, fitting.flat, fitting.states, fitting.symbolCount, fitting.actionCount)
    ensures fitting.Cost(rows) == Score(rows, fitting.flat, fitting.states, fitting.symbolCount, fitting.actionCount)
  {
  }

  lemma FittedFacts(fitting: Fitting, rows: seq<seq<nat>>, table: seq<seq<nat>>, best: nat)
    requires fitting.Fitted(rows, table, best)
    ensures fitting.Admits(rows) && best == fitting.Cost(rows)
  {
  }

  lemma AdmitsFacts(fitting: Fitting, rows: seq<seq<nat>>)
    requires fitting.Admits(rows)
    ensures |rows| == fitting.states > 0
    ensures Transitions(rows, fitting.states, fitting.symbolCount)
      && Usable(fitting.flat, fitting.symbolCount, fitting.actionCount)
  {
  }

  /** What the innermost loop leaves in a cell after trying the first `n` targets. */
  ghost function BestTarget(fitting: Fitting, rows: seq<seq<nat>>, s: nat, y: nat, n: nat): nat
    requires s < |rows| && y < |rows[s]|
  {
    if n == 0 then rows[s][y]
    else
      var current := BestTarget(fitting, rows, s, y, n - 1);
      if fitting.Cost(Redirect(rows, s, y, n - 1)) < fitting.Cost(Redirect(rows, s, y, current)) then n - 1 else current
  }

  /** The target left is a best one: the one that was there, or else the first of the best. */
  lemma {:induction false} BestTargetIsFirst(fitting: Fitting, rows: seq<seq<nat>>, s: nat, y: nat, n: nat)
    requires fitting.Admits(rows) && s < fitting.states && y < fitting.symbolCount && n <= fitting.states
    ensures s < |rows| && y < |rows[s]|
    ensures var target := BestTarget(fitting, rows, s, y, n);
      var cost := fitting.Cost(Redirect(rows, s, y, target));
      && target < fitting.states && cost <= fitting.Cost(rows)
      && (forall t: nat :: t < n ==> cost <= fitting.Cost(Redirect(rows, s, y, t)))
      && (if cost == fitting.Cost(rows) then target == rows[s][y] else forall t: nat :: t < target ==>
        cost < fitting.Cost(Redirect(rows, s, y, t)))
  {
    hide Fitting.Admits, Fitting.Cost, Redirect;
    RedirectFacts(fitting, rows, s, y, 0);
    if n > 0 {
      BestTargetIsFirst(fitting, rows, s, y, n - 1);
    }
  }

  /** The table after the innermost loop has settled one cell. */
  ghost function Settle(fitting: Fitting, rows: seq<seq<nat>>, s: nat, y: nat): seq<seq<nat>> {
    if s < |rows| && y < |rows[s]| then Redirect(rows, s, y, BestTarget(fitting, rows, s, y, fitting.states)) else rows
  }

  lemma SettleFacts(fitting: Fitting, rows: seq<seq<nat>>, s: nat, y: nat)
    requires fitting.Admits(rows) && s < fitting.states && y < fitting.symbolCount
    ensures var settled := Settle(fitting, rows, s, y);
      && fitting.Admits(settled) && fitting.Cost(settled) <= fitting.Cost(rows) && CellSettled(fitting, settled, s, y)
      && (fitting.Cost(settled) == fitting.Cost(rows) ==> settled == rows)
  {
    hide Fitting.Admits, Fitting.Cost, Redirect;
    RedirectFacts(fitting, rows, s, y, 0);
    BestTargetIsFirst(fitting, rows, s, y, fitting.states);
    RedirectFacts(fitting, rows, s, y, BestTarget(fitting, rows, s, y, fitting.states));
  }

  /** The first `y` cells of row `s` settled one after the other. */
  ghost function SweptRow(fitting: Fitting, rows: seq<seq<nat>>, s: nat, y: nat): seq<seq<nat>> {
    if y == 0 then rows else Settle(fitting, SweptRow(fitting, rows, s, y - 1), s, y - 1)
  }

  /** The first `s` rows swept; `Swept(fitting, rows, fitting.states)` is a whole sweep. */
  ghost function Swept(fitting: Fitting, rows: seq<seq<nat>>, s: nat): seq<seq<nat>> {
    if s == 0 then rows else SweptRow(fitting, Swept(fitting, rows, s - 1), s - 1, fitting.symbolCount)
  }

  /** Sweeping until a sweep improves nothing, at most `sweeps` times. */
  ghost function Climbed(fitting: Fitting, rows: seq<seq<nat>>, sweeps: nat): seq<seq<nat>>
    decreases sweeps
  {
    if sweeps == 0 then rows
    else
      var next := Swept(fitting, rows, fitting.states);
      if fitting.Cost(next) < fitting.Cost(rows) then Climbed(fitting, next, sweeps - 1) else next
  }

  lemma {:induction false} SweptRowFacts(fitting: Fitting, rows: seq<seq<nat>>, s: nat, y: nat)
    requires fitting.Admits(rows) && s < fitting.states && y <= fitting.symbolCount
    ensures var swept := SweptRow(fitting, rows, s, y);
      && fitting.Admits(swept) && fitting.Cost(swept) <= fitting.Cost(rows)
      && (fitting.Cost(swept) == fitting.Cost(rows) ==> swept == rows && forall x: nat :: x < y ==>
        CellSettled(fitting, rows, s, x))
    decreases y
  {
    hide Fitting.Admits, Fitting.Cost, Settle, CellSettled;
    if y > 0 {
      SweptRowFacts(fitting, rows, s, y - 1);
      SettleFacts(fitting, SweptRow(fitting, rows, s, y - 1), s, y - 1);
    }
  }

  lemma {:induction false} SweptFacts(fitting: Fitting, rows: seq<seq<nat>>, s: nat)
    requires fitting.Admits(rows) && s <= fitting.states
    ensures var swept := Swept(fitting, rows, s);
      && fitting.Admits(swept) && fitting.Cost(swept) <= fitting.Cost(rows)
      && (fitting.Cost(swept) == fitting.Cost(rows) ==> swept == rows && SettledBefore(fitting, rows, s, 0))
    decreases s
  {
    hide Fitting.Admits, Fitting.Cost, SweptRow, CellSettled;
    if s > 0 {
      SweptFacts(fitting, rows, s - 1);
      SweptRowFacts(fitting, Swept(fitting, rows, s - 1), s - 1, fitting.symbolCount);
    }
  }

  /**
   Where a climb ends: no single change of the final transitions would lower the score,
   or every sweep lowered it.
   */
  lemma {:induction false} ClimbedSettles(fitting: Fitting, rows: seq<seq<nat>>, sweeps: nat)
    requires fitting.Admits(rows)
    ensures var top := Climbed(fitting, rows, sweeps);
      && fitting.Admits(top) && fitting.Cost(top) <= fitting.Cost(rows)
      && (LocallyOptimal(fitting, top) || fitting.Cost(top) + sweeps <= fitting.Cost(rows))
    decreases sweeps
  {
    hide Fitting.Admits, Fitting.Cost, Swept, CellSettled;
    if sweeps > 0 {
      SweptFacts(fitting, rows, fitting.states);
      ClimbedSettles(fitting, Swept(fitting, rows, fitting.states), sweeps - 1);
    }
  }

  /** One entry of the table overwritten. */
  method Write(transitions: array2<nat>, s: nat, y: nat, target: nat)
    requires s < transitions.Length0 && y < transitions.Length1
    modifies transitions
    ensures Rows(transitions) == Redirect(old(Rows(transitions)), s, y, target)
  {
    ghost var rows := Rows(transitions);
    transitions[s, y] := target;
    RowsWritten(rows, Rows(transitions), s, y, target);
  }

  /**
   The innermost loop of `_climb`: try every other target of one cell, keep an improvement,
   put back everything else. Only that cell can have changed, no target of it is better
   than the one left there, and it is the first of the best unless none was better.
   */
  method ImproveCell(transitions: array2<nat>, fitting: Fitting, state: nat, symbol: nat, tableBefore: seq<seq<nat>>,
      bestBefore: nat)
    returns (table: seq<seq<nat>>, best: nat, improved: bool)
    requires transitions.Length0 == fitting.states && transitions.Length1 == fitting.symbolCount
    requires state < fitting.states && symbol < fitting.symbolCount
    requires fitting.Fitted(Rows(transitions), tableBefore, bestBefore)
    modifies transitions
    ensures fitting.Fitted(Rows(transitions), table, best)
    ensures best <= bestBefore && (improved <==> best < bestBefore)
    ensures !improved ==> Rows(transitions) == old(Rows(transitions))
    ensures exists target: nat ::
      target < fitting.states && Rows(transitions) == Redirect(old(Rows(transitions)), state, symbol, target)
    ensures CellSettled(fitting, Rows(transitions), state, symbol)
    ensures Rows(transitions) == Settle(fitting, old(Rows(transitions)), state, symbol)
  {
    hide Fitting.Admits, Fitting.Cost, Fitting.Fitted, Transitions, Usable, Redirect, Score, Table, Seen;
    ghost var rows := Rows(transitions);
    FittedFacts(fitting, rows, tableBefore, bestBefore);
    AdmitsFacts(fitting, rows);
    RedirectFacts(fitting, rows, state, symbol, 0);
    var current: nat := transitions[state, symbol];
    table, best, improved := tableBefore, bestBefore, false;
    for target: nat := 0 to fitting.states
      invariant current < fitting.states && Rows(transitions) == Redirect(rows, state, symbol, current)
      invariant current == BestTarget(fitting, rows, state, symbol, target)
      invariant fitting.Fitted(Rows(transitions), table, best)
      invariant best <= bestBefore && (improved <==> best < bestBefore)
      invariant !improved ==> Rows(transitions) == rows
      invariant forall t: nat :: t < target ==> best <= fitting.Cost(Redirect(rows, state, symbol, t))
    {
      if target == current {
        FittedFacts(fitting, Rows(transitions), table, best);
        continue;
      }
      RedirectFacts(fitting, rows, state, symbol, current);
      RedirectFacts(fitting, rows, state, symbol, target);
      FittedFacts(fitting, Rows(transitions), table, best);
      Write(transitions, state, symbol, target);
      AdmitsFacts(fitting, Rows(transitions));
      var candidate, score := BestOutputs(transitions, fitting.flat, fitting.states, fitting.symbolCount,
        fitting.actionCount);
      FittedIs(fitting, Rows(transitions), candidate, score);
      if score < best {
        best, table, current, improved := score, candidate, target, true;
      } else {
        Write(transitions, state, symbol, current);
      }
    }
    RedirectFacts(fitting, rows, state, symbol, current);
    FittedFacts(fitting, Rows(transitions), table, best);
  }

  /** Cells before (`state`, `symbol`) in row-major order are settled. */
  ghost predicate SettledBefore(fitting: Fitting, rows: seq<seq<nat>>, state: nat, symbol: nat) {
    forall s, y ::
      0 <= s < fitting.states && 0 <= y < fitting.symbolCount && (s < state || (s == state && y < symbol)) ==>
      CellSettled(fitting, rows, s, y)
  }

  lemma SettledNext(fitting: Fitting, rows: seq<seq<nat>>, state: nat, symbol: nat)
    requires SettledBefore(fitting, rows, state, symbol) && CellSettled(fitting, rows, state, symbol)
    ensures SettledBefore(fitting, rows, state, symbol + 1)
    ensures symbol + 1 == fitting.symbolCount ==> SettledBefore(fitting, rows, state + 1, 0)
  {
    hide CellSettled;
  }

  /** One sweep over all cells; without an improvement the table is locally optimal. */
  method Sweep(transitions: array2<nat>, fitting: Fitting, tableBefore: seq<seq<nat>>, bestBefore: nat)
    returns (table: seq<seq<nat>>, best: nat, improved: bool)
    requires transitions.Length0 == fitting.states && transitions.Length1 == fitting.symbolCount
    requires fitting.Fitted(Rows(transitions), tableBefore, bestBefore)
    modifies transitions
    ensures fitting.Fitted(Rows(transitions), table, best)
    ensures best <= bestBefore && (improved <==> best < bestBefore)
    ensures !improved ==> Rows(transitions) == old(Rows(transitions)) && LocallyOptimal(fitting, Rows(transitions))
    ensures Rows(transitions) == Swept(fitting, old(Rows(transitions)), fitting.states)
  {
    hide Fitting.Admits, Fitting.Cost, Fitting.Fitted, CellSettled, Redirect, Settle;
    ghost var rows := Rows(transitions);
    table, best, improved := tableBefore, bestBefore, false;
    for state: nat := 0 to fitting.states
      invariant fitting.Fitted(Rows(transitions), table, best)
      invariant best <= bestBefore && (improved <==> best < bestBefore)
      invariant !improved ==> Rows(transitions) == rows && SettledBefore(fitting, rows, state, 0)
      invariant Rows(transitions) == Swept(fitting, rows, state)
    {
      for symbol: nat := 0 to fitting.symbolCount
        invariant fitting.Fitted(Rows(transitions), table, best)
        invariant best <= bestBefore && (improved <==> best < bestBefore)
        invariant !improved ==> Rows(transitions) == rows && SettledBefore(fitting, rows, state, symbol)
        invariant Rows(transitions) == SweptRow(fitting, Swept(fitting, rows, state), state, symbol)
      {
        var better: bool;
        table, best, better := ImproveCell(transitions, fitting, state, symbol, table, best);
        improved := improved || better;
        if !improved {
          SettledNext(fitting, rows, state, symbol);
        }
      }
    }
  }

  /**
   `_climb`: the transitions left behind are those of the climb, the table and score returned
   are theirs, the score never rises, and either no single change would lower it further or
   every one of the allowed sweeps lowered it.
   */
  method Climb(transitions: array2<nat>, fitting: Fitting) returns (table: seq<seq<nat>>, best: nat)
    requires transitions.Length0 == fitting.states && transitions.Length1 == fitting.symbolCount
    requires fitting.Admits(Rows(transitions))
    modifies transitions
    ensures fitting.Fitted(Rows(transitions), table, best)
    ensures best <= old(fitting.Cost(Rows(transitions)))
    ensures LocallyOptimal(fitting, Rows(transitions)) || best + MAX_SWEEPS <= old(fitting.Cost(Rows(transitions)))
    ensures Rows(transitions) == Climbed(fitting, old(Rows(transitions)), MAX_SWEEPS)
  {
    hide Fitting.Admits, Fitting.Cost, Fitting.Fitted, LocallyOptimal, Transitions, Usable, Score, Table, Swept;
    ghost var rows := Rows(transitions);
    AdmitsFacts(fitting, Rows(transitions));
    table, best := BestOutputs(transitions, fitting.flat, fitting.states, fitting.symbolCount, fitting.actionCount);
    FittedIs(fitting, Rows(transitions), table, best);
    ghost var first := best;
    for sweep: nat := 0 to MAX_SWEEPS
      invariant fitting.Fitted(Rows(transitions), table, best)
      invariant best + sweep <= first
      invariant Climbed(fitting, rows, MAX_SWEEPS) == Climbed(fitting, Rows(transitions), MAX_SWEEPS - sweep)
    {
      FittedFacts(fitting, Rows(transitions), table, best);
      var improved: bool;
      table, best, improved := Sweep(transitions, fitting, table, best);
      FittedFacts(fitting, Rows(transitions), table, best);
      if !improved {
        break;
      }
    }
  }

  /** Evidence of fewer outcomes than sweeps always lets the climb finish, and so end locally optimal. */
  lemma ShortEvidenceSettles(fitting: Fitting, rows: seq<seq<nat>>, best: nat)
    requires fitting.Admits(rows) && |fitting.flat.symbols| < MAX_SWEEPS
    ensures !(best + MAX_SWEEPS <= fitting.Cost(rows))
    ensures LocallyOptimal(fitting, Climbed(fitting, rows, MAX_SWEEPS))
  {
    ClimbedSettles(fitting, rows, MAX_SWEEPS);
    var obs := Seen(rows, fitting.flat, fitting.states, fitting.symbolCount, fitting.actionCount);
    FewOutcomes(rows, fitting.symbolCount, fitting.flat, |fitting.flat.symbols|);
    FewDisagreements(obs, BestTable(obs, fitting.states, fitting.symbolCount, fitting.actionCount), fitting.states,
      fitting.symbolCount, fitting.actionCount);
  }

  lemma {:induction false} FewOutcomes(rows: seq<seq<nat>>, symbolCount: nat, flat: Flat, p: nat)
    requires Transitions(rows, |rows|, symbolCount) && InAlphabet(flat.symbols, symbolCount) && p <= |flat.symbols|
    requires |flat.actions| == |flat.symbols| && |flat.rewards| == |flat.symbols| && |flat.eligible| == |flat.symbols|
    ensures |FlatOutcomes(rows, symbolCount, flat, p)| <= p
    decreases p
  {
    if p > 0 {
      FewOutcomes(rows, symbolCount, flat, p - 1);
    }
  }

  lemma {:induction false} FewDisagreements(obs: seq<Outcome>, table: seq<seq<nat>>, states: nat, symbolCount: nat,
      actionCount: nat)
    requires Located(obs, states, symbolCount, actionCount) && Grid(table, states, symbolCount, actionCount)
    ensures Disagreements(obs, table, states, symbolCount, actionCount) <= |obs|
    decreases |obs|
  {
    if obs != [] {
      FewDisagreements(obs[..|obs| - 1], table, states, symbolCount, actionCount);
    }
  }
}
