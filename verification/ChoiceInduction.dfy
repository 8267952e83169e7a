/**
 Learning from choices (choice_induction.py): an episode records what the agent chose
 and whether it was right, never the label. Outputs are filled cell by cell by counting,
 transitions are improved one at a time, and a machine is judged by the outcomes it is
 consistent with.
 */
module ChoiceInduction {
  import opened Prelude

  const MAX_SWEEPS: nat := 40

  datatype ChoiceTrace = ChoiceTrace(
    symbols: Word,
    actions: seq<nat>,
    rewards: seq<nat>,
    eligible: seq<bool>,
    symbolCount: nat,
    actionCount: nat)
  {
    predicate Square() {
      |actions| == |symbols| && |rewards| == |symbols| && |eligible| == |symbols|
    }

    /** Exactly the conditions under which `validate` does not raise. */
    predicate Valid() {
      && Square()
      && actionCount >= 2 && symbolCount >= 2
      && InAlphabet(symbols, symbolCount)
      && (forall i :: 0 <= i < |actions| ==> actions[i] < actionCount)
      && (forall i :: 0 <= i < |rewards| ==> rewards[i] <= 1)
    }
  }

  /** What `validate` raises on: lists of different lengths, too few symbols or actions, an entry too large. */
  lemma InvalidExactly(t: ChoiceTrace)
    ensures !t.Valid() <==>
      || |t.actions| != |t.symbols| || |t.rewards| != |t.symbols| || |t.eligible| != |t.symbols|
      || t.actionCount < 2 || t.symbolCount < 2
      || (exists y :: y in t.symbols && y >= t.symbolCount)
      || (exists a :: a in t.actions && a >= t.actionCount)
      || exists w :: w in t.rewards && w > 1
  {
    assert forall i :: 0 <= i < |t.symbols| ==> t.symbols[i] in t.symbols;
    assert forall i :: 0 <= i < |t.actions| ==> t.actions[i] in t.actions;
    assert forall i :: 0 <= i < |t.rewards| ==> t.rewards[i] in t.rewards;
  }

  /** All episodes are well formed inside one pair of alphabets. */
  predicate Fits(traces: seq<ChoiceTrace>, symbolCount: nat, actionCount: nat) {
    forall k :: 0 <= k < |traces| ==>
      && traces[k].Square()
      && InAlphabet(traces[k].symbols, symbolCount)
      && forall i :: 0 <= i < |traces[k].actions| ==> traces[k].actions[i] < actionCount
  }

  // ---------------------------------------------------------------------- outcomes

  /** One scored step: the cell the machine was in, what was chosen, and whether it was right. */
  datatype Outcome = Outcome(state: nat, symbol: nat, action: nat, success: bool)

  /** Answering `a` contradicts the outcome. */
  predicate Clashes(o: Outcome, a: nat) {
    if o.success then o.action != a else o.action == a
  }

  /** A rectangular table over `states` rows with entries below `bound`. */
  predicate Grid(table: seq<seq<nat>>, states: nat, symbolCount: nat, bound: nat) {
    && |table| == states
    && forall s :: 0 <= s < states ==> |table[s]| == symbolCount && forall y :: 0 <= y < symbolCount ==>
      table[s][y] < bound
  }

  /** The state the transition table reaches from 0 on `w`. */
  function Walk(transitions: seq<seq<nat>>, symbolCount: nat, w: Word): (s: nat)
    requires |transitions| > 0 && Grid(transitions, |transitions|, symbolCount, |transitions|)
      && InAlphabet(w, symbolCount)
    ensures s < |transitions|
    decreases |w|
  {
    if w == [] then 0 else transitions[Walk(transitions, symbolCount, w[..|w| - 1])][w[|w| - 1]]
  }

  predicate Ready(transitions: seq<seq<nat>>, traces: seq<ChoiceTrace>, symbolCount: nat, actionCount: nat) {
    && |transitions| > 0
    && Grid(transitions, |transitions|, symbolCount, |transitions|)
    && Fits(traces, symbolCount, actionCount)
  }

  /** The outcomes among the first `n` steps of an episode, each in the cell the machine is in. */
  function TraceOutcomes(transitions: seq<seq<nat>>, symbolCount: nat, t: ChoiceTrace, n: nat): seq<Outcome>
    requires |transitions| > 0 && Grid(transitions, |transitions|, symbolCount, |transitions|)
    requires t.Square() && InAlphabet(t.symbols, symbolCount) && n <= |t.symbols|
  {
    if n == 0 then []
    else
      var before := TraceOutcomes(transitions, symbolCount, t, n - 1);
      if t.eligible[n - 1] then
        before + [Outcome(Walk(transitions, symbolCount, t.symbols[..n - 1]), t.symbols[n - 1], t.actions[n - 1],
          t.rewards[n - 1] != 0)]
      else before
  }

  /** The outcomes of the first `k` episodes. */
  function Outcomes(transitions: seq<seq<nat>>, traces: seq<ChoiceTrace>, symbolCount: nat, actionCount: nat,
      k: nat): seq<Outcome>
    requires Ready(transitions, traces, symbolCount, actionCount) && k <= |traces|
  {
    if k == 0 then []
    else (
      Outcomes(transitions, traces, symbolCount, actionCount, k - 1)
      + TraceOutcomes(transitions, symbolCount, traces[k - 1], |traces[k - 1].symbols|)
    )
  }

  function AllOutcomes(transitions: seq<seq<nat>>, traces: seq<ChoiceTrace>, symbolCount: nat,
      actionCount: nat): seq<Outcome>
    requires Ready(transitions, traces, symbolCount, actionCount)
  {
    Outcomes(transitions, traces, symbolCount, actionCount, |traces|)
  }

  /** Every outcome lies in the table. */
  predicate Located(obs: seq<Outcome>, states: nat, symbolCount: nat, actionCount: nat) {
    forall i :: 0 <= i < |obs| ==> obs[i].state < states && obs[i].symbol < symbolCount && obs[i].action < actionCount
  }

  lemma {:induction false} TraceOutcomesLocated(transitions: seq<seq<nat>>, symbolCount: nat, actionCount: nat,
      t: ChoiceTrace, n: nat)
    requires |transitions| > 0 && Grid(transitions, |transitions|, symbolCount, |transitions|)
    requires t.Square() && InAlphabet(t.symbols, symbolCount) && n <= |t.symbols|
    requires forall i :: 0 <= i < |t.actions| ==> t.actions[i] < actionCount
    ensures Located(TraceOutcomes(transitions, symbolCount, t, n), |transitions|, symbolCount, actionCount)
    decreases n
  {
    if n > 0 {
      TraceOutcomesLocated(transitions, symbolCount, actionCount, t, n - 1);
    }
  }

  lemma {:induction false} OutcomesLocated(transitions: seq<seq<nat>>, traces: seq<ChoiceTrace>, symbolCount: nat,
      actionCount: nat, k: nat)
    requires Ready(transitions, traces, symbolCount, actionCount) && k <= |traces|
    ensures Located(Outcomes(transitions, traces, symbolCount, actionCount, k), |transitions|, symbolCount, actionCount)
    decreases k
  {
    if k > 0 {
      OutcomesLocated(transitions, traces, symbolCount, actionCount, k - 1);
      TraceOutcomesLocated(transitions, symbolCount, actionCount, traces[k - 1], |traces[k - 1].symbols|);
    }
  }

  // ---------------------------------------------------------------------- counting

  function Positives(obs: seq<Outcome>, s: nat, y: nat, a: nat): nat {
    if obs == [] then 0
    else
      var o := obs[|obs| - 1];
      Positives(obs[..|obs| - 1], s, y, a)
        + if o.state == s && o.symbol == y && o.success && o.action == a then 1 else 0
  }

  function Negatives(obs: seq<Outcome>, s: nat, y: nat, a: nat): nat {
    if obs == [] then 0
    else
      var o := obs[|obs| - 1];
      Negatives(obs[..|obs| - 1], s, y, a)
        + if o.state == s && o.symbol == y && !o.success && o.action == a then 1 else 0
  }

  function Successes(obs: seq<Outcome>, s: nat, y: nat): nat {
    if obs == [] then 0
    else
      var o := obs[|obs| - 1];
      Successes(obs[..|obs| - 1], s, y) + if o.state == s && o.symbol == y && o.success then 1 else 0
  }

  /** How many outcomes of the cell answering `a` there would contradict. */
  function CellScore(obs: seq<Outcome>, s: nat, y: nat, a: nat): nat {
    if obs == [] then 0
    else
      var o := obs[|obs| - 1];
      CellScore(obs[..|obs| - 1], s, y, a) + if o.state == s && o.symbol == y && Clashes(o, a) then 1 else 0
  }

  /** How many outcomes a whole output table contradicts. */
  function Disagreements(obs: seq<Outcome>, table: seq<seq<nat>>, states: nat, symbolCount: nat, actionCount: nat): nat
    requires Located(obs, states, symbolCount, actionCount) && Grid(table, states, symbolCount, actionCount)
  {
    if obs == [] then 0
    else
      var o := obs[|obs| - 1];
      Disagreements(obs[..|obs| - 1], table, states, symbolCount, actionCount)
        + if Clashes(o, table[o.state][o.symbol]) then 1 else 0
  }

  /** The three counters of a cell determine its scores. */
  lemma {:induction false} ScoreFromCounts(obs: seq<Outcome>, s: nat, y: nat, a: nat)
    ensures CellScore(obs, s, y, a) == (Successes(obs, s, y) - Positives(obs, s, y, a)) + Negatives(obs, s, y, a)
    decreases |obs|
  {
    if obs != [] {
      ScoreFromCounts(obs[..|obs| - 1], s, y, a);
    }
  }

  /** The first action below `k` with the fewest contradictions. */
  function FirstBest(obs: seq<Outcome>, s: nat, y: nat, k: nat): (b: nat)
    requires k >= 1
    ensures b < k
    ensures forall a :: 0 <= a < k ==> CellScore(obs, s, y, b) <= CellScore(obs, s, y, a)
    ensures forall a :: 0 <= a < b ==> CellScore(obs, s, y, b) < CellScore(obs, s, y, a)
  {
    if k == 1 then 0
    else
      var b := FirstBest(obs, s, y, k - 1);
      if CellScore(obs, s, y, k - 1) < CellScore(obs, s, y, b) then k - 1 else b
  }

  /** The table that counting fills in. */
  function BestTable(obs: seq<Outcome>, states: nat, symbolCount: nat, actionCount: nat): (table: seq<seq<nat>>)
    requires actionCount >= 1
    ensures Grid(table, states, symbolCount, actionCount)
    ensures forall s, y :: 0 <= s < states && 0 <= y < symbolCount ==> table[s][y] == FirstBest(obs, s, y, actionCount)
  {
    seq(states, s requires 0 <= s < states =>
      seq(symbolCount, y requires 0 <= y < symbolCount => FirstBest(obs, s, y, actionCount)))
  }

  // ------------------------------------------------- total contradictions, cell by cell

  function RowScore(obs: seq<Outcome>, table: seq<seq<nat>>, s: nat, y: nat): nat
    requires s < |table| && y <= |table[s]|
  {
    if y == 0 then 0 else RowScore(obs, table, s, y - 1) + CellScore(obs, s, y - 1, table[s][y - 1])
  }

  function GridScore(obs: seq<Outcome>, table: seq<seq<nat>>, s: nat): nat
    requires s <= |table|
  {
    if s == 0 then 0 else GridScore(obs, table, s - 1) + RowScore(obs, table, s - 1, |table[s - 1]|)
  }

  lemma {:induction false} RowScoreAdds(obs: seq<Outcome>, table: seq<seq<nat>>, s: nat, y: nat)
    requires obs != [] && s < |table| && y <= |table[s]|
    ensures var o := obs[|obs| - 1];
      RowScore(obs, table, s, y) == RowScore(obs[..|obs| - 1], table, s, y)
        + if o.state == s && o.symbol < y && Clashes(o, table[s][o.symbol]) then 1 else 0
    decreases y
  {
    if y > 0 {
      RowScoreAdds(obs, table, s, y - 1);
    }
  }

  lemma {:induction false} GridScoreAdds(obs: seq<Outcome>, table: seq<seq<nat>>, s: nat)
    requires obs != [] && s <= |table|
    ensures var o := obs[|obs| - 1];
      GridScore(obs, table, s) == GridScore(obs[..|obs| - 1], table, s)
        + if o.state < s && o.symbol < |table[o.state]| && Clashes(o, table[o.state][o.symbol]) then 1 else 0
    decreases s
  {
    if s > 0 {
      GridScoreAdds(obs, table, s - 1);
      RowScoreAdds(obs, table, s - 1, |table[s - 1]|);
    }
  }

  lemma {:induction false} RowScoreZero(table: seq<seq<nat>>, s: nat, y: nat)
    requires s < |table| && y <= |table[s]|
    ensures RowScore([], table, s, y) == 0
    decreases y
  {
    if y > 0 {
      RowScoreZero(table, s, y - 1);
    }
  }

  lemma {:induction false} GridScoreZero(table: seq<seq<nat>>, s: nat)
    requires s <= |table|
    ensures GridScore([], table, s) == 0
    decreases s
  {
    if s > 0 {
      GridScoreZero(table, s - 1);
      RowScoreZero(table, s - 1, |table[s - 1]|);
    }
  }

  /** Adding up the cells gives the contradictions of the whole table. */
  lemma {:induction false} DisagreementsByCell(obs: seq<Outcome>, table: seq<seq<nat>>, states: nat, symbolCount: nat,
      actionCount: nat)
    requires Located(obs, states, symbolCount, actionCount) && Grid(table, states, symbolCount, actionCount)
    ensures GridScore(obs, table, states) == Disagreements(obs, table, states, symbolCount, actionCount)
    decreases |obs|
  {
    if obs == [] {
      GridScoreZero(table, states);
    } else {
      DisagreementsByCell(obs[..|obs| - 1], table, states, symbolCount, actionCount);
      GridScoreAdds(obs, table, states);
    }
  }

  lemma {:induction false} RowScoreLeast(obs: seq<Outcome>, best: seq<seq<nat>>, other: seq<seq<nat>>, s: nat, y: nat,
      k: nat)
    requires s < |best| && s < |other| && y <= |best[s]| && y <= |other[s]| && k >= 1
    requires forall x :: 0 <= x < y ==> best[s][x] == FirstBest(obs, s, x, k) && other[s][x] < k
    ensures RowScore(obs, best, s, y) <= RowScore(obs, other, s, y)
    decreases y
  {
    if y > 0 {
      RowScoreLeast(obs, best, other, s, y - 1, k);
    }
  }

  /** Row `s` of `best` holds first minimizers, row `s` of `other` anything below `k`. */
  predicate RowBeats(obs: seq<Outcome>, best: seq<seq<nat>>, other: seq<seq<nat>>, s: nat, k: nat) {
    && k >= 1 && s < |best| && s < |other| && |best[s]| == |other[s]|
    && forall y :: 0 <= y < |best[s]| ==> best[s][y] == FirstBest(obs, s, y, k) && other[s][y] < k
  }

  lemma {:induction false} GridScoreLeast(obs: seq<Outcome>, best: seq<seq<nat>>, other: seq<seq<nat>>, s: nat, k: nat)
    requires k >= 1 && s <= |best| && s <= |other|
    requires forall r :: 0 <= r < s ==> RowBeats(obs, best, other, r, k)
    ensures GridScore(obs, best, s) <= GridScore(obs, other, s)
    decreases s
  {
    if s > 0 {
      GridScoreLeast(obs, best, other, s - 1, k);
      assert RowBeats(obs, best, other, s - 1, k);
      RowScoreLeast(obs, best, other, s - 1, |best[s - 1]|, k);
    }
  }

  lemma BestTableRow(obs: seq<Outcome>, other: seq<seq<nat>>, states: nat, symbolCount: nat, actionCount: nat, s: nat)
    requires actionCount >= 1 && s < states && Grid(other, states, symbolCount, actionCount)
    ensures RowBeats(obs, BestTable(obs, states, symbolCount, actionCount), other, s, actionCount)
  {
    var best := BestTable(obs, states, symbolCount, actionCount);
    assert |best[s]| == symbolCount && |other[s]| == symbolCount;
  }

  /** Counting is optimal: no output table contradicts fewer outcomes. */
  lemma BestTableIsOptimal(obs: seq<Outcome>, other: seq<seq<nat>>, states: nat, symbolCount: nat, actionCount: nat)
    requires actionCount >= 1
    requires Located(obs, states, symbolCount, actionCount) && Grid(other, states, symbolCount, actionCount)
    ensures Disagreements(obs, BestTable(obs, states, symbolCount, actionCount), states, symbolCount, actionCount)
         <= Disagreements(obs, other, states, symbolCount, actionCount)
  {
    hide Grid, BestTable, RowBeats;
    var best := BestTable(obs, states, symbolCount, actionCount);
    DisagreementsByCell(obs, best, states, symbolCount, actionCount);
    DisagreementsByCell(obs, other, states, symbolCount, actionCount);
    GridSize(other, states, symbolCount, actionCount);
    GridSize(best, states, symbolCount, actionCount);
    forall s | 0 <= s < states
      ensures RowBeats(obs, best, other, s, actionCount)
    {
      BestTableRow(obs, other, states, symbolCount, actionCount, s);
    }
    GridScoreLeast(obs, best, other, states, actionCount);
  }

  lemma GridSize(table: seq<seq<nat>>, states: nat, symbolCount: nat, bound: nat)
    requires Grid(table, states, symbolCount, bound)
    ensures |table| == states
  {
  }

  // -------------------------------------------------------------- two actions: majority

  /** With two actions every outcome names the right answer; count those naming `a`. */
  function Votes(obs: seq<Outcome>, s: nat, y: nat, a: nat): nat {
    if obs == [] then 0
    else
      var o := obs[|obs| - 1];
      Votes(obs[..|obs| - 1], s, y, a)
        + if o.state == s && o.symbol == y && (if o.success then o.action else 1 - o.action as int) == a then 1 else 0
  }

  lemma {:induction false} TwoActionScores(obs: seq<Outcome>, s: nat, y: nat, states: nat, symbolCount: nat)
    requires Located(obs, states, symbolCount, 2)
    ensures CellScore(obs, s, y, 0) == Votes(obs, s, y, 1)
    ensures CellScore(obs, s, y, 1) == Votes(obs, s, y, 0)
    decreases |obs|
  {
    if obs != [] {
      TwoActionScores(obs[..|obs| - 1], s, y, states, symbolCount);
    }
  }

  /** With two actions each cell answers what most of its outcomes name; a tie answers 0. */
  lemma TwoActionsMajority(obs: seq<Outcome>, states: nat, symbolCount: nat, s: nat, y: nat)
    requires Located(obs, states, symbolCount, 2) && s < states && y < symbolCount
    ensures BestTable(obs, states, symbolCount, 2)[s][y] == if Votes(obs, s, y, 1) > Votes(obs, s, y, 0) then 1 else 0
  {
    TwoActionScores(obs, s, y, states, symbolCount);
    assert FirstBest(obs, s, y, 1) == 0;
  }

  // --------------------------------------------------------------------- flat episodes

  /** Where episode `k` starts once the episodes are laid end to end. */
  function Offset(traces: seq<ChoiceTrace>, k: nat): nat
    requires k <= |traces|
  {
    if k == 0 then 0 else Offset(traces, k - 1) + |traces[k - 1].symbols|
  }

  datatype Flat = Flat(symbols: Word, actions: seq<nat>, rewards: seq<nat>, eligible: seq<bool>, starts: set<nat>)

  /** Step `i` of episode `k` sits at its offset, and only first steps are starts. */
  predicate StepLaid(flat: Flat, t: ChoiceTrace, base: nat, i: nat) {
    && t.Square() && i < |t.symbols|
    && base + i < |flat.symbols| && base + i < |flat.actions| && base + i < |flat.rewards| && base + i < |flat.eligible|
    && flat.symbols[base + i] == t.symbols[i]
    && flat.actions[base + i] == t.actions[i]
    && flat.rewards[base + i] == t.rewards[i]
    && flat.eligible[base + i] == t.eligible[i]
    && (base + i in flat.starts <==> i == 0)
  }

  /** The first `k` episodes laid end to end, and nothing else. */
  predicate LaidOut(flat: Flat, traces: seq<ChoiceTrace>, k: nat)
    requires k <= |traces|
  {
    && |flat.symbols| == Offset(traces, k)
    && |flat.actions| == |flat.symbols| && |flat.rewards| == |flat.symbols| && |flat.eligible| == |flat.symbols|
    && (forall p :: p in flat.starts ==> p <= Offset(traces, k))
    && forall j, i :: 0 <= j < k && 0 <= i < |traces[j].symbols| ==> StepLaid(flat, traces[j], Offset(traces, j), i)
  }

  lemma {:induction false} OffsetMonotone(traces: seq<ChoiceTrace>, j: nat, k: nat)
    requires j <= k <= |traces|
    ensures Offset(traces, j) <= Offset(traces, k)
    decreases k
  {
    if j < k {
      OffsetMonotone(traces, j, k - 1);
    }
  }

  /** `_flatten`. */
  method Flatten(traces: seq<ChoiceTrace>) returns (flat: Flat)
    requires forall k :: 0 <= k < |traces| ==> traces[k].Square()
    ensures LaidOut(flat, traces, |traces|)
  {
    var symbols: Word := [];
    var actions, rewards, eligible := [], [], [];
    var starts: set<nat> := {};
    for k := 0 to |traces|
      invariant LaidOut(Flat(symbols, actions, rewards, eligible, starts), traces, k)
    {
      var t := traces[k];
      ghost var before := Flat(symbols, actions, rewards, eligible, starts);
      starts := starts + {|symbols|};
      symbols := symbols + t.symbols;
      actions := actions + t.actions;
      rewards := rewards + t.rewards;
      eligible := eligible + t.eligible;
      LayNext(before, traces, k);
    }
    flat := Flat(symbols, actions, rewards, eligible, starts);
  }

  /** Appending one more episode keeps the layout of the earlier ones. */
  lemma LayNext(flat: Flat, traces: seq<ChoiceTrace>, k: nat)
    requires k < |traces| && traces[k].Square() && LaidOut(flat, traces, k)
    ensures var t := traces[k];
      LaidOut(Flat(flat.symbols + t.symbols, flat.actions + t.actions, flat.rewards + t.rewards,
        flat.eligible + t.eligible,
        flat.starts + {|flat.symbols|}), traces, k + 1)
  {
    var t := traces[k];
    var next := Flat(flat.symbols + t.symbols, flat.actions + t.actions, flat.rewards + t.rewards,
      flat.eligible + t.eligible,
      flat.starts + {|flat.symbols|});
    forall j, i | 0 <= j < k + 1 && 0 <= i < |traces[j].symbols|
      ensures StepLaid(next, traces[j], Offset(traces, j), i)
    {
      if j < k {
        assert StepLaid(flat, traces[j], Offset(traces, j), i);
        assert Offset(traces, j + 1) == Offset(traces, j) + |traces[j].symbols|;
        OffsetMonotone(traces, j + 1, k);
      }
    }
  }

  /** The loop variable `state` of the flat pass, before step `p` reads its symbol. */
  function FlatState(transitions: seq<seq<nat>>, symbolCount: nat, flat: Flat, p: nat): (s: nat)
    requires |transitions| > 0 && Grid(transitions, |transitions|, symbolCount, |transitions|)
    requires InAlphabet(flat.symbols, symbolCount) && p <= |flat.symbols|
    ensures s < |transitions|
  {
    if p in flat.starts || p == 0 then 0
    else transitions[FlatState(transitions, symbolCount, flat, p - 1)][flat.symbols[p - 1]]
  }

  /** The outcomes met in the first `p` steps of the flat pass. */
  function FlatOutcomes(transitions: seq<seq<nat>>, symbolCount: nat, flat: Flat, p: nat): seq<Outcome>
    requires |transitions| > 0 && Grid(transitions, |transitions|, symbolCount, |transitions|)
    requires InAlphabet(flat.symbols, symbolCount) && p <= |flat.symbols|
    requires |flat.actions| == |flat.symbols| && |flat.rewards| == |flat.symbols| && |flat.eligible| == |flat.symbols|
  {
    if p == 0 then []
    else
      var before := FlatOutcomes(transitions, symbolCount, flat, p - 1);
      if flat.eligible[p - 1] then
        before + [Outcome(FlatState(transitions, symbolCount, flat, p - 1), flat.symbols[p - 1], flat.actions[p - 1],
          flat.rewards[p - 1] != 0)]
      else before
  }

  lemma FlatInAlphabet(flat: Flat, traces: seq<ChoiceTrace>, symbolCount: nat, actionCount: nat, p: nat)
    requires Fits(traces, symbolCount, actionCount) && LaidOut(flat, traces, |traces|) && p < |flat.symbols|
    ensures flat.symbols[p] < symbolCount && flat.actions[p] < actionCount
  {
    var j, i := Locate(traces, p, |traces|);
    assert StepLaid(flat, traces[j], Offset(traces, j), i);
  }

  /** The episode and step a flat position belongs to. */
  lemma {:induction false} Locate(traces: seq<ChoiceTrace>, p: nat, k: nat) returns (j: nat, i: nat)
    requires k <= |traces| && p < Offset(traces, k)
    ensures j < k && i < |traces[j].symbols| && p == Offset(traces, j) + i
    decreases k
  {
    if p >= Offset(traces, k - 1) {
      j, i := k - 1, p - Offset(traces, k - 1);
    } else {
      j, i := Locate(traces, p, k - 1);
    }
  }

  /** Restarting at the recorded offsets runs every episode from state 0. */
  lemma {:induction false} FlatStateIsWalk(transitions: seq<seq<nat>>, symbolCount: nat, actionCount: nat, flat: Flat,
      traces: seq<ChoiceTrace>, j: nat, i: nat)
    requires Ready(transitions, traces, symbolCount, actionCount) && LaidOut(flat, traces, |traces|)
    requires j < |traces| && i < |traces[j].symbols| && InAlphabet(flat.symbols, symbolCount)
    ensures Offset(traces, j) + i < |flat.symbols|
    ensures FlatState(transitions, symbolCount, flat, Offset(traces, j) + i)
      == Walk(transitions, symbolCount, traces[j].symbols[..i])
    decreases i
  {
    assert StepLaid(flat, traces[j], Offset(traces, j), i);
    if i > 0 {
      FlatStateIsWalk(transitions, symbolCount, actionCount, flat, traces, j, i - 1);
      assert StepLaid(flat, traces[j], Offset(traces, j), i - 1);
      var w := traces[j].symbols[..i];
      assert w[..|w| - 1] == traces[j].symbols[..i - 1];
    }
  }

  lemma {:induction false} FlatTrace(transitions: seq<seq<nat>>, symbolCount: nat, actionCount: nat, flat: Flat,
      traces: seq<ChoiceTrace>, j: nat, i: nat)
    requires Ready(transitions, traces, symbolCount, actionCount) && LaidOut(flat, traces, |traces|)
    requires j < |traces| && i <= |traces[j].symbols| && InAlphabet(flat.symbols, symbolCount)
    ensures Offset(traces, j) + i <= |flat.symbols|
    ensures FlatOutcomes(transitions, symbolCount, flat, Offset(traces, j) + i)
      == FlatOutcomes(transitions, symbolCount, flat, Offset(traces, j))
        + TraceOutcomes(transitions, symbolCount, traces[j], i)
    decreases i
  {
    hide FlatState, Walk, Grid, ChoiceTrace.Valid;
    OffsetMonotone(traces, j + 1, |traces|);
    if i > 0 {
      FlatTrace(transitions, symbolCount, actionCount, flat, traces, j, i - 1);
      FlatStateIsWalk(transitions, symbolCount, actionCount, flat, traces, j, i - 1);
      assert StepLaid(flat, traces[j], Offset(traces, j), i - 1);
    }
  }

  /** The flat pass meets exactly the outcomes of the episodes, in order. */
  lemma {:induction false} FlatIsEpisodes(transitions: seq<seq<nat>>, symbolCount: nat, actionCount: nat, flat: Flat,
      traces: seq<ChoiceTrace>, k: nat)
    requires Ready(transitions, traces, symbolCount, actionCount) && LaidOut(flat, traces, |traces|)
    requires k <= |traces| && InAlphabet(flat.symbols, symbolCount)
    ensures Offset(traces, k) <= |flat.symbols|
    ensures FlatOutcomes(transitions, symbolCount, flat, Offset(traces, k))
      == Outcomes(transitions, traces, symbolCount, actionCount, k)
    decreases k
  {
    hide StepLaid, FlatState, Walk, TraceOutcomes, Grid, ChoiceTrace.Valid;
    OffsetMonotone(traces, k, |traces|);
    if k > 0 {
      FlatIsEpisodes(transitions, symbolCount, actionCount, flat, traces, k - 1);
      FlatTrace(transitions, symbolCount, actionCount, flat, traces, k - 1, |traces[k - 1].symbols|);
    }
  }
}
