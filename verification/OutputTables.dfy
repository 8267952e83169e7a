/**
 Reading an output function off the evidence (composition_accumulation.py,
 `fit_output_table`, `table_accuracy`): given two components, a table over
 (left state, right state, symbol) exists exactly when the evidence is a function
 of that triple.
 */
module OutputTables {
  import opened Prelude
  import opened RuleAutomata
  import opened Traces
  import opened CompositionalRules

  type Triple = (nat, nat, nat)

  /** Two components that can read the traces. */
  ghost predicate Readers(left: RuleAutomaton, right: RuleAutomaton, t: Trace) {
    && left.Valid() && right.Valid()
    && InAlphabet(t.symbols, left.symbolCount) && InAlphabet(t.symbols, right.symbolCount)
  }

  ghost predicate AllReaders(left: RuleAutomaton, right: RuleAutomaton, traces: seq<Trace>) {
    forall k :: 0 <= k < |traces| ==> Readers(left, right, traces[k])
  }

  /** The cell of the table that position `i` of an episode names. */
  ghost function CellAt(left: RuleAutomaton, right: RuleAutomaton, t: Trace, i: nat): Triple
    requires Readers(left, right, t) && i < |t.symbols|
  {
    (Reach(left, 0, t.symbols[..i]), Reach(right, 0, t.symbols[..i]), t.symbols[i])
  }

  /** `f` gives the label of every scored position among the first `n` of an episode. */
  ghost predicate Explains(f: Triple -> nat, left: RuleAutomaton, right: RuleAutomaton, t: Trace, n: nat)
    requires Readers(left, right, t) && n <= |t.symbols|
  {
    forall i :: 0 <= i < n && t.eligible[i] ==> f(CellAt(left, right, t, i)) == t.outputs[i]
  }

  ghost predicate ExplainsAll(f: Triple -> nat, left: RuleAutomaton, right: RuleAutomaton, traces: seq<Trace>, k: nat)
    requires AllReaders(left, right, traces) && k <= |traces|
  {
    forall j :: 0 <= j < k ==> Explains(f, left, right, traces[j], |traces[j].symbols|)
  }

  /** A table as a function: unlisted cells answer 0. */
  function AsFunction(table: map<Triple, nat>): Triple -> nat {
    (cell: Triple) => if cell in table then table[cell] else 0
  }

  /** Every entry was forced by the evidence: any explanation agrees with it. */
  ghost predicate Forced(table: map<Triple, nat>, f: Triple -> nat) {
    forall cell :: cell in table ==> f(cell) == table[cell]
  }

  /** All scored positions so far have their entry. */
  ghost predicate Recorded(table: map<Triple, nat>, left: RuleAutomaton, right: RuleAutomaton, t: Trace, n: nat)
    requires Readers(left, right, t) && n <= |t.symbols|
  {
    forall i :: 0 <= i < n && t.eligible[i] ==>
      CellAt(left, right, t, i) in table && table[CellAt(left, right, t, i)] == t.outputs[i]
  }

  ghost predicate RecordedAll(table: map<Triple, nat>, left: RuleAutomaton, right: RuleAutomaton, traces: seq<Trace>,
      k: nat)
    requires AllReaders(left, right, traces) && k <= |traces|
  {
    forall j :: 0 <= j < k ==> Recorded(table, left, right, traces[j], |traces[j].symbols|)
  }

  lemma RecordedExplains(table: map<Triple, nat>, left: RuleAutomaton, right: RuleAutomaton, traces: seq<Trace>)
    requires AllReaders(left, right, traces) && RecordedAll(table, left, right, traces, |traces|)
    ensures ExplainsAll(AsFunction(table), left, right, traces, |traces|)
  {
    hide Reach;
    forall j | 0 <= j < |traces|
      ensures Explains(AsFunction(table), left, right, traces[j], |traces[j].symbols|)
    {
      assert Recorded(table, left, right, traces[j], |traces[j].symbols|);
    }
  }

  lemma StepStates(left: RuleAutomaton, right: RuleAutomaton, t: Trace, i: nat)
    requires Readers(left, right, t) && i < |t.symbols|
    ensures Reach(left, 0, t.symbols[..i + 1]) == left.transitions[Reach(left, 0, t.symbols[..i])][t.symbols[i]]
    ensures Reach(right, 0, t.symbols[..i + 1]) == right.transitions[Reach(right, 0, t.symbols[..i])][t.symbols[i]]
  {
    assert t.symbols[..i + 1][..i] == t.symbols[..i];
  }

  /** One more cell keeps every earlier entry. */
  lemma RecordedStays(table: map<Triple, nat>, cell: Triple, want: nat, left: RuleAutomaton, right: RuleAutomaton,
      traces: seq<Trace>, k: nat, n: nat)
    requires AllReaders(left, right, traces) && k < |traces| && n <= |traces[k].symbols|
    requires RecordedAll(table, left, right, traces, k) && Recorded(table, left, right, traces[k], n)
    requires cell !in table
    ensures RecordedAll(table[cell := want], left, right, traces, k)
      && Recorded(table[cell := want], left, right, traces[k], n)
  {
    hide CellAt;
    forall j | 0 <= j < k
      ensures Recorded(table[cell := want], left, right, traces[j], |traces[j].symbols|)
    {
      assert Recorded(table, left, right, traces[j], |traces[j].symbols|);
    }
  }

  /**
   `fit_output_table`: a table is returned if and only if some function of the triple
   explains every scored label; the table then does, and each of its entries is what
   every explanation must answer.
   */
  method FitOutputTable(left: RuleAutomaton, right: RuleAutomaton, traces: seq<Trace>)
    returns (r: Option<map<Triple, nat>>)
    requires AllReaders(left, right, traces)
    ensures r.Some? <==> exists f: Triple -> nat :: ExplainsAll(f, left, right, traces, |traces|)
    ensures r.Some? ==> ExplainsAll(AsFunction(r.value), left, right, traces, |traces|)
    ensures r.Some? ==> forall f: Triple -> nat :: ExplainsAll(f, left, right, traces, |traces|) ==> Forced(r.value, f)
  {
    hide CellAt, Explains, Recorded, Forced;
    var table: map<Triple, nat> := map[];
    EmptyTable(left, right, traces);
    for k := 0 to |traces|
      invariant RecordedAll(table, left, right, traces, k)
      invariant forall f: Triple -> nat :: ExplainsAll(f, left, right, traces, |traces|) ==> Forced(table, f)
    {
      var t := traces[k];
      assert Readers(left, right, t);
      var first, second: nat := 0, 0;
      NothingRecorded(table, left, right, t);
      for i := 0 to |t.symbols|
        invariant first == Reach(left, 0, t.symbols[..i]) && second == Reach(right, 0, t.symbols[..i])
        invariant RecordedAll(table, left, right, traces, k) && Recorded(table, left, right, t, i)
        invariant forall f: Triple -> nat :: ExplainsAll(f, left, right, traces, |traces|) ==> Forced(table, f)
      {
        var symbol := t.symbols[i];
        ghost var before := table;
        if t.eligible[i] {
          var cell := (first, second, symbol);
          var want := t.outputs[i];
          CellIs(left, right, t, i);
          forall f: Triple -> nat | ExplainsAll(f, left, right, traces, |traces|)
            ensures f(cell) == want
          {
            ExplainedCell(f, left, right, traces, k, i);
          }
          if cell !in table {
            RecordedStays(table, cell, want, left, right, traces, k, i);
            table := table[cell := want];
            forall f: Triple -> nat | ExplainsAll(f, left, right, traces, |traces|)
              ensures Forced(table, f)
            {
              ForcedMore(before, cell, want, f);
            }
          } else if table[cell] != want {
            NoExplanation(table, cell, want, left, right, traces);
            return None;
          }
          RecordedNext(table, left, right, t, i);
        } else {
          RecordedSkip(table, left, right, t, i);
        }
        StepStates(left, right, t, i);
        first := left.transitions[first][symbol];
        second := right.transitions[second][symbol];
      }
      RecordedTrace(table, left, right, traces, k);
    }
    RecordedExplains(table, left, right, traces);
    return Some(table);
  }

  lemma EmptyTable(left: RuleAutomaton, right: RuleAutomaton, traces: seq<Trace>)
    requires AllReaders(left, right, traces)
    ensures RecordedAll(map[], left, right, traces, 0)
    ensures forall f: Triple -> nat :: Forced(map[], f)
  {
  }

  lemma NothingRecorded(table: map<Triple, nat>, left: RuleAutomaton, right: RuleAutomaton, t: Trace)
    requires Readers(left, right, t)
    ensures Recorded(table, left, right, t, 0)
    ensures t.symbols[..0] == []
  {
  }

  lemma CellIs(left: RuleAutomaton, right: RuleAutomaton, t: Trace, i: nat)
    requires Readers(left, right, t) && i < |t.symbols|
    ensures CellAt(left, right, t, i) == (Reach(left, 0, t.symbols[..i]), Reach(right, 0, t.symbols[..i]), t.symbols[i])
  {
  }

  lemma ExplainedCell(f: Triple -> nat, left: RuleAutomaton, right: RuleAutomaton, traces: seq<Trace>, k: nat, i: nat)
    requires AllReaders(left, right, traces) && k < |traces| && i < |traces[k].symbols| && traces[k].eligible[i]
    requires ExplainsAll(f, left, right, traces, |traces|)
    ensures f(CellAt(left, right, traces[k], i)) == traces[k].outputs[i]
  {
    assert Explains(f, left, right, traces[k], |traces[k].symbols|);
  }

  lemma ForcedMore(table: map<Triple, nat>, cell: Triple, want: nat, f: Triple -> nat)
    requires Forced(table, f) && f(cell) == want
    ensures Forced(table[cell := want], f)
  {
  }

  lemma NoExplanation(table: map<Triple, nat>, cell: Triple, want: nat, left: RuleAutomaton, right: RuleAutomaton,
      traces: seq<Trace>)
    requires AllReaders(left, right, traces) && cell in table && table[cell] != want
    requires forall f: Triple -> nat :: ExplainsAll(f, left, right, traces, |traces|) ==>
      Forced(table, f) && f(cell) == want
    ensures !exists f: Triple -> nat :: ExplainsAll(f, left, right, traces, |traces|)
  {
    hide ExplainsAll;
  }

  lemma RecordedNext(table: map<Triple, nat>, left: RuleAutomaton, right: RuleAutomaton, t: Trace, i: nat)
    requires Readers(left, right, t) && i < |t.symbols| && Recorded(table, left, right, t, i)
    requires CellAt(left, right, t, i) in table && table[CellAt(left, right, t, i)] == t.outputs[i]
    ensures Recorded(table, left, right, t, i + 1)
  {
    hide CellAt;
  }

  lemma RecordedSkip(table: map<Triple, nat>, left: RuleAutomaton, right: RuleAutomaton, t: Trace, i: nat)
    requires Readers(left, right, t) && i < |t.symbols| && Recorded(table, left, right, t, i) && !t.eligible[i]
    ensures Recorded(table, left, right, t, i + 1)
  {
    hide CellAt;
  }

  lemma RecordedTrace(table: map<Triple, nat>, left: RuleAutomaton, right: RuleAutomaton, traces: seq<Trace>, k: nat)
    requires AllReaders(left, right, traces) && k < |traces|
    requires RecordedAll(table, left, right, traces, k) && Recorded(table, left, right, traces[k], |traces[k].symbols|)
    ensures RecordedAll(table, left, right, traces, k + 1)
  {
    hide Recorded;
  }

  // ---------------------------------------------------------------------- accuracy

  function CountScored(t: Trace, n: nat): nat
    requires n <= |t.symbols|
  {
    if n == 0 then 0 else CountScored(t, n - 1) + if t.eligible[n - 1] then 1 else 0
  }

  ghost function CountHits(f: Triple -> nat, left: RuleAutomaton, right: RuleAutomaton, t: Trace, n: nat): nat
    requires Readers(left, right, t) && n <= |t.symbols|
  {
    if n == 0 then 0
    else
      CountHits(f, left, right, t, n - 1)
      + if t.eligible[n - 1] && f(CellAt(left, right, t, n - 1)) == t.outputs[n - 1] then 1 else 0
  }

  /** `table_accuracy`: hits over trials, 0 without a scored step. */
  method TableAccuracy(left: RuleAutomaton, right: RuleAutomaton, table: map<Triple, nat>, t: Trace)
    returns (accuracy: real)
    requires Readers(left, right, t)
    ensures var trials := CountScored(t, |t.symbols|);
      accuracy == if trials == 0 then 0.0
        else CountHits(AsFunction(table), left, right, t, |t.symbols|) as real / trials as real
  {
    var first, second: nat := 0, 0;
    var hits, trials: nat := 0, 0;
    assert t.symbols[..0] == [];
    for i := 0 to |t.symbols|
      invariant first == Reach(left, 0, t.symbols[..i]) && second == Reach(right, 0, t.symbols[..i])
      invariant trials == CountScored(t, i)
      invariant hits == CountHits(AsFunction(table), left, right, t, i)
    {
      var symbol := t.symbols[i];
      CellIs(left, right, t, i);
      if t.eligible[i] {
        trials := trials + 1;
        if (if (first, second, symbol) in table then table[(first, second, symbol)] else 0) == t.outputs[i] {
          hits := hits + 1;
        }
      }
      StepStates(left, right, t, i);
      first := left.transitions[first][symbol];
      second := right.transitions[second][symbol];
    }
    accuracy := if trials == 0 then 0.0 else hits as real / trials as real;
  }

  /** Full marks exactly when the function explains the episode. */
  lemma {:induction false} FullMarks(f: Triple -> nat, left: RuleAutomaton, right: RuleAutomaton, t: Trace, n: nat)
    requires Readers(left, right, t) && n <= |t.symbols|
    ensures CountHits(f, left, right, t, n) <= CountScored(t, n)
    ensures CountHits(f, left, right, t, n) == CountScored(t, n) <==> Explains(f, left, right, t, n)
    decreases n
  {
    hide CellAt;
    if n > 0 {
      FullMarks(f, left, right, t, n - 1);
    }
  }

  /** A fitted table scores 1.0 on every fitted episode that has a scored step. */
  lemma FittedScoresOne(table: map<Triple, nat>, left: RuleAutomaton, right: RuleAutomaton, traces: seq<Trace>, k: nat)
    requires AllReaders(left, right, traces) && k < |traces|
    requires ExplainsAll(AsFunction(table), left, right, traces, |traces|)
    requires CountScored(traces[k], |traces[k].symbols|) > 0
    ensures CountHits(AsFunction(table), left, right, traces[k], |traces[k].symbols|) as real
      / CountScored(traces[k], |traces[k].symbols|) as real == 1.0
  {
    hide CountHits, CountScored;
    assert Explains(AsFunction(table), left, right, traces[k], |traces[k].symbols|);
    FullMarks(AsFunction(table), left, right, traces[k], |traces[k].symbols|);
  }

  // ------------------------------------------------------- combiners are output tables

  /** The machine reproduces every scored label. */
  ghost predicate Reproduces(m: RuleAutomaton, traces: seq<Trace>)
    requires m.Valid()
  {
    forall k, i :: 0 <= k < |traces| && 0 <= i < |traces[k].symbols| && traces[k].eligible[i] ==>
      InAlphabet(traces[k].symbols[..i + 1], m.symbolCount)
        && Emit(m, traces[k].symbols[..i + 1]) == traces[k].outputs[i]
  }

  /** The output function a boolean combiner implies. */
  ghost function CombinerTable(left: RuleAutomaton, right: RuleAutomaton, combiner: Combiner): Triple -> nat {
    (cell: Triple) =>
      if cell.0 < |left.outputs| && cell.1 < |right.outputs| && cell.2 < |left.outputs[cell.0]|
        && cell.2 < |right.outputs[cell.1]|
      then Merge(combiner, left.outputs[cell.0][cell.2], right.outputs[cell.1][cell.2]) else 0
  }

  lemma ProductCell(left: RuleAutomaton, right: RuleAutomaton, combiner: Combiner, product: RuleAutomaton, t: Trace,
      i: nat)
    requires Readers(left, right, t) && product.Valid() && Composes(product, left, right, combiner) && i < |t.symbols|
    requires Emit(product, t.symbols[..i + 1]) == t.outputs[i]
    ensures CombinerTable(left, right, combiner)(CellAt(left, right, t, i)) == t.outputs[i]
  {
    hide Reach;
    var w := t.symbols[..i + 1];
    assert w[..|w| - 1] == t.symbols[..i];
    assert Emit(product, w) == Merge(combiner, Emit(left, w), Emit(right, w));
  }

  /** If a product under any combiner fits the evidence, an output table exists. */
  lemma ProductImpliesTable(left: RuleAutomaton, right: RuleAutomaton, combiner: Combiner, product: RuleAutomaton,
      traces: seq<Trace>)
    requires AllReaders(left, right, traces) && left.Valid() && right.Valid() && product.Valid()
    requires Composes(product, left, right, combiner) && Reproduces(product, traces)
    ensures ExplainsAll(CombinerTable(left, right, combiner), left, right, traces, |traces|)
  {
    hide Emit, Composes, CellAt, CombinerTable, Merge;
    var f := CombinerTable(left, right, combiner);
    forall k | 0 <= k < |traces|
      ensures Explains(f, left, right, traces[k], |traces[k].symbols|)
    {
      var t := traces[k];
      assert Readers(left, right, t);
      forall i | 0 <= i < |t.symbols| && t.eligible[i]
        ensures f(CellAt(left, right, t, i)) == t.outputs[i]
      {
        ProductCell(left, right, combiner, product, t, i);
      }
    }
  }
}
