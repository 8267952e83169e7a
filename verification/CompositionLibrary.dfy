/**
 What a library offers for new evidence (composition_accumulation.py, `library_candidates`,
 `_fits`): its machines, their products under every combiner, and the test that a
 candidate explains the evidence.
 */
module CompositionLibrary {
  import opened Prelude
  import opened RuleAutomata
  import opened Minimization
  import opened Traces
  import opened CompositionalRules
  import opened OutputTables

  // --------------------------------------------------------------------------- fitting

  predicate Reads(m: RuleAutomaton, t: Trace) {
    m.Valid() && InAlphabet(t.symbols, m.symbolCount)
  }

  function MachineHits(m: RuleAutomaton, t: Trace, n: nat): nat
    requires Reads(m, t) && n <= |t.symbols|
  {
    if n == 0 then 0
    else MachineHits(m, t, n - 1) + if t.eligible[n - 1] && Emit(m, t.symbols[..n]) == t.outputs[n - 1] then 1 else 0
  }

  /** `held_out_accuracy`: hits over scored steps, and 0 when no step is scored. */
  method HeldOutAccuracy(m: RuleAutomaton, t: Trace) returns (r: Result<real>)
    ensures r.Success? <==> Reads(m, t)
    ensures r.Success? ==>
      var trials := CountScored(t, |t.symbols|);
      r.value == if trials == 0 then 0.0 else MachineHits(m, t, |t.symbols|) as real / trials as real
  {
    var predicted := ComputeExpected(m, t.symbols);
    if predicted.Failure? {
      return Failure(predicted.message);
    }
    var hits, trials: nat := 0, 0;
    for step := 0 to |t.eligible|
      invariant hits == MachineHits(m, t, step) && trials == CountScored(t, step)
    {
      assert predicted.value[step] == Emit(m, t.symbols[..step + 1]);
      if t.eligible[step] && predicted.value[step] == t.outputs[step] {
        hits := hits + 1;
      }
      if t.eligible[step] {
        trials := trials + 1;
      }
    }
    return Success(if trials == 0 then 0.0 else hits as real / trials as real);
  }

  /** The machine answers every scored step of the episode, and some step is scored. */
  ghost predicate FitsEpisode(m: RuleAutomaton, t: Trace) {
    && Reads(m, t)
    && CountScored(t, |t.symbols|) > 0
    && forall i :: 0 <= i < |t.symbols| && t.eligible[i] ==> Emit(m, t.symbols[..i + 1]) == t.outputs[i]
  }

  lemma {:induction false} AllHits(m: RuleAutomaton, t: Trace, n: nat)
    requires Reads(m, t) && n <= |t.symbols|
    ensures MachineHits(m, t, n) <= CountScored(t, n)
    ensures MachineHits(m, t, n) == CountScored(t, n) <==>
      forall i :: 0 <= i < n && t.eligible[i] ==> Emit(m, t.symbols[..i + 1]) == t.outputs[i]
    decreases n
  {
    hide Emit;
    if n > 0 {
      AllHits(m, t, n - 1);
    }
  }

  lemma RatioIsOne(a: nat, b: nat)
    requires b > 0
    ensures a as real / b as real == 1.0 <==> a == b
  {
    assert a as real / b as real * b as real == a as real;
  }

  /** An accuracy of 1 is exactly a fit: full marks on at least one scored step. */
  lemma AccuracyOneIsFit(m: RuleAutomaton, t: Trace)
    requires Reads(m, t)
    ensures
      var trials := CountScored(t, |t.symbols|);
      FitsEpisode(m, t)
      <==> (if trials == 0 then 0.0 else MachineHits(m, t, |t.symbols|) as real / trials as real) == 1.0
  {
    hide MachineHits, CountScored, Emit;
    AllHits(m, t, |t.symbols|);
    if CountScored(t, |t.symbols|) > 0 {
      RatioIsOne(MachineHits(m, t, |t.symbols|), CountScored(t, |t.symbols|));
    }
  }

  /** The episodes before `k` all fit. */
  ghost predicate FitsBefore(m: RuleAutomaton, traces: seq<Trace>, k: nat)
    requires k <= |traces|
  {
    forall j :: 0 <= j < k ==> FitsEpisode(m, traces[j])
  }

  /**
   `_fits`: true exactly when every episode fits. Episodes are tried in order, so a misfit
   hides the exception a later episode would raise.
   */
  method Fits(m: RuleAutomaton, traces: seq<Trace>) returns (r: Result<bool>)
    ensures r == Success(true) <==> FitsBefore(m, traces, |traces|)
    ensures r == Success(false) <==>
      exists k :: 0 <= k < |traces| && FitsBefore(m, traces, k) && Reads(m, traces[k]) && !FitsEpisode(m, traces[k])
    ensures r.Failure? <==> exists k :: 0 <= k < |traces| && FitsBefore(m, traces, k) && !Reads(m, traces[k])
  {
    hide MachineHits, CountScored, Emit;
    for k := 0 to |traces|
      invariant FitsBefore(m, traces, k)
    {
      var accuracy := HeldOutAccuracy(m, traces[k]);
      if accuracy.Failure? {
        return Failure(accuracy.message);
      }
      AccuracyOneIsFit(m, traces[k]);
      if accuracy.value != 1.0 {
        return Success(false);
      }
    }
    return Success(true);
  }

  /**
   Reproducing every scored label is not enough for `_fits`: it holds exactly when, besides,
   every episode has a scored step.
   */
  lemma FitsIffReproduces(m: RuleAutomaton, traces: seq<Trace>)
    requires m.Valid() && forall k :: 0 <= k < |traces| ==> Reads(m, traces[k])
    ensures FitsBefore(m, traces, |traces|) <==>
      Reproduces(m, traces) && forall k :: 0 <= k < |traces| ==> CountScored(traces[k], |traces[k].symbols|) > 0
  {
    hide Emit, CountScored;
    if FitsBefore(m, traces, |traces|) {
      forall k, i | 0 <= k < |traces| && 0 <= i < |traces[k].symbols| && traces[k].eligible[i]
        ensures InAlphabet(traces[k].symbols[..i + 1], m.symbolCount)
          && Emit(m, traces[k].symbols[..i + 1]) == traces[k].outputs[i]
      {
        assert FitsEpisode(m, traces[k]);
      }
    }
    if Reproduces(m, traces) && forall k :: 0 <= k < |traces| ==> CountScored(traces[k], |traces[k].symbols|) > 0 {
      forall k | 0 <= k < |traces|
        ensures FitsEpisode(m, traces[k])
      {
        assert Reads(m, traces[k]);
      }
    }
  }

  /** One episode without a scored step: everything is reproduced and yet `_fits` is false. */
  lemma UnscoredEpisodeNeverFits(m: RuleAutomaton)
    requires m.Valid()
    ensures var t: Trace := TraceData([0], [0], [false], m.symbolCount);
      Reproduces(m, [t]) && !FitsBefore(m, [t], 1)
  {
    var t: Trace := TraceData([0], [0], [false], m.symbolCount);
    assert CountScored(t, 1) == CountScored(t, 0);
    assert !FitsEpisode(m, [t][0]);
  }

  // ------------------------------------------------------------------------ candidates

  datatype Source = Retrieve(index: nat) | Product(combiner: string, left: nat, right: nat)

  /** `COMBINERS`, in the order its keys are iterated. */
  const COMBINER_NAMES: seq<string> := ["and", "or", "xor"]

  /** The candidate is what its label says. */
  ghost predicate Labelled(library: seq<RuleAutomaton>, source: Source, m: RuleAutomaton)
    requires forall i :: 0 <= i < |library| ==> library[i].Valid()
  {
    match source
    case Retrieve(index) => index < |library| && m == library[index]
    case Product(combiner, left, right) =>
      && left < right < |library| && Lookup(combiner).Some?
      && library[left].symbolCount == library[right].symbolCount
      && Reduced(m) && m.Valid() && Composes(m, library[left], library[right], Lookup(combiner).value)
  }

  /** The label promises a candidate: any slot, or two slots over one alphabet under a known combiner. */
  predicate Promised(library: seq<RuleAutomaton>, source: Source) {
    match source
    case Retrieve(index) => index < |library|
    case Product(combiner, left, right) =>
      combiner in COMBINER_NAMES && left < right < |library| && library[left].symbolCount == library[right].symbolCount
  }

  /**
   Labels of the first rows of products: those from `left` slots before, and within row
   `left` those before `right`.
   */
  predicate ProductBefore(source: Source, left: nat, right: nat) {
    source.Product? && (source.left < left || (source.left == left && source.right < right))
  }

  ghost predicate Has(candidates: seq<(Source, RuleAutomaton)>, source: Source) {
    exists k :: 0 <= k < |candidates| && candidates[k].0 == source
  }

  ghost predicate AllLabelled(library: seq<RuleAutomaton>, candidates: seq<(Source, RuleAutomaton)>)
    requires forall i :: 0 <= i < |library| ==> library[i].Valid()
  {
    forall k :: 0 <= k < |candidates| ==> Labelled(library, candidates[k].0, candidates[k].1)
  }

  lemma HasMore(candidates: seq<(Source, RuleAutomaton)>, entry: (Source, RuleAutomaton), source: Source)
    ensures Has(candidates, source) ==> Has(candidates + [entry], source)
    ensures Has(candidates + [entry], entry.0)
  {
    if Has(candidates, source) {
      var k :| 0 <= k < |candidates| && candidates[k].0 == source;
      assert (candidates + [entry])[k].0 == source;
    }
    assert (candidates + [entry])[|candidates|] == entry;
  }

  lemma HasAllMore(candidates: seq<(Source, RuleAutomaton)>, entry: (Source, RuleAutomaton))
    ensures forall source :: Has(candidates, source) ==> Has(candidates + [entry], source)
    ensures Has(candidates + [entry], entry.0)
  {
    hide Has;
    forall source | Has(candidates, source)
      ensures Has(candidates + [entry], source)
    {
      HasMore(candidates, entry, source);
    }
    HasMore(candidates, entry, entry.0);
  }

  /** A combiner's place in the order they are tried. */
  function Position(combiner: string): nat {
    if combiner == "and" then 0 else if combiner == "or" then 1 else 2
  }

  /** The order of the candidates: slots first, then products by left slot, right slot and combiner. */
  predicate Before(a: Source, b: Source) {
    match (a, b)
    case (Retrieve(i), Retrieve(j)) => i < j
    case (Retrieve(_), Product(_, _, _)) => true
    case (Product(_, _, _), Retrieve(_)) => false
    case (Product(c, l, q), Product(d, m, n)) => l < m || (l == m && (q < n || (q == n && Position(c) < Position(d))))
  }

  /** Strictly in order, and so without duplicates. */
  ghost predicate InOrder(candidates: seq<(Source, RuleAutomaton)>) {
    forall i, j :: 0 <= i < j < |candidates| ==> Before(candidates[i].0, candidates[j].0)
  }

  /** The label precedes the products of (`left`, `right`) from combiner `c` on. */
  predicate Done(source: Source, left: nat, right: nat, c: nat) {
    source.Retrieve? || source.left < left
    || (source.left == left && (source.right < right || (source.right == right && Position(source.combiner) < c)))
  }

  ghost predicate AllDone(candidates: seq<(Source, RuleAutomaton)>, left: nat, right: nat, c: nat) {
    forall k :: 0 <= k < |candidates| ==> Done(candidates[k].0, left, right, c)
  }

  lemma InOrderNext(candidates: seq<(Source, RuleAutomaton)>, left: nat, right: nat, c: nat, m: RuleAutomaton)
    requires InOrder(candidates) && AllDone(candidates, left, right, c) && c < |COMBINER_NAMES|
    ensures InOrder(candidates + [(Product(COMBINER_NAMES[c], left, right), m)])
    ensures AllDone(candidates + [(Product(COMBINER_NAMES[c], left, right), m)], left, right, c + 1)
  {
    assert Position(COMBINER_NAMES[c]) == c;
  }

  lemma DoneMore(candidates: seq<(Source, RuleAutomaton)>, left: nat, right: nat, c: nat)
    requires AllDone(candidates, left, right, c)
    ensures AllDone(candidates, left, right, c + 1)
    ensures forall q: nat :: right < q ==> AllDone(candidates, left, q, 0)
    ensures forall l: nat, q: nat :: left < l ==> AllDone(candidates, l, q, 0)
  {
  }

  /** The products of one pair, one per combiner; none when the alphabets differ. */
  method PairCandidates(library: seq<RuleAutomaton>, left: nat, right: nat, before: seq<(Source, RuleAutomaton)>)
    returns (candidates: seq<(Source, RuleAutomaton)>)
    requires forall i :: 0 <= i < |library| ==> library[i].Valid()
    requires left < right < |library| && AllLabelled(library, before)
    requires InOrder(before) && AllDone(before, left, right, 0)
    ensures AllLabelled(library, candidates)
    ensures InOrder(candidates) && AllDone(candidates, left, right, |COMBINER_NAMES|)
    ensures forall source :: Has(before, source) ==> Has(candidates, source)
    ensures library[left].symbolCount == library[right].symbolCount ==>
      forall name :: name in COMBINER_NAMES ==> Has(candidates, Product(name, left, right))
  {
    hide Has, Composes, AnswersByName, Reduced, InOrder, AllDone, Lookup, Declared, COMBINER_NAMES;
    candidates := before;
    for c := 0 to |COMBINER_NAMES|
      invariant AllLabelled(library, candidates)
      invariant InOrder(candidates) && AllDone(candidates, left, right, c)
      invariant forall source :: Has(before, source) ==> Has(candidates, source)
      invariant library[left].symbolCount == library[right].symbolCount ==>
        forall k :: 0 <= k < c ==> Has(candidates, Product(COMBINER_NAMES[k], left, right))
    {
      var name := COMBINER_NAMES[c];
      ValidIsTabled(library[left]);
      ValidIsTabled(library[right]);
      var merged := ProductRule(library[left], library[right], name);
      KnownName(c);
      DoneMore(candidates, left, right, c);
      if merged.Failure? {
        continue;
      }
      ReducedIsValid(merged.value);
      var entry := (Product(name, left, right), merged.value);
      HasAllMore(candidates, entry);
      assert Labelled(library, entry.0, entry.1);
      InOrderNext(candidates, left, right, c, merged.value);
      candidates := candidates + [entry];
    }
  }

  lemma KnownName(c: nat)
    requires c < |COMBINER_NAMES|
    ensures Lookup(COMBINER_NAMES[c]).Some? && COMBINER_NAMES[c] in {"and", "or", "xor"}
  {
  }

  /**
   `library_candidates`: exactly the promised candidates, once each and in order, each of
   them what its label says.
   */
  method LibraryCandidates(library: seq<RuleAutomaton>) returns (candidates: seq<(Source, RuleAutomaton)>)
    requires forall i :: 0 <= i < |library| ==> library[i].Valid()
    ensures AllLabelled(library, candidates)
    ensures InOrder(candidates)
    ensures forall source :: Promised(library, source) <==> Has(candidates, source)
  {
    hide Has, Composes, Reduced, AllDone, InOrder;
    candidates := [];
    for index: nat := 0 to |library|
      invariant AllLabelled(library, candidates) && Slots(candidates, index)
      invariant forall i: nat :: i < index ==> Has(candidates, Retrieve(i))
    {
      var entry := (Retrieve(index), library[index]);
      HasAllMore(candidates, entry);
      candidates := candidates + [entry];
    }
    SlotsInOrder(candidates, |library|);
    for left: nat := 0 to |library|
      invariant AllLabelled(library, candidates) && InOrder(candidates) && AllDone(candidates, left, left + 1, 0)
      invariant forall i: nat :: i < |library| ==> Has(candidates, Retrieve(i))
      invariant forall source :: Promised(library, source) && ProductBefore(source, left, 0) ==> Has(candidates, source)
    {
      for right: nat := left + 1 to |library|
        invariant AllLabelled(library, candidates) && InOrder(candidates) && AllDone(candidates, left, right, 0)
        invariant forall i: nat :: i < |library| ==> Has(candidates, Retrieve(i))
        invariant forall source :: Promised(library, source) && ProductBefore(source, left, right) ==>
          Has(candidates, source)
      {
        candidates := PairCandidates(library, left, right, candidates);
        DoneMore(candidates, left, right, |COMBINER_NAMES|);
      }
      DoneMore(candidates, left, |library|, 0);
    }
    OnlyPromised(library, candidates);
  }

  /** The first `n` candidates are the slots in order. */
  ghost predicate Slots(candidates: seq<(Source, RuleAutomaton)>, n: nat) {
    |candidates| == n && forall k :: 0 <= k < n ==> candidates[k].0 == Retrieve(k)
  }

  lemma SlotsInOrder(candidates: seq<(Source, RuleAutomaton)>, n: nat)
    requires Slots(candidates, n)
    ensures InOrder(candidates) && AllDone(candidates, 0, 1, 0)
  {
  }

  lemma OnlyPromised(library: seq<RuleAutomaton>, candidates: seq<(Source, RuleAutomaton)>)
    requires forall i :: 0 <= i < |library| ==> library[i].Valid()
    requires AllLabelled(library, candidates)
    ensures forall source :: Has(candidates, source) ==> Promised(library, source)
  {
    hide Composes, Reduced;
    forall source | Has(candidates, source)
      ensures Promised(library, source)
    {
      var k :| 0 <= k < |candidates| && candidates[k].0 == source;
      assert Labelled(library, candidates[k].0, candidates[k].1);
      if source.Product? {
        assert source.combiner in COMBINER_NAMES by {
          assert COMBINER_NAMES[0] == "and" && COMBINER_NAMES[1] == "or" && COMBINER_NAMES[2] == "xor";
        }
      }
    }
  }

  /** A product that fits the evidence implies that reading the table off its parts succeeds too. */
  lemma FittingProductHasTable(library: seq<RuleAutomaton>, combiner: string, left: nat, right: nat, m: RuleAutomaton,
      traces: seq<Trace>)
    requires forall i :: 0 <= i < |library| ==> library[i].Valid()
    requires Labelled(library, Product(combiner, left, right), m) && FitsBefore(m, traces, |traces|)
    ensures AllReaders(library[left], library[right], traces)
    ensures exists f: Triple -> nat :: ExplainsAll(f, library[left], library[right], traces, |traces|)
  {
    hide Emit, CountScored, Reduced, ExplainsAll;
    ComposesAlphabets(m, library[left], library[right], Lookup(combiner).value);
    forall k | 0 <= k < |traces|
      ensures Readers(library[left], library[right], traces[k]) && Reads(m, traces[k])
    {
      assert FitsEpisode(m, traces[k]);
    }
    FitsIffReproduces(m, traces);
    ProductImpliesTable(library[left], library[right], Lookup(combiner).value, m, traces);
    assert ExplainsAll(CombinerTable(library[left], library[right], Lookup(combiner).value), library[left],
      library[right], traces, |traces|);
  }

  lemma ComposesAlphabets(m: RuleAutomaton, left: RuleAutomaton, right: RuleAutomaton, combiner: Combiner)
    requires m.Valid() && left.Valid() && right.Valid() && Composes(m, left, right, combiner)
    ensures m.symbolCount == left.symbolCount == right.symbolCount
  {
  }
}
