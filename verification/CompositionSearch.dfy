/**
 The exhaustive search of compositional_recognition.py (`search_compositions` without
 a proposer, and `composed_machine`): every stored program and every pair under every
 combiner is examined once, and the winner is a best survivor.
 */
module CompositionSearch {
  import opened Prelude
  import opened RuleAutomata
  import opened Minimization
  import opened Traces
  import opened CompositionalRules
  import opened CompositionalRecognition

  datatype Candidate =
    | Single(slot: nat, hits: nat)
    | Pair(left: nat, right: nat, combiner: Combiner, hits: nat)
  {
    function MaxSlot(): nat {
      if Single? then slot else if left < right then right else left
    }
  }

  /** The three combiners, in the order they are tried. */
  const SEARCH_COMBINERS: seq<Combiner> := [And, Or, Xor]

  type Vectors = map<nat, seq<nat>>

  /** Every usable slot has a vector as long as the targets. */
  ghost predicate Cached(usable: seq<nat>, predictions: Vectors, targets: seq<nat>) {
    forall i :: 0 <= i < |usable| ==> usable[i] in predictions && |predictions[usable[i]]| == |targets|
  }

  /** The candidate for one slot, its hits counted on the cached vector. */
  function SingleAt(predictions: Vectors, targets: seq<nat>, slot: nat): Candidate
    requires slot in predictions && |predictions[slot]| == |targets|
  {
    Single(slot, Hits(predictions[slot], targets))
  }

  /** The candidate for a pair, its hits counted on the merged vectors. */
  function PairAt(predictions: Vectors, targets: seq<nat>, left: nat, right: nat, combiner: Combiner): Candidate
    requires left in predictions && |predictions[left]| == |targets|
    requires right in predictions && |predictions[right]| == |targets|
  {
    Pair(left, right, combiner, Hits(MergeVectors(predictions[left], predictions[right], combiner), targets))
  }

  /** One of the hypotheses the library offers, correctly scored. */
  ghost predicate Offered(usable: seq<nat>, predictions: Vectors, targets: seq<nat>, c: Candidate)
    requires Cached(usable, predictions, targets)
  {
    || (exists i :: 0 <= i < |usable| && c == SingleAt(predictions, targets, usable[i]))
    || (exists i, j, combiner ::
      0 <= i < j < |usable| && c == PairAt(predictions, targets, usable[i], usable[j], combiner))
  }

  /** Pairs whose first member is among the first `k` of `n` slots. */
  function PairsFrom(n: nat, k: nat): nat
    requires k <= n
  {
    if k == 0 then 0 else PairsFrom(n, k - 1) + (n - k)
  }

  lemma {:induction false} PairsClosed(n: nat, k: nat)
    requires k <= n
    ensures 2 * PairsFrom(n, k) == k * (2 * n - k - 1)
    decreases k
  {
    if k > 0 {
      PairsClosed(n, k - 1);
      assert (k - 1) * (2 * n - k) + 2 * (n - k) == k * (2 * n - k - 1);
    }
  }

  /** n slots give n(n - 1)/2 pairs. */
  lemma AllPairsCount(n: nat)
    ensures 2 * PairsFrom(n, n) == n * (n - 1)
  {
    PairsClosed(n, n);
    assert n * (2 * n - n - 1) == n * (n - 1);
  }

  // ------------------------------------------------------------------ the hypotheses

  /** The singles of the first `n` usable slots. */
  ghost function Singles(usable: seq<nat>, predictions: Vectors, targets: seq<nat>, n: nat): (cs: seq<Candidate>)
    requires Cached(usable, predictions, targets) && n <= |usable|
    ensures |cs| == n
    ensures forall k :: 0 <= k < n ==> cs[k] == SingleAt(predictions, targets, usable[k])
  {
    if n == 0 then []
    else Singles(usable, predictions, targets, n - 1) + [SingleAt(predictions, targets, usable[n - 1])]
  }

  /** One pair under the three combiners. */
  ghost function Triple(usable: seq<nat>, predictions: Vectors, targets: seq<nat>, i: nat, j: nat): (cs: seq<Candidate>)
    requires Cached(usable, predictions, targets) && i < |usable| && j < |usable|
    ensures |cs| == 3
  {
    [PairAt(predictions, targets, usable[i], usable[j], And),
     PairAt(predictions, targets, usable[i], usable[j], Or),
     PairAt(predictions, targets, usable[i], usable[j], Xor)]
  }

  /** The pairs whose first member is slot `i` and whose second one is before `j`. */
  ghost function PairRow(usable: seq<nat>, predictions: Vectors, targets: seq<nat>, i: nat,
      j: nat): (cs: seq<Candidate>)
    requires Cached(usable, predictions, targets) && i < j <= |usable|
    ensures |cs| == 3 * (j - i - 1)
    decreases j
  {
    if j == i + 1 then []
    else PairRow(usable, predictions, targets, i, j - 1) + Triple(usable, predictions, targets, i, j - 1)
  }

  /** The pairs whose first member is among the first `n` slots, row by row. */
  ghost function PairRows(usable: seq<nat>, predictions: Vectors, targets: seq<nat>, n: nat): (cs: seq<Candidate>)
    requires Cached(usable, predictions, targets) && n <= |usable|
    ensures |cs| == 3 * PairsFrom(|usable|, n)
  {
    if n == 0 then []
    else PairRows(usable, predictions, targets, n - 1) + PairRow(usable, predictions, targets, n - 1, |usable|)
  }

  /** All hypotheses in the order they are examined: the singles, then the pairs. */
  ghost function Hypotheses(usable: seq<nat>, predictions: Vectors, targets: seq<nat>): (cs: seq<Candidate>)
    requires Cached(usable, predictions, targets)
    ensures |cs| == |usable| + 3 * PairsFrom(|usable|, |usable|)
  {
    Singles(usable, predictions, targets, |usable|) + PairRows(usable, predictions, targets, |usable|)
  }

  /** One pair under every combiner, appended. */
  method AddTriple(usable: seq<nat>, predictions: Vectors, targets: seq<nat>, position: nat, other: nat,
      before: seq<Candidate>)
    returns (candidates: seq<Candidate>)
    requires Cached(usable, predictions, targets) && position < |usable| && other < |usable|
    ensures candidates == before + Triple(usable, predictions, targets, position, other)
  {
    hide Hits, Cached;
    CachedAt(usable, predictions, targets, position);
    CachedAt(usable, predictions, targets, other);
    candidates := before;
    for c := 0 to |SEARCH_COMBINERS|
      invariant candidates == before + Triple(usable, predictions, targets, position, other)[..c]
    {
      candidates := candidates + [PairAt(predictions, targets, usable[position], usable[other], SEARCH_COMBINERS[c])];
    }
  }

  lemma RowNext(usable: seq<nat>, predictions: Vectors, targets: seq<nat>, i: nat, j: nat, before: seq<Candidate>)
    requires Cached(usable, predictions, targets) && i < j < |usable|
    ensures before + PairRow(usable, predictions, targets, i, j) + Triple(usable, predictions, targets, i, j)
      == before + PairRow(usable, predictions, targets, i, j + 1)
  {
    hide Cached, Triple;
  }

  lemma RowsNext(usable: seq<nat>, predictions: Vectors, targets: seq<nat>, n: nat, before: seq<Candidate>)
    requires Cached(usable, predictions, targets) && n < |usable|
    ensures before + PairRows(usable, predictions, targets, n) + PairRow(usable, predictions, targets, n, |usable|)
      == before + PairRows(usable, predictions, targets, n + 1)
  {
    hide Cached, PairRow, PairsFrom;
  }

  /** One slot paired with every later one, appended. */
  method AddRow(usable: seq<nat>, predictions: Vectors, targets: seq<nat>, position: nat, before: seq<Candidate>)
    returns (candidates: seq<Candidate>)
    requires Cached(usable, predictions, targets) && position < |usable|
    ensures candidates == before + PairRow(usable, predictions, targets, position, |usable|)
  {
    hide Cached, Triple;
    candidates := before;
    for other: nat := position + 1 to |usable|
      invariant candidates == before + PairRow(usable, predictions, targets, position, other)
    {
      RowNext(usable, predictions, targets, position, other, before);
      candidates := AddTriple(usable, predictions, targets, position, other, candidates);
    }
  }

  /** The list of hypotheses, built in exactly that order. */
  method BuildCandidates(usable: seq<nat>, predictions: Vectors, targets: seq<nat>) returns (candidates: seq<Candidate>)
    requires Cached(usable, predictions, targets)
    ensures candidates == Hypotheses(usable, predictions, targets)
  {
    hide Hits, Cached, PairsFrom, PairRow;
    candidates := [];
    for i: nat := 0 to |usable|
      invariant candidates == Singles(usable, predictions, targets, i)
    {
      CachedAt(usable, predictions, targets, i);
      candidates := candidates + [SingleAt(predictions, targets, usable[i])];
    }
    ghost var singles := candidates;
    for position: nat := 0 to |usable|
      invariant candidates == singles + PairRows(usable, predictions, targets, position)
    {
      RowsNext(usable, predictions, targets, position, singles);
      candidates := AddRow(usable, predictions, targets, position, candidates);
    }
  }

  lemma CachedAt(usable: seq<nat>, predictions: Vectors, targets: seq<nat>, i: nat)
    requires Cached(usable, predictions, targets) && i < |usable|
    ensures usable[i] in predictions && |predictions[usable[i]]| == |targets|
  {
  }

  lemma TripleListed(usable: seq<nat>, predictions: Vectors, targets: seq<nat>, i: nat, j: nat, c: Candidate)
    requires Cached(usable, predictions, targets) && i < |usable| && j < |usable|
    ensures c in Triple(usable, predictions, targets, i, j)
      <==> exists combiner :: c == PairAt(predictions, targets, usable[i], usable[j], combiner)
  {
    hide Hits;
    var cs := Triple(usable, predictions, targets, i, j);
    assert cs[0] in cs && cs[1] in cs && cs[2] in cs;
    forall combiner | c == PairAt(predictions, targets, usable[i], usable[j], combiner)
      ensures c in cs
    {
      match combiner
      case And =>
      case Or =>
      case Xor =>
    }
  }

  /** Some pair of slot `i` with a slot before `j` is `c`. */
  ghost predicate PairedBefore(usable: seq<nat>, predictions: Vectors, targets: seq<nat>, i: nat, j: nat, c: Candidate)
    requires Cached(usable, predictions, targets)
  {
    exists k, combiner :: 0 <= i < k < j && k < |usable|
      && c == PairAt(predictions, targets, usable[i], usable[k], combiner)
  }

  lemma {:induction false} PairRowListed(usable: seq<nat>, predictions: Vectors, targets: seq<nat>, i: nat, j: nat,
      c: Candidate)
    requires Cached(usable, predictions, targets) && i < j <= |usable|
    ensures c in PairRow(usable, predictions, targets, i, j) <==> PairedBefore(usable, predictions, targets, i, j, c)
    decreases j
  {
    hide PairAt, Cached, Triple;
    if j > i + 1 {
      PairRowListed(usable, predictions, targets, i, j - 1, c);
      TripleListed(usable, predictions, targets, i, j - 1, c);
    }
  }

  lemma {:induction false} PairRowsListed(usable: seq<nat>, predictions: Vectors, targets: seq<nat>, n: nat,
      c: Candidate)
    requires Cached(usable, predictions, targets) && n <= |usable|
    ensures c in PairRows(usable, predictions, targets, n)
      <==> exists i: nat :: i < n && PairedBefore(usable, predictions, targets, i, |usable|, c)
    decreases n
  {
    hide PairedBefore, PairRow, Cached;
    if n > 0 {
      PairRowsListed(usable, predictions, targets, n - 1, c);
      PairRowListed(usable, predictions, targets, n - 1, |usable|, c);
    }
  }

  /** The list holds exactly what the library offers, correctly scored. */
  lemma HypothesesAreOffered(usable: seq<nat>, predictions: Vectors, targets: seq<nat>, c: Candidate)
    requires Cached(usable, predictions, targets)
    ensures c in Hypotheses(usable, predictions, targets) <==> Offered(usable, predictions, targets, c)
  {
    hide SingleAt, PairAt, PairsFrom;
    PairRowsListed(usable, predictions, targets, |usable|, c);
    var singles := Singles(usable, predictions, targets, |usable|);
    assert c in singles <==> exists i :: 0 <= i < |usable| && c == SingleAt(predictions, targets, usable[i]);
    if exists i, j, combiner ::
      0 <= i < j < |usable| && c == PairAt(predictions, targets, usable[i], usable[j], combiner)
    {
      var i, j, combiner :| 0 <= i < j < |usable| && c == PairAt(predictions, targets, usable[i], usable[j], combiner);
      assert PairedBefore(usable, predictions, targets, i, |usable|, c);
    }
    if c in PairRows(usable, predictions, targets, |usable|) {
      var i: nat :| i < |usable| && PairedBefore(usable, predictions, targets, i, |usable|, c);
      var k, combiner :| 0 <= i < k < |usable| && c == PairAt(predictions, targets, usable[i], usable[k], combiner);
    }
  }

  // -------------------------------------------------------------------- the winner

  /**
   Ordering by rate, then single before pair, then the smaller largest slot; all candidates
   share the trial count.
   */
  predicate AtLeast(a: Candidate, b: Candidate) {
    || a.hits > b.hits
    || (a.hits == b.hits && a.Single? && !b.Single?)
    || (a.hits == b.hits && a.Single? == b.Single? && a.MaxSlot() <= b.MaxSlot())
  }

  /** Every survivor listed before the candidate at `at` is strictly worse. */
  predicate NoEarlierEqual(candidates: seq<Candidate>, trials: nat, survives: (nat, nat) -> bool, at: nat)
    requires at < |candidates|
  {
    forall i :: 0 <= i < at && survives(candidates[i].hits, trials) ==> !AtLeast(candidates[i], candidates[at])
  }

  function Surviving(candidates: seq<Candidate>, trials: nat, survives: (nat, nat) -> bool, n: nat): (k: nat)
    requires n <= |candidates|
    ensures k <= n
  {
    if n == 0 then 0
    else Surviving(candidates, trials, survives, n - 1) + if survives(candidates[n - 1].hits, trials) then 1 else 0
  }

  /** The candidate at `at` survives, no survivor beats it, and no survivor before it equals it. */
  predicate FirstBest(candidates: seq<Candidate>, trials: nat, survives: (nat, nat) -> bool, at: nat)
    requires at < |candidates|
  {
    && survives(candidates[at].hits, trials)
    && (forall i :: 0 <= i < |candidates| && survives(candidates[i].hits, trials) ==>
      AtLeast(candidates[at], candidates[i]))
    && NoEarlierEqual(candidates, trials, survives, at)
  }

  /** The first of the best survivors, or None exactly when nothing survives; and how many survive. */
  ghost predicate Picked(candidates: seq<Candidate>, trials: nat, survives: (nat, nat) -> bool,
      winner: Option<Candidate>, survivors: nat)
  {
    && (winner.None? <==> forall i :: 0 <= i < |candidates| ==> !survives(candidates[i].hits, trials))
    && (winner.Some? ==>
      exists at ::
        0 <= at < |candidates| && candidates[at] == winner.value && FirstBest(candidates, trials, survives, at))
    && survivors == Surviving(candidates, trials, survives, |candidates|)
  }

  ghost function Slots(c: Candidate): set<nat> {
    if c.Single? then {c.slot} else {c.left, c.right}
  }

  /** The largest slot of `a` is no larger than that of `b`. */
  ghost predicate NoLargerSlot(a: Candidate, b: Candidate) {
    forall x :: x in Slots(a) ==> exists y :: y in Slots(b) && x <= y
  }

  /**
   The candidate at `at` survives, and every survivor has at most its hits; with equal hits,
   a single is matched by a single only, and within a kind its largest slot is the smallest,
   and smaller than that of survivors listed before.
   */
  ghost predicate MostHitsFirst(candidates: seq<Candidate>, trials: nat, survives: (nat, nat) -> bool, at: nat)
    requires at < |candidates|
  {
    && survives(candidates[at].hits, trials)
    && forall i :: 0 <= i < |candidates| && survives(candidates[i].hits, trials) ==>
      var c, w := candidates[i], candidates[at];
      && c.hits <= w.hits
      && (c.hits == w.hits && c.Single? ==> w.Single?)
      && (c.hits == w.hits && c.Single? == w.Single? ==> NoLargerSlot(w, c) && (i < at ==> !NoLargerSlot(c, w)))
  }

  /** The winner is the first survivor with the most hits, a single and smaller slots before others. */
  ghost predicate PickedMostHits(candidates: seq<Candidate>, trials: nat, survives: (nat, nat) -> bool,
      winner: Candidate)
  {
    exists at :: 0 <= at < |candidates| && candidates[at] == winner && MostHitsFirst(candidates, trials, survives, at)
  }

  lemma SlotsOrdered(a: Candidate, b: Candidate)
    ensures NoLargerSlot(a, b) <==> a.MaxSlot() <= b.MaxSlot()
  {
    assert a.MaxSlot() in Slots(a) && b.MaxSlot() in Slots(b);
  }

  /** What being first of the best means for hits, kinds and slots. */
  lemma BestIsMostHits(candidates: seq<Candidate>, trials: nat, survives: (nat, nat) -> bool, at: nat)
    requires at < |candidates|
    ensures FirstBest(candidates, trials, survives, at) <==> MostHitsFirst(candidates, trials, survives, at)
  {
    hide NoLargerSlot;
    forall i | 0 <= i < |candidates|
      ensures NoLargerSlot(candidates[at], candidates[i]) <==> candidates[at].MaxSlot() <= candidates[i].MaxSlot()
      ensures NoLargerSlot(candidates[i], candidates[at]) <==> candidates[i].MaxSlot() <= candidates[at].MaxSlot()
    {
      SlotsOrdered(candidates[at], candidates[i]);
      SlotsOrdered(candidates[i], candidates[at]);
    }
  }

  method PickWinner(candidates: seq<Candidate>, trials: nat, survives: (nat, nat) -> bool)
    returns (winner: Option<Candidate>, survivors: nat)
    ensures Picked(candidates, trials, survives, winner, survivors)
    ensures winner.Some? ==> PickedMostHits(candidates, trials, survives, winner.value)
    ensures survivors == 0 <==> winner.None?
  {
    winner, survivors := None, 0;
    ghost var at := 0;
    for i := 0 to |candidates|
      invariant winner.None? <==> forall k :: 0 <= k < i ==> !survives(candidates[k].hits, trials)
      invariant winner.Some? ==> at < i && candidates[at] == winner.value && survives(winner.value.hits, trials)
      invariant winner.Some? ==> forall k :: 0 <= k < i && survives(candidates[k].hits, trials) ==>
        AtLeast(winner.value, candidates[k])
      invariant winner.Some? ==> NoEarlierEqual(candidates, trials, survives, at)
      invariant survivors == Surviving(candidates, trials, survives, i) && (survivors == 0 <==> winner.None?)
    {
      if survives(candidates[i].hits, trials) {
        survivors := survivors + 1;
        if winner.None? || !AtLeast(winner.value, candidates[i]) {
          winner, at := Some(candidates[i]), i;
        }
      }
    }
    if winner.Some? {
      BestIsMostHits(candidates, trials, survives, at);
      assert FirstBest(candidates, trials, survives, at);
    }
  }

  datatype Report = Report(trials: nat, singlesExamined: nat, pairsExamined: nat, hypotheses: nat, survivors: nat)

  function Usable(n: nat, exclude: set<nat>): (usable: seq<nat>)
    ensures forall i :: 0 <= i < |usable| ==> usable[i] < n && usable[i] !in exclude
    ensures forall slot: nat :: slot < n && slot !in exclude ==> slot in usable
    ensures forall i, j :: 0 <= i < j < |usable| ==> usable[i] < usable[j]
  {
    if n == 0 then [] else Usable(n - 1, exclude) + if n - 1 in exclude then [] else [n - 1]
  }

  /** No exception: every usable record runs on every episode. */
  ghost predicate LibraryRuns(library: seq<Record>, usable: seq<nat>, traces: seq<Trace>) {
    forall i :: 0 <= i < |usable| && usable[i] < |library| ==> RunsAll(library[usable[i]], traces, |traces|)
  }

  /** Each usable slot's vector is what its record presses. */
  ghost predicate Vectored(library: seq<Record>, usable: seq<nat>, n: nat, obs: seq<Observation>, predictions: Vectors)
  {
    forall i :: 0 <= i < n && i < |usable| && usable[i] < |library| ==>
      usable[i] in predictions && Caches(library[usable[i]], obs, predictions[usable[i]])
  }

  method CacheVectors(library: seq<Record>, usable: seq<nat>, traces: seq<Trace>, positions: seq<Position>,
      ghost targets: seq<nat>)
    returns (r: Result<Vectors>)
    requires Flattens(traces, AllObservations(traces), targets, positions)
    requires forall i :: 0 <= i < |usable| ==> usable[i] < |library|
    requires forall i, j :: 0 <= i < j < |usable| ==> usable[i] < usable[j]
    ensures r.Success? <==> LibraryRuns(library, usable, traces)
    ensures r.Success? ==> Vectored(library, usable, |usable|, AllObservations(traces), r.value)
  {
    hide Flattens, RunsAll, Caches;
    ghost var obs := AllObservations(traces);
    var predictions: Vectors := map[];
    for i := 0 to |usable|
      invariant forall k :: 0 <= k < i ==> RunsAll(library[usable[k]], traces, |traces|)
      invariant Vectored(library, usable, i, obs, predictions)
    {
      var vector := RecordPredictions(library[usable[i]], traces, positions, obs, targets);
      if vector.Failure? {
        return Failure(vector.message);
      }
      predictions := predictions[usable[i] := vector.value];
    }
    return Success(predictions);
  }

  lemma VectoredIsCached(library: seq<Record>, usable: seq<nat>, obs: seq<Observation>, predictions: Vectors,
      targets: seq<nat>)
    requires forall i :: 0 <= i < |usable| ==> usable[i] < |library|
    requires Vectored(library, usable, |usable|, obs, predictions) && |targets| == |obs|
    ensures Cached(usable, predictions, targets)
  {
    hide Presses;
    forall i | 0 <= i < |usable|
      ensures usable[i] in predictions && |predictions[usable[i]]| == |targets|
    {
      assert Caches(library[usable[i]], obs, predictions[usable[i]]);
    }
  }

  lemma FlattenedLength(traces: seq<Trace>, obs: seq<Observation>, targets: seq<nat>, positions: seq<Position>)
    requires Flattens(traces, obs, targets, positions)
    ensures |targets| == |obs| && LabelsOf(obs, targets)
  {
  }

  /** Nothing the library offers and that survives beats the winner. */
  ghost predicate Unbeaten(usable: seq<nat>, predictions: Vectors, targets: seq<nat>, survives: (nat, nat) -> bool,
      winner: Candidate)
    requires Cached(usable, predictions, targets)
  {
    forall c :: Offered(usable, predictions, targets, c) && survives(c.hits, |targets|) ==> AtLeast(winner, c)
  }

  /**
   `search_compositions`, exhaustive path, with the survivor test left open. Without labels
   or records nothing is examined. It raises when some usable program cannot run, and when
   the level is to be divided by a count of hypotheses that is zero because every record is
   excluded. Otherwise exactly n singles and 3 n(n-1)/2 pairs are scored on the cached
   vectors of the stored programs, and the winner is the first of the survivors that no other
   offered survivor beats.
   */
  method SearchCompositions(library: seq<Record>, traces: seq<Trace>, exclude: set<nat>, correctForMultiplicity: bool,
      survives: (nat, nat) -> bool)
    returns (r: Result<(Option<Candidate>, Report)>, ghost predictions: Vectors, ghost targets: seq<nat>)
    ensures AllObservations(traces) == [] || library == [] ==>
      r == Success((None, Report(|targets|, 0, 0, 0, 0)))
    ensures AllObservations(traces) != [] && library != [] ==>
      (r.Success? <==>
        && LibraryRuns(library, Usable(|library|, exclude), traces)
        && !(correctForMultiplicity && Usable(|library|, exclude) == []))
    ensures LabelsOf(AllObservations(traces), targets)
    ensures r.Success? && AllObservations(traces) != [] && library != [] ==>
      && Vectored(library, Usable(|library|, exclude), |Usable(|library|, exclude)|, AllObservations(traces),
        predictions)
      && Cached(Usable(|library|, exclude), predictions, targets)
      && WinnerOf(Usable(|library|, exclude), predictions, targets, survives, r.value.0)
      && Picked(Hypotheses(Usable(|library|, exclude), predictions, targets), |targets|, survives, r.value.0,
        r.value.1.survivors)
      && (r.value.0.Some? ==>
        PickedMostHits(Hypotheses(Usable(|library|, exclude), predictions, targets), |targets|, survives,
          r.value.0.value))
      && ReportOf(|Usable(|library|, exclude)|, r.value.1) && r.value.1.trials == |targets|
  {
    hide Flattens, Hits, Offered, Cached, Vectored, LibraryRuns, Usable, LabelsOf, Picked, PickedMostHits, Hypotheses;
    predictions := map[];
    var positions: seq<Position>;
    var labels: seq<nat>;
    labels, positions := FlattenTargets(traces);
    targets := labels;
    FlattenedLength(traces, AllObservations(traces), labels, positions);
    var trials := |labels|;
    if trials == 0 || library == [] {
      return Success((None, Report(trials, 0, 0, 0, 0))), predictions, targets;
    }
    var usable := Usable(|library|, exclude);
    UsableInLibrary(|library|, exclude);
    var cached := CacheVectors(library, usable, traces, positions, labels);
    if cached.Failure? {
      return Failure(cached.message), predictions, targets;
    }
    predictions := cached.value;
    VectoredIsCached(library, usable, AllObservations(traces), cached.value, labels);
    var candidates := BuildCandidates(usable, cached.value, labels);
    var winner, survivors := PickWinner(candidates, trials, survives);
    WinnerIsBest(usable, cached.value, labels, survives, winner, survivors);
    AllPairsCount(|usable|);
    if correctForMultiplicity && |candidates| == 0 {
      return Failure("float division by zero"), predictions, targets;
    }
    var singles := |usable|;
    var pairs := |candidates| - singles;
    return Success((winner, Report(trials, singles, pairs, |candidates|, survivors))), predictions, targets;
  }

  lemma UsableInLibrary(n: nat, exclude: set<nat>)
    ensures forall i :: 0 <= i < |Usable(n, exclude)| ==> Usable(n, exclude)[i] < n
    ensures forall i, j :: 0 <= i < j < |Usable(n, exclude)| ==> Usable(n, exclude)[i] < Usable(n, exclude)[j]
  {
  }

  /** The search's answer: an unbeaten offered survivor, or None when no offered hypothesis survives. */
  ghost predicate WinnerOf(usable: seq<nat>, predictions: Vectors, targets: seq<nat>, survives: (nat, nat) -> bool,
      winner: Option<Candidate>)
    requires Cached(usable, predictions, targets)
  {
    match winner
    case Some(c) => Offered(usable, predictions, targets, c) && survives(c.hits, |targets|)
      && Unbeaten(usable, predictions, targets, survives, c)
    case None => forall c :: Offered(usable, predictions, targets, c) ==> !survives(c.hits, |targets|)
  }

  ghost predicate ReportOf(n: nat, report: Report) {
    && report.singlesExamined == n
    && 2 * report.pairsExamined == 3 * (n * (n - 1))
    && report.hypotheses == report.singlesExamined + report.pairsExamined
  }

  lemma WinnerIsBest(usable: seq<nat>, predictions: Vectors, targets: seq<nat>, survives: (nat, nat) -> bool,
      winner: Option<Candidate>, survivors: nat)
    requires Cached(usable, predictions, targets)
    requires Picked(Hypotheses(usable, predictions, targets), |targets|, survives, winner, survivors)
    ensures WinnerOf(usable, predictions, targets, survives, winner)
  {
    hide Offered, Cached, AtLeast, Hypotheses;
    var candidates := Hypotheses(usable, predictions, targets);
    forall c
      ensures c in candidates <==> Offered(usable, predictions, targets, c)
    {
      HypothesesAreOffered(usable, predictions, targets, c);
    }
    if winner.Some? {
      assert winner.value in candidates;
    }
  }

  // ------------------------------------------------------------------- composed machine

  /**
   `composed_machine`: the hypothesis behind a candidate as one machine; None when a
   part kept no machine, and the exception of `product_rule` when two parts read
   different alphabets.
   */
  method ComposedMachine(library: seq<Record>, candidate: Candidate) returns (r: Result<Option<RuleAutomaton>>)
    requires candidate.Single? ==> candidate.slot < |library|
    requires candidate.Pair? ==> candidate.left < |library| && candidate.right < |library|
    requires forall k :: 0 <= k < |library| && library[k].machine.Some? ==> library[k].machine.value.Valid()
    ensures candidate.Single? ==> r == Success(library[candidate.slot].machine)
    ensures candidate.Pair? ==>
      var left, right := library[candidate.left].machine, library[candidate.right].machine;
      && (r.Failure? <==> left.Some? && right.Some? && left.value.symbolCount != right.value.symbolCount)
      && (r.Success? ==> (r.value.Some? <==> left.Some? && right.Some?))
      && (r.Success? && r.value.Some? ==>
        r.value.value.Valid() && Composes(r.value.value, left.value, right.value, candidate.combiner))
  {
    hide Composes, Reduced;
    match candidate
    case Single(slot, _) =>
      return Success(library[slot].machine);
    case Pair(left, right, combiner, _) =>
      var l, q := library[left].machine, library[right].machine;
      if l.None? || q.None? {
        return Success(None);
      }
      var name := match combiner
        case And => "and"
        case Or => "or"
        case Xor => "xor";
      ValidIsTabled(l.value);
      ValidIsTabled(q.value);
      var product := ProductRule(l.value, q.value, name);
      if product.Failure? {
        return Failure(product.message);
      }
      ReducedIsValid(product.value);
      return Success(Some(product.value));
  }

  // ------------------------------------------------------------- the winner, end to end

  lemma {:induction false} PrefixesWithin(t: Trace, n: nat, symbolCount: nat)
    requires n <= |t.symbols| && InAlphabet(t.symbols, symbolCount)
    ensures AllWithin(TraceObservations(t, n), symbolCount)
    decreases n
  {
    if n > 0 {
      PrefixesWithin(t, n - 1, symbolCount);
    }
  }

  /** Episodes a stored program runs on are within its alphabet, prefix by prefix. */
  lemma {:induction false} RunsWithin(record: Record, traces: seq<Trace>, k: nat)
    requires RunsAll(record, traces, |traces|) && k <= |traces|
    ensures AllWithin(Observations(traces, k), record.alphabet)
    decreases k
  {
    hide Runs;
    if k > 0 {
      RunsWithin(record, traces, k - 1);
      RunsInAlphabet(record, traces[k - 1]);
      PrefixesWithin(traces[k - 1], |traces[k - 1].symbols|, record.alphabet);
    }
  }

  lemma RunsInAlphabet(record: Record, t: Trace)
    requires Runs(record, t)
    ensures InAlphabet(t.symbols, record.alphabet)
  {
  }

  /**
   The machine behind a candidate: a slot's own, or any machine that answers the combination
   of two slots'.
   */
  ghost predicate Embodies(library: seq<Record>, c: Candidate, m: RuleAutomaton) {
    match c
    case Single(slot, _) => slot < |library| && library[slot].machine == Some(m) && m.Valid()
    case Pair(left, right, combiner, _) =>
      && left < |library| && right < |library| && library[left].machine.Some? && library[right].machine.Some?
      && library[left].machine.value.Valid() && library[right].machine.value.Valid() && m.Valid()
      && Composes(m, library[left].machine.value, library[right].machine.value, combiner)
  }

  /**
   Every usable record is the compiled form of the machine it kept, and the budget covers it
   on the evidence.
   */
  ghost predicate KeepsMachines(library: seq<Record>, usable: seq<nat>, obs: seq<Observation>) {
    forall i :: 0 <= i < |usable| ==>
      && usable[i] < |library| && library[usable[i]].machine.Some?
      && CompiledFrom(library[usable[i]], library[usable[i]].machine.value)
      && Affords(library[usable[i]].machine.value, obs)
  }

  /**
   End to end: the hits the search reports for any hypothesis, the winner included, are the
   scored steps that the machine built for it answers right.
   */
  lemma OfferedScoreExact(library: seq<Record>, usable: seq<nat>, traces: seq<Trace>, predictions: Vectors,
      targets: seq<nat>, c: Candidate, m: RuleAutomaton)
    requires KeepsMachines(library, usable, AllObservations(traces)) && LibraryRuns(library, usable, traces)
    requires Vectored(library, usable, |usable|, AllObservations(traces), predictions)
      && Cached(usable, predictions, targets)
    requires LabelsOf(AllObservations(traces), targets)
    requires Offered(usable, predictions, targets, c) && Embodies(library, c, m)
    ensures m.Valid() && c.hits == |AllObservations(traces)| - Errors(AllObservations(traces), Predictor(m))
  {
    hide Hits, Errors, CompiledFrom, Affords, Caches, RunsAll, AllWithin, Composes, LabelsOf, RuleAutomaton.Valid;
    match c
    case Single(slot, _) =>
      var i :| 0 <= i < |usable| && c == SingleAt(predictions, targets, usable[i]);
      SlotScored(library, usable, traces, predictions, i);
      SingleScoreExact(library[slot], m, AllObservations(traces), predictions[slot], targets);
    case Pair(left, right, combiner, _) =>
      var i, j, how :| 0 <= i < j < |usable| && c == PairAt(predictions, targets, usable[i], usable[j], how);
      SlotScored(library, usable, traces, predictions, i);
      SlotScored(library, usable, traces, predictions, j);
      PairScoreExact(library[left], library[right], library[left].machine.value, library[right].machine.value, m,
        combiner,
        AllObservations(traces), predictions[left], predictions[right], targets);
  }

  lemma SlotScored(library: seq<Record>, usable: seq<nat>, traces: seq<Trace>, predictions: Vectors, i: nat)
    requires KeepsMachines(library, usable, AllObservations(traces)) && LibraryRuns(library, usable, traces)
      && i < |usable|
    requires Vectored(library, usable, |usable|, AllObservations(traces), predictions)
    ensures usable[i] < |library| && library[usable[i]].machine.Some? && usable[i] in predictions
    ensures CompiledFrom(library[usable[i]], library[usable[i]].machine.value)
    ensures Affords(library[usable[i]].machine.value, AllObservations(traces))
    ensures Caches(library[usable[i]], AllObservations(traces), predictions[usable[i]])
    ensures AllWithin(AllObservations(traces), library[usable[i]].machine.value.symbolCount)
  {
    hide CompiledFrom, Affords, Caches, RunsAll, AllWithin;
    RunsWithin(library[usable[i]], traces, |traces|);
    CompiledAlphabet(library[usable[i]], library[usable[i]].machine.value);
  }

  lemma CompiledAlphabet(record: Record, m: RuleAutomaton)
    requires CompiledFrom(record, m)
    ensures record.alphabet == m.symbolCount
  {
  }
}
