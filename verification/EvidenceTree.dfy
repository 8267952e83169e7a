/**
 The prefix tree of evidence_merging.py (`build_tree`): one node per distinct
 prefix, majority labels on its edges, and the evidence's own disagreements.
 */
module EvidenceTree {
  import opened Prelude
  import opened Traces

  /** A node and a symbol. */
  type Key = (nat, nat)

  datatype Tree = Tree(
    child: map<Key, nat>,
    output: map<Key, nat>,
    nodes: nat,
    symbolCount: nat,
    disagreements: int,
    observations: nat)

  /** Node i stands for the word `words[i]`; edges extend the word by their symbol. */
  ghost predicate Spells(child: map<Key, nat>, words: seq<Word>) {
    && |words| > 0
    && words[0] == []
    && (forall k :: k in child ==> k.0 < |words| && 0 < child[k] < |words| && words[child[k]] == words[k.0] + [k.1])
    && (forall i, j :: 0 <= i < j < |words| ==> words[i] != words[j])
    && (forall i :: 0 < i < |words| ==> HasParent(child, i))
  }

  ghost predicate HasParent(child: map<Key, nat>, i: nat) {
    exists k :: k in child && child[k] == i
  }

  /** The prefix an edge spells. */
  ghost function Spelled(words: seq<Word>, k: Key): Word {
    if k.0 < |words| then words[k.0] + [k.1] else []
  }

  lemma SpelledInjective(child: map<Key, nat>, words: seq<Word>, k: Key, l: Key)
    requires Spells(child, words) && k.0 < |words| && l.0 < |words|
    requires Spelled(words, k) == Spelled(words, l)
    ensures k == l
  {
    var u, v := words[k.0], words[l.0];
    assert (u + [k.1])[..|u|] == u && (v + [l.1])[..|v|] == v;
    assert (u + [k.1])[|u|] == k.1 && (v + [l.1])[|v|] == l.1;
  }

  /** A prefix not yet spelled by an edge is not the word of any node. */
  lemma FreshWord(child: map<Key, nat>, words: seq<Word>, k: Key)
    requires Spells(child, words) && k.0 < |words| && k !in child
    ensures Spelled(words, k) !in words
  {
    if Spelled(words, k) in words {
      var i :| 0 <= i < |words| && words[i] == Spelled(words, k);
      assert HasParent(child, i);
      var l :| l in child && child[l] == i;
      SpelledInjective(child, words, k, l);
    }
  }

  /** Adding one edge to a new node keeps the tree a tree. */
  lemma Grown(child: map<Key, nat>, words: seq<Word>, k: Key)
    requires Spells(child, words) && k.0 < |words| && k !in child
    ensures Spells(child[k := |words|], words + [Spelled(words, k)])
  {
    FreshWord(child, words, k);
    var child', words' := child[k := |words|], words + [Spelled(words, k)];
    forall i | 0 < i < |words'|
      ensures HasParent(child', i)
    {
      if i < |words| {
        assert HasParent(child, i);
        var l :| l in child && child[l] == i;
        assert l in child' && child'[l] == i;
      } else {
        assert k in child' && child'[k] == i;
      }
    }
  }

  /** The tallies agree with the observations made so far. */
  ghost predicate Tallied(child: map<Key, nat>, words: seq<Word>, totals: map<Key, nat>, ones: map<Key, nat>,
      obs: seq<Observation>)
  {
    && totals.Keys == ones.Keys
    && totals.Keys <= child.Keys
    && (forall k :: k in child ==> (k in totals <==> Count(obs, Spelled(words, k)) > 0))
    && (forall k :: k in totals ==>
      totals[k] == Count(obs, Spelled(words, k)) && ones[k] == Ones(obs, Spelled(words, k)))
    && (forall i :: 0 <= i < |obs| ==> SomeEdgeSpells(child, words, obs[i].prefix))
  }

  ghost predicate SomeEdgeSpells(child: map<Key, nat>, words: seq<Word>, w: Word) {
    exists k :: k in child && Spelled(words, k) == w
  }

  lemma {:induction false} UnseenCount(obs: seq<Observation>, w: Word)
    requires forall i :: 0 <= i < |obs| ==> obs[i].prefix != w
    ensures Count(obs, w) == 0 && Ones(obs, w) == 0
    decreases |obs|
  {
    if obs != [] {
      UnseenCount(obs[..|obs| - 1], w);
    }
  }

  lemma {:induction false} SeenCount(obs: seq<Observation>, i: nat)
    requires i < |obs|
    ensures Count(obs, obs[i].prefix) > 0
    decreases |obs|
  {
    if i < |obs| - 1 {
      SeenCount(obs[..|obs| - 1], i);
    }
  }

  lemma SpelledStays(child: map<Key, nat>, words: seq<Word>, k: Key, w: Word)
    requires Spells(child, words) && k.0 < |words| && k !in child && SomeEdgeSpells(child, words, w)
    ensures SomeEdgeSpells(child[k := |words|], words + [Spelled(words, k)], w)
    ensures w != Spelled(words, k)
  {
    var child', words' := child[k := |words|], words + [Spelled(words, k)];
    var l :| l in child && Spelled(words, l) == w;
    assert l in child' && Spelled(words', l) == w;
    if w == Spelled(words, k) {
      SpelledInjective(child, words, k, l);
    }
  }

  lemma GrownFacts(child: map<Key, nat>, words: seq<Word>, obs: seq<Observation>, k: Key)
    requires Spells(child, words) && k.0 < |words| && k !in child
    requires forall i :: 0 <= i < |obs| ==> SomeEdgeSpells(child, words, obs[i].prefix)
    ensures var child', words' := child[k := |words|], words + [Spelled(words, k)];
      && (forall i :: 0 <= i < |obs| ==> SomeEdgeSpells(child', words', obs[i].prefix))
      && (forall l :: l in child' ==> Spelled(words', l) == Spelled(words, l))
      && Count(obs, Spelled(words, k)) == 0
  {
    hide Count, Ones, HasParent;
    var child', words' := child[k := |words|], words + [Spelled(words, k)];
    forall i | 0 <= i < |obs|
      ensures SomeEdgeSpells(child', words', obs[i].prefix) && obs[i].prefix != Spelled(words, k)
    {
      SpelledStays(child, words, k, obs[i].prefix);
    }
    UnseenCount(obs, Spelled(words, k));
  }

  /** A new edge starts with no observation on it. */
  lemma GrownTallies(child: map<Key, nat>, words: seq<Word>, totals: map<Key, nat>, ones: map<Key, nat>,
      obs: seq<Observation>, k: Key)
    requires Spells(child, words) && k.0 < |words| && k !in child && Tallied(child, words, totals, ones, obs)
    ensures Tallied(child[k := |words|], words + [Spelled(words, k)], totals, ones, obs)
  {
    hide Count, Ones, SomeEdgeSpells, Spells, Spelled;
    GrownFacts(child, words, obs, k);
  }

  lemma CountAppend(obs: seq<Observation>, o: Observation, w: Word)
    ensures Count(obs + [o], w) == Count(obs, w) + if o.prefix == w then 1 else 0
    ensures Ones(obs + [o], w) == Ones(obs, w) + if o.prefix == w then o.want else 0
  {
    assert (obs + [o])[..|obs + [o]| - 1] == obs;
  }

  lemma ScoredFacts(child: map<Key, nat>, words: seq<Word>, obs: seq<Observation>, k: Key, want: nat)
    requires Spells(child, words) && k in child
    requires forall i :: 0 <= i < |obs| ==> SomeEdgeSpells(child, words, obs[i].prefix)
    ensures var obs' := obs + [Observation(Spelled(words, k), want)];
      && (forall l :: l in child ==>
        Count(obs', Spelled(words, l)) == Count(obs, Spelled(words, l)) + if l == k then 1 else 0)
      && (forall l :: l in child ==>
        Ones(obs', Spelled(words, l)) == Ones(obs, Spelled(words, l)) + if l == k then want else 0)
      && (forall i :: 0 <= i < |obs'| ==> SomeEdgeSpells(child, words, obs'[i].prefix))
      && (Count(obs, Spelled(words, k)) == 0 ==> Ones(obs, Spelled(words, k)) == 0)
  {
    hide Count, Ones, HasParent;
    var o := Observation(Spelled(words, k), want);
    forall l | l in child
      ensures Count(obs + [o], Spelled(words, l)) == Count(obs, Spelled(words, l)) + if l == k then 1 else 0
      ensures Ones(obs + [o], Spelled(words, l)) == Ones(obs, Spelled(words, l)) + if l == k then want else 0
    {
      CountAppend(obs, o, Spelled(words, l));
      if Spelled(words, l) == Spelled(words, k) {
        SpelledInjective(child, words, l, k);
      }
    }
    assert SomeEdgeSpells(child, words, Spelled(words, k));
    if Count(obs, Spelled(words, k)) == 0 {
      ZeroCountMeansZeroOnes(obs, Spelled(words, k));
    }
  }

  /** Scoring one step moves exactly one tally. */
  lemma ScoredTallies(child: map<Key, nat>, words: seq<Word>, totals: map<Key, nat>, ones: map<Key, nat>,
      obs: seq<Observation>, k: Key, want: nat)
    requires Spells(child, words) && k in child && Tallied(child, words, totals, ones, obs)
    ensures Tallied(child, words,
      totals[k := (if k in totals then totals[k] else 0) + 1],
      ones[k := (if k in ones then ones[k] else 0) + want],
      obs + [Observation(Spelled(words, k), want)])
  {
    hide Count, Ones, SomeEdgeSpells, Spells, Spelled;
    ScoredFacts(child, words, obs, k, want);
  }

  lemma {:induction false} ZeroCountMeansZeroOnes(obs: seq<Observation>, w: Word)
    requires Count(obs, w) == 0
    ensures Ones(obs, w) == 0
    decreases |obs|
  {
    if obs != [] {
      ZeroCountMeansZeroOnes(obs[..|obs| - 1], w);
    }
  }

  /** Following edges from the root along `w`. */
  ghost function NodeAt(child: map<Key, nat>, w: Word): Option<nat>
    decreases |w|
  {
    if w == [] then Some(0)
    else
      var before := NodeAt(child, w[..|w| - 1]);
      if before.Some? && (before.value, w[|w| - 1]) in child then Some(child[(before.value, w[|w| - 1])]) else None
  }

  lemma {:induction false} NodeSpells(child: map<Key, nat>, words: seq<Word>, w: Word)
    requires Spells(child, words) && NodeAt(child, w).Some?
    ensures NodeAt(child, w).value < |words| && words[NodeAt(child, w).value] == w
    decreases |w|
  {
    if w != [] {
      NodeSpells(child, words, w[..|w| - 1]);
      assert w == w[..|w| - 1] + [w[|w| - 1]];
    }
  }

  /** More edges never lose a path. */
  lemma {:induction false} NodeStays(child: map<Key, nat>, more: map<Key, nat>, w: Word)
    requires NodeAt(child, w).Some?
    requires forall k :: k in child ==> k in more && more[k] == child[k]
    ensures NodeAt(more, w) == NodeAt(child, w)
    decreases |w|
  {
    if w != [] {
      NodeStays(child, more, w[..|w| - 1]);
    }
  }

  /** The first `n` prefixes of an episode all have nodes. */
  ghost predicate Traced(child: map<Key, nat>, t: Trace, n: nat)
    requires n <= |t.symbols|
  {
    forall i :: 0 <= i <= n ==> NodeAt(child, t.symbols[..i]).Some?
  }

  ghost predicate AllTraced(child: map<Key, nat>, traces: seq<Trace>, k: nat)
    requires k <= |traces|
  {
    forall j :: 0 <= j < k ==> Traced(child, traces[j], |traces[j].symbols|)
  }

  lemma TracedStays(child: map<Key, nat>, more: map<Key, nat>, t: Trace, n: nat)
    requires n <= |t.symbols| && Traced(child, t, n)
    requires forall k :: k in child ==> k in more && more[k] == child[k]
    ensures Traced(more, t, n)
  {
    forall i | 0 <= i <= n
      ensures NodeAt(more, t.symbols[..i]).Some?
    {
      NodeStays(child, more, t.symbols[..i]);
    }
  }

  /** The prefixes that carry an output. */
  ghost function ScoredWords(words: seq<Word>, keys: set<Key>): set<Word> {
    set k | k in keys :: Spelled(words, k)
  }

  /** What `build_tree` promises about its result. */
  ghost predicate Represents(tree: Tree, words: seq<Word>, traces: seq<Trace>) {
    var obs := AllObservations(traces);
    && tree.nodes == |words|
    && Spells(tree.child, words)
    && AllTraced(tree.child, traces, |traces|)
    && tree.symbolCount == MaxSymbolCount(traces)
    && tree.output.Keys <= tree.child.Keys
    && (forall k :: k in tree.child ==> (k in tree.output <==> Count(obs, Spelled(words, k)) > 0))
    && (forall k :: k in tree.output ==> tree.output[k] == Majority(obs, Spelled(words, k)))
    && Covered(obs, ScoredWords(words, tree.output.Keys))
    && tree.disagreements == Disagreements(obs, ScoredWords(words, tree.output.Keys))
    && tree.observations == |obs|
  }

  // -------------------------------------------------------------------- building it

  lemma AllTracedStays(child: map<Key, nat>, more: map<Key, nat>, traces: seq<Trace>, k: nat)
    requires k <= |traces| && AllTraced(child, traces, k)
    requires forall l :: l in child ==> l in more && more[l] == child[l]
    ensures AllTraced(more, traces, k)
  {
    forall j | 0 <= j < k
      ensures Traced(more, traces[j], |traces[j].symbols|)
    {
      TracedStays(child, more, traces[j], |traces[j].symbols|);
    }
  }

  lemma StepTraced(child: map<Key, nat>, t: Trace, n: nat, node: nat)
    requires n < |t.symbols| && Traced(child, t, n) && NodeAt(child, t.symbols[..n]) == Some(node)
    requires (node, t.symbols[n]) in child
    ensures NodeAt(child, t.symbols[..n + 1]) == Some(child[(node, t.symbols[n])])
    ensures Traced(child, t, n + 1)
  {
    assert t.symbols[..n + 1][..n] == t.symbols[..n];
  }

  /** The edge about to be followed spells the next prefix. */
  lemma EdgeSpellsPrefix(child: map<Key, nat>, words: seq<Word>, t: Trace, n: nat, node: nat)
    requires n < |t.symbols| && Spells(child, words) && NodeAt(child, t.symbols[..n]) == Some(node)
    ensures node < |words| && Spelled(words, (node, t.symbols[n])) == t.symbols[..n + 1]
  {
    NodeSpells(child, words, t.symbols[..n]);
  }

  /** What holds of the dictionaries while the tree is being filled. */
  ghost predicate Filling(child: map<Key, nat>, words: seq<Word>, totals: map<Key, nat>, ones: map<Key, nat>,
      obs: seq<Observation>)
  {
    Spells(child, words) && Tallied(child, words, totals, ones, obs)
  }

  lemma FillGrow(child: map<Key, nat>, words: seq<Word>, totals: map<Key, nat>, ones: map<Key, nat>,
      obs: seq<Observation>, traces: seq<Trace>, k: nat, n: nat, node: nat)
    requires k < |traces| && n < |traces[k].symbols| && Filling(child, words, totals, ones, obs)
    requires AllTraced(child, traces, k) && Traced(child, traces[k], n)
    requires NodeAt(child, traces[k].symbols[..n]) == Some(node) && (node, traces[k].symbols[n]) !in child
    ensures node < |words|
    ensures var key := (node, traces[k].symbols[n]);
      var child' := child[key := |words|];
      && Filling(child', words + [Spelled(words, key)], totals, ones, obs)
      && AllTraced(child', traces, k) && Traced(child', traces[k], n)
      && NodeAt(child', traces[k].symbols[..n]) == Some(node)
  {
    hide Count, Ones, Tallied, Traced, AllTraced;
    var t := traces[k];
    var key := (node, t.symbols[n]);
    EdgeSpellsPrefix(child, words, t, n, node);
    Grown(child, words, key);
    GrownTallies(child, words, totals, ones, obs, key);
    var more := child[key := |words|];
    AllTracedStays(child, more, traces, k);
    TracedStays(child, more, t, n);
    NodeStays(child, more, t.symbols[..n]);
  }

  lemma FillScore(child: map<Key, nat>, words: seq<Word>, totals: map<Key, nat>, ones: map<Key, nat>,
      traces: seq<Trace>, k: nat, n: nat, node: nat)
    requires k < |traces| && n < |traces[k].symbols|
    requires Filling(child, words, totals, ones, Observations(traces, k) + TraceObservations(traces[k], n))
    requires NodeAt(child, traces[k].symbols[..n]) == Some(node) && (node, traces[k].symbols[n]) in child
    ensures var t := traces[k];
      var key := (node, t.symbols[n]);
      Filling(child, words,
        if t.eligible[n] then totals[key := (if key in totals then totals[key] else 0) + 1] else totals,
        if t.eligible[n] then ones[key := (if key in ones then ones[key] else 0) + t.outputs[n]] else ones,
        Observations(traces, k) + TraceObservations(t, n + 1))
  {
    hide Count, Ones, Tallied;
    var t := traces[k];
    var key := (node, t.symbols[n]);
    var obs := Observations(traces, k) + TraceObservations(t, n);
    EdgeSpellsPrefix(child, words, t, n, node);
    if t.eligible[n] {
      ScoredTallies(child, words, totals, ones, obs, key, t.outputs[n]);
      assert obs + [Observation(t.symbols[..n + 1], t.outputs[n])]
        == Observations(traces, k) + TraceObservations(t, n + 1);
    }
  }

  /** Adding up what the tallies contradict; the order of the dictionary does not matter. */
  method SumTallies(totals: map<Key, nat>, ones: map<Key, nat>, ghost child: map<Key, nat>, ghost words: seq<Word>,
      ghost obs: seq<Observation>)
    returns (disagreements: int, observations: nat)
    requires totals.Keys == ones.Keys
    requires Filling(child, words, totals, ones, obs)
    ensures disagreements == Disagreements(obs, ScoredWords(words, totals.Keys))
    ensures observations == |obs|
  {
    hide Filling, Disagreements, Scored, Covered;
    disagreements, observations := 0, 0;
    EmptySums(obs, words);
    var rest := totals.Keys;
    ghost var done: set<Key> := {};
    while rest != {}
      invariant done + rest == totals.Keys && done !! rest
      invariant disagreements == Disagreements(obs, ScoredWords(words, done))
      invariant observations == Scored(obs, ScoredWords(words, done))
      decreases rest
    {
      var key :| key in rest;
      SumTalliesStep(child, words, totals, ones, obs, done, key);
      disagreements := disagreements + Min(ones[key] as int, totals[key] as int - ones[key] as int);
      observations := observations + totals[key];
      rest := rest - {key};
      done := done + {key};
    }
    assert done == totals.Keys;
    TalliedCovers(child, words, totals, ones, obs);
    ScoredAll(obs, ScoredWords(words, done));
  }

  lemma EmptySums(obs: seq<Observation>, words: seq<Word>)
    ensures Disagreements(obs, ScoredWords(words, {})) == 0 && Scored(obs, ScoredWords(words, {})) == 0
  {
    assert ScoredWords(words, {}) == {};
  }

  lemma SumTalliesStep(child: map<Key, nat>, words: seq<Word>, totals: map<Key, nat>, ones: map<Key, nat>,
      obs: seq<Observation>, done: set<Key>, key: Key)
    requires key in totals && key in ones && key !in done && done <= totals.Keys
    requires Filling(child, words, totals, ones, obs)
    ensures Disagreements(obs, ScoredWords(words, done + {key}))
      == Disagreements(obs, ScoredWords(words, done)) + Min(ones[key] as int, totals[key] as int - ones[key] as int)
    ensures Scored(obs, ScoredWords(words, done + {key})) == Scored(obs, ScoredWords(words, done)) + totals[key]
  {
    hide Count, Ones, Disagreements, Scored, HasParent;
    var w := Spelled(words, key);
    forall k | k in done
      ensures Spelled(words, k) != w
    {
      if Spelled(words, k) == w {
        SpelledInjective(child, words, k, key);
      }
    }
    assert ScoredWords(words, done + {key}) == ScoredWords(words, done) + {w};
    DisagreementsAdd(obs, ScoredWords(words, done), w);
    ScoredAdd(obs, ScoredWords(words, done), w);
  }

  lemma TalliedCovers(child: map<Key, nat>, words: seq<Word>, totals: map<Key, nat>, ones: map<Key, nat>,
      obs: seq<Observation>)
    requires Filling(child, words, totals, ones, obs)
    ensures Covered(obs, ScoredWords(words, totals.Keys))
  {
    hide Count, Ones, Spells, Spelled;
    forall i | 0 <= i < |obs|
      ensures obs[i].prefix in ScoredWords(words, totals.Keys)
    {
      SeenCount(obs, i);
      assert SomeEdgeSpells(child, words, obs[i].prefix);
      var k :| k in child && Spelled(words, k) == obs[i].prefix;
      assert k in totals.Keys;
    }
  }

  /** Some episode has a symbol to read. */
  predicate SomeSymbol(traces: seq<Trace>, k: nat)
    requires k <= |traces|
  {
    exists j :: 0 <= j < k && traces[j].symbols != []
  }

  /**
   `build_tree`: raises exactly when no episode has a symbol; otherwise every prefix
   of every episode is a node, an edge carries the majority label of its prefix if
   that prefix was ever scored, and the disagreements are counted prefix by prefix.
   */
  method BuildTree(traces: seq<Trace>) returns (r: Result<Tree>, ghost words: seq<Word>)
    ensures r.Success? <==> SomeSymbol(traces, |traces|)
    ensures r.Success? ==> Represents(r.value, words, traces)
  {
    hide Count, Ones, Spells, Tallied, Traced, AllTraced, NodeAt, Spelled, Majority, Covered, Disagreements;
    var child: map<Key, nat> := map[];
    var ones: map<Key, nat> := map[];
    var totals: map<Key, nat> := map[];
    var nodes: nat := 1;
    var symbolCount: nat := 0;
    words := [[]];
    EmptyTree(traces);
    for k := 0 to |traces|
      invariant nodes == |words| && Filling(child, words, totals, ones, Observations(traces, k))
      invariant AllTraced(child, traces, k)
      invariant symbolCount == MaxSymbolCount(traces[..k])
      invariant child != map[] <==> SomeSymbol(traces, k)
    {
      var t := traces[k];
      assert traces[..k + 1][..k] == traces[..k];
      symbolCount := Max(symbolCount, t.symbolCount);
      var node: nat := 0;
      RootTraced(child, t);
      assert Observations(traces, k) + TraceObservations(t, 0) == Observations(traces, k);
      for position := 0 to |t.symbols|
        invariant nodes == |words|
        invariant Filling(child, words, totals, ones, Observations(traces, k) + TraceObservations(t, position))
        invariant AllTraced(child, traces, k) && Traced(child, t, position)
        invariant NodeAt(child, t.symbols[..position]) == Some(node)
        invariant child != map[] <==> SomeSymbol(traces, k) || position > 0
      {
        var key := (node, t.symbols[position]);
        if key !in child {
          FillGrow(child, words, totals, ones, Observations(traces, k) + TraceObservations(t, position), traces, k,
            position, node);
          child := child[key := nodes];
          nodes := nodes + 1;
          words := words + [Spelled(words, key)];
        }
        FillScore(child, words, totals, ones, traces, k, position, node);
        if t.eligible[position] {
          totals := totals[key := (if key in totals then totals[key] else 0) + 1];
          ones := ones[key := (if key in ones then ones[key] else 0) + t.outputs[position]];
        }
        StepTraced(child, t, position, node);
        node := child[key];
      }
      TracedNext(child, traces, k);
    }
    assert traces[..|traces|] == traces;
    if child == map[] {
      return Failure("an empty prefix tree cannot be merged"), words;
    }
    TalliedFacts(child, words, totals, ones, AllObservations(traces));
    var output := map key | key in totals :: if ones[key] * 2 > totals[key] then 1 else 0;
    var disagreements, observations := SumTallies(totals, ones, child, words, AllObservations(traces));
    assert output.Keys == totals.Keys;
    return Success(Tree(child, output, nodes, symbolCount, disagreements, observations)), words;
  }

  lemma EmptyTree(traces: seq<Trace>)
    ensures Filling(map[], [[]], map[], map[], []) && AllTraced(map[], traces, 0)
  {
  }

  lemma RootTraced(child: map<Key, nat>, t: Trace)
    ensures NodeAt(child, t.symbols[..0]) == Some(0) && Traced(child, t, 0)
  {
  }

  lemma TracedNext(child: map<Key, nat>, traces: seq<Trace>, k: nat)
    requires k < |traces| && AllTraced(child, traces, k) && Traced(child, traces[k], |traces[k].symbols|)
    ensures AllTraced(child, traces, k + 1)
  {
  }

  lemma TalliedFacts(child: map<Key, nat>, words: seq<Word>, totals: map<Key, nat>, ones: map<Key, nat>,
      obs: seq<Observation>)
    requires Filling(child, words, totals, ones, obs)
    ensures Spells(child, words) && totals.Keys == ones.Keys && totals.Keys <= child.Keys
    ensures forall k :: k in child ==> (k in totals <==> Count(obs, Spelled(words, k)) > 0)
    ensures forall k :: k in totals ==> (if ones[k] * 2 > totals[k] then 1 else 0) == Majority(obs, Spelled(words, k))
    ensures Covered(obs, ScoredWords(words, totals.Keys))
  {
    hide Count, Ones, Covered;
    TalliedCovers(child, words, totals, ones, obs);
  }
}
