/**
 Evidence-driven state merging (evidence_merging.py): the red-blue loop, the reading
 of the final partition as a machine, and the end-to-end theorem that the machine
 answers the majority label of every scored prefix, so that it makes exactly the
 errors no predictor of prefixes can avoid.
 */
module EvidenceMerging {
  import opened Prelude
  import opened RuleAutomata
  import opened Minimization
  import opened Traces
  import opened EvidenceTree
  import opened StateMerging
  import opened EvidencePartition

  // --------------------------------------------------------------------- frontier

  /** The roots of the red states. */
  ghost function RedRoots(cls: seq<nat>, red: seq<nat>): set<nat> {
    set i | 0 <= i < |red| :: At(cls, red[i])
  }

  lemma RedRootsAppend(cls: seq<nat>, red: seq<nat>, r: nat)
    ensures RedRoots(cls, red + [r]) == RedRoots(cls, red) + {At(cls, r)}
  {
    var longer := red + [r];
    assert forall i :: 0 <= i < |red| ==> longer[i] == red[i];
    forall x | x in RedRoots(cls, red) + {At(cls, r)}
      ensures x in RedRoots(cls, longer)
    {
      if x in RedRoots(cls, red) {
        var i :| 0 <= i < |red| && At(cls, red[i]) == x;
        assert At(cls, longer[i]) == x;
      } else {
        assert At(cls, longer[|red|]) == x;
      }
    }
  }

  method SettledRoots(p: Partition, red: seq<nat>) returns (settled: set<nat>)
    requires p.Valid() && AllBelow(red, |p.parent|)
    modifies p`parent
    ensures p.Valid() && |p.parent| == |old(p.parent)|
    ensures settled == RedRoots(p.cls, red)
  {
    hide Forest;
    settled := {};
    assert RedRoots(p.cls, []) == {};
    for i := 0 to |red|
      invariant p.Valid() && |p.parent| == |old(p.parent)|
      invariant settled == RedRoots(p.cls, red[..i])
    {
      var root := p.Find(red[i]);
      RedRootsAppend(p.cls, red[..i], red[i]);
      assert red[..i] + [red[i]] == red[..i + 1];
      AtIndex(p.parent, p.cls, p.level, p.top, red[i]);
      settled := settled + {root};
    }
    assert red[..|red|] == red;
  }

  lemma AtIndex(parent: seq<nat>, cls: seq<nat>, level: seq<nat>, top: nat, i: nat)
    requires Forest(parent, cls, level, top) && i < |parent|
    ensures i < |cls| == |parent| && At(cls, i) == cls[i] < |cls| && cls[cls[i]] == cls[i]
  {
    assert At(cls, cls[i]) == cls[i];
  }

  /** Every edge of a settled class leads to a settled class or to the frontier. */
  ghost predicate FrontierClosed(cls: seq<nat>, child: map<Key, nat>, settled: set<nat>, blue: seq<nat>, state: nat,
      symbols: nat)
  {
    forall y :: 0 <= y < symbols && (state, y) in child ==>
      At(cls, child[(state, y)]) in settled || At(cls, child[(state, y)]) in blue
  }

  /** Frontier entries are unsettled roots. */
  ghost predicate Unsettled(cls: seq<nat>, settled: set<nat>, blue: seq<nat>) {
    forall i :: 0 <= i < |blue| ==> blue[i] < |cls| && cls[blue[i]] == blue[i] && blue[i] !in settled
  }

  /** The class is one edge away from a settled one. */
  ghost predicate OneEdgeAway(cls: seq<nat>, child: map<Key, nat>, settled: set<nat>, root: nat, symbols: nat) {
    exists k :: k in child && k.0 in settled && k.1 < symbols && At(cls, child[k]) == root
  }

  /** The edge of `s` on symbol `y` leads to the class of `c`. */
  ghost predicate Leads(cls: seq<nat>, child: map<Key, nat>, s: nat, y: nat, c: nat) {
    (s, y) in child && At(cls, child[(s, y)]) == c
  }

  /** Edges are surveyed state by state, in the order `walk` lists them, and symbol by symbol. */
  ghost predicate EdgeBefore(e: (nat, nat), f: (nat, nat)) {
    e.0 < f.0 || (e.0 == f.0 && e.1 < f.1)
  }

  /** Some edge to `d` is surveyed before every edge to `c`. */
  ghost predicate Earlier(cls: seq<nat>, child: map<Key, nat>, walk: seq<nat>, symbols: nat, d: nat, c: nat) {
    exists e: (nat, nat) :: e.0 < |walk| && e.1 < symbols && Leads(cls, child, walk[e.0], e.1, d)
      && OnlyAfter(cls, child, walk, symbols, e, c)
  }

  /** Every edge to `c` is surveyed after `e`. */
  ghost predicate OnlyAfter(cls: seq<nat>, child: map<Key, nat>, walk: seq<nat>, symbols: nat, e: (nat, nat), c: nat) {
    forall f: (nat, nat) :: f.0 < |walk| && f.1 < symbols && Leads(cls, child, walk[f.0], f.1, c) ==> EdgeBefore(e, f)
  }

  lemma EarlierOneWay(cls: seq<nat>, child: map<Key, nat>, walk: seq<nat>, symbols: nat, d: nat, c: nat)
    requires Earlier(cls, child, walk, symbols, d, c)
    ensures d != c && !Earlier(cls, child, walk, symbols, c, d)
  {
  }

  /** The classes are listed in the order the edges to them are surveyed. */
  ghost predicate Surveyed(cls: seq<nat>, child: map<Key, nat>, walk: seq<nat>, symbols: nat, blue: seq<nat>) {
    forall a, b :: 0 <= a < b < |blue| ==> Earlier(cls, child, walk, symbols, blue[a], blue[b])
  }

  /** The settled classes, each once, in the order they are walked. */
  ghost predicate Walks(walk: seq<nat>, settled: set<nat>) {
    Distinct(walk) && forall s :: s in walk <==> s in settled
  }

  /**
   The survey has come to edge `here`: `at` says where each class was found, in ascending
   order and never later than necessary, and all edges before lead to settled or listed classes.
   */
  ghost predicate Surveying(cls: seq<nat>, child: map<Key, nat>, settled: set<nat>, symbols: nat, walk: seq<nat>,
      blue: seq<nat>, at: seq<(nat, nat)>, here: (nat, nat))
  {
    && |at| == |blue|
    && (forall a :: 0 <= a < |at| ==>
      at[a].0 < |walk| && at[a].1 < symbols && EdgeBefore(at[a], here)
      && Leads(cls, child, walk[at[a].0], at[a].1, blue[a]))
    && (forall a, b :: 0 <= a < b < |at| ==> EdgeBefore(at[a], at[b]))
    && (forall b, e: (nat, nat) :: 0 <= b < |blue| && e.0 < |walk| && e.1 < symbols && EdgeBefore(e, at[b]) ==>
      !Leads(cls, child, walk[e.0], e.1, blue[b]))
    && (forall e: (nat, nat) ::
      e.0 < |walk| && e.1 < symbols && EdgeBefore(e, here) && (walk[e.0], e.1) in child ==>
      At(cls, child[(walk[e.0], e.1)]) in settled || At(cls, child[(walk[e.0], e.1)]) in blue)
  }

  /** A new row begins where the last one ended. */
  lemma SurveyRow(cls: seq<nat>, child: map<Key, nat>, settled: set<nat>, symbols: nat, walk: seq<nat>, blue: seq<nat>,
      at: seq<(nat, nat)>, state: nat)
    requires Surveying(cls, child, settled, symbols, walk, blue, at, (|walk|, 0))
    ensures Surveying(cls, child, settled, symbols, walk + [state], blue, at, (|walk|, 0))
  {
  }

  lemma SurveyRowDone(cls: seq<nat>, child: map<Key, nat>, settled: set<nat>, symbols: nat, walk: seq<nat>,
      blue: seq<nat>, at: seq<(nat, nat)>)
    requires |walk| > 0 && Surveying(cls, child, settled, symbols, walk, blue, at, (|walk| - 1, symbols))
    ensures Surveying(cls, child, settled, symbols, walk, blue, at, (|walk|, 0))
  {
  }

  /** An edge that is missing, or leads to a settled or listed class, adds nothing. */
  lemma SurveyPassed(cls: seq<nat>, child: map<Key, nat>, settled: set<nat>, symbols: nat, walk: seq<nat>,
      blue: seq<nat>, at: seq<(nat, nat)>, y: nat)
    requires |walk| > 0 && y < symbols
    requires Surveying(cls, child, settled, symbols, walk, blue, at, (|walk| - 1, y))
    requires var k := (walk[|walk| - 1], y);
      k in child ==> At(cls, child[k]) in settled || At(cls, child[k]) in blue
    ensures Surveying(cls, child, settled, symbols, walk, blue, at, (|walk| - 1, y + 1))
  {
  }

  /** No edge before leads to a class that is neither settled nor listed, and this one leads to it. */
  lemma NotLedBefore(cls: seq<nat>, child: map<Key, nat>, settled: set<nat>, symbols: nat, walk: seq<nat>,
      blue: seq<nat>, at: seq<(nat, nat)>, y: nat, root: nat)
    requires |walk| > 0 && y < symbols && root !in settled && root !in blue
    requires Surveying(cls, child, settled, symbols, walk, blue, at, (|walk| - 1, y))
    requires Leads(cls, child, walk[|walk| - 1], y, root)
    ensures (walk[|walk| - 1], y) in child && At(cls, child[(walk[|walk| - 1], y)]) == root
    ensures forall e: (nat, nat) :: e.0 < |walk| && e.1 < symbols && EdgeBefore(e, (|walk| - 1, y)) ==>
      !Leads(cls, child, walk[e.0], e.1, root)
  {
    hide At;
  }

  /** An edge to a class found for the first time adds it at the end. */
  lemma SurveyFound(cls: seq<nat>, child: map<Key, nat>, settled: set<nat>, symbols: nat, walk: seq<nat>,
      blue: seq<nat>, at: seq<(nat, nat)>, y: nat, root: nat)
    requires |walk| > 0 && y < symbols && root !in settled && root !in blue
    requires Surveying(cls, child, settled, symbols, walk, blue, at, (|walk| - 1, y))
    requires Leads(cls, child, walk[|walk| - 1], y, root)
    ensures Surveying(cls, child, settled, symbols, walk, blue + [root], at + [(|walk| - 1, y)], (|walk| - 1, y + 1))
  {
    hide At, Leads;
    NotLedBefore(cls, child, settled, symbols, walk, blue, at, y, root);
    var here: (nat, nat) := (|walk| - 1, y);
    var more, ats := blue + [root], at + [here];
    forall a | 0 <= a < |ats|
      ensures EdgeBefore(ats[a], (|walk| - 1, y + 1)) && ats[a].0 < |walk| && ats[a].1 < symbols
      ensures Leads(cls, child, walk[ats[a].0], ats[a].1, more[a])
    {
    }
    forall e: (nat, nat) | e.0 < |walk| && e.1 < symbols && EdgeBefore(e, (|walk| - 1, y + 1))
      && (walk[e.0], e.1) in child
      ensures At(cls, child[(walk[e.0], e.1)]) in settled || At(cls, child[(walk[e.0], e.1)]) in more
    {
      assert e == here || EdgeBefore(e, here);
    }
    forall b, e: (nat, nat) | 0 <= b < |more| && e.0 < |walk| && e.1 < symbols && EdgeBefore(e, ats[b])
      ensures !Leads(cls, child, walk[e.0], e.1, more[b])
    {
      if b < |blue| {
        assert more[b] == blue[b] && ats[b] == at[b];
      }
    }
  }

  lemma SurveyDone(cls: seq<nat>, child: map<Key, nat>, settled: set<nat>, symbols: nat, walk: seq<nat>, blue: seq<nat>,
      at: seq<(nat, nat)>)
    requires Surveying(cls, child, settled, symbols, walk, blue, at, (|walk|, 0)) && Walks(walk, settled)
    ensures Surveyed(cls, child, walk, symbols, blue)
    ensures forall s :: s in settled ==> FrontierClosed(cls, child, settled, blue, s, symbols)
    ensures forall i :: 0 <= i < |blue| ==> OneEdgeAway(cls, child, settled, blue[i], symbols)
  {
    forall a, b | 0 <= a < b < |blue|
      ensures Earlier(cls, child, walk, symbols, blue[a], blue[b])
    {
      assert OnlyAfter(cls, child, walk, symbols, at[a], blue[b]);
    }
    forall s | s in settled
      ensures FrontierClosed(cls, child, settled, blue, s, symbols)
    {
      var i :| 0 <= i < |walk| && walk[i] == s;
      forall y: nat | y < symbols && (s, y) in child
        ensures At(cls, child[(s, y)]) in settled || At(cls, child[(s, y)]) in blue
      {
        var e: (nat, nat) := (i, y);
        assert EdgeBefore(e, (|walk|, 0)) && (walk[e.0], e.1) in child;
      }
    }
    forall i | 0 <= i < |blue|
      ensures OneEdgeAway(cls, child, settled, blue[i], symbols)
    {
      var k: Key := (walk[at[i].0], at[i].1);
      assert walk[at[i].0] in walk;
      assert k in child && k.0 in settled && k.1 < symbols && At(cls, child[k]) == blue[i];
    }
  }

  /**
   The unmerged children of the settled states, each once, in the order their edges are
   surveyed: symbol by symbol for each state. The order in which the settled set is walked
   is left open.
   */
  method Frontier(p: Partition, settled: set<nat>, symbolCount: nat, ghost tree: Tree)
    returns (blue: seq<nat>, ghost walk: seq<nat>)
    requires p.Valid() && symbolCount == tree.symbolCount && ChildSound(tree, p.cls, p.child)
    modifies p`parent
    ensures p.Valid() && |p.parent| == |old(p.parent)|
    ensures Unsettled(p.cls, settled, blue)
    ensures forall s :: s in settled ==> FrontierClosed(p.cls, p.child, settled, blue, s, symbolCount)
    ensures Distinct(blue) && forall i :: 0 <= i < |blue| ==> OneEdgeAway(p.cls, p.child, settled, blue[i], symbolCount)
    ensures Walks(walk, settled) && Surveyed(p.cls, p.child, walk, symbolCount, blue)
  {
    hide Forest, Surveying, Surveyed, FrontierClosed, OneEdgeAway, Distinct, ChildSound, Walks, Unsettled;
    blue, walk := [], [];
    var rest := settled;
    ghost var at: seq<(nat, nat)> := [];
    SurveyStart(p.cls, p.child, settled, symbolCount);
    while rest != {}
      invariant rest <= settled && Walks(walk, settled - rest)
      invariant p.Valid() && |p.parent| == |old(p.parent)|
      invariant Unsettled(p.cls, settled, blue) && Distinct(blue)
      invariant Surveying(p.cls, p.child, settled, symbolCount, walk, blue, at, (|walk|, 0))
      decreases rest
    {
      var state :| state in rest;
      ghost var walked := settled - rest;
      rest := rest - {state};
      SurveyRow(p.cls, p.child, settled, symbolCount, walk, blue, at, state);
      WalkNext(walk, walked, state);
      assert settled - rest == walked + {state};
      walk := walk + [state];
      for symbol := 0 to symbolCount
        invariant p.Valid() && |p.parent| == |old(p.parent)|
        invariant Unsettled(p.cls, settled, blue) && Distinct(blue)
        invariant Surveying(p.cls, p.child, settled, symbolCount, walk, blue, at, (|walk| - 1, symbol))
      {
        if (state, symbol) in p.child {
          TargetInTree(tree, p.parent, p.cls, p.level, p.top, p.child, (state, symbol));
          var target := p.child[(state, symbol)];
          var root := p.Find(target);
          AtIndex(p.parent, p.cls, p.level, p.top, target);
          if root !in settled && root !in blue {
            SurveyFound(p.cls, p.child, settled, symbolCount, walk, blue, at, symbol, root);
            UnsettledNext(p.cls, settled, blue, root);
            blue := blue + [root];
            at := at + [(|walk| - 1, symbol)];
          } else {
            SurveyPassed(p.cls, p.child, settled, symbolCount, walk, blue, at, symbol);
          }
        } else {
          SurveyPassed(p.cls, p.child, settled, symbolCount, walk, blue, at, symbol);
        }
      }
      SurveyRowDone(p.cls, p.child, settled, symbolCount, walk, blue, at);
    }
    assert settled - rest == settled;
    SurveyDone(p.cls, p.child, settled, symbolCount, walk, blue, at);
  }

  lemma UnsettledNext(cls: seq<nat>, settled: set<nat>, blue: seq<nat>, root: nat)
    requires Unsettled(cls, settled, blue) && Distinct(blue)
    requires root < |cls| && cls[root] == root && root !in settled && root !in blue
    ensures Unsettled(cls, settled, blue + [root]) && Distinct(blue + [root])
  {
  }

  lemma WalkNext(walk: seq<nat>, walked: set<nat>, state: nat)
    requires Walks(walk, walked) && state !in walked
    ensures Walks(walk + [state], walked + {state})
  {
  }

  lemma SurveyStart(cls: seq<nat>, child: map<Key, nat>, settled: set<nat>, symbols: nat)
    ensures Surveying(cls, child, settled, symbols, [], [], [], (0, 0))
    ensures Walks([], settled - settled) && Unsettled(cls, settled, []) && Distinct([])
  {
  }

  lemma TargetInTree(tree: Tree, parent: seq<nat>, cls: seq<nat>, level: seq<nat>, top: nat, child: map<Key, nat>,
      k: Key)
    requires Forest(parent, cls, level, top) && ChildSound(tree, cls, child) && k in child && k.1 < tree.symbolCount
    ensures child[k] < |parent|
  {
  }

  // ------------------------------------------------------------------- best merge

  /** `after` is the least congruence above `cls` that joins `s` and `c`, and no outputs conflict in it. */
  ghost predicate FoldOf(tree: Tree, cls: seq<nat>, s: nat, c: nat, after: seq<nat>) {
    && |after| == tree.nodes && ClassMap(after)
    && Congruence(tree, after) && !Conflict(tree, after) && Least(tree, cls, s, c, after)
  }

  /** `v` is the evidence of folding `c` into `s`: how many cells with an output the least congruence makes coincide. */
  ghost predicate Supported(tree: Tree, cls: seq<nat>, s: nat, c: nat, v: nat) {
    exists after: seq<nat> :: FoldOf(tree, cls, s, c, after) && v + |Cells(tree, after)| == |Cells(tree, cls)|
  }

  /** Least congruences joining the same two nodes are the same up to the choice of representatives. */
  lemma LeastOnce(tree: Tree, cls: seq<nat>, s: nat, c: nat, a: seq<nat>, b: seq<nat>)
    requires Bounded(tree) && FoldOf(tree, cls, s, c, a) && FoldOf(tree, cls, s, c, b)
    ensures Coarser(a, b) && Coarser(b, a) && |Cells(tree, a)| == |Cells(tree, b)|
  {
    hide Congruence, Conflict, ClassMap, Cells, Coarser;
    assert Admits(tree, cls, s, c, a) && Admits(tree, cls, s, c, b);
    CoarserCells(tree, a, b);
    CoarserCells(tree, b, a);
  }

  /** A pair with evidence can be merged, and has no two values of it. */
  lemma SupportedOnce(tree: Tree, cls: seq<nat>, s: nat, c: nat, u: nat, v: nat)
    requires Bounded(tree) && Supported(tree, cls, s, c, u) && Supported(tree, cls, s, c, v)
    ensures u == v && !Unmergeable(tree, cls, s, c)
  {
    hide Congruence, Conflict, ClassMap, Cells, Coarser, Least;
    var a: seq<nat> :| FoldOf(tree, cls, s, c, a) && u + |Cells(tree, a)| == |Cells(tree, cls)|;
    var b: seq<nat> :| FoldOf(tree, cls, s, c, b) && v + |Cells(tree, b)| == |Cells(tree, cls)|;
    LeastOnce(tree, cls, s, c, a, b);
    FoldAdmits(tree, cls, s, c, a);
  }

  lemma FoldAdmits(tree: Tree, cls: seq<nat>, s: nat, c: nat, after: seq<nat>)
    requires FoldOf(tree, cls, s, c, after)
    ensures Admits(tree, cls, s, c, after) && !Conflict(tree, after)
  {
  }

  ghost predicate FoldedTo(tree: Tree, cls: seq<nat>, s: nat, c: nat, v: nat, after: seq<nat>, child: map<Key, nat>,
      output: map<Key, nat>)
  {
    && Quotiented(tree, after, child, output) && Least(tree, cls, s, c, after)
    && v + |Cells(tree, after)| == |Cells(tree, cls)|
  }

  /** The merge of (s, c) is impossible or has evidence at most `v`. */
  ghost predicate Dominated(tree: Tree, cls: seq<nat>, s: nat, c: nat, v: nat) {
    Unmergeable(tree, cls, s, c) || exists u: nat :: Supported(tree, cls, s, c, u) && u <= v
  }

  /** Evidence being unique, no value of it lies above a bound. */
  lemma NoMoreEvidence(tree: Tree, cls: seq<nat>, s: nat, c: nat, u: nat, v: nat)
    requires Bounded(tree) && Supported(tree, cls, s, c, u)
    ensures Dominated(tree, cls, s, c, v) <==> u <= v
    ensures Beaten(tree, cls, s, c, v) <==> u < v
  {
    hide Supported, Unmergeable, Bounded;
    SupportedOnce(tree, cls, s, c, u, u);
    forall w: nat | Supported(tree, cls, s, c, w)
      ensures w == u
    {
      SupportedOnce(tree, cls, s, c, u, w);
    }
  }

  /** No pair tried so far beats `best`; without a best, none of them can merge. */
  ghost predicate BestSoFar(tree: Tree, cls: seq<nat>, s: nat, c: nat, best: Option<nat>) {
    if best.Some? then Dominated(tree, cls, s, c, best.value) else Unmergeable(tree, cls, s, c)
  }

  lemma DominatedMonotone(tree: Tree, cls: seq<nat>, s: nat, c: nat, before: Option<nat>, v: nat)
    requires BestSoFar(tree, cls, s, c, before)
    requires before.Some? ==> before.value <= v
    ensures BestSoFar(tree, cls, s, c, Some(v))
  {
    hide Supported, Unmergeable;
  }

  ghost predicate BestForAll(tree: Tree, cls: seq<nat>, states: seq<nat>, n: nat, c: nat, best: Option<nat>) {
    forall i :: 0 <= i < n && i < |states| ==> BestSoFar(tree, cls, states[i], c, best)
  }

  ghost predicate NothingFits(tree: Tree, cls: seq<nat>, states: seq<nat>, n: nat, c: nat) {
    forall i :: 0 <= i < n && i < |states| ==> Unmergeable(tree, cls, states[i], c)
  }

  /** The merge of (s, c) is impossible or has less evidence than `v`. */
  ghost predicate Beaten(tree: Tree, cls: seq<nat>, s: nat, c: nat, v: nat) {
    Unmergeable(tree, cls, s, c) || exists u: nat :: Supported(tree, cls, s, c, u) && u < v
  }

  ghost predicate BeatenBefore(tree: Tree, cls: seq<nat>, states: seq<nat>, n: nat, c: nat, v: nat) {
    forall i :: 0 <= i < n && i < |states| ==> Beaten(tree, cls, states[i], c, v)
  }

  /** What does not beat the best so far is beaten by anything that does. */
  lemma BeatenByBetter(tree: Tree, cls: seq<nat>, states: seq<nat>, n: nat, c: nat, before: Option<nat>, v: nat)
    requires BestForAll(tree, cls, states, n, c, before) && (before.Some? ==> before.value < v)
    ensures BeatenBefore(tree, cls, states, n, c, v)
  {
    hide Unmergeable, Supported;
    forall i | 0 <= i < n && i < |states|
      ensures Beaten(tree, cls, states[i], c, v)
    {
      assert BestSoFar(tree, cls, states[i], c, before);
    }
  }

  /**
   The partition is the fold of `c` into one of the first `n` states, with evidence `v` that
   no state before it reaches.
   */
  ghost predicate FoldsOne(tree: Tree, cls: seq<nat>, states: seq<nat>, n: nat, c: nat, v: nat,
      after: seq<nat>, child: map<Key, nat>, output: map<Key, nat>)
  {
    exists i :: 0 <= i < n && i < |states|
      && FoldedTo(tree, cls, states[i], c, v, after, child, output)
      && BeatenBefore(tree, cls, states, i, c, v)
  }

  /**
   The partition is the fold of one of the first `n` candidates into one of the states, with
   evidence `v` that no candidate before it reaches with any state.
   */
  ghost predicate FoldsAny(tree: Tree, cls: seq<nat>, states: seq<nat>, blue: seq<nat>, n: nat, v: nat,
      after: seq<nat>, child: map<Key, nat>, output: map<Key, nat>)
  {
    exists j :: 0 <= j < n && j < |blue|
      && FoldsOne(tree, cls, states, |states|, blue[j], v, after, child, output)
      && forall k :: 0 <= k < j ==> BeatenBefore(tree, cls, states, |states|, blue[k], v)
  }

  /** What a candidate merge result must satisfy to replace the partition. */
  ghost predicate Improves(tree: Tree, cls: seq<nat>, after: seq<nat>) {
    Coarser(cls, after) && Roots(after) < Roots(cls)
  }

  /** A finished trial: a valid partition holding a coarser quotient with fewer classes. */
  ghost predicate Ready(tree: Tree, cls: seq<nat>, q: Partition)
    reads q
  {
    q.Valid() && Quotiented(tree, q.cls, q.child, q.output) && Improves(tree, cls, q.cls)
  }

  /**
   Try every settled state for one candidate. What is kept is the partition of a fold
   together with that fold's own evidence, the first fold to reach it, and no fold of the
   candidate has more.
   */
  method TryCandidate(p: Partition, states: seq<nat>, candidate: nat, symbolCount: nat, best0: Option<(nat, Partition)>,
      ghost tree: Tree)
    returns (best: Option<(nat, Partition)>, mergedAnywhere: bool)
    requires p.Valid() && Bounded(tree) && symbolCount == tree.symbolCount && Quotiented(tree, p.cls, p.child, p.output)
    requires AllBelow(states, tree.nodes) && candidate < tree.nodes
    requires forall i :: 0 <= i < |states| ==> At(p.cls, states[i]) != At(p.cls, candidate)
    requires best0.Some? ==> best0.value.1 != p && Ready(tree, p.cls, best0.value.1)
    ensures best.Some? ==> best.value.1 != p && Ready(tree, p.cls, best.value.1)
    ensures best == best0 || (best.Some? && fresh(best.value.1))
    ensures best0.Some? ==> best.Some? && best0.value.0 <= best.value.0
    ensures best != best0 && best0.Some? ==> best0.value.0 < best.value.0
    ensures mergedAnywhere ==> best.Some?
    ensures !mergedAnywhere <==> NothingFits(tree, p.cls, states, |states|, candidate)
    ensures BestForAll(tree, p.cls, states, |states|, candidate,
      if best.Some? then Some(best.value.0) else None)
    ensures best != best0 ==> FoldsOne(tree, p.cls, states, |states|, candidate, best.value.0,
      best.value.1.cls, best.value.1.child, best.value.1.output)
  {
    hide Forest, Quotiented, Least, Unmergeable, Bounded, Roots, Coarser, Supported, FoldedTo, BeatenBefore, Dominated,
      Cells, Beyond;
    best, mergedAnywhere := best0, false;
    for i := 0 to |states|
      invariant best.Some? ==> best.value.1 != p && Ready(tree, p.cls, best.value.1)
      invariant best == best0 || (best.Some? && fresh(best.value.1))
      invariant best0.Some? ==> best.Some? && best0.value.0 <= best.value.0
      invariant best != best0 && best0.Some? ==> best0.value.0 < best.value.0
      invariant mergedAnywhere ==> best.Some?
      invariant !mergedAnywhere <==> NothingFits(tree, p.cls, states, i, candidate)
      invariant BestForAll(tree, p.cls, states, i, candidate,
        if best.Some? then Some(best.value.0) else None)
      invariant best != best0 ==> FoldsOne(tree, p.cls, states, i, candidate, best.value.0,
        best.value.1.cls, best.value.1.child, best.value.1.output)
    {
      var trial := p.Copy();
      var evidence := Fold(trial, states[i], candidate, symbolCount, tree);
      if evidence.Some? {
        SupportedBy(tree, p.cls, states[i], candidate, evidence.value, trial.cls, trial.child, trial.output);
        mergedAnywhere := true;
        ghost var before := if best.Some? then Some(best.value.0) else None;
        if best.None? || evidence.value > best.value.0 {
          BeatenByBetter(tree, p.cls, states, i, candidate, before, evidence.value);
          best := Some((evidence.value, trial));
        }
        RaiseBest(tree, p.cls, states, i, candidate, before, best.value.0);
        DominatedMonotone(tree, p.cls, states[i], candidate, Some(evidence.value), best.value.0);
      } else if best.Some? {
        DominatedMonotone(tree, p.cls, states[i], candidate, None, best.value.0);
      }
    }
  }

  lemma SupportedBy(tree: Tree, cls: seq<nat>, s: nat, c: nat, v: nat, after: seq<nat>, child: map<Key, nat>,
      output: map<Key, nat>)
    requires Quotiented(tree, after, child, output) && Least(tree, cls, s, c, after)
    requires v + |Cells(tree, after)| == |Cells(tree, cls)|
    ensures FoldedTo(tree, cls, s, c, v, after, child, output)
    ensures Supported(tree, cls, s, c, v) && Dominated(tree, cls, s, c, v) && Coarser(cls, after)
  {
    hide Cells, Conflict, Congruence, ClassMap, ChildSound, ChildComplete, OutputSound, OutputComplete;
    QuotientedIsCongruence(tree, after, child, output);
    assert FoldOf(tree, cls, s, c, after);
  }

  lemma RaiseBest(tree: Tree, cls: seq<nat>, states: seq<nat>, n: nat, c: nat, before: Option<nat>, v: nat)
    requires BestForAll(tree, cls, states, n, c, before) && (before.Some? ==> before.value <= v)
    ensures BestForAll(tree, cls, states, n, c, Some(v))
  {
    hide Unmergeable, Supported, Dominated;
    forall i | 0 <= i < n && i < |states|
      ensures BestSoFar(tree, cls, states[i], c, Some(v))
    {
      DominatedMonotone(tree, cls, states[i], c, before, v);
    }
  }

  /** The first of the candidates that fits nowhere. */
  ghost predicate FirstMisfit(tree: Tree, cls: seq<nat>, states: seq<nat>, blue: seq<nat>, c: nat) {
    exists j :: 0 <= j < |blue| && blue[j] == c && NothingFits(tree, cls, states, |states|, c)
      && forall k :: 0 <= k < j ==> !NothingFits(tree, cls, states, |states|, blue[k])
  }

  /**
   One round over the frontier. `best` is the fold of some candidate into some settled
   state with its own evidence, the first in the order they are tried to reach it, and no
   fold of any candidate has more; `unmergeable` lists the candidates that fit nowhere, the
   first of them first.
   */
  method BestMerge(p: Partition, states: seq<nat>, blue: seq<nat>, symbolCount: nat, ghost tree: Tree)
    returns (best: Option<(nat, Partition)>, unmergeable: seq<nat>)
    requires p.Valid() && Bounded(tree) && symbolCount == tree.symbolCount && Quotiented(tree, p.cls, p.child, p.output)
    requires AllBelow(states, tree.nodes) && AllBelow(blue, tree.nodes)
    requires forall i, j :: 0 <= i < |states| && 0 <= j < |blue| ==> At(p.cls, states[i]) != At(p.cls, blue[j])
    ensures best.Some? ==> fresh(best.value.1) && Ready(tree, p.cls, best.value.1)
    ensures best.Some? ==> FoldsAny(tree, p.cls, states, blue, |blue|, best.value.0,
      best.value.1.cls, best.value.1.child, best.value.1.output)
    ensures forall j :: 0 <= j < |blue| ==>
      (blue[j] in unmergeable <==> NothingFits(tree, p.cls, states, |states|, blue[j]))
    ensures forall c :: c in unmergeable ==> c in blue
    ensures unmergeable != [] ==> FirstMisfit(tree, p.cls, states, blue, unmergeable[0])
    ensures |blue| > 0 && unmergeable == [] ==> best.Some?
    ensures forall j :: 0 <= j < |blue| ==>
      BestForAll(tree, p.cls, states, |states|, blue[j], if best.Some? then Some(best.value.0) else None)
  {
    hide Forest, Quotiented, Unmergeable, Bounded, Improves, BestForAll, NothingFits, FoldsOne, BeatenBefore;
    best, unmergeable := None, [];
    for j := 0 to |blue|
      invariant best.Some? ==> fresh(best.value.1) && best.value.1 != p && Ready(tree, p.cls, best.value.1)
      invariant best.Some? ==> FoldsAny(tree, p.cls, states, blue, j, best.value.0,
        best.value.1.cls, best.value.1.child, best.value.1.output)
      invariant forall c :: c in unmergeable ==> c in blue && NothingFits(tree, p.cls, states, |states|, c)
      invariant forall k :: 0 <= k < j ==>
        (NothingFits(tree, p.cls, states, |states|, blue[k]) ==> blue[k] in unmergeable)
      invariant unmergeable != [] ==> FirstMisfit(tree, p.cls, states, blue, unmergeable[0])
      invariant j > 0 && unmergeable == [] ==> best.Some?
      invariant forall k :: 0 <= k < j ==>
        BestForAll(tree, p.cls, states, |states|, blue[k], if best.Some? then Some(best.value.0) else None)
    {
      ghost var before := if best.Some? then Some(best.value.0) else None;
      var next, merged := TryCandidate(p, states, blue[j], symbolCount, best, tree);
      if next.Some? {
        forall k | 0 <= k < j
          ensures BestForAll(tree, p.cls, states, |states|, blue[k], Some(next.value.0))
        {
          RaiseBest(tree, p.cls, states, |states|, blue[k], before, next.value.0);
        }
        if next != best {
          forall k | 0 <= k < j
            ensures BeatenBefore(tree, p.cls, states, |states|, blue[k], next.value.0)
          {
            BeatenByBetter(tree, p.cls, states, |states|, blue[k], before, next.value.0);
          }
        }
      }
      best := next;
      if !merged {
        unmergeable := unmergeable + [blue[j]];
      }
    }
  }

  // ------------------------------------------------------ reading off the machine

  /** Row and column of the machine that a partition stands for. */
  ghost predicate ReadOff(tree: Tree, cls: seq<nat>, child: map<Key, nat>, output: map<Key, nat>, order: seq<nat>,
      m: RuleAutomaton)
  {
    && m.symbolCount == tree.symbolCount && m.actionCount == 2
    && |m.transitions| == |m.outputs| == |order|
    && (forall i :: 0 <= i < |order| ==> |m.transitions[i]| == |m.outputs[i]| == tree.symbolCount)
    && (forall i, y :: 0 <= i < |order| && 0 <= y < tree.symbolCount ==>
      CellReadOff(cls, child, output, order, i, y, m.transitions[i][y], m.outputs[i][y]))
  }

  /** An unvisited cell stays put and emits nothing. */
  ghost predicate CellReadOff(cls: seq<nat>, child: map<Key, nat>, output: map<Key, nat>, order: seq<nat>, i: nat,
      y: nat, target: nat, emission: nat)
    requires i < |order|
  {
    && target < |order|
    && (if (order[i], y) in child && At(cls, child[(order[i], y)]) in order
        then order[target] == At(cls, child[(order[i], y)]) else target == i)
    && emission == (if (order[i], y) in output then output[(order[i], y)] else 0)
  }

  /** The classes in the order `_to_automaton` numbers them: the start first, then the red states' classes. */
  method OrderClasses(p: Partition, red: seq<nat>) returns (order: seq<nat>)
    requires p.Valid() && AllBelow(red, |p.parent|) && |red| > 0 && red[0] == 0
    modifies p`parent
    ensures p.Valid() && |p.parent| == |old(p.parent)|
    ensures Distinct(order) && |order| > 0 && |order| <= |red| && order[0] == At(p.cls, 0)
    ensures forall r :: r in order <==> r in RedRoots(p.cls, red)
    ensures AllBelow(order, |p.cls|)
  {
    hide Forest;
    order := [];
    assert RedRoots(p.cls, []) == {};
    for i := 0 to |red|
      invariant p.Valid() && |p.parent| == |old(p.parent)|
      invariant Distinct(order) && |order| <= i && (i > 0 ==> |order| > 0 && order[0] == At(p.cls, 0))
      invariant forall r :: r in order <==> r in RedRoots(p.cls, red[..i])
      invariant AllBelow(order, |p.cls|)
    {
      var root := p.Find(red[i]);
      AtIndex(p.parent, p.cls, p.level, p.top, red[i]);
      RedRootsAppend(p.cls, red[..i], red[i]);
      assert red[..i] + [red[i]] == red[..i + 1];
      if root !in order {
        order := order + [root];
      }
    }
    assert red[..|red|] == red;
  }

  /** One row of the tables. */
  method ReadRow(p: Partition, order: seq<nat>, i: nat, symbolCount: nat, ghost tree: Tree)
    returns (row: seq<nat>, emission: seq<nat>)
    requires p.Valid() && symbolCount == tree.symbolCount && ChildSound(tree, p.cls, p.child) && i < |order|
    requires Distinct(order)
    modifies p`parent
    ensures p.Valid() && |p.parent| == |old(p.parent)|
    ensures |row| == |emission| == symbolCount
    ensures forall y :: 0 <= y < symbolCount ==> CellReadOff(p.cls, p.child, p.output, order, i, y, row[y], emission[y])
  {
    hide Forest, ChildSound;
    row, emission := [], [];
    for symbol := 0 to symbolCount
      invariant p.Valid() && |p.parent| == |old(p.parent)|
      invariant |row| == |emission| == symbol
      invariant forall y :: 0 <= y < symbol ==> CellReadOff(p.cls, p.child, p.output, order, i, y, row[y], emission[y])
    {
      var key := (order[i], symbol);
      var next := i;
      if key in p.child {
        TargetInTree(tree, p.parent, p.cls, p.level, p.top, p.child, key);
        var target := p.child[key];
        var resolved := p.Find(target);
        AtIndex(p.parent, p.cls, p.level, p.top, target);
        if resolved in order {
          next := Index(order, resolved);
        }
      }
      row := row + [next];
      emission := emission + [if key in p.output then p.output[key] else 0];
    }
  }

  /** `_to_automaton`, up to the final minimisation. */
  method ToAutomaton(p: Partition, red: seq<nat>, symbolCount: nat, ghost tree: Tree)
    returns (m: RuleAutomaton, ghost order: seq<nat>)
    requires p.Valid() && symbolCount == tree.symbolCount && ChildSound(tree, p.cls, p.child)
    requires AllBelow(red, |p.parent|) && |red| > 0 && red[0] == 0
    modifies p`parent
    ensures p.Valid()
    ensures Distinct(order) && |order| > 0 && |order| <= |red| && order[0] == At(p.cls, 0)
    ensures forall r :: r in order <==> r in RedRoots(p.cls, red)
    ensures ReadOff(tree, p.cls, p.child, p.output, order, m)
  {
    hide Forest, ChildSound, CellReadOff;
    var classes := OrderClasses(p, red);
    order := classes;
    var transitions: seq<seq<nat>> := [];
    var outputs: seq<seq<nat>> := [];
    for i := 0 to |classes|
      invariant p.Valid()
      invariant |transitions| == |outputs| == i
      invariant forall k :: 0 <= k < i ==> |transitions[k]| == |outputs[k]| == symbolCount
      invariant forall k, y :: 0 <= k < i && 0 <= y < symbolCount ==>
        CellReadOff(p.cls, p.child, p.output, classes, k, y, transitions[k][y], outputs[k][y])
    {
      var row, emission := ReadRow(p, classes, i, symbolCount, tree);
      transitions := transitions + [row];
      outputs := outputs + [emission];
    }
    m := RuleAutomaton(symbolCount, transitions, outputs, 2);
  }

  // ---------------------------------------------------------- what the machine does

  /** Classes are closed under the edges of the partition. */
  ghost predicate ClosedClasses(tree: Tree, cls: seq<nat>, child: map<Key, nat>, order: seq<nat>) {
    forall i, y :: 0 <= i < |order| && 0 <= y < tree.symbolCount && (order[i], y) in child ==>
      At(cls, child[(order[i], y)]) in order
  }

  /** A recorded output is a majority label, so every machine cell is a press or no press. */
  lemma OutputsAreBits(tree: Tree, words: seq<Word>, traces: seq<Trace>, cls: seq<nat>, output: map<Key, nat>, k: Key)
    requires Represents(tree, words, traces) && OutputSound(tree, cls, output)
    requires k in output && k.1 < tree.symbolCount
    ensures output[k] <= 1
  {
    hide Count, Ones, Spells, AllTraced, Covered, Disagreements;
    assert OutputOrigin(tree, cls, k, output[k]);
    var m :| m < |cls| && (m, k.1) in tree.output && cls[m] == k.0 && tree.output[(m, k.1)] == output[k];
    assert tree.output[(m, k.1)] == Majority(AllObservations(traces), Spelled(words, (m, k.1)));
  }

  lemma ReadOffValid(tree: Tree, words: seq<Word>, traces: seq<Trace>, cls: seq<nat>, child: map<Key, nat>,
      output: map<Key, nat>, order: seq<nat>, m: RuleAutomaton)
    requires Represents(tree, words, traces) && OutputSound(tree, cls, output) && |order| > 0
    requires ReadOff(tree, cls, child, output, order, m)
    ensures m.Valid() <==> tree.symbolCount >= 2
  {
    hide Represents, OutputSound;
    forall i, y | 0 <= i < |order| && 0 <= y < tree.symbolCount
      ensures m.transitions[i][y] < |order| && m.outputs[i][y] < 2
    {
      assert CellReadOff(cls, child, output, order, i, y, m.transitions[i][y], m.outputs[i][y]);
      if (order[i], y) in output {
        OutputsAreBits(tree, words, traces, cls, output, (order[i], y));
      }
    }
  }

  /** Along every path of the tree the machine is in the class of the node. */
  lemma {:induction false} MachineTracks(tree: Tree, cls: seq<nat>, child: map<Key, nat>, output: map<Key, nat>,
      order: seq<nat>, m: RuleAutomaton, w: Word)
    requires Quotiented(tree, cls, child, output) && ReadOff(tree, cls, child, output, order, m) && m.Valid()
    requires |order| > 0 && order[0] == At(cls, 0) && ClosedClasses(tree, cls, child, order)
    requires NodeAt(tree.child, w).Some? && InAlphabet(w, tree.symbolCount)
    ensures Reach(m, 0, w) < |order| && order[Reach(m, 0, w)] == At(cls, NodeAt(tree.child, w).value)
    decreases |w|
  {
    hide ChildSound, OutputSound, OutputComplete, ClassMap;
    if w != [] {
      var u, y := w[..|w| - 1], w[|w| - 1];
      MachineTracks(tree, cls, child, output, order, m, u);
      var i, n := Reach(m, 0, u), NodeAt(tree.child, u).value;
      assert CellReadOff(cls, child, output, order, i, y, m.transitions[i][y], m.outputs[i][y]);
      assert (n, y) in tree.child && (n, y).0 == n && (n, y).1 == y;
      assert (At(cls, n), y) in child && At(cls, child[(At(cls, n), y)]) == At(cls, tree.child[(n, y)]);
    }
  }

  /** On every scored prefix the machine answers the recorded output of the tree's edge. */
  lemma MachineAnswers(tree: Tree, cls: seq<nat>, child: map<Key, nat>, output: map<Key, nat>, order: seq<nat>,
      m: RuleAutomaton, w: Word)
    requires Quotiented(tree, cls, child, output) && ReadOff(tree, cls, child, output, order, m) && m.Valid()
    requires |order| > 0 && order[0] == At(cls, 0) && ClosedClasses(tree, cls, child, order)
    requires |w| > 0 && InAlphabet(w, tree.symbolCount) && NodeAt(tree.child, w[..|w| - 1]).Some?
    requires (NodeAt(tree.child, w[..|w| - 1]).value, w[|w| - 1]) in tree.output
    ensures Emit(m, w) == tree.output[(NodeAt(tree.child, w[..|w| - 1]).value, w[|w| - 1])]
  {
    hide ChildSound, ChildComplete, OutputSound, ClassMap;
    var u, y := w[..|w| - 1], w[|w| - 1];
    MachineTracks(tree, cls, child, output, order, m, u);
    var i, n := Reach(m, 0, u), NodeAt(tree.child, u).value;
    assert CellReadOff(cls, child, output, order, i, y, m.transitions[i][y], m.outputs[i][y]);
    assert (n, y).0 == n && (n, y).1 == y;
    assert (At(cls, n), y) in output && output[(At(cls, n), y)] == tree.output[(n, y)];
  }

  ghost predicate AllBinary(traces: seq<Trace>) {
    forall k :: 0 <= k < |traces| ==> Binary(traces[k])
  }

  /** Every scored prefix is a nonempty word over the tree's alphabet with a node before its last symbol. */
  ghost predicate Reads(tree: Tree, w: Word) {
    |w| > 0 && InAlphabet(w, tree.symbolCount) && NodeAt(tree.child, w[..|w| - 1]).Some?
  }

  lemma {:induction false} TraceObservationReads(tree: Tree, t: Trace, n: nat, i: nat)
    requires n <= |t.symbols| && InAlphabet(t.symbols, tree.symbolCount)
    requires Traced(tree.child, t, |t.symbols|) && i < |TraceObservations(t, n)|
    ensures Reads(tree, TraceObservations(t, n)[i].prefix)
    decreases n
  {
    if i < |TraceObservations(t, n - 1)| {
      TraceObservationReads(tree, t, n - 1, i);
    } else {
      var w := t.symbols[..n];
      assert w[..|w| - 1] == t.symbols[..n - 1];
    }
  }

  lemma {:induction false} ObservationReads(tree: Tree, traces: seq<Trace>, k: nat, i: nat)
    requires k <= |traces| && AllReadable(traces) && AllTraced(tree.child, traces, |traces|)
    requires tree.symbolCount == MaxSymbolCount(traces) && i < |Observations(traces, k)|
    ensures Reads(tree, Observations(traces, k)[i].prefix)
    decreases k
  {
    if i < |Observations(traces, k - 1)| {
      ObservationReads(tree, traces, k - 1, i);
    } else {
      TraceObservationReads(tree, traces[k - 1], |traces[k - 1].symbols|, i - |Observations(traces, k - 1)|);
    }
  }

  /** A scored word carries the majority label on its edge. */
  lemma ScoredEdge(tree: Tree, words: seq<Word>, traces: seq<Trace>, w: Word)
    requires Represents(tree, words, traces) && Reads(tree, w)
    requires w in ScoredWords(words, tree.output.Keys)
    ensures (NodeAt(tree.child, w[..|w| - 1]).value, w[|w| - 1]) in tree.output
    ensures tree.output[(NodeAt(tree.child, w[..|w| - 1]).value, w[|w| - 1])] == Majority(AllObservations(traces), w)
  {
    hide Count, Ones, AllTraced, Covered, Disagreements, Majority, NodeAt, HasParent;
    var u, y := w[..|w| - 1], w[|w| - 1];
    NodeSpells(tree.child, words, u);
    var k :| k in tree.output && Spelled(words, k) == w;
    var n := NodeAt(tree.child, u).value;
    assert words[n] + [y] == w;
    assert Spelled(words, (n, y)) == w;
    SpelledInjective(tree.child, words, k, (n, y));
  }

  lemma {:induction false} TraceLabelsBinary(t: Trace, n: nat)
    requires n <= |t.symbols| && Binary(t)
    ensures BinaryLabels(TraceObservations(t, n))
    decreases n
  {
    if n > 0 {
      TraceLabelsBinary(t, n - 1);
    }
  }

  lemma {:induction false} LabelsBinary(traces: seq<Trace>, k: nat)
    requires k <= |traces| && AllBinary(traces)
    ensures BinaryLabels(Observations(traces, k))
    decreases k
  {
    if k > 0 {
      LabelsBinary(traces, k - 1);
      TraceLabelsBinary(traces[k - 1], |traces[k - 1].symbols|);
    }
  }

  /** The machine answers the majority label of every prefix that was ever scored. */
  ghost predicate AnswersMajority(m: RuleAutomaton, obs: seq<Observation>)
    requires m.Valid()
  {
    forall i :: 0 <= i < |obs| ==>
      |obs[i].prefix| > 0 && InAlphabet(obs[i].prefix, m.symbolCount)
        && Emit(m, obs[i].prefix) == Majority(obs, obs[i].prefix)
  }

  lemma MergedAnswersMajority(tree: Tree, words: seq<Word>, traces: seq<Trace>, cls: seq<nat>, child: map<Key, nat>,
      output: map<Key, nat>, order: seq<nat>, m: RuleAutomaton)
    requires Represents(tree, words, traces) && AllReadable(traces)
    requires Quotiented(tree, cls, child, output) && ReadOff(tree, cls, child, output, order, m) && m.Valid()
    requires |order| > 0 && order[0] == At(cls, 0) && ClosedClasses(tree, cls, child, order)
    ensures AnswersMajority(m, AllObservations(traces))
  {
    hide Quotiented, Majority, NodeAt, Spells, AllTraced, Disagreements, ClosedClasses, AllReadable;
    var obs := AllObservations(traces);
    forall i | 0 <= i < |obs|
      ensures |obs[i].prefix| > 0 && InAlphabet(obs[i].prefix, m.symbolCount)
        && Emit(m, obs[i].prefix) == Majority(obs, obs[i].prefix)
    {
      var w := obs[i].prefix;
      ObservationReads(tree, traces, |traces|, i);
      ScoredEdge(tree, words, traces, w);
      MachineAnswers(tree, cls, child, output, order, m, w);
    }
  }

  lemma MajorityCarriesOver(m: RuleAutomaton, n: RuleAutomaton, obs: seq<Observation>)
    requires m.Valid() && n.Valid() && SameBehaviour(m, n) && AnswersMajority(m, obs)
    ensures AnswersMajority(n, obs)
  {
    hide Majority, Reach;
    forall i | 0 <= i < |obs|
      ensures InAlphabet(obs[i].prefix, n.symbolCount) && Emit(n, obs[i].prefix) == Majority(obs, obs[i].prefix)
    {
      assert Emit(m, obs[i].prefix) == Emit(n, obs[i].prefix);
    }
  }

  /** Same prefixes, same label count: errors depend only on the answers to scored prefixes. */
  lemma {:induction false} ErrorsAgree(obs: seq<Observation>, f: Word -> nat, g: Word -> nat)
    requires forall i :: 0 <= i < |obs| ==> f(obs[i].prefix) == g(obs[i].prefix)
    ensures Errors(obs, f) == Errors(obs, g)
    decreases |obs|
  {
    if obs != [] {
      ErrorsAgree(obs[..|obs| - 1], f, g);
    }
  }

  /**
   Training optimality: a machine that answers the majority labels makes exactly the
   tree's disagreements, and no predictor that sees only the prefix makes fewer.
   */
  lemma TrainingOptimal(tree: Tree, words: seq<Word>, traces: seq<Trace>, m: RuleAutomaton, f: Word -> nat)
    requires Represents(tree, words, traces) && AllBinary(traces)
    requires m.Valid() && AnswersMajority(m, AllObservations(traces))
    ensures Errors(AllObservations(traces), Predictor(m)) == tree.disagreements
    ensures tree.disagreements <= Errors(AllObservations(traces), f)
  {
    hide Count, Ones, Spells, AllTraced, Errors, Disagreements, Majority;
    var obs := AllObservations(traces);
    var scored := ScoredWords(words, tree.output.Keys);
    LabelsBinary(traces, |traces|);
    DisagreementsAreOptimal(obs, scored, f);
    var majority := (w: Word) => Majority(obs, w);
    ErrorsAgree(obs, Predictor(m), majority);
    DisagreementsAreOptimal(obs, scored, majority);
  }

  // ------------------------------------------------------------- the red-blue loop

  lemma SingletonForest(own: seq<nat>, level: seq<nat>)
    requires |own| == |level|
    requires forall i :: 0 <= i < |own| ==> own[i] == i && level[i] == 0
    ensures Forest(own, own, level, 1)
  {
  }

  lemma RepresentsBounded(tree: Tree, words: seq<Word>, traces: seq<Trace>)
    requires Represents(tree, words, traces)
    ensures Bounded(tree) && tree.nodes > 0
  {
  }

  /** Red states sit in the tree, and they start with the root. */
  ghost predicate RedList(red: seq<nat>, nodes: nat) {
    |red| > 0 && red[0] == 0 && AllBelow(red, nodes)
  }

  /** Python's `sorted` on the settled set. */
  method SortedSet(s: set<nat>, n: nat) returns (states: seq<nat>)
    requires forall x :: x in s ==> x < n
    ensures Ascending(states) && AllBelow(states, n)
    ensures forall x :: x in states <==> x in s
  {
    states := [];
    for k := 0 to n
      invariant Ascending(states) && AllBelow(states, k)
      invariant forall x :: x in states <==> x in s && x < k
    {
      if k in s {
        states := states + [k];
      }
    }
  }

  lemma RedRootsInTree(parent: seq<nat>, cls: seq<nat>, level: seq<nat>, top: nat, red: seq<nat>)
    requires Forest(parent, cls, level, top) && AllBelow(red, |parent|)
    ensures RedRoots(cls, red) <= Roots(cls)
    ensures forall r :: r in RedRoots(cls, red) ==> r < |parent| && At(cls, r) == r
  {
    forall r | r in RedRoots(cls, red)
      ensures r in Roots(cls) && r < |parent| && At(cls, r) == r
    {
      var i :| 0 <= i < |red| && At(cls, red[i]) == r;
      AtIndex(parent, cls, level, top, red[i]);
    }
  }

  /** Settled states and frontier states lie in different classes. */
  lemma ApartFromSettled(cls: seq<nat>, red: seq<nat>, states: seq<nat>, blue: seq<nat>)
    requires forall x :: x in states <==> x in RedRoots(cls, red)
    requires forall r :: r in RedRoots(cls, red) ==> At(cls, r) == r
    requires Unsettled(cls, RedRoots(cls, red), blue)
    ensures forall i, j :: 0 <= i < |states| && 0 <= j < |blue| ==> At(cls, states[i]) != At(cls, blue[j])
  {
    forall i, j | 0 <= i < |states| && 0 <= j < |blue|
      ensures At(cls, states[i]) != At(cls, blue[j])
    {
      assert states[i] in states;
    }
  }

  /** Promoting an unsettled root settles one more class. */
  lemma PromotionSettles(cls: seq<nat>, red: seq<nat>, c: nat)
    requires c < |cls| && cls[c] == c && c !in RedRoots(cls, red)
    ensures Roots(cls) - RedRoots(cls, red + [c]) < Roots(cls) - RedRoots(cls, red)
  {
    RedRootsAppend(cls, red, c);
    RootMember(cls, c);
  }

  lemma FrontierEmptyCloses(tree: Tree, cls: seq<nat>, child: map<Key, nat>, settled: set<nat>, order: seq<nat>)
    requires Settled(tree, cls, child, settled)
    requires forall r :: r in order <==> r in settled
    ensures ClosedClasses(tree, cls, child, order)
  {
    forall i, y | 0 <= i < |order| && 0 <= y < tree.symbolCount && (order[i], y) in child
      ensures At(cls, child[(order[i], y)]) in order
    {
      assert order[i] in settled;
      assert FrontierClosed(cls, child, settled, [], order[i], tree.symbolCount);
    }
  }

  /** The state of the loop between rounds. */
  ghost predicate Merging(tree: Tree, p: Partition, red: seq<nat>, maxStates: nat)
    reads p
  {
    && p.Valid() && |p.parent| == tree.nodes
    && Quotiented(tree, p.cls, p.child, p.output)
    && RedList(red, tree.nodes)
    && |red| <= Max(1, maxStates)
  }

  lemma MergingStart(tree: Tree, p: Partition, maxStates: nat)
    requires p.Valid() && |p.parent| == tree.nodes > 0 && Bounded(tree)
    requires p.cls == seq(tree.nodes, i requires 0 <= i < tree.nodes => i) && p.child == tree.child
      && p.output == tree.output
    ensures Merging(tree, p, [0], maxStates)
  {
    InitialQuotient(tree, p.cls);
  }

  lemma QuotientedParts(tree: Tree, cls: seq<nat>, child: map<Key, nat>, output: map<Key, nat>)
    requires Quotiented(tree, cls, child, output)
    ensures |cls| == tree.nodes && ChildSound(tree, cls, child) && OutputSound(tree, cls, output)
  {
  }

  /** One pass of the outer loop: the settled classes and the frontier. */
  method Survey(p: Partition, red: seq<nat>, symbolCount: nat, ghost maxStates: nat, ghost tree: Tree)
    returns (states: seq<nat>, blue: seq<nat>, ghost walk: seq<nat>)
    requires Merging(tree, p, red, maxStates) && symbolCount == tree.symbolCount
    modifies p`parent
    ensures Merging(tree, p, red, maxStates)
    ensures AllBelow(states, tree.nodes) && |states| > 0 && Ascending(states)
    ensures forall x :: x in states <==> x in RedRoots(p.cls, red)
    ensures Unsettled(p.cls, RedRoots(p.cls, red), blue)
    ensures forall i, j :: 0 <= i < |states| && 0 <= j < |blue| ==> At(p.cls, states[i]) != At(p.cls, blue[j])
    ensures forall s :: s in RedRoots(p.cls, red) ==>
      FrontierClosed(p.cls, p.child, RedRoots(p.cls, red), blue, s, tree.symbolCount)
    ensures AllBelow(blue, tree.nodes)
    ensures forall j :: 0 <= j < |blue| ==> OneEdgeAway(p.cls, p.child, RedRoots(p.cls, red), blue[j], tree.symbolCount)
    ensures Walks(walk, RedRoots(p.cls, red)) && Surveyed(p.cls, p.child, walk, tree.symbolCount, blue)
  {
    hide Forest, Quotiented, ChildSound, FrontierClosed, OneEdgeAway, Surveyed, Walks;
    QuotientedParts(tree, p.cls, p.child, p.output);
    var settled := SettledRoots(p, red);
    RedRootsInTree(p.parent, p.cls, p.level, p.top, red);
    blue, walk := Frontier(p, settled, symbolCount, tree);
    states := SortedSet(settled, |p.parent|);
    assert At(p.cls, red[0]) in settled;
    ApartFromSettled(p.cls, red, states, blue);
  }

  /** What reading off the final partition establishes. */
  lemma Finish(tree: Tree, words: seq<Word>, traces: seq<Trace>, cls: seq<nat>, child: map<Key, nat>,
      output: map<Key, nat>, settled: set<nat>, order: seq<nat>, m: RuleAutomaton)
    requires Represents(tree, words, traces) && Quotiented(tree, cls, child, output)
    requires ReadOff(tree, cls, child, output, order, m) && |order| > 0 && order[0] == At(cls, 0)
    requires Settled(tree, cls, child, settled)
    requires forall r :: r in order <==> r in settled
    ensures m.Valid() <==> tree.symbolCount >= 2
    ensures m.Valid() && AllReadable(traces) ==> AnswersMajority(m, AllObservations(traces))
  {
    hide Represents, Quotiented, ReadOff, FrontierClosed, AllReadable, AnswersMajority, ClosedClasses;
    QuotientedParts(tree, cls, child, output);
    ReadOffValid(tree, words, traces, cls, child, output, order, m);
    FrontierEmptyCloses(tree, cls, child, settled, order);
    if m.Valid() && AllReadable(traces) {
      MergedAnswersMajority(tree, words, traces, cls, child, output, order, m);
    }
  }

  /** The machine behaves as the one read off this partition, unvisited cells included. */
  ghost predicate BehavesAs(tree: Tree, stage: Stage, m: RuleAutomaton) {
    exists order: seq<nat>, raw: RuleAutomaton ::
      && Distinct(order) && |order| > 0 && order[0] == At(stage.cls, 0)
      && (forall r :: r in order <==> r in RedRoots(stage.cls, stage.red))
      && ReadOff(tree, stage.cls, stage.child, stage.output, order, raw) && raw.Valid() && m.Valid()
      && SameBehaviour(raw, m)
  }

  /** What a caller may rely on about an inferred machine. */
  ghost predicate Inferred(m: RuleAutomaton, tree: Tree, words: seq<Word>, traces: seq<Trace>, maxStates: nat) {
    && Represents(tree, words, traces)
    && Reduced(m)
    && m.StateCount() <= Max(1, maxStates)
    && (AllReadable(traces) ==> AnswersMajority(m, AllObservations(traces)))
  }

  /** No predictor that sees only the prefix makes fewer errors on the evidence than `m`. */
  ghost predicate TrainingBest(m: RuleAutomaton, traces: seq<Trace>)
    requires m.Valid()
  {
    forall f: Word -> nat :: Errors(AllObservations(traces), Predictor(m)) <= Errors(AllObservations(traces), f)
  }

  lemma InferredParts(m: RuleAutomaton, tree: Tree, words: seq<Word>, traces: seq<Trace>, maxStates: nat)
    requires Inferred(m, tree, words, traces, maxStates)
    ensures Reduced(m) && m.Valid() && m.StateCount() <= Max(1, maxStates)
    ensures AllReadable(traces) ==> AnswersMajority(m, AllObservations(traces))
    ensures AllReadable(traces) && AllBinary(traces) ==> TrainingBest(m, traces)
  {
    hide Represents, AnswersMajority, AllReadable, AllBinary, Errors;
    assert m.Valid();
    if AllReadable(traces) && AllBinary(traces) {
      forall f: Word -> nat
        ensures Errors(AllObservations(traces), Predictor(m)) <= Errors(AllObservations(traces), f)
      {
        TrainingOptimal(tree, words, traces, m, f);
      }
    }
  }

  lemma MinimizedStill(tree: Tree, words: seq<Word>, traces: seq<Trace>, m: RuleAutomaton, n: RuleAutomaton,
      maxStates: nat)
    requires Represents(tree, words, traces) && m.Valid() && Reduced(n) && SameBehaviour(m, n)
    requires m.StateCount() <= Max(1, maxStates)
    requires AllReadable(traces) ==> AnswersMajority(m, AllObservations(traces))
    ensures Inferred(n, tree, words, traces, maxStates)
  {
    hide Represents, AnswersMajority, AllReadable, Reduced;
    ReducedIsValid(n);
    SameBehaviourSymmetric(m, n);
    ReducedIsSmallest(n, m);
    if AllReadable(traces) {
      MajorityCarriesOver(m, n, AllObservations(traces));
    }
  }

  /** The partition in which every node is its own class. */
  method Singletons(t: Tree, ghost maxStates: nat) returns (p: Partition)
    requires Bounded(t) && t.nodes > 0
    ensures fresh(p) && Merging(t, p, [0], maxStates)
    ensures |p.cls| == t.nodes && (forall i :: 0 <= i < t.nodes ==> p.cls[i] == i) && p.child == t.child
      && p.output == t.output
  {
    var own := seq(t.nodes, i requires 0 <= i < t.nodes => i);
    ghost var level := seq(t.nodes, _ => 0);
    SingletonForest(own, level);
    p := new Partition(own, t.child, t.output, own, level, 1);
    MergingStart(t, p, maxStates);
  }

  /** No edge leads out of the settled classes. */
  ghost predicate Settled(tree: Tree, cls: seq<nat>, child: map<Key, nat>, settled: set<nat>) {
    forall s :: s in settled ==> FrontierClosed(cls, child, settled, [], s, tree.symbolCount)
  }

  /** No two red states can be merged any more: every congruence above `cls` that joins them is conflicted. */
  ghost predicate Apart(tree: Tree, cls: seq<nat>, red: seq<nat>) {
    forall i, j :: 0 <= i < j < |red| ==> Unmergeable(tree, cls, red[i], red[j])
  }

  /** What merges above a coarser partition also merges above the finer one. */
  lemma UnmergeableStays(tree: Tree, cls: seq<nat>, after: seq<nat>, a: nat, b: nat)
    requires Unmergeable(tree, cls, a, b) && Coarser(cls, after)
    ensures Unmergeable(tree, after, a, b)
  {
    hide Congruence, Conflict;
    forall e | Admits(tree, after, a, b, e)
      ensures Conflict(tree, e)
    {
      assert Coarser(cls, e);
      assert Admits(tree, cls, a, b, e);
    }
  }

  lemma ApartStays(tree: Tree, cls: seq<nat>, after: seq<nat>, red: seq<nat>)
    requires Apart(tree, cls, red) && Improves(tree, cls, after)
    ensures Apart(tree, after, red)
  {
    hide Unmergeable, Coarser, Roots;
    forall i, j | 0 <= i < j < |red|
      ensures Unmergeable(tree, after, red[i], red[j])
    {
      UnmergeableStays(tree, cls, after, red[i], red[j]);
    }
  }

  /** A state that cannot be merged with a class's root cannot be merged with any of its members. */
  lemma UnmergeableWithMember(tree: Tree, cls: seq<nat>, member: nat, c: nat)
    requires ClassMap(cls) && member < |cls| && Unmergeable(tree, cls, cls[member], c)
    ensures Unmergeable(tree, cls, member, c)
  {
    hide Congruence, Conflict;
    forall e | Admits(tree, cls, member, c, e)
      ensures Conflict(tree, e)
    {
      assert At(cls, cls[member]) == cls[member];
      assert e[cls[member]] == e[member];
      assert Admits(tree, cls, cls[member], c, e);
    }
  }

  lemma ApartPromoted(tree: Tree, cls: seq<nat>, red: seq<nat>, states: seq<nat>, c: nat)
    requires ClassMap(cls) && AllBelow(red, |cls|) && Apart(tree, cls, red)
    requires forall x :: x in states <==> x in RedRoots(cls, red)
    requires NothingFits(tree, cls, states, |states|, c)
    ensures Apart(tree, cls, red + [c])
  {
    hide Unmergeable, ClassMap;
    var more := red + [c];
    forall i, j | 0 <= i < j < |more|
      ensures Unmergeable(tree, cls, more[i], more[j])
    {
      if j == |red| {
        assert At(cls, red[i]) in RedRoots(cls, red);
        assert At(cls, red[i]) in states;
        var k :| 0 <= k < |states| && states[k] == At(cls, red[i]);
        assert Unmergeable(tree, cls, states[k], c);
        UnmergeableWithMember(tree, cls, red[i], c);
      }
    }
  }

  lemma OneRed(tree: Tree, cls: seq<nat>)
    ensures Apart(tree, cls, [0])
  {
  }

  lemma FitsNowhere(tree: Tree, cls: seq<nat>, states: seq<nat>, blue: seq<nat>, c: nat)
    requires FirstMisfit(tree, cls, states, blue, c)
    ensures c in blue && NothingFits(tree, cls, states, |states|, c)
  {
    hide NothingFits;
  }

  lemma QuotientClassMap(tree: Tree, cls: seq<nat>, child: map<Key, nat>, output: map<Key, nat>)
    requires Quotiented(tree, cls, child, output)
    ensures ClassMap(cls) && |cls| == tree.nodes
  {
  }

  // ---------------------------------------------------------------- runs of the loop

  /** What the outer loop carries from round to round. */
  datatype Stage = Stage(cls: seq<nat>, child: map<Key, nat>, output: map<Key, nat>, red: seq<nat>)

  /** An unsettled class one edge away from a red one. */
  ghost predicate OnFrontier(tree: Tree, stage: Stage, c: nat) {
    && c < |stage.cls| && stage.cls[c] == c && c !in RedRoots(stage.cls, stage.red)
    && OneEdgeAway(stage.cls, stage.child, RedRoots(stage.cls, stage.red), c, tree.symbolCount)
  }

  /** The class cannot be merged into any red class. */
  ghost predicate FitsNoRed(tree: Tree, stage: Stage, c: nat) {
    forall r :: r in RedRoots(stage.cls, stage.red) ==> Unmergeable(tree, stage.cls, r, c)
  }

  /** `d` is on the frontier and surveyed before `c`. */
  ghost predicate SurveyedBefore(tree: Tree, stage: Stage, walk: seq<nat>, d: nat, c: nat) {
    OnFrontier(tree, stage, d) && Earlier(stage.cls, stage.child, walk, tree.symbolCount, d, c)
  }

  /**
   A round that promotes: of the frontier classes that fit nowhere, the first to be surveyed
   becomes red, and nothing else changes.
   */
  ghost predicate Promotes(tree: Tree, before: Stage, after: Stage, walk: seq<nat>) {
    exists c :: OnFrontier(tree, before, c) && FitsNoRed(tree, before, c) && after == before.(red := before.red + [c])
      && forall d :: SurveyedBefore(tree, before, walk, d, c) ==> !FitsNoRed(tree, before, d)
  }

  /**
   `after` is the fold of a frontier class into a red class, the least red class to give
   evidence `v`; frontier classes surveyed before fold with less evidence, or not at all.
   */
  ghost predicate FoldsFrontier(tree: Tree, before: Stage, after: Stage, walk: seq<nat>, v: nat) {
    exists r, c :: r in RedRoots(before.cls, before.red) && OnFrontier(tree, before, c)
      && FoldedTo(tree, before.cls, r, c, v, after.cls, after.child, after.output)
      && LeastToGive(tree, before, r, c, v)
      && forall d :: SurveyedBefore(tree, before, walk, d, c) ==> BeatenByAll(tree, before, d, v)
  }

  /** Smaller red classes take `c` with less evidence than `v`, or not at all. */
  ghost predicate LeastToGive(tree: Tree, before: Stage, r: nat, c: nat, v: nat) {
    forall s :: s in RedRoots(before.cls, before.red) && s < r ==> Beaten(tree, before.cls, s, c, v)
  }

  /** Every red class takes `d` with less evidence than `v`, or not at all. */
  ghost predicate BeatenByAll(tree: Tree, before: Stage, d: nat, v: nat) {
    forall s :: s in RedRoots(before.cls, before.red) ==> Beaten(tree, before.cls, s, d, v)
  }

  /** No fold of a frontier class into a red class has more evidence than `v`. */
  ghost predicate NoneBeats(tree: Tree, before: Stage, v: nat) {
    forall r, c :: r in RedRoots(before.cls, before.red) && OnFrontier(tree, before, c) ==>
      Dominated(tree, before.cls, r, c, v)
  }

  /**
   A round that merges: every frontier class fits somewhere, and the first fold with the
   most evidence is taken, in the order the frontier is surveyed and the red classes ascend.
   */
  ghost predicate Merges(tree: Tree, before: Stage, after: Stage, walk: seq<nat>) {
    && after.red == before.red
    && (forall c :: OnFrontier(tree, before, c) ==> !FitsNoRed(tree, before, c))
    && exists v: nat :: FoldsFrontier(tree, before, after, walk, v) && NoneBeats(tree, before, v)
  }

  /** One round, for some order in which the settled set was walked. */
  ghost predicate Round(tree: Tree, before: Stage, after: Stage) {
    exists walk: seq<nat> :: Walks(walk, RedRoots(before.cls, before.red))
      && (Promotes(tree, before, after, walk) || Merges(tree, before, after, walk))
  }

  /** A run starts from the tree with its root red and goes round by round. */
  ghost predicate Run(tree: Tree, stages: seq<Stage>) {
    && |stages| > 0
    && stages[0].child == tree.child && stages[0].output == tree.output && stages[0].red == [0]
    && |stages[0].cls| == tree.nodes && (forall i :: 0 <= i < tree.nodes ==> stages[0].cls[i] == i)
    && forall i :: 0 < i < |stages| ==> Round(tree, stages[i - 1], stages[i])
  }

  function Last(stages: seq<Stage>): Stage {
    if stages == [] then Stage([], map[], map[], []) else stages[|stages| - 1]
  }

  lemma RunStarts(tree: Tree, stage: Stage)
    requires stage.child == tree.child && stage.output == tree.output && stage.red == [0]
    requires |stage.cls| == tree.nodes && forall i :: 0 <= i < tree.nodes ==> stage.cls[i] == i
    ensures Run(tree, [stage])
  {
  }

  lemma RunGrows(tree: Tree, stages: seq<Stage>, next: Stage)
    requires Run(tree, stages) && Round(tree, Last(stages), next)
    ensures Run(tree, stages + [next]) && Last(stages + [next]) == next
  {
    hide Round;
  }

  /** The surveyed frontier is the frontier. */
  lemma FrontierIsBlue(tree: Tree, stage: Stage, blue: seq<nat>)
    requires Unsettled(stage.cls, RedRoots(stage.cls, stage.red), blue)
    requires forall s :: s in RedRoots(stage.cls, stage.red) ==>
      FrontierClosed(stage.cls, stage.child, RedRoots(stage.cls, stage.red), blue, s, tree.symbolCount)
    requires forall j :: 0 <= j < |blue| ==>
      OneEdgeAway(stage.cls, stage.child, RedRoots(stage.cls, stage.red), blue[j], tree.symbolCount)
    ensures forall c: nat :: OnFrontier(tree, stage, c) <==> c in blue
  {
    hide RedRoots;
    var settled := RedRoots(stage.cls, stage.red);
    forall c: nat | OnFrontier(tree, stage, c)
      ensures c in blue
    {
      var k :| k in stage.child && k.0 in settled && k.1 < tree.symbolCount && At(stage.cls, stage.child[k]) == c;
      assert k == (k.0, k.1);
      assert FrontierClosed(stage.cls, stage.child, settled, blue, k.0, tree.symbolCount);
    }
  }

  /** Fitting none of the listed states is fitting no red class. */
  lemma FitsNoListed(tree: Tree, stage: Stage, states: seq<nat>, c: nat)
    requires forall x :: x in states <==> x in RedRoots(stage.cls, stage.red)
    ensures NothingFits(tree, stage.cls, states, |states|, c) <==> FitsNoRed(tree, stage, c)
  {
    hide Unmergeable, RedRoots;
    if NothingFits(tree, stage.cls, states, |states|, c) {
      forall r | r in RedRoots(stage.cls, stage.red)
        ensures Unmergeable(tree, stage.cls, r, c)
      {
        assert r in states;
        var i :| 0 <= i < |states| && states[i] == r;
      }
    }
    assert forall i :: 0 <= i < |states| ==> states[i] in states;
  }

  /** What is surveyed before a listed class is listed before it. */
  lemma ListedBefore(tree: Tree, stage: Stage, walk: seq<nat>, blue: seq<nat>, j: nat, d: nat) returns (k: nat)
    requires Surveyed(stage.cls, stage.child, walk, tree.symbolCount, blue)
    requires j < |blue| && d in blue && SurveyedBefore(tree, stage, walk, d, blue[j])
    ensures k < j && blue[k] == d
  {
    hide Earlier;
    k :| 0 <= k < |blue| && blue[k] == d;
    assert j < k ==> Earlier(stage.cls, stage.child, walk, tree.symbolCount, blue[j], blue[k]);
    EarlierOneWay(stage.cls, stage.child, walk, tree.symbolCount, d, blue[j]);
  }

  lemma PromotionRound(tree: Tree, stage: Stage, walk: seq<nat>, states: seq<nat>, blue: seq<nat>, c: nat)
    requires Walks(walk, RedRoots(stage.cls, stage.red))
    requires Surveyed(stage.cls, stage.child, walk, tree.symbolCount, blue)
    requires forall x :: x in states <==> x in RedRoots(stage.cls, stage.red)
    requires forall b: nat :: OnFrontier(tree, stage, b) <==> b in blue
    requires FirstMisfit(tree, stage.cls, states, blue, c)
    ensures Round(tree, stage, stage.(red := stage.red + [c]))
  {
    hide OnFrontier, FitsNoRed, NothingFits, RedRoots, Surveyed, Earlier, Walks;
    FitsNoListed(tree, stage, states, c);
    var j :| 0 <= j < |blue| && blue[j] == c
      && forall k :: 0 <= k < j ==> !NothingFits(tree, stage.cls, states, |states|, blue[k]);
    forall d | SurveyedBefore(tree, stage, walk, d, c)
      ensures !FitsNoRed(tree, stage, d)
    {
      var k := ListedBefore(tree, stage, walk, blue, j, d);
      FitsNoListed(tree, stage, states, d);
    }
    assert Promotes(tree, stage, stage.(red := stage.red + [c]), walk);
  }

  lemma EarlierIsSmaller(tree: Tree, stage: Stage, states: seq<nat>, i: nat, c: nat, v: nat)
    requires Ascending(states) && forall x :: x in states <==> x in RedRoots(stage.cls, stage.red)
    requires i < |states| && BeatenBefore(tree, stage.cls, states, i, c, v)
    ensures LeastToGive(tree, stage, states[i], c, v)
  {
    hide RedRoots, Beaten;
    forall s | s in RedRoots(stage.cls, stage.red) && s < states[i]
      ensures Beaten(tree, stage.cls, s, c, v)
    {
      assert s in states;
      var k :| 0 <= k < |states| && states[k] == s;
      assert k < i;
    }
  }

  /** What no listed state gives is given by no red class. */
  lemma BeatenListed(tree: Tree, stage: Stage, states: seq<nat>, d: nat, v: nat)
    requires forall x :: x in states <==> x in RedRoots(stage.cls, stage.red)
    requires BeatenBefore(tree, stage.cls, states, |states|, d, v)
    ensures BeatenByAll(tree, stage, d, v)
  {
    hide Beaten, RedRoots;
    forall s | s in RedRoots(stage.cls, stage.red)
      ensures Beaten(tree, stage.cls, s, d, v)
    {
      assert s in states;
    }
  }

  /** The first best fold, in terms of the red classes and the frontier. */
  lemma FirstFold(tree: Tree, stage: Stage, after: Stage, walk: seq<nat>, states: seq<nat>, blue: seq<nat>, v: nat)
    requires Surveyed(stage.cls, stage.child, walk, tree.symbolCount, blue)
    requires Ascending(states) && forall x :: x in states <==> x in RedRoots(stage.cls, stage.red)
    requires forall b: nat :: OnFrontier(tree, stage, b) <==> b in blue
    requires FoldsAny(tree, stage.cls, states, blue, |blue|, v, after.cls, after.child, after.output)
    ensures FoldsFrontier(tree, stage, after, walk, v)
  {
    hide OnFrontier, FoldedTo, RedRoots, BeatenBefore, BeatenByAll, LeastToGive, Surveyed, Earlier;
    var j :| 0 <= j < |blue| && FoldsOne(tree, stage.cls, states, |states|, blue[j], v, after.cls,
      after.child, after.output)
      && forall k :: 0 <= k < j ==> BeatenBefore(tree, stage.cls, states, |states|, blue[k], v);
    var i :| 0 <= i < |states| && FoldedTo(tree, stage.cls, states[i], blue[j], v, after.cls,
      after.child, after.output)
      && BeatenBefore(tree, stage.cls, states, i, blue[j], v);
    EarlierIsSmaller(tree, stage, states, i, blue[j], v);
    assert states[i] in states && blue[j] in blue;
    forall d | SurveyedBefore(tree, stage, walk, d, blue[j])
      ensures BeatenByAll(tree, stage, d, v)
    {
      var k := ListedBefore(tree, stage, walk, blue, j, d);
      BeatenListed(tree, stage, states, d, v);
    }
  }

  lemma MergingRound(tree: Tree, stage: Stage, after: Stage, walk: seq<nat>, states: seq<nat>, blue: seq<nat>,
      unmergeable: seq<nat>, v: nat)
    requires Walks(walk, RedRoots(stage.cls, stage.red))
    requires Surveyed(stage.cls, stage.child, walk, tree.symbolCount, blue)
    requires Ascending(states) && forall x :: x in states <==> x in RedRoots(stage.cls, stage.red)
    requires forall b: nat :: OnFrontier(tree, stage, b) <==> b in blue
    requires unmergeable == [] && forall j :: 0 <= j < |blue| ==>
      (blue[j] in unmergeable <==> NothingFits(tree, stage.cls, states, |states|, blue[j]))
    requires FoldsAny(tree, stage.cls, states, blue, |blue|, v, after.cls, after.child, after.output)
    requires forall j :: 0 <= j < |blue| ==>
      BestForAll(tree, stage.cls, states, |states|, blue[j], Some(v))
    requires after.red == stage.red
    ensures Round(tree, stage, after)
  {
    hide OnFrontier, FitsNoRed, NothingFits, FoldedTo, Dominated, RedRoots, FoldsAny, FoldsFrontier, Surveyed, Walks;
    FirstFold(tree, stage, after, walk, states, blue, v);
    forall r, c | r in RedRoots(stage.cls, stage.red) && OnFrontier(tree, stage, c)
      ensures Dominated(tree, stage.cls, r, c, v)
    {
      assert r in states && c in blue;
      var a :| 0 <= a < |states| && states[a] == r;
      var b :| 0 <= b < |blue| && blue[b] == c;
      assert BestForAll(tree, stage.cls, states, |states|, blue[b], Some(v));
      assert BestSoFar(tree, stage.cls, states[a], blue[b], Some(v));
    }
    forall c | OnFrontier(tree, stage, c)
      ensures !FitsNoRed(tree, stage, c)
    {
      assert c in blue;
      FitsNoListed(tree, stage, states, c);
    }
    assert Merges(tree, stage, after, walk);
  }

  /**
   The loop of `infer_by_merging`: merge the best-supported pair, or promote a state
   that fits nowhere, until no edge leaves the red classes or there are too many of
   them. Every round either loses a class or settles one more, red states stay pairwise
   unmergeable, and `stages` records the rounds.
   */
  method MergeLoop(t: Tree, maxStates: nat)
    returns (partition: Partition, red: seq<nat>, overfull: bool, ghost stages: seq<Stage>)
    requires Bounded(t) && t.nodes > 0
    ensures Run(t, stages) && Last(stages) == Stage(partition.cls, partition.child, partition.output, red)
    ensures overfull <==> |red| > Max(1, maxStates)
    ensures !overfull ==> fresh(partition) && Merging(t, partition, red, maxStates)
    ensures !overfull ==> Settled(t, partition.cls, partition.child, RedRoots(partition.cls, red))
    ensures overfull ==> AllBelow(red, t.nodes) && Quotiented(t, partition.cls, partition.child, partition.output)
    ensures Apart(t, partition.cls, red)
  {
    hide Quotiented, Forest, Bounded, Improves, FrontierClosed, Unmergeable, Roots, BestForAll, NothingFits, ChildSound,
      Apart, ClassMap;
    hide Run, Round, OnFrontier, FoldsAny, RedRoots, OneEdgeAway, Surveyed, Walks, FirstMisfit;
    partition := Singletons(t, maxStates);
    red, overfull := [0], false;
    OneRed(t, partition.cls);
    stages := [Stage(partition.cls, partition.child, partition.output, red)];
    RunStarts(t, stages[0]);
    while true
      invariant fresh(partition) && Merging(t, partition, red, maxStates)
      invariant Run(t, stages) && Last(stages) == Stage(partition.cls, partition.child, partition.output, red)
      invariant Apart(t, partition.cls, red) && !overfull
      decreases |Roots(partition.cls)|, |Roots(partition.cls) - RedRoots(partition.cls, red)|
    {
      ghost var walk;
      var states, blue;
      states, blue, walk := Survey(partition, red, t.symbolCount, maxStates, t);
      if blue == [] {
        return;
      }
      ghost var stage := Stage(partition.cls, partition.child, partition.output, red);
      FrontierIsBlue(t, stage, blue);
      MergingQuotient(t, partition, red, maxStates);
      var best, unmergeable := BestMerge(partition, states, blue, t.symbolCount, t);
      if unmergeable != [] {
        // Fitting into no settled class, the candidate becomes a red state of its own.
        var promoted := unmergeable[0];
        FitsNowhere(t, partition.cls, states, blue, promoted);
        Promote(t, partition, red, blue, promoted);
        QuotientClassMap(t, partition.cls, partition.child, partition.output);
        ApartPromoted(t, partition.cls, red, states, promoted);
        PromotionRound(t, stage, walk, states, blue, promoted);
        red := red + [promoted];
        RunGrows(t, stages, stage.(red := red));
        stages := stages + [stage.(red := red)];
        if |red| > maxStates {
          overfull := true;
          return;
        }
        continue;
      }
      if best.None? {
        assert false;
        return;
      }
      Progress(t, partition.cls, best.value.1.cls);
      ApartStays(t, partition.cls, best.value.1.cls, red);
      MergedSize(t, best.value.1);
      ghost var after := Stage(best.value.1.cls, best.value.1.child, best.value.1.output, red);
      MergingRound(t, stage, after, walk, states, blue, unmergeable, best.value.0);
      RunGrows(t, stages, after);
      stages := stages + [after];
      partition := best.value.1;
    }
  }

  // --------------------------------------------------------- how far merging has gone

  /** The word leads to a node of the tree. */
  ghost predicate Visited(tree: Tree, w: Word) {
    InAlphabet(w, tree.symbolCount) && NodeAt(tree.child, w).Some?
  }

  ghost predicate SameClass(tree: Tree, cls: seq<nat>, u: Word, v: Word) {
    Visited(tree, u) && Visited(tree, v) && At(cls, NodeAt(tree.child, u).value) == At(cls, NodeAt(tree.child, v).value)
  }

  /** A coarser congruence that identifies two visited prefixes `cls` keeps apart. */
  ghost predicate MergesMore(tree: Tree, cls: seq<nat>, e: seq<nat>, u: Word, v: Word) {
    Congruence(tree, e) && Coarser(cls, e) && SameClass(tree, e, u, v) && !SameClass(tree, cls, u, v)
  }

  /** Nothing more can be merged: identifying any two further prefixes contradicts the evidence. */
  ghost predicate Exhausted(tree: Tree, cls: seq<nat>) {
    forall e: seq<nat>, u: Word, v: Word :: MergesMore(tree, cls, e, u, v) ==> Conflict(tree, e)
  }

  /** Prefixes in one class lead the machine to one state. */
  ghost predicate FactorsThrough(tree: Tree, cls: seq<nat>, m: RuleAutomaton) {
    && m.Valid() && m.symbolCount == tree.symbolCount
    && forall u: Word, v: Word :: SameClass(tree, cls, u, v) ==> Reach(m, 0, u) == Reach(m, 0, v)
  }

  lemma {:induction false} WordSettled(tree: Tree, cls: seq<nat>, child: map<Key, nat>, output: map<Key, nat>,
      settled: set<nat>, w: Word)
    requires Bounded(tree) && tree.nodes > 0 && Quotiented(tree, cls, child, output)
    requires At(cls, 0) in settled && Settled(tree, cls, child, settled) && Visited(tree, w)
    ensures NodeAt(tree.child, w).value < |cls| && At(cls, NodeAt(tree.child, w).value) in settled
    decreases |w|
  {
    hide ChildSound, OutputSound, OutputComplete, ClassMap;
    if w != [] {
      var u, y := w[..|w| - 1], w[|w| - 1];
      WordSettled(tree, cls, child, output, settled, u);
      var n := NodeAt(tree.child, u).value;
      assert (n, y) in tree.child && (n, y).0 == n && (n, y).1 == y;
      assert FrontierClosed(cls, child, settled, [], At(cls, n), tree.symbolCount);
    }
  }

  lemma ApartPair(tree: Tree, cls: seq<nat>, red: seq<nat>, i: nat, j: nat, e: seq<nat>)
    requires Apart(tree, cls, red) && i < |red| && j < |red| && i != j
    requires Congruence(tree, e) && Coarser(cls, e) && At(e, red[i]) == At(e, red[j])
    ensures Conflict(tree, e)
  {
    hide Conflict, Congruence, Coarser;
    if i < j {
      assert Unmergeable(tree, cls, red[i], red[j]) && Admits(tree, cls, red[i], red[j], e);
    } else {
      assert Unmergeable(tree, cls, red[j], red[i]) && Admits(tree, cls, red[j], red[i], e);
    }
  }

  /**
   Once no edge leaves the red classes, every visited prefix sits in one of them, and they
   cannot be merged.
   */
  lemma SettledIsExhausted(tree: Tree, cls: seq<nat>, child: map<Key, nat>, output: map<Key, nat>, red: seq<nat>)
    requires Bounded(tree) && tree.nodes > 0 && Quotiented(tree, cls, child, output)
    requires RedList(red, tree.nodes) && Apart(tree, cls, red) && Settled(tree, cls, child, RedRoots(cls, red))
    ensures Exhausted(tree, cls)
  {
    hide Quotiented, Conflict, Congruence, Apart, NodeAt, Settled, Bounded;
    QuotientClassMap(tree, cls, child, output);
    hide ClassMap;
    assert At(cls, red[0]) in RedRoots(cls, red);
    forall e: seq<nat>, u: Word, v: Word | MergesMore(tree, cls, e, u, v)
      ensures Conflict(tree, e)
    {
      WordSettled(tree, cls, child, output, RedRoots(cls, red), u);
      WordSettled(tree, cls, child, output, RedRoots(cls, red), v);
      var i :| 0 <= i < |red| && At(cls, red[i]) == At(cls, NodeAt(tree.child, u).value);
      var j :| 0 <= j < |red| && At(cls, red[j]) == At(cls, NodeAt(tree.child, v).value);
      ApartPair(tree, cls, red, i, j, e);
    }
  }

  lemma ReadOffFactors(tree: Tree, cls: seq<nat>, child: map<Key, nat>, output: map<Key, nat>, order: seq<nat>,
      m: RuleAutomaton)
    requires Quotiented(tree, cls, child, output) && ReadOff(tree, cls, child, output, order, m) && m.Valid()
    requires |order| > 0 && order[0] == At(cls, 0) && ClosedClasses(tree, cls, child, order) && Distinct(order)
    ensures FactorsThrough(tree, cls, m)
  {
    hide Quotiented, NodeAt, ClosedClasses, Reach, RuleAutomaton.Valid;
    ReadOffAlphabet(tree, cls, child, output, order, m);
    hide ReadOff;
    forall u: Word, v: Word | SameClass(tree, cls, u, v)
      ensures Reach(m, 0, u) == Reach(m, 0, v)
    {
      MachineTracks(tree, cls, child, output, order, m, u);
      MachineTracks(tree, cls, child, output, order, m, v);
    }
  }

  lemma ReadOffAlphabet(tree: Tree, cls: seq<nat>, child: map<Key, nat>, output: map<Key, nat>, order: seq<nat>,
      m: RuleAutomaton)
    requires ReadOff(tree, cls, child, output, order, m)
    ensures m.symbolCount == tree.symbolCount && (m.Valid() ==> m.StateCount() > 0)
  {
  }

  /** Minimization keeps prefixes of one class together. */
  lemma FactorsMinimized(tree: Tree, cls: seq<nat>, m: RuleAutomaton, n: RuleAutomaton)
    requires FactorsThrough(tree, cls, m) && Reduced(n) && n.Valid() && SameBehaviour(n, m)
    ensures FactorsThrough(tree, cls, n)
  {
    hide Reach, NodeAt;
    forall u: Word, v: Word | SameClass(tree, cls, u, v)
      ensures Reach(n, 0, u) == Reach(n, 0, v)
    {
      if Reach(n, 0, u) != Reach(n, 0, v) {
        assert Distinguishable(n, Reach(n, 0, u), Reach(n, 0, v));
        var w: Word :| TellsApart(n, Reach(n, 0, u), Reach(n, 0, v), w);
        SameLanding(n, m, u, v, w);
        assert false;
      }
    }
  }

  /** Why there is no hypothesis: more red states than allowed, no two of which can be merged. */
  ghost predicate Stuck(tree: Tree, words: seq<Word>, traces: seq<Trace>, final: seq<nat>, red: seq<nat>,
      maxStates: nat)
  {
    && Represents(tree, words, traces)
    && Congruence(tree, final) && !Conflict(tree, final)
    && |red| > maxStates && AllBelow(red, tree.nodes) && Apart(tree, final, red)
  }

  /** A hypothesis is missed only when the evidence has more prefixes than the states allowed. */
  lemma StuckNeedsPrefixes(tree: Tree, words: seq<Word>, traces: seq<Trace>, final: seq<nat>, red: seq<nat>,
      maxStates: nat)
    requires Stuck(tree, words, traces, final, red, maxStates)
    ensures |red| <= tree.nodes && maxStates < tree.nodes
  {
    hide Represents, Congruence, Conflict;
    forall i, j | 0 <= i < j < |red|
      ensures red[i] != red[j]
    {
      CoarserReflexive(final);
      ApartDistinct(tree, final, red, i, j);
    }
    DistinctLength(red, tree.nodes);
  }

  lemma ApartDistinct(tree: Tree, cls: seq<nat>, red: seq<nat>, i: nat, j: nat)
    requires Apart(tree, cls, red) && i < j < |red| && Congruence(tree, cls) && !Conflict(tree, cls)
      && Coarser(cls, cls)
    ensures red[i] != red[j]
  {
    hide Congruence, Conflict;
    assert Unmergeable(tree, cls, red[i], red[j]);
    assert !Admits(tree, cls, red[i], red[j], cls);
  }

  /**
   `infer_by_merging`. Without episodes there is no hypothesis; the exceptions are
   episodes without a symbol and an alphabet too small for a machine. Otherwise the
   outer loop makes the run `stages`, and how many red states it ends with decides: more
   than the limit, no two of which can be merged, give None. A returned machine is
   minimal, has at most `max_states` states, answers the majority label of every scored
   prefix, and is a quotient of the prefix tree in which no two further prefixes can be
   identified. It behaves as the machine read off the last partition of the run, on
   streams no episode contains too.
   */
  method InferByMerging(traces: seq<Trace>, maxStates: nat)
    returns (r: Result<Option<RuleAutomaton>>, ghost tree: Tree, ghost words: seq<Word>, ghost stages: seq<Stage>)
    ensures r.Failure? <==>
      && traces != []
      && (!SomeSymbol(traces, |traces|) || (MaxSymbolCount(traces) < 2 && |Last(stages).red| <= Max(1, maxStates)))
    ensures r == Success(None) <==>
      traces == [] || (SomeSymbol(traces, |traces|) && |Last(stages).red| > Max(1, maxStates))
    ensures traces != [] && SomeSymbol(traces, |traces|) ==> Represents(tree, words, traces) && Run(tree, stages)
    ensures r.Success? && r.value.Some? ==>
      && Reduced(r.value.value) && r.value.value.Valid() && InStateOrder(r.value.value)
      && r.value.value.StateCount() <= Max(1, maxStates)
    ensures r.Success? && r.value.Some? ==>
      LargestDeclared(traces, r.value.value.symbolCount) && r.value.value.actionCount == 2
    ensures r.Success? && r.value.Some? && AllReadable(traces) ==>
      AnswersMajority(r.value.value, AllObservations(traces))
    ensures r.Success? && r.value.Some? && AllReadable(traces) && AllBinary(traces) ==>
      TrainingBest(r.value.value, traces)
    ensures r.Success? && r.value.Some? ==> Inferred(r.value.value, tree, words, traces, maxStates)
    ensures r.Success? && r.value.Some? ==>
      var final := Last(stages).cls;
      Congruence(tree, final) && !Conflict(tree, final) && Exhausted(tree, final)
        && FactorsThrough(tree, final, r.value.value)
    ensures r.Success? && r.value.Some? ==> BehavesAs(tree, Last(stages), r.value.value)
    ensures traces != [] && r == Success(None) ==>
      Stuck(tree, words, traces, Last(stages).cls, Last(stages).red, maxStates)
  {
    hide Represents, Quotiented, Forest, Bounded, Inferred, AnswersMajority, ReadOff, AllReadable, Reduced, ChildSound,
      Settled, SomeSymbol;
    hide Apart, Exhausted, FactorsThrough, Congruence, Conflict, ClosedClasses, Run, TrainingBest, AllBinary, BehavesAs,
      LargestDeclared, SameBehaviour, InStateOrder;
    tree, words, stages := Tree(map[], map[], 0, 0, 0, 0), [], [];
    if traces == [] {
      return Success(None), tree, words, stages;
    }
    var built: Result<Tree>;
    built, words := BuildTree(traces);
    if built.Failure? {
      return Failure(built.message), tree, words, stages;
    }
    var t := built.value;
    tree := t;
    RepresentsBounded(t, words, traces);
    var partition, red, overfull;
    partition, red, overfull, stages := MergeLoop(t, maxStates);
    QuotientedIsCongruence(t, partition.cls, partition.child, partition.output);
    if overfull {
      return Success(None), tree, words, stages;
    }
    ghost var settled := RedRoots(partition.cls, red);
    QuotientedParts(t, partition.cls, partition.child, partition.output);
    SettledIsExhausted(t, partition.cls, partition.child, partition.output, red);
    var machine, order := ToAutomaton(partition, red, t.symbolCount, t);
    Finish(t, words, traces, partition.cls, partition.child, partition.output, settled, order, machine);
    SymbolCountOfTree(t, words, traces);
    var minimal := Minimize(machine);
    if minimal.Failure? {
      return Failure(minimal.message), tree, words, stages;
    }
    ReadOffSize(t, partition.cls, partition.child, partition.output, order, machine);
    FrontierEmptyCloses(t, partition.cls, partition.child, settled, order);
    ReadOffFactors(t, partition.cls, partition.child, partition.output, order, machine);
    ReducedIsValid(minimal.value);
    SameBehaviourSymmetric(machine, minimal.value);
    FactorsMinimized(t, partition.cls, machine, minimal.value);
    MinimizedStill(t, words, traces, machine, minimal.value, maxStates);
    InferredParts(minimal.value, t, words, traces, maxStates);
    BehavesAsRead(t, Last(stages), order, machine, minimal.value);
    InferredAlphabet(t, words, traces, Last(stages), order, machine, minimal.value);
    return Success(Some(minimal.value)), tree, words, stages;
  }

  lemma BehavesAsRead(tree: Tree, stage: Stage, order: seq<nat>, raw: RuleAutomaton, m: RuleAutomaton)
    requires Distinct(order) && |order| > 0 && order[0] == At(stage.cls, 0)
    requires forall r :: r in order <==> r in RedRoots(stage.cls, stage.red)
    requires ReadOff(tree, stage.cls, stage.child, stage.output, order, raw) && raw.Valid() && m.Valid()
    requires SameBehaviour(raw, m)
    ensures BehavesAs(tree, stage, m)
  {
    hide ReadOff, RedRoots, SameBehaviour;
  }

  lemma InferredAlphabet(tree: Tree, words: seq<Word>, traces: seq<Trace>, stage: Stage, order: seq<nat>,
      raw: RuleAutomaton, m: RuleAutomaton)
    requires traces != [] && Represents(tree, words, traces)
    requires ReadOff(tree, stage.cls, stage.child, stage.output, order, raw) && raw.Valid() && m.Valid()
    requires SameBehaviour(raw, m)
    ensures LargestDeclared(traces, m.symbolCount) && m.actionCount == 2
  {
    hide Represents;
    SymbolCountOfTree(tree, words, traces);
    MaxIsDeclared(traces);
  }

  lemma MergingQuotient(tree: Tree, p: Partition, red: seq<nat>, maxStates: nat)
    requires Merging(tree, p, red, maxStates)
    ensures p.Valid() && Quotiented(tree, p.cls, p.child, p.output) && |p.cls| == tree.nodes
  {
  }

  /** Promoting a frontier state keeps the loop invariant, the bound on the red list aside. */
  lemma Promote(tree: Tree, p: Partition, red: seq<nat>, blue: seq<nat>, c: nat)
    requires RedList(red, tree.nodes) && Unsettled(p.cls, RedRoots(p.cls, red), blue) && c in blue
      && AllBelow(blue, tree.nodes)
    ensures RedList(red + [c], tree.nodes)
    ensures |Roots(p.cls) - RedRoots(p.cls, red + [c])| < |Roots(p.cls) - RedRoots(p.cls, red)|
  {
    hide Roots, RedRoots;
    PromotionSettles(p.cls, red, c);
    SubsetCardinality(Roots(p.cls) - RedRoots(p.cls, red + [c]), Roots(p.cls) - RedRoots(p.cls, red));
  }

  lemma Progress(tree: Tree, cls: seq<nat>, after: seq<nat>)
    requires Improves(tree, cls, after)
    ensures |Roots(after)| < |Roots(cls)|
  {
    hide Roots, Coarser;
    SubsetCardinality(Roots(after), Roots(cls));
  }

  lemma MergedSize(tree: Tree, q: Partition)
    requires q.Valid() && Quotiented(tree, q.cls, q.child, q.output)
    ensures |q.parent| == tree.nodes
  {
  }

  lemma SymbolCountOfTree(tree: Tree, words: seq<Word>, traces: seq<Trace>)
    requires Represents(tree, words, traces)
    ensures tree.symbolCount == MaxSymbolCount(traces)
  {
  }

  lemma ReadOffSize(tree: Tree, cls: seq<nat>, child: map<Key, nat>, output: map<Key, nat>, order: seq<nat>,
      m: RuleAutomaton)
    requires ReadOff(tree, cls, child, output, order, m)
    ensures m.StateCount() == |order|
  {
  }
}
