/**
 Equivalences on prefix-tree nodes, and what folding one class into another must do to
 the class-level dictionaries (evidence_merging.py, `_Partition` and `_fold`).

 A labelling of nodes is a congruence when it is closed under every edge of the tree,
 and conflicted when it identifies two nodes whose recorded outputs differ. The lemmas
 here say which pairs joining two classes forces, so that a partition with an empty
 work stack is the least congruence that joins them.
 */
module StateMerging {
  import opened Prelude
  import opened EvidenceTree

  // ------------------------------------------------------- equivalences on nodes

  /** The class label of a node. */
  function At(e: seq<nat>, i: nat): nat {
    if i < |e| then e[i] else i
  }

  /** A labelling by representatives. */
  ghost predicate ClassMap(cls: seq<nat>) {
    forall i :: 0 <= i < |cls| ==> cls[i] < |cls| && At(cls, cls[i]) == cls[i]
  }

  /** Nodes together in `fine` are together in `coarse`. */
  ghost predicate Coarser(fine: seq<nat>, coarse: seq<nat>) {
    && |fine| == |coarse|
    && forall i, j :: 0 <= i < |fine| && 0 <= j < |fine| && fine[i] == fine[j] ==> coarse[i] == coarse[j]
  }

  /** Edges stay inside the tree. */
  ghost predicate Bounded(tree: Tree) {
    && (forall k :: k in tree.child ==> k.0 < tree.nodes && tree.child[k] < tree.nodes)
    && (forall k :: k in tree.output ==> k.0 < tree.nodes)
  }

  /** Closed under every edge: equal nodes have equal successors. */
  ghost predicate Congruence(tree: Tree, e: seq<nat>) {
    && |e| == tree.nodes
    && forall k, l ::
      k in tree.child && l in tree.child && k.1 == l.1 && k.1 < tree.symbolCount && At(e, k.0) == At(e, l.0) ==>
      At(e, tree.child[k]) == At(e, tree.child[l])
  }

  /** Two equal nodes were observed to answer differently. */
  ghost predicate Conflict(tree: Tree, e: seq<nat>) {
    exists k, l :: k in tree.output && l in tree.output && k.1 == l.1 && k.1 < tree.symbolCount
      && At(e, k.0) == At(e, l.0) && tree.output[k] != tree.output[l]
  }

  /** A congruence that coarsens `cls` and joins `red` and `blue`. */
  ghost predicate Admits(tree: Tree, cls: seq<nat>, red: nat, blue: nat, e: seq<nat>) {
    Congruence(tree, e) && Coarser(cls, e) && At(e, red) == At(e, blue)
  }

  // ----------------------------------------------- class-level dictionaries

  ghost predicate ChildOrigin(tree: Tree, cls: seq<nat>, k: Key, target: nat) {
    exists m :: m < |cls| && (m, k.1) in tree.child && cls[m] == k.0 && tree.child[(m, k.1)] == target
  }

  ghost predicate OutputOrigin(tree: Tree, cls: seq<nat>, k: Key, want: nat) {
    exists m :: m < |cls| && (m, k.1) in tree.output && cls[m] == k.0 && tree.output[(m, k.1)] == want
  }

  /** Every class-level edge belongs to a root and comes from one of its nodes. */
  ghost predicate ChildSound(tree: Tree, cls: seq<nat>, child: map<Key, nat>) {
    forall k :: k in child && k.1 < tree.symbolCount ==>
      k.0 < |cls| && cls[k.0] == k.0 && child[k] < |cls| && ChildOrigin(tree, cls, k, child[k])
  }

  /** Every tree edge is carried by its class, up to the equivalence `e`. */
  ghost predicate ChildComplete(tree: Tree, cls: seq<nat>, child: map<Key, nat>, e: seq<nat>) {
    forall k :: k in tree.child && k.1 < tree.symbolCount ==>
      (At(cls, k.0), k.1) in child && At(e, child[(At(cls, k.0), k.1)]) == At(e, tree.child[k])
  }

  ghost predicate OutputSound(tree: Tree, cls: seq<nat>, output: map<Key, nat>) {
    forall k :: k in output && k.1 < tree.symbolCount ==>
      k.0 < |cls| && cls[k.0] == k.0 && OutputOrigin(tree, cls, k, output[k])
  }

  /** Every tree output is preserved on its class. */
  ghost predicate OutputComplete(tree: Tree, cls: seq<nat>, output: map<Key, nat>) {
    forall k :: k in tree.output && k.1 < tree.symbolCount ==>
      (At(cls, k.0), k.1) in output && output[(At(cls, k.0), k.1)] == tree.output[k]
  }

  /** The dictionaries are the tree's, read class by class. */
  ghost predicate Quotiented(tree: Tree, cls: seq<nat>, child: map<Key, nat>, output: map<Key, nat>) {
    && |cls| == tree.nodes && ClassMap(cls)
    && ChildSound(tree, cls, child) && ChildComplete(tree, cls, child, cls)
    && OutputSound(tree, cls, output) && OutputComplete(tree, cls, output)
  }

  /** The cells of the classes of `e` that some tree output falls on. */
  ghost function Cells(tree: Tree, e: seq<nat>): set<Key> {
    set k | k in tree.output && k.1 < tree.symbolCount :: (At(e, k.0), k.1)
  }

  /** The keys of a dictionary below the alphabet's end, and those beyond it. */
  ghost function Within(m: map<Key, nat>, symbolCount: nat): set<Key> {
    set k | k in m && k.1 < symbolCount
  }

  ghost function Beyond(m: map<Key, nat>, symbolCount: nat): set<Key> {
    set k | k in m && k.1 >= symbolCount
  }

  lemma WithinAndBeyond(m: map<Key, nat>, symbolCount: nat)
    ensures |m| == |Within(m, symbolCount)| + |Beyond(m, symbolCount)|
  {
    assert m.Keys == Within(m, symbolCount) + Beyond(m, symbolCount);
    assert |m| == |m.Keys|;
  }

  /** The outputs recorded within the alphabet are those of the cells. */
  lemma QuotientCells(tree: Tree, cls: seq<nat>, child: map<Key, nat>, output: map<Key, nat>)
    requires Bounded(tree) && Quotiented(tree, cls, child, output)
    ensures Within(output, tree.symbolCount) == Cells(tree, cls)
  {
    forall k | k in Within(output, tree.symbolCount)
      ensures k in Cells(tree, cls)
    {
      assert OutputOrigin(tree, cls, k, output[k]);
      var m :| m < |cls| && (m, k.1) in tree.output && cls[m] == k.0 && tree.output[(m, k.1)] == output[k];
      assert k == (At(cls, (m, k.1).0), (m, k.1).1);
    }
  }

  lemma {:induction false} RelabelledCells(s: set<Key>, e: seq<nat>)
    ensures |set k | k in s :: (At(e, k.0), k.1)| <= |s|
    decreases |s|
  {
    if s != {} {
      var k :| k in s;
      var rest := s - {k};
      RelabelledCells(rest, e);
      var image := set k | k in rest :: (At(e, k.0), k.1);
      assert (set k | k in s :: (At(e, k.0), k.1)) == image + {(At(e, k.0), k.1)};
    }
  }

  /** Coarser classes have no more cells. */
  lemma CoarserCells(tree: Tree, fine: seq<nat>, coarse: seq<nat>)
    requires Bounded(tree) && |fine| == tree.nodes && ClassMap(fine) && Coarser(fine, coarse)
    ensures |Cells(tree, coarse)| <= |Cells(tree, fine)|
  {
    var image := set k | k in Cells(tree, fine) :: (At(coarse, k.0), k.1);
    forall k | k in tree.output && k.1 < tree.symbolCount
      ensures (At(coarse, k.0), k.1) in image
    {
      var cell := (At(fine, k.0), k.1);
      assert cell in Cells(tree, fine) && fine[cell.0] == fine[k.0];
      assert (At(coarse, cell.0), cell.1) == (At(coarse, k.0), k.1);
    }
    assert Cells(tree, coarse) <= image;
    SubsetCardinality(Cells(tree, coarse), image);
    RelabelledCells(Cells(tree, fine), coarse);
  }

  /** A quotient is a congruence without conflicting outputs. */
  lemma QuotientedIsCongruence(tree: Tree, cls: seq<nat>, child: map<Key, nat>, output: map<Key, nat>)
    requires Quotiented(tree, cls, child, output)
    ensures Congruence(tree, cls) && !Conflict(tree, cls)
  {
  }

  lemma InitialQuotient(tree: Tree, cls: seq<nat>)
    requires Bounded(tree) && |cls| == tree.nodes && forall i :: 0 <= i < |cls| ==> cls[i] == i
    ensures Quotiented(tree, cls, tree.child, tree.output)
  {
    forall k | k in tree.child && k.1 < tree.symbolCount
      ensures ChildOrigin(tree, cls, k, tree.child[k])
    {
      assert k == (k.0, k.1);
    }
    forall k | k in tree.output && k.1 < tree.symbolCount
      ensures OutputOrigin(tree, cls, k, tree.output[k])
    {
      assert k == (k.0, k.1);
    }
  }

  // --------------------------------------------------------------- one absorption

  /** The class map once `second` has been folded into `first`. */
  ghost function Joined(cls: seq<nat>, first: nat, second: nat): (r: seq<nat>)
    ensures |r| == |cls|
  {
    seq(|cls|, i requires 0 <= i < |cls| => if cls[i] == second then first else cls[i])
  }

  type Pair = (nat, nat)

  /** All pairs are equal in `e`. */
  ghost predicate Holds(pairs: seq<Pair>, e: seq<nat>) {
    forall i :: 0 <= i < |pairs| ==> At(e, pairs[i].0) == At(e, pairs[i].1)
  }

  /** The effect on one dictionary of moving the entries of `second` below `symbol` onto `first`. */
  ghost predicate Absorbed(before: map<Key, nat>, after: map<Key, nat>, first: nat, second: nat, symbol: nat) {
    && (forall k :: k in after <==>
          if k.1 < symbol && k.0 == second then false
          else if k.1 < symbol && k.0 == first then k in before || (second, k.1) in before
          else k in before)
    && (forall k :: k in after ==>
          after[k] == if k in before then before[k] else before[(second, k.1)])
  }

  /** What must be merged next: the two successors wherever both classes had one. */
  ghost predicate Pushed(before: map<Key, nat>, first: nat, second: nat, symbol: nat, pushed: seq<Pair>) {
    && (forall y :: 0 <= y < symbol && (first, y) in before && (second, y) in before ==>
          (before[(first, y)], before[(second, y)]) in pushed)
    && (forall i :: 0 <= i < |pushed| ==> PushedFor(before, first, second, symbol, pushed[i]))
  }

  ghost predicate PushedFor(before: map<Key, nat>, first: nat, second: nat, symbol: nat, pair: Pair) {
    exists y :: 0 <= y < symbol && (first, y) in before && (second, y) in before
      && pair == (before[(first, y)], before[(second, y)])
  }

  /** Wherever both classes had an output below `symbol`, the outputs agreed. */
  ghost predicate Agreed(before: map<Key, nat>, first: nat, second: nat, symbol: nat) {
    forall y :: 0 <= y < symbol && (first, y) in before && (second, y) in before ==>
      before[(first, y)] == before[(second, y)]
  }

  lemma JoinedFacts(cls: seq<nat>, first: nat, second: nat)
    requires ClassMap(cls) && first < |cls| && second < |cls| && cls[first] == first && cls[second] == second
      && first != second
    ensures ClassMap(Joined(cls, first, second)) && Coarser(cls, Joined(cls, first, second))
    ensures forall e :: Coarser(cls, e) && At(e, first) == At(e, second) ==> Coarser(Joined(cls, first, second), e)
  {
    var joined := Joined(cls, first, second);
    forall e | Coarser(cls, e) && At(e, first) == At(e, second)
      ensures Coarser(joined, e)
    {
      forall i | 0 <= i < |cls|
        ensures e[i] == e[cls[i]]
      {
        assert cls[cls[i]] == At(cls, cls[i]);
      }
    }
  }

  lemma JoinedChildSound(tree: Tree, cls: seq<nat>, child: map<Key, nat>, after: map<Key, nat>, first: nat, second: nat)
    requires ClassMap(cls) && first < |cls| && second < |cls| && cls[first] == first && cls[second] == second
      && first != second
    requires ChildSound(tree, cls, child) && Absorbed(child, after, first, second, tree.symbolCount)
    ensures ChildSound(tree, Joined(cls, first, second), after)
  {
    var joined := Joined(cls, first, second);
    forall k | k in after && k.1 < tree.symbolCount
      ensures k.0 < |joined| && joined[k.0] == k.0 && after[k] < |joined| && ChildOrigin(tree, joined, k, after[k])
    {
      var source := if k in child then k else (second, k.1);
      assert source in child;
      assert ChildOrigin(tree, cls, source, child[source]);
      var m :| m < |cls| && (m, k.1) in tree.child && cls[m] == source.0 && tree.child[(m, k.1)] == child[source];
      assert joined[m] == k.0;
    }
  }

  lemma JoinedOutputSound(tree: Tree, cls: seq<nat>, output: map<Key, nat>, after: map<Key, nat>, first: nat,
      second: nat)
    requires ClassMap(cls) && first < |cls| && second < |cls| && cls[first] == first && cls[second] == second
      && first != second
    requires OutputSound(tree, cls, output) && Absorbed(output, after, first, second, tree.symbolCount)
    ensures OutputSound(tree, Joined(cls, first, second), after)
  {
    var joined := Joined(cls, first, second);
    forall k | k in after && k.1 < tree.symbolCount
      ensures k.0 < |joined| && joined[k.0] == k.0 && OutputOrigin(tree, joined, k, after[k])
    {
      var source := if k in output then k else (second, k.1);
      assert source in output;
      assert OutputOrigin(tree, cls, source, output[source]);
      var m :| m < |cls| && (m, k.1) in tree.output && cls[m] == source.0 && tree.output[(m, k.1)] == output[source];
      assert joined[m] == k.0;
    }
  }

  lemma JoinedOutputComplete(tree: Tree, cls: seq<nat>, output: map<Key, nat>, after: map<Key, nat>, first: nat,
      second: nat)
    requires Bounded(tree) && |cls| == tree.nodes && first != second
    requires OutputComplete(tree, cls, output) && Absorbed(output, after, first, second, tree.symbolCount)
    requires Agreed(output, first, second, tree.symbolCount)
    ensures OutputComplete(tree, Joined(cls, first, second), after)
  {
    var joined := Joined(cls, first, second);
    forall k | k in tree.output && k.1 < tree.symbolCount
      ensures (At(joined, k.0), k.1) in after && after[(At(joined, k.0), k.1)] == tree.output[k]
    {
      assert (At(cls, k.0), k.1) in output && output[(At(cls, k.0), k.1)] == tree.output[k];
    }
  }

  /** Completeness up to `e` survives the absorption for every `e` that holds the newly pushed pairs. */
  lemma JoinedChildComplete(tree: Tree, cls: seq<nat>, child: map<Key, nat>, after: map<Key, nat>, first: nat,
      second: nat, pushed: seq<Pair>, e: seq<nat>)
    requires Bounded(tree) && |cls| == tree.nodes && first != second
    requires ChildComplete(tree, cls, child, e) && Absorbed(child, after, first, second, tree.symbolCount)
    requires Pushed(child, first, second, tree.symbolCount, pushed) && Holds(pushed, e)
    ensures ChildComplete(tree, Joined(cls, first, second), after, e)
  {
    var joined := Joined(cls, first, second);
    forall k | k in tree.child && k.1 < tree.symbolCount
      ensures (At(joined, k.0), k.1) in after && At(e, after[(At(joined, k.0), k.1)]) == At(e, tree.child[k])
    {
      var r := At(cls, k.0);
      assert (r, k.1) in child && At(e, child[(r, k.1)]) == At(e, tree.child[k]);
      if r == second && (first, k.1) in child {
        var pair := (child[(first, k.1)], child[(second, k.1)]);
        assert pair in pushed;
        var i :| 0 <= i < |pushed| && pushed[i] == pair;
        assert At(e, pushed[i].0) == At(e, pushed[i].1);
      }
    }
  }

  /** Successors on one symbol of two joined roots are joined by every congruence. */
  lemma SuccessorsForced(tree: Tree, cls: seq<nat>, child: map<Key, nat>, first: nat, second: nat, y: nat, e: seq<nat>)
    requires ClassMap(cls) && first < |cls| && second < |cls| && cls[first] == first && cls[second] == second
    requires ChildSound(tree, cls, child) && y < tree.symbolCount && (first, y) in child && (second, y) in child
    requires Congruence(tree, e) && Coarser(cls, e) && At(e, first) == At(e, second)
    ensures At(e, child[(first, y)]) == At(e, child[(second, y)])
  {
    assert ChildOrigin(tree, cls, (first, y), child[(first, y)]);
    assert ChildOrigin(tree, cls, (second, y), child[(second, y)]);
    var m :| m < |cls| && (m, y) in tree.child && cls[m] == first && tree.child[(m, y)] == child[(first, y)];
    var l :| l < |cls| && (l, y) in tree.child && cls[l] == second && tree.child[(l, y)] == child[(second, y)];
    assert e[m] == e[first] && e[l] == e[second];
    assert (m, y).0 == m && (l, y).0 == l;
  }

  /** Any congruence joining the two roots must also join every pushed pair. */
  lemma PushedForced(tree: Tree, cls: seq<nat>, child: map<Key, nat>, first: nat, second: nat, pushed: seq<Pair>,
      e: seq<nat>)
    requires ClassMap(cls) && first < |cls| && second < |cls| && cls[first] == first && cls[second] == second
    requires ChildSound(tree, cls, child) && Pushed(child, first, second, tree.symbolCount, pushed)
    requires Congruence(tree, e) && Coarser(cls, e) && At(e, first) == At(e, second)
    ensures Holds(pushed, e)
  {
    hide ChildSound, Congruence, Coarser, At;
    forall i | 0 <= i < |pushed|
      ensures At(e, pushed[i].0) == At(e, pushed[i].1)
    {
      assert PushedFor(child, first, second, tree.symbolCount, pushed[i]);
      var y :| 0 <= y < tree.symbolCount && (first, y) in child && (second, y) in child
        && pushed[i] == (child[(first, y)], child[(second, y)]);
      SuccessorsForced(tree, cls, child, first, second, y, e);
    }
  }

  /** Any congruence joining two roots with different outputs on a symbol is conflicted. */
  lemma ConflictForced(tree: Tree, cls: seq<nat>, output: map<Key, nat>, first: nat, second: nat, y: nat, e: seq<nat>)
    requires ClassMap(cls) && first < |cls| && second < |cls| && cls[first] == first && cls[second] == second
    requires OutputSound(tree, cls, output) && y < tree.symbolCount
    requires (first, y) in output && (second, y) in output && output[(first, y)] != output[(second, y)]
    requires Coarser(cls, e) && At(e, first) == At(e, second)
    ensures Conflict(tree, e)
  {
    assert OutputOrigin(tree, cls, (first, y), output[(first, y)]);
    assert OutputOrigin(tree, cls, (second, y), output[(second, y)]);
    var m :| m < |cls| && (m, y) in tree.output && cls[m] == first && tree.output[(m, y)] == output[(first, y)];
    var l :| l < |cls| && (l, y) in tree.output && cls[l] == second && tree.output[(l, y)] == output[(second, y)];
    assert e[m] == e[first] && e[l] == e[second];
    assert (m, y).0 == m && (l, y).0 == l && (m, y).1 == y && (l, y).1 == y;
  }
}
