/**
 The mutable partition of evidence_merging.py: a union-find with path halving plus
 class-level dictionaries, and `_fold`, which merges with a work stack.
 */
module EvidencePartition {
  import opened Prelude
  import opened EvidenceTree
  import opened StateMerging

  /** `parent` is a forest whose roots are given by `cls`; levels strictly rise towards the roots. */
  ghost predicate Forest(parent: seq<nat>, cls: seq<nat>, level: seq<nat>, top: nat) {
    && |parent| == |cls| == |level|
    && ClassMap(cls)
    && (forall i :: 0 <= i < |parent| ==> parent[i] < |parent| && At(cls, parent[i]) == cls[i])
    && (forall i :: 0 <= i < |parent| ==> (parent[i] == i <==> cls[i] == i))
    && (forall i :: 0 <= i < |parent| ==> level[i] < top)
    && (forall i :: 0 <= i < |parent| && parent[i] != i ==> level[i] < At(level, parent[i]))
  }

  /** The node reached by `steps` parent links. */
  function Climb(parent: seq<nat>, node: nat, steps: nat): nat
    decreases steps
  {
    if steps == 0 then node else Climb(parent, At(parent, node), steps - 1)
  }

  lemma ForestStep(parent: seq<nat>, cls: seq<nat>, level: seq<nat>, top: nat, node: nat)
    requires Forest(parent, cls, level, top) && node < |parent|
    ensures |parent| == |cls| == |level| && parent[node] < |parent| && level[node] < top
    ensures cls[parent[node]] == cls[node] == At(cls, node) && (parent[node] == node <==> cls[node] == node)
    ensures parent[node] != node ==> level[node] < level[parent[node]]
  {
    assert At(cls, parent[node]) == cls[node];
  }

  /** In a forest, climbing stays in the class and reaches its root after enough links. */
  lemma {:induction false} ClimbReachesRoot(parent: seq<nat>, cls: seq<nat>, level: seq<nat>, top: nat, node: nat,
      steps: nat)
    requires Forest(parent, cls, level, top) && node < |parent|
    ensures Climb(parent, node, steps) < |parent| && At(cls, Climb(parent, node, steps)) == cls[node]
    ensures top <= steps + level[node] ==> Climb(parent, node, steps) == cls[node]
    decreases steps
  {
    hide Forest;
    ForestStep(parent, cls, level, top, node);
    if steps > 0 {
      if parent[node] == node {
        ClimbAtRoot(parent, node, steps);
      } else {
        ClimbReachesRoot(parent, cls, level, top, parent[node], steps - 1);
      }
    }
  }

  lemma {:induction false} ClimbAtRoot(parent: seq<nat>, node: nat, steps: nat)
    requires node < |parent| && parent[node] == node
    ensures Climb(parent, node, steps) == node
    decreases steps
  {
    if steps > 0 {
      ClimbAtRoot(parent, node, steps - 1);
    }
  }

  lemma HalvingKeeps(parent: seq<nat>, cls: seq<nat>, level: seq<nat>, top: nat, node: nat)
    requires Forest(parent, cls, level, top) && node < |parent| && parent[node] != node
    ensures Forest(parent[node := At(parent, parent[node])], cls, level, top)
    ensures level[node] < At(level, At(parent, parent[node]))
  {
    assert At(cls, parent[node]) == cls[node];
    assert At(cls, parent[parent[node]]) == cls[parent[node]];
  }

  lemma LinkedClasses(parent: seq<nat>, cls: seq<nat>, first: nat, second: nat, i: nat)
    requires |parent| == |cls| && ClassMap(cls) && i < |cls| && first < |cls| && second < |cls|
    requires cls[first] == first && cls[second] == second && first != second
    requires parent[i] < |parent| && At(cls, parent[i]) == cls[i] && (parent[i] == i <==> cls[i] == i)
    ensures var parent', cls' := parent[second := first], Joined(cls, first, second);
      parent'[i] < |parent'| && At(cls', parent'[i]) == cls'[i] && (parent'[i] == i <==> cls'[i] == i)
  {
  }

  lemma LinkedLevels(parent: seq<nat>, level: seq<nat>, top: nat, first: nat, second: nat, i: nat)
    requires |parent| == |level| && i < |parent| && first < |parent| && second < |parent| && first != second
    requires parent[first] == first && level[i] < top && parent[i] < |parent|
    requires parent[i] != i ==> level[i] < At(level, parent[i])
    ensures var parent', level' := parent[second := first], level[first := level[first] + level[second] + 1];
      level'[i] < top + level[first] + level[second] + 2 && (parent'[i] != i ==> level'[i] < At(level', parent'[i]))
  {
  }

  /** Linking the root `second` under the root `first`. */
  lemma LinkKeeps(parent: seq<nat>, cls: seq<nat>, level: seq<nat>, top: nat, first: nat, second: nat)
    requires Forest(parent, cls, level, top) && first < |cls| && second < |cls|
    requires cls[first] == first && cls[second] == second && first != second
    ensures Forest(parent[second := first], Joined(cls, first, second),
      level[first := level[first] + level[second] + 1],
      top + level[first] + level[second] + 2)
  {
    hide ClassMap, Joined, At, Coarser;
    var parent', cls', level' := parent[second := first], Joined(cls, first, second),
      level[first := level[first] + level[second] + 1];
    JoinedFacts(cls, first, second);
    forall i | 0 <= i < |parent'|
      ensures parent'[i] < |parent'| && At(cls', parent'[i]) == cls'[i] && (parent'[i] == i <==> cls'[i] == i)
      ensures level'[i] < top + level[first] + level[second] + 2
        && (parent'[i] != i ==> level'[i] < At(level', parent'[i]))
    {
      LinkedClasses(parent, cls, first, second, i);
      LinkedLevels(parent, level, top, first, second, i);
    }
  }

  /** The nodes that represent their class. */
  ghost function Roots(cls: seq<nat>): set<nat> {
    set i | 0 <= i < |cls| && cls[i] == i
  }

  class Partition {
    var parent: seq<nat>
    var child: map<Key, nat>
    var output: map<Key, nat>
    /** The representative of every node, and the levels that make climbing end. */
    ghost var cls: seq<nat>
    ghost var level: seq<nat>
    ghost var top: nat

    ghost predicate Valid()
      reads this
    {
      Forest(parent, cls, level, top)
    }

    constructor (parent: seq<nat>, child: map<Key, nat>, output: map<Key, nat>, ghost cls: seq<nat>,
        ghost level: seq<nat>, ghost top: nat)
      requires Forest(parent, cls, level, top)
      ensures Valid()
      ensures this.parent == parent && this.child == child && this.output == output && this.cls == cls
    {
      this.parent, this.child, this.output := parent, child, output;
      this.cls, this.level, this.top := cls, level, top;
    }

    /** `find` with path halving: links change, no node's root does. */
    method Find(start: nat) returns (node: nat)
      requires Valid() && start < |parent|
      modifies this`parent
      ensures Valid() && |parent| == old(|parent|)
      ensures node == cls[start]
    {
      hide Forest;
      ForestStep(parent, cls, level, top, start);
      node := start;
      while parent[node] != node
        invariant Valid() && |parent| == old(|parent|) && node < |parent| && cls[node] == cls[start]
        decreases top - level[node]
      {
        HalvingKeeps(parent, cls, level, top, node);
        ForestStep(parent, cls, level, top, node);
        ForestStep(parent, cls, level, top, parent[node]);
        parent := parent[node := parent[parent[node]]];
        node := parent[node];
      }
      ForestStep(parent, cls, level, top, node);
    }

    /** `parent[second] = first` for two roots. */
    method Link(first: nat, second: nat)
      requires Valid() && first < |cls| && second < |cls| && cls[first] == first && cls[second] == second
        && first != second
      modifies this`parent, this`cls, this`level, this`top
      ensures Valid() && cls == Joined(old(cls), first, second)
    {
      LinkKeeps(parent, cls, level, top, first, second);
      parent := parent[second := first];
      top := top + level[first] + level[second] + 2;
      level := level[first := level[first] + level[second] + 1];
      cls := Joined(cls, first, second);
    }

    /** `copy`: the same partition in a new object. */
    method Copy() returns (p: Partition)
      requires Valid()
      ensures fresh(p) && p.Valid()
      ensures p.parent == parent && p.child == child && p.output == output && p.cls == cls
    {
      p := new Partition(parent, child, output, cls, level, top);
    }
  }

  // ------------------------------------------------------------- moving one class

  /** What one pass over the symbols has done so far. */
  ghost predicate Midway(child: map<Key, nat>, output: map<Key, nat>, child': map<Key, nat>, output': map<Key, nat>,
      first: nat, second: nat, symbol: nat, evidence: nat, pushed: seq<Pair>)
  {
    && Absorbed(child, child', first, second, symbol)
    && Absorbed(output, output', first, second, symbol)
    && Pushed(child, first, second, symbol, pushed)
    && Agreed(output, first, second, symbol)
    && |child'| + |pushed| == |child|
    && |output'| + evidence == |output|
  }

  lemma MidwayStart(child: map<Key, nat>, output: map<Key, nat>, first: nat, second: nat)
    ensures Midway(child, output, child, output, first, second, 0, 0, [])
  {
  }

  /** A dictionary after the entry of `second` on `symbol` has been moved. */
  function MoveEntry(m: map<Key, nat>, first: nat, second: nat, symbol: nat): map<Key, nat> {
    if (second, symbol) !in m then m
    else if (first, symbol) in m then m - {(second, symbol)}
    else (m - {(second, symbol)})[(first, symbol) := m[(second, symbol)]]
  }

  lemma MoveEntryAbsorbs(before: map<Key, nat>, m: map<Key, nat>, first: nat, second: nat, symbol: nat)
    requires first != second && Absorbed(before, m, first, second, symbol)
    ensures Absorbed(before, MoveEntry(m, first, second, symbol), first, second, symbol + 1)
    ensures (second, symbol) in m <==> (second, symbol) in before
    ensures (first, symbol) in m <==> (first, symbol) in before
    ensures (second, symbol) in m ==> m[(second, symbol)] == before[(second, symbol)]
    ensures (first, symbol) in m ==> m[(first, symbol)] == before[(first, symbol)]
  {
  }

  lemma MoveEntrySize(m: map<Key, nat>, first: nat, second: nat, symbol: nat)
    requires first != second
    ensures |MoveEntry(m, first, second, symbol)| + (if (second, symbol) in m && (first, symbol) in m then 1 else 0)
      == |m|
  {
    if (second, symbol) in m {
      var smaller := m - {(second, symbol)};
      assert smaller.Keys == m.Keys - {(second, symbol)};
      assert |smaller| == |smaller.Keys| && |m| == |m.Keys|;
      if (first, symbol) !in m {
        var moved := smaller[(first, symbol) := m[(second, symbol)]];
        assert moved.Keys == smaller.Keys + {(first, symbol)};
        assert |moved| == |moved.Keys|;
      }
    }
  }

  lemma PushedNext(before: map<Key, nat>, first: nat, second: nat, symbol: nat, pushed: seq<Pair>)
    requires Pushed(before, first, second, symbol, pushed)
    ensures Pushed(before, first, second, symbol + 1,
      if (first, symbol) in before && (second, symbol) in before
      then pushed + [(before[(first, symbol)], before[(second, symbol)])] else pushed)
  {
    var both := (first, symbol) in before && (second, symbol) in before;
    var pushed' := if both then pushed + [(before[(first, symbol)], before[(second, symbol)])] else pushed;
    forall i | 0 <= i < |pushed'|
      ensures PushedFor(before, first, second, symbol + 1, pushed'[i])
    {
      if i < |pushed| {
        assert PushedFor(before, first, second, symbol, pushed[i]);
        var y :| 0 <= y < symbol && (first, y) in before && (second, y) in before
          && pushed[i] == (before[(first, y)], before[(second, y)]);
        assert pushed'[i] == (before[(first, y)], before[(second, y)]);
      } else {
        assert pushed'[i] == (before[(first, symbol)], before[(second, symbol)]);
      }
    }
    forall y | 0 <= y < symbol + 1 && (first, y) in before && (second, y) in before
      ensures (before[(first, y)], before[(second, y)]) in pushed'
    {
      if y == symbol {
        assert pushed'[|pushed|] == (before[(first, y)], before[(second, y)]);
      }
    }
  }

  lemma MidwayNext(child: map<Key, nat>, output: map<Key, nat>, child': map<Key, nat>, output': map<Key, nat>,
      first: nat, second: nat, symbol: nat, evidence: nat, pushed: seq<Pair>)
    requires first != second && Midway(child, output, child', output', first, second, symbol, evidence, pushed)
    requires (first, symbol) in output' && (second, symbol) in output' ==>
      output'[(first, symbol)] == output'[(second, symbol)]
    ensures Midway(child, output, MoveEntry(child', first, second, symbol), MoveEntry(output', first, second, symbol),
      first, second, symbol + 1,
      evidence + (if (first, symbol) in output' && (second, symbol) in output' then 1 else 0),
      if (first, symbol) in child' && (second, symbol) in child'
      then pushed + [(child'[(first, symbol)], child'[(second, symbol)])] else pushed)
  {
    hide Absorbed, Pushed, MoveEntry;
    MoveEntryAbsorbs(child, child', first, second, symbol);
    MoveEntryAbsorbs(output, output', first, second, symbol);
    MoveEntrySize(child', first, second, symbol);
    MoveEntrySize(output', first, second, symbol);
    PushedNext(child, first, second, symbol, pushed);
  }

  /**
   The loop over symbols: outputs first, then edges. It stops at the first symbol on
   which both classes had an output and the outputs differ.
   */
  method Absorb(p: Partition, first: nat, second: nat, symbolCount: nat)
    returns (conflict: Option<nat>, evidence: nat, pushed: seq<Pair>)
    requires first != second
    modifies p`child, p`output
    ensures conflict.None? ==>
      Midway(old(p.child), old(p.output), p.child, p.output, first, second, symbolCount, evidence, pushed)
    ensures conflict.Some? ==>
      && conflict.value < symbolCount
      && (first, conflict.value) in old(p.output) && (second, conflict.value) in old(p.output)
      && old(p.output)[(first, conflict.value)] != old(p.output)[(second, conflict.value)]
  {
    hide Absorbed, Pushed;
    conflict, evidence, pushed := None, 0, [];
    ghost var child, output := p.child, p.output;
    MidwayStart(child, output, first, second);
    for symbol := 0 to symbolCount
      invariant Midway(child, output, p.child, p.output, first, second, symbol, evidence, pushed)
    {
      MoveEntryAbsorbs(output, p.output, first, second, symbol);
      if (second, symbol) in p.output && (first, symbol) in p.output
        && p.output[(first, symbol)] != p.output[(second, symbol)] {
        conflict := Some(symbol);
        return;
      }
      MidwayNext(child, output, p.child, p.output, first, second, symbol, evidence, pushed);
      if (second, symbol) in p.output {
        var absorbed := p.output[(second, symbol)];
        p.output := p.output - {(second, symbol)};
        if (first, symbol) !in p.output {
          p.output := p.output[(first, symbol) := absorbed];
        } else {
          evidence := evidence + 1;
        }
      }
      if (second, symbol) in p.child {
        var absorbed := p.child[(second, symbol)];
        p.child := p.child - {(second, symbol)};
        if (first, symbol) !in p.child {
          p.child := p.child[(first, symbol) := absorbed];
        } else {
          pushed := pushed + [(p.child[(first, symbol)], absorbed)];
        }
      }
    }
  }

  // --------------------------------------------------------------------- the fold

  /** Completeness of the edges, up to every equivalence that also holds the pending pairs. */
  ghost predicate PendingComplete(tree: Tree, cls: seq<nat>, child: map<Key, nat>, stack: seq<Pair>) {
    forall e :: Coarser(cls, e) && Holds(stack, e) ==> ChildComplete(tree, cls, child, e)
  }

  /** Everything merged or pending is forced: every admissible congruence already contains it. */
  ghost predicate Forced(tree: Tree, cls0: seq<nat>, red: nat, blue: nat, cls: seq<nat>, stack: seq<Pair>) {
    forall e :: Admits(tree, cls0, red, blue, e) ==> Coarser(cls, e) && Holds(stack, e)
  }

  ghost predicate InTree(stack: seq<Pair>, nodes: nat) {
    forall i :: 0 <= i < |stack| ==> stack[i].0 < nodes && stack[i].1 < nodes
  }

  /** The invariant of the work stack. */
  ghost predicate Folding(tree: Tree, cls0: seq<nat>, red: nat, blue: nat, cls: seq<nat>, child: map<Key, nat>,
      output: map<Key, nat>, stack: seq<Pair>)
  {
    && |cls| == tree.nodes && ClassMap(cls) && Coarser(cls0, cls) && Roots(cls) <= Roots(cls0)
    && ChildSound(tree, cls, child) && OutputSound(tree, cls, output) && OutputComplete(tree, cls, output)
    && InTree(stack, tree.nodes)
    && PendingComplete(tree, cls, child, stack)
    && Forced(tree, cls0, red, blue, cls, stack)
    && (stack == [(red, blue)] || At(cls, red) == At(cls, blue))
  }

  lemma CoarserReflexive(cls: seq<nat>)
    ensures Coarser(cls, cls)
  {
  }

  lemma CoarserTransitive(a: seq<nat>, b: seq<nat>, c: seq<nat>)
    requires Coarser(a, b) && Coarser(b, c)
    ensures Coarser(a, c)
  {
  }

  lemma FoldingStart(tree: Tree, cls: seq<nat>, child: map<Key, nat>, output: map<Key, nat>, red: nat, blue: nat)
    requires Quotiented(tree, cls, child, output) && Bounded(tree) && red < tree.nodes && blue < tree.nodes
    ensures Folding(tree, cls, red, blue, cls, child, output, [(red, blue)])
  {
    forall e | Coarser(cls, e)
      ensures ChildComplete(tree, cls, child, e)
    {
      QuotientUpTo(tree, cls, child, e);
    }
  }

  lemma QuotientUpTo(tree: Tree, cls: seq<nat>, child: map<Key, nat>, e: seq<nat>)
    requires Bounded(tree) && |cls| == tree.nodes && ChildSound(tree, cls, child)
    requires ChildComplete(tree, cls, child, cls) && Coarser(cls, e)
    ensures ChildComplete(tree, cls, child, e)
  {
    forall k | k in tree.child && k.1 < tree.symbolCount
      ensures (At(cls, k.0), k.1) in child && At(e, child[(At(cls, k.0), k.1)]) == At(e, tree.child[k])
    {
      var c := child[(At(cls, k.0), k.1)];
      assert At(cls, c) == At(cls, tree.child[k]);
    }
  }

  /** A pair already in one class can be dropped. */
  lemma FoldingSkip(tree: Tree, cls0: seq<nat>, red: nat, blue: nat, cls: seq<nat>, child: map<Key, nat>,
      output: map<Key, nat>, stack: seq<Pair>)
    requires Folding(tree, cls0, red, blue, cls, child, output, stack) && stack != []
    requires At(cls, stack[|stack| - 1].0) == At(cls, stack[|stack| - 1].1)
    ensures Folding(tree, cls0, red, blue, cls, child, output, stack[..|stack| - 1])
  {
    hide ChildSound, ChildComplete, OutputSound, OutputComplete, Admits, ClassMap, Roots;
    var rest := stack[..|stack| - 1];
    var pair := stack[|stack| - 1];
    assert stack == rest + [pair];
    forall e | Coarser(cls, e) && Holds(rest, e)
      ensures Holds(stack, e)
    {
      assert At(e, pair.0) == At(e, pair.1);
    }
    forall e | Holds(stack, e)
      ensures Holds(rest, e)
    {
      HoldsPrefix(stack, e);
    }
  }

  lemma HoldsPrefix(stack: seq<Pair>, e: seq<nat>)
    requires stack != [] && Holds(stack, e)
    ensures Holds(stack[..|stack| - 1], e)
  {
    var rest := stack[..|stack| - 1];
    forall i | 0 <= i < |rest|
      ensures At(e, rest[i].0) == At(e, rest[i].1)
    {
      assert rest[i] == stack[i];
    }
  }

  lemma HoldsAppend(a: seq<Pair>, b: seq<Pair>, e: seq<nat>)
    ensures Holds(a + b, e) <==> Holds(a, e) && Holds(b, e)
  {
    if Holds(a + b, e) {
      forall i | 0 <= i < |a|
        ensures At(e, a[i].0) == At(e, a[i].1)
      {
        assert (a + b)[i] == a[i];
      }
      forall i | 0 <= i < |b|
        ensures At(e, b[i].0) == At(e, b[i].1)
      {
        assert (a + b)[|a| + i] == b[i];
      }
    }
  }

  /** Every equivalence above the joined classes that holds the new stack also held the old one. */
  lemma JoinCoversPopped(cls: seq<nat>, first: nat, second: nat, rest: seq<Pair>, pair: Pair, e: seq<nat>)
    requires ClassMap(cls) && pair.0 < |cls| && pair.1 < |cls| && first == cls[pair.0] && second == cls[pair.1]
      && first != second
    requires Coarser(Joined(cls, first, second), e) && Holds(rest, e)
    ensures Coarser(cls, e) && Holds(rest + [pair], e)
  {
    JoinedFacts(cls, first, second);
    CoarserTransitive(cls, Joined(cls, first, second), e);
    var joined := Joined(cls, first, second);
    assert joined[pair.0] == joined[pair.1];
    assert At(e, pair.0) == At(e, pair.1);
    HoldsAppend(rest, [pair], e);
  }

  lemma PendingJoined(tree: Tree, cls: seq<nat>, child: map<Key, nat>, after: map<Key, nat>, first: nat, second: nat,
      rest: seq<Pair>, pair: Pair, pushed: seq<Pair>)
    requires Bounded(tree) && |cls| == tree.nodes && ClassMap(cls)
    requires pair.0 < |cls| && pair.1 < |cls| && first == cls[pair.0] && second == cls[pair.1] && first != second
    requires PendingComplete(tree, cls, child, rest + [pair])
    requires Absorbed(child, after, first, second, tree.symbolCount)
      && Pushed(child, first, second, tree.symbolCount, pushed)
    ensures PendingComplete(tree, Joined(cls, first, second), after, rest + pushed)
  {
    hide ChildComplete, Absorbed, Pushed, Coarser, Holds, Joined;
    forall e | Coarser(Joined(cls, first, second), e) && Holds(rest + pushed, e)
      ensures ChildComplete(tree, Joined(cls, first, second), after, e)
    {
      HoldsAppend(rest, pushed, e);
      JoinCoversPopped(cls, first, second, rest, pair, e);
      JoinedChildComplete(tree, cls, child, after, first, second, pushed, e);
    }
  }

  /** Popping a pair leaves its two roots equal in every equivalence that held the stack. */
  lemma PoppedRootsEqual(cls: seq<nat>, rest: seq<Pair>, pair: Pair, e: seq<nat>)
    requires ClassMap(cls) && pair.0 < |cls| && pair.1 < |cls| && Coarser(cls, e) && Holds(rest + [pair], e)
    ensures At(e, cls[pair.0]) == At(e, cls[pair.1])
  {
    assert (rest + [pair])[|rest|] == pair;
    assert At(cls, cls[pair.0]) == cls[pair.0] && At(cls, cls[pair.1]) == cls[pair.1];
    assert At(e, pair.0) == At(e, pair.1);
  }

  lemma ForcedJoined(tree: Tree, cls0: seq<nat>, red: nat, blue: nat, cls: seq<nat>, child: map<Key, nat>, first: nat,
      second: nat, rest: seq<Pair>, pair: Pair, pushed: seq<Pair>)
    requires |cls| == tree.nodes && ClassMap(cls) && ChildSound(tree, cls, child)
    requires pair.0 < |cls| && pair.1 < |cls| && first == cls[pair.0] && second == cls[pair.1] && first != second
    requires Pushed(child, first, second, tree.symbolCount, pushed)
    requires Forced(tree, cls0, red, blue, cls, rest + [pair])
    ensures Forced(tree, cls0, red, blue, Joined(cls, first, second), rest + pushed)
  {
    hide ChildSound, Pushed, Coarser, Holds, Joined, Congruence;
    assert At(cls, first) == first && At(cls, second) == second;
    JoinedFacts(cls, first, second);
    forall e | Admits(tree, cls0, red, blue, e)
      ensures Coarser(Joined(cls, first, second), e) && Holds(rest + pushed, e)
    {
      PoppedRootsEqual(cls, rest, pair, e);
      PushedForced(tree, cls, child, first, second, pushed, e);
      HoldsAppend(rest, [pair], e);
      HoldsAppend(rest, pushed, e);
    }
  }

  lemma InTreeJoined(tree: Tree, cls: seq<nat>, child: map<Key, nat>, first: nat, second: nat, rest: seq<Pair>,
      pair: Pair, pushed: seq<Pair>)
    requires |cls| == tree.nodes && ChildSound(tree, cls, child)
      && Pushed(child, first, second, tree.symbolCount, pushed)
    requires InTree(rest + [pair], tree.nodes)
    ensures InTree(rest + pushed, tree.nodes)
  {
    forall i | 0 <= i < |rest + pushed|
      ensures (rest + pushed)[i].0 < tree.nodes && (rest + pushed)[i].1 < tree.nodes
    {
      if i < |rest| {
        assert (rest + [pair])[i] == rest[i];
      } else {
        assert PushedFor(child, first, second, tree.symbolCount, pushed[i - |rest|]);
      }
    }
  }

  lemma RootsJoined(cls: seq<nat>, first: nat, second: nat)
    requires ClassMap(cls) && first < |cls| && second < |cls| && cls[first] == first && cls[second] == second
      && first != second
    ensures Roots(Joined(cls, first, second)) == Roots(cls) - {second}
  {
  }

  /** One merge step of the fold keeps the whole invariant. */
  lemma FoldingJoin(tree: Tree, cls0: seq<nat>, red: nat, blue: nat, cls: seq<nat>, child: map<Key, nat>,
      output: map<Key, nat>, child': map<Key, nat>, output': map<Key, nat>, rest: seq<Pair>, pair: Pair, evidence: nat,
      pushed: seq<Pair>)
    requires Bounded(tree) && Folding(tree, cls0, red, blue, cls, child, output, rest + [pair])
    requires pair.0 < |cls| && pair.1 < |cls| && cls[pair.0] != cls[pair.1]
    requires Midway(child, output, child', output', cls[pair.0], cls[pair.1], tree.symbolCount, evidence, pushed)
    ensures Folding(tree, cls0, red, blue, Joined(cls, cls[pair.0], cls[pair.1]), child', output', rest + pushed)
    ensures Roots(Joined(cls, cls[pair.0], cls[pair.1])) < Roots(cls)
  {
    hide ChildSound, OutputSound, OutputComplete, PendingComplete, Forced, Absorbed, Pushed, Coarser, Holds, InTree,
      Roots;
    var first, second := cls[pair.0], cls[pair.1];
    assert At(cls, first) == first && At(cls, second) == second;
    JoinedFacts(cls, first, second);
    CoarserTransitive(cls0, cls, Joined(cls, first, second));
    RootsJoined(cls, first, second);
    assert second in Roots(cls) by { RootMember(cls, second); }
    JoinedChildSound(tree, cls, child, child', first, second);
    JoinedOutputSound(tree, cls, output, output', first, second);
    JoinedOutputComplete(tree, cls, output, output', first, second);
    InTreeJoined(tree, cls, child, first, second, rest, pair, pushed);
    PendingJoined(tree, cls, child, child', first, second, rest, pair, pushed);
    ForcedJoined(tree, cls0, red, blue, cls, child, first, second, rest, pair, pushed);
    JoinedTogether(cls, red, blue, rest, pair);
  }

  lemma RootMember(cls: seq<nat>, i: nat)
    requires i < |cls| && cls[i] == i
    ensures i in Roots(cls)
  {
  }

  lemma JoinedTogether(cls: seq<nat>, red: nat, blue: nat, rest: seq<Pair>, pair: Pair)
    requires ClassMap(cls) && pair.0 < |cls| && pair.1 < |cls|
    requires rest + [pair] == [(red, blue)] || At(cls, red) == At(cls, blue)
    ensures At(Joined(cls, cls[pair.0], cls[pair.1]), red) == At(Joined(cls, cls[pair.0], cls[pair.1]), blue)
  {
    if rest + [pair] == [(red, blue)] {
      assert (rest + [pair])[|rest|] == pair;
      assert pair == (red, blue);
    }
  }

  /** With nothing pending the quotient is complete. */
  lemma FoldingDone(tree: Tree, cls0: seq<nat>, red: nat, blue: nat, cls: seq<nat>, child: map<Key, nat>,
      output: map<Key, nat>)
    requires Folding(tree, cls0, red, blue, cls, child, output, [])
    ensures Quotiented(tree, cls, child, output)
    ensures Least(tree, cls0, red, blue, cls)
  {
    hide ChildSound, OutputSound, OutputComplete, ChildComplete, Coarser, Admits, ClassMap;
    CoarserReflexive(cls);
    assert Holds([], cls);
  }

  /** `cls` is the least congruence above `cls0` that joins `red` and `blue`. */
  ghost predicate Least(tree: Tree, cls0: seq<nat>, red: nat, blue: nat, cls: seq<nat>) {
    && Coarser(cls0, cls)
    && At(cls, red) == At(cls, blue)
    && forall e :: Admits(tree, cls0, red, blue, e) ==> Coarser(cls, e)
  }

  /** No conflict-free congruence above `cls` joins `red` and `blue`. */
  ghost predicate Unmergeable(tree: Tree, cls: seq<nat>, red: nat, blue: nat) {
    forall e :: Admits(tree, cls, red, blue, e) ==> Conflict(tree, e)
  }

  lemma FoldingConflict(tree: Tree, cls0: seq<nat>, red: nat, blue: nat, cls: seq<nat>, child: map<Key, nat>,
      output: map<Key, nat>, rest: seq<Pair>, pair: Pair, y: nat)
    requires Folding(tree, cls0, red, blue, cls, child, output, rest + [pair])
    requires pair.0 < |cls| && pair.1 < |cls| && y < tree.symbolCount
    requires (cls[pair.0], y) in output && (cls[pair.1], y) in output
      && output[(cls[pair.0], y)] != output[(cls[pair.1], y)]
    ensures Unmergeable(tree, cls0, red, blue)
  {
    hide ChildSound, OutputSound, OutputComplete, PendingComplete, Coarser, Holds, InTree, Admits, Conflict;
    assert At(cls, cls[pair.0]) == cls[pair.0] && At(cls, cls[pair.1]) == cls[pair.1];
    forall e | Admits(tree, cls0, red, blue, e)
      ensures Conflict(tree, e)
    {
      PoppedRootsEqual(cls, rest, pair, e);
      ConflictForced(tree, cls, output, cls[pair.0], cls[pair.1], y, e);
    }
  }

  lemma MidwayBeyond(child: map<Key, nat>, output: map<Key, nat>, child': map<Key, nat>, output': map<Key, nat>,
      first: nat, second: nat, symbol: nat, evidence: nat, pushed: seq<Pair>)
    requires Midway(child, output, child', output', first, second, symbol, evidence, pushed)
    ensures Beyond(child', symbol) == Beyond(child, symbol) && Beyond(output', symbol) == Beyond(output, symbol)
  {
  }

  /** The drop in recorded outputs is the drop in cells, since nothing beyond the alphabet is touched. */
  lemma EvidenceInCells(tree: Tree, cls0: seq<nat>, child0: map<Key, nat>, output0: map<Key, nat>, cls: seq<nat>,
      child: map<Key, nat>, output: map<Key, nat>, evidence: nat)
    requires Bounded(tree) && Quotiented(tree, cls0, child0, output0) && Quotiented(tree, cls, child, output)
    requires evidence + |output| == |output0| && Beyond(output, tree.symbolCount) == Beyond(output0, tree.symbolCount)
    ensures evidence + |Cells(tree, cls)| == |Cells(tree, cls0)|
  {
    hide Quotiented, Cells, Within, Beyond;
    QuotientCells(tree, cls0, child0, output0);
    QuotientCells(tree, cls, child, output);
    WithinAndBeyond(output0, tree.symbolCount);
    WithinAndBeyond(output, tree.symbolCount);
  }

  /**
   `_fold`: on success the partition holds the least congruence, with every output of
   the tree preserved on its class, and the evidence is the drop in recorded outputs, which
   is how many cells with an output fall together; what lies beyond the alphabet stays.
   It returns None exactly when every congruence joining the two states is conflicted.
   */
  method Fold(p: Partition, red: nat, blue: nat, symbolCount: nat, ghost tree: Tree) returns (r: Option<nat>)
    requires p.Valid() && Bounded(tree) && symbolCount == tree.symbolCount && red < tree.nodes && blue < tree.nodes
    requires Quotiented(tree, p.cls, p.child, p.output)
    modifies p
    ensures r.Some? <==> !Unmergeable(tree, old(p.cls), red, blue)
    ensures r.Some? ==>
      && p.Valid() && Quotiented(tree, p.cls, p.child, p.output)
      && Least(tree, old(p.cls), red, blue, p.cls)
      && r.value + |p.output| == |old(p.output)|
      && r.value + |Cells(tree, p.cls)| == |Cells(tree, old(p.cls))|
      && Beyond(p.child, symbolCount) == Beyond(old(p.child), symbolCount)
      && Beyond(p.output, symbolCount) == Beyond(old(p.output), symbolCount)
      && Roots(p.cls) <= Roots(old(p.cls))
      && (At(old(p.cls), red) != At(old(p.cls), blue) ==> Roots(p.cls) < Roots(old(p.cls)))
  {
    hide Quotiented, Folding, Forest, Least, Unmergeable, Absorbed, Pushed, Coarser, Conflict, Congruence, Roots,
      ClassMap, Joined, Cells, Beyond;
    var evidence: nat := 0;
    var stack: seq<Pair> := [(red, blue)];
    ghost var cls0, child0, output0 := p.cls, p.child, p.output;
    FoldingStart(tree, p.cls, p.child, p.output, red, blue);
    while stack != []
      invariant p.Valid() && Folding(tree, cls0, red, blue, p.cls, p.child, p.output, stack)
      invariant evidence + |p.output| == |output0|
      invariant Beyond(p.child, symbolCount) == Beyond(child0, symbolCount)
      invariant Beyond(p.output, symbolCount) == Beyond(output0, symbolCount)
      invariant Roots(p.cls) <= Roots(cls0)
      invariant (stack == [(red, blue)] && p.cls == cls0) || At(cls0, red) == At(cls0, blue)
        || Roots(p.cls) < Roots(cls0)
      decreases |p.child| + |stack|
    {
      var pair := stack[|stack| - 1];
      ghost var whole := stack;
      stack := stack[..|stack| - 1];
      assert whole == stack + [pair];
      PairInTree(tree, cls0, red, blue, p.cls, p.child, p.output, stack, pair, p.parent, p.level, p.top);
      var first := p.Find(pair.0);
      var second := p.Find(pair.1);
      if first == second {
        FoldingSkip(tree, cls0, red, blue, p.cls, p.child, p.output, whole);
        continue;
      }
      LinkReady(p.parent, p.cls, p.level, p.top, pair);
      ghost var cls, child, output := p.cls, p.child, p.output;
      p.Link(first, second);
      var conflict, found, pushed := Absorb(p, first, second, symbolCount);
      if conflict.Some? {
        FoldingConflict(tree, cls0, red, blue, cls, child, output, stack, pair, conflict.value);
        return None;
      }
      FoldingJoin(tree, cls0, red, blue, cls, child, output, p.child, p.output, stack, pair, found, pushed);
      MidwayBeyond(child, output, p.child, p.output, first, second, symbolCount, found, pushed);
      evidence := evidence + found;
      stack := stack + pushed;
    }
    FoldingDone(tree, cls0, red, blue, p.cls, p.child, p.output);
    LeastMergeable(tree, cls0, red, blue, p.cls, p.child, p.output);
    EvidenceInCells(tree, cls0, child0, output0, p.cls, p.child, p.output, evidence);
    return Some(evidence);
  }

  lemma PairInTree(tree: Tree, cls0: seq<nat>, red: nat, blue: nat, cls: seq<nat>, child: map<Key, nat>,
      output: map<Key, nat>, rest: seq<Pair>, pair: Pair, parent: seq<nat>, level: seq<nat>, top: nat)
    requires Folding(tree, cls0, red, blue, cls, child, output, rest + [pair]) && Forest(parent, cls, level, top)
    ensures pair.0 < |parent| && pair.1 < |parent| && |parent| == |cls| == |level|
    ensures At(cls, pair.0) == cls[pair.0] && At(cls, pair.1) == cls[pair.1]
  {
    assert (rest + [pair])[|rest|] == pair;
  }

  lemma LinkReady(parent: seq<nat>, cls: seq<nat>, level: seq<nat>, top: nat, pair: Pair)
    requires Forest(parent, cls, level, top) && pair.0 < |cls| && pair.1 < |cls|
    ensures cls[pair.0] < |cls| && cls[pair.1] < |cls| && |parent| == |cls| == |level|
    ensures cls[cls[pair.0]] == cls[pair.0] && cls[cls[pair.1]] == cls[pair.1]
  {
    assert At(cls, cls[pair.0]) == cls[pair.0] && At(cls, cls[pair.1]) == cls[pair.1];
  }

  /** A successful fold is its own witness that the states were mergeable. */
  lemma LeastMergeable(tree: Tree, cls0: seq<nat>, red: nat, blue: nat, cls: seq<nat>, child: map<Key, nat>,
      output: map<Key, nat>)
    requires Quotiented(tree, cls, child, output) && Least(tree, cls0, red, blue, cls)
    ensures Admits(tree, cls0, red, blue, cls) && !Unmergeable(tree, cls0, red, blue)
  {
    QuotientedIsCongruence(tree, cls, child, output);
  }
}
