/**
 Minimisation of Mealy machines (rule_automata.py).

 `Minimize` drops unreachable states and merges indistinguishable ones by
 partition refinement. The module proves that this changes no answer, that the
 states left are reachable and pairwise distinguishable, and that no machine with
 the same behaviour has fewer states.
 */
module Minimization {
  import opened Prelude
  import opened RuleAutomata

  // ---------------------------------------------------------------- vocabulary

  ghost predicate ReachedBy(m: RuleAutomaton, s: nat, w: Word)
    requires m.Valid()
  {
    InAlphabet(w, m.symbolCount) && Reach(m, 0, w) == s
  }

  ghost predicate Reachable(m: RuleAutomaton, s: nat)
    requires m.Valid()
  {
    exists w: Word :: ReachedBy(m, s, w)
  }

  ghost predicate TellsApart(m: RuleAutomaton, s: nat, t: nat, w: Word)
    requires m.Valid() && s < m.StateCount() && t < m.StateCount()
  {
    InAlphabet(w, m.symbolCount) && |w| > 0 && EmitFrom(m, s, w) != EmitFrom(m, t, w)
  }

  ghost predicate Distinguishable(m: RuleAutomaton, s: nat, t: nat)
    requires m.Valid() && s < m.StateCount() && t < m.StateCount()
  {
    exists w: Word :: TellsApart(m, s, t, w)
  }

  /** Nothing to drop and nothing to merge. */
  ghost predicate Reduced(m: RuleAutomaton) {
    && m.Valid()
    && (forall s: nat :: s < m.StateCount() ==> Reachable(m, s))
    && (forall s: nat, t: nat :: s < m.StateCount() && t < m.StateCount() && s != t ==> Distinguishable(m, s, t))
  }

  /** `f` maps the states of `a` onto states of `b` that answer and move alike. */
  ghost predicate Simulates(a: RuleAutomaton, b: RuleAutomaton, f: seq<nat>)
    requires a.Valid() && b.Valid()
  {
    && a.symbolCount == b.symbolCount
    && |f| == a.StateCount()
    && (forall s :: 0 <= s < |f| ==> f[s] < b.StateCount())
    && (forall s, y :: 0 <= s < |f| && 0 <= y < a.symbolCount ==> b.outputs[f[s]][y] == a.outputs[s][y])
    && (forall s, y :: 0 <= s < |f| && 0 <= y < a.symbolCount ==> b.transitions[f[s]][y] == f[a.transitions[s][y]])
  }

  lemma {:induction false} SimulatesReach(a: RuleAutomaton, b: RuleAutomaton, f: seq<nat>, s: nat, w: Word)
    requires a.Valid() && b.Valid() && Simulates(a, b, f)
    requires s < a.StateCount() && InAlphabet(w, a.symbolCount)
    ensures Reach(b, f[s], w) == f[Reach(a, s, w)]
    decreases |w|
  {
    if w != [] {
      SimulatesReach(a, b, f, s, w[..|w| - 1]);
    }
  }

  lemma SimulatesEmit(a: RuleAutomaton, b: RuleAutomaton, f: seq<nat>, s: nat, w: Word)
    requires a.Valid() && b.Valid() && Simulates(a, b, f)
    requires s < a.StateCount() && InAlphabet(w, a.symbolCount) && |w| > 0
    ensures EmitFrom(b, f[s], w) == EmitFrom(a, s, w)
  {
    SimulatesReach(a, b, f, s, w[..|w| - 1]);
  }

  lemma SimulatesDistinguishable(a: RuleAutomaton, b: RuleAutomaton, f: seq<nat>, s: nat, t: nat)
    requires a.Valid() && b.Valid() && Simulates(a, b, f)
    requires s < a.StateCount() && t < a.StateCount() && Distinguishable(a, s, t)
    ensures Distinguishable(b, f[s], f[t])
  {
    var w: Word :| TellsApart(a, s, t, w);
    SimulatesEmit(a, b, f, s, w);
    SimulatesEmit(a, b, f, t, w);
    assert TellsApart(b, f[s], f[t], w);
  }

  lemma SimulatesIndistinguishable(a: RuleAutomaton, b: RuleAutomaton, f: seq<nat>, s: nat, t: nat)
    requires a.Valid() && b.Valid() && Simulates(a, b, f)
    requires s < a.StateCount() && t < a.StateCount() && Distinguishable(b, f[s], f[t])
    ensures Distinguishable(a, s, t)
  {
    var w: Word :| TellsApart(b, f[s], f[t], w);
    SimulatesEmit(a, b, f, s, w);
    SimulatesEmit(a, b, f, t, w);
    assert TellsApart(a, s, t, w);
  }

  lemma SimulatesBehaviour(a: RuleAutomaton, b: RuleAutomaton, f: seq<nat>)
    requires a.Valid() && b.Valid() && Simulates(a, b, f) && f[0] == 0
    requires a.actionCount == b.actionCount
    ensures SameBehaviour(a, b)
  {
    forall w: Word | InAlphabet(w, a.symbolCount) && |w| > 0
      ensures Emit(a, w) == Emit(b, w)
    {
      SimulatesEmit(a, b, f, 0, w);
    }
  }

  // ------------------------------------------------------------ lists of states

  /** Position of the first occurrence. */
  function Index(xs: seq<nat>, x: nat): (i: nat)
    requires x in xs
    ensures i < |xs| && xs[i] == x && x !in xs[..i]
  {
    if xs[0] == x then 0 else
      var i := 1 + Index(xs[1..], x);
      assert xs[..i] == [xs[0]] + xs[1..][..i - 1];
      i
  }

  predicate AllBelow(xs: seq<nat>, n: nat) {
    forall i :: 0 <= i < |xs| ==> xs[i] < n
  }

  lemma DistinctLength(xs: seq<nat>, n: nat)
    requires Distinct(xs) && AllBelow(xs, n)
    ensures |xs| <= n
  {
    if |xs| > n {
      var i, j := Pigeonhole(xs, n);
      assert false;
    }
  }

  /** Python's `sorted` on a list of numbers below `n` without repetition. */
  method SortedMembers(xs: seq<nat>, n: nat) returns (sorted: seq<nat>)
    requires AllBelow(xs, n)
    ensures Ascending(sorted) && AllBelow(sorted, n)
    ensures forall x :: x in sorted <==> x in xs
  {
    sorted := [];
    for k := 0 to n
      invariant Ascending(sorted) && AllBelow(sorted, k)
      invariant forall x :: x in sorted <==> x in xs && x < k
    {
      if k in xs {
        sorted := sorted + [k];
      }
    }
  }

  // ------------------------------------------------------------- reachable part

  lemma {:induction false} ClosedContainsReach(m: RuleAutomaton, seen: seq<nat>, w: Word)
    requires m.Valid() && 0 in seen && InAlphabet(w, m.symbolCount)
    requires forall s, y :: s in seen && s < m.StateCount() && 0 <= y < m.symbolCount ==> m.transitions[s][y] in seen
    ensures Reach(m, 0, w) in seen
    decreases |w|
  {
    if w != [] {
      ClosedContainsReach(m, seen, w[..|w| - 1]);
    }
  }

  lemma ClosedContainsReachable(m: RuleAutomaton, seen: seq<nat>)
    requires m.Valid() && 0 in seen
    requires forall s, y :: s in seen && s < m.StateCount() && 0 <= y < m.symbolCount ==> m.transitions[s][y] in seen
    ensures forall s: nat :: Reachable(m, s) ==> s in seen
  {
    forall s: nat | Reachable(m, s)
      ensures s in seen
    {
      var w: Word :| ReachedBy(m, s, w);
      ClosedContainsReach(m, seen, w);
    }
  }

  lemma StartReachable(m: RuleAutomaton)
    requires m.Valid()
    ensures Reachable(m, 0)
  {
    assert ReachedBy(m, 0, []);
  }

  lemma StepReachable(m: RuleAutomaton, s: nat, y: nat)
    requires m.Valid() && s < m.StateCount() && y < m.symbolCount && Reachable(m, s)
    ensures Reachable(m, m.transitions[s][y])
  {
    var w: Word :| ReachedBy(m, s, w);
    var v := w + [y];
    assert v[..|v| - 1] == w;
    assert ReachedBy(m, m.transitions[s][y], v);
  }

  /** The reachable states, in increasing order. */
  ghost predicate ReachableList(m: RuleAutomaton, states: seq<nat>)
    requires m.Valid()
  {
    && Ascending(states)
    && AllBelow(states, m.StateCount())
    && (forall i :: 0 <= i < |states| ==> Reachable(m, states[i]))
    && (forall s: nat :: s < m.StateCount() && Reachable(m, s) ==> s in states)
  }

  predicate ClosedList(m: RuleAutomaton, states: seq<nat>)
    requires m.Valid()
  {
    && AllBelow(states, m.StateCount())
    && (forall i, y :: 0 <= i < |states| && 0 <= y < m.symbolCount ==> m.transitions[states[i]][y] in states)
  }

  /** `_reachable`: worklist search from state 0, sorted. */
  method ReachableStates(m: RuleAutomaton) returns (states: seq<nat>)
    requires m.Valid()
    ensures ReachableList(m, states) && ClosedList(m, states)
    ensures 0 in states
  {
    hide Reachable, ReachedBy, Reach;
    var n := m.StateCount();
    var seen: seq<nat> := [0];
    var frontier: seq<nat> := [0];
    StartReachable(m);
    while frontier != []
      invariant Distinct(seen) && |seen| <= n && 0 in seen && AllBelow(seen, n)
      invariant forall i :: 0 <= i < |seen| ==> Reachable(m, seen[i])
      invariant forall s :: s in frontier ==> s in seen
      invariant forall s, y :: s in seen && s !in frontier && 0 <= y < m.symbolCount ==> m.transitions[s][y] in seen
      decreases n - |seen|, |frontier|
    {
      var state := frontier[|frontier| - 1];
      assert frontier == frontier[..|frontier| - 1] + [state];
      frontier := frontier[..|frontier| - 1];
      ghost var before := |seen|;
      ghost var rest := frontier;
      for symbol := 0 to m.symbolCount
        invariant Distinct(seen) && before <= |seen| <= n && 0 in seen && state in seen && AllBelow(seen, n)
        invariant |seen| == before ==> frontier == rest
        invariant forall i :: 0 <= i < |seen| ==> Reachable(m, seen[i])
        invariant forall s :: s in frontier ==> s in seen
        invariant forall s, y :: s in seen && s !in frontier && s != state && 0 <= y < m.symbolCount ==>
          m.transitions[s][y] in seen
        invariant forall y :: 0 <= y < symbol ==> m.transitions[state][y] in seen
      {
        var target := m.transitions[state][symbol];
        if target !in seen {
          StepReachable(m, state, symbol);
          seen := seen + [target];
          frontier := frontier + [target];
          DistinctLength(seen, n);
        }
      }
    }
    ClosedContainsReachable(m, seen);
    states := SortedMembers(seen, n);
    forall i | 0 <= i < |states|
      ensures Reachable(m, states[i])
    {
      assert states[i] in seen;
    }
    forall i, y | 0 <= i < |states| && 0 <= y < m.symbolCount
      ensures m.transitions[states[i]][y] in states
    {
      assert states[i] in seen;
    }
  }

  /** The machine restricted to the listed states, renumbered by position. */
  function Trim(m: RuleAutomaton, states: seq<nat>): RuleAutomaton
    requires m.Valid() && ClosedList(m, states)
  {
    RuleAutomaton(
      m.symbolCount,
      seq(|states|, i requires 0 <= i < |states| =>
        seq(m.symbolCount, y requires 0 <= y < m.symbolCount => Index(states, m.transitions[states[i]][y]))),
      seq(|states|, i requires 0 <= i < |states| => m.outputs[states[i]]),
      m.actionCount)
  }

  lemma TrimCorrect(m: RuleAutomaton, states: seq<nat>)
    requires m.Valid() && ReachableList(m, states) && ClosedList(m, states) && 0 in states
    ensures var t := Trim(m, states);
      && t.Valid() && SameBehaviour(m, t)
      && forall i: nat :: i < t.StateCount() ==> Reachable(t, i)
  {
    var t := Trim(m, states);
    assert t.Valid();
    assert Simulates(t, m, states);
    assert states[0] == 0;
    SimulatesBehaviour(t, m, states);
    forall i: nat | i < t.StateCount()
      ensures Reachable(t, i)
    {
      var w: Word :| ReachedBy(m, states[i], w);
      SimulatesReach(t, m, states, 0, w);
      var j := Reach(t, 0, w);
      assert states[j] == states[i];
      assert j == i;
      assert ReachedBy(t, i, w);
    }
  }

  // ------------------------------------------------- numbering sorted signatures

  /** Python's order on tuples of numbers. */
  predicate LexLess(a: seq<nat>, b: seq<nat>) {
    if b == [] then false
    else if a == [] then true
    else a[0] < b[0] || (a[0] == b[0] && LexLess(a[1..], b[1..]))
  }

  lemma LexTotal(a: seq<nat>, b: seq<nat>)
    ensures LexLess(a, b) || LexLess(b, a) || a == b
    ensures !(LexLess(a, b) && LexLess(b, a))
    ensures !LexLess(a, a)
  {
    if a != [] && b != [] && a[0] == b[0] {
      LexTotal(a[1..], b[1..]);
      assert a == [a[0]] + a[1..] && b == [b[0]] + b[1..];
    }
  }

  lemma LexTransitive(a: seq<nat>, b: seq<nat>, c: seq<nat>)
    requires LexLess(a, b) && LexLess(b, c)
    ensures LexLess(a, c)
  {
    if a != [] && a[0] == b[0] == c[0] {
      LexTransitive(a[1..], b[1..], c[1..]);
    }
  }

  function SmallerKeys(keys: seq<seq<nat>>, key: seq<nat>): set<seq<nat>> {
    set k | k in keys && LexLess(k, key)
  }

  /** The number `key` gets when the distinct keys are sorted and enumerated. */
  function Rank(keys: seq<seq<nat>>, key: seq<nat>): nat {
    |SmallerKeys(keys, key)|
  }

  function Ranks(keys: seq<seq<nat>>): (r: seq<nat>)
    ensures |r| == |keys|
  {
    seq(|keys|, i requires 0 <= i < |keys| => Rank(keys, keys[i]))
  }

  lemma RankLess(keys: seq<seq<nat>>, a: seq<nat>, b: seq<nat>)
    requires a in keys && LexLess(a, b)
    ensures Rank(keys, a) < Rank(keys, b)
  {
    var small, large := SmallerKeys(keys, a), SmallerKeys(keys, b);
    forall k | k in small
      ensures k in large
    {
      LexTransitive(k, a, b);
    }
    LexTotal(a, a);
    assert a in large && a !in small;
    SubsetCardinality(small, large);
  }

  /** Ranks order the positions exactly as their keys do. */
  lemma RanksOrder(keys: seq<seq<nat>>, i: nat, j: nat)
    requires i < |keys| && j < |keys|
    ensures Ranks(keys)[i] == Ranks(keys)[j] <==> keys[i] == keys[j]
    ensures Ranks(keys)[i] < Ranks(keys)[j] <==> LexLess(keys[i], keys[j])
  {
    LexTotal(keys[i], keys[j]);
    if LexLess(keys[i], keys[j]) {
      RankLess(keys, keys[i], keys[j]);
    } else if LexLess(keys[j], keys[i]) {
      RankLess(keys, keys[j], keys[i]);
    }
  }

  /** The distinct labels in use. */
  function Labels(p: seq<nat>): set<nat> {
    set v | v in p
  }

  function SmallerLabels(p: seq<nat>, bound: nat): set<nat> {
    set v | v in p && v < bound
  }

  /** Labels are `0..k-1`: each one counts the labels below it. */
  predicate Dense(p: seq<nat>) {
    forall i :: 0 <= i < |p| ==> p[i] == |SmallerLabels(p, p[i])|
  }

  lemma ImageCardinality(a: set<seq<nat>>, b: set<nat>, f: map<seq<nat>, nat>)
    requires forall k :: k in a ==> k in f && f[k] in b
    requires forall k, l :: k in a && l in a && f[k] == f[l] ==> k == l
    requires forall v :: v in b ==> exists k :: k in a && f[k] == v
    ensures |a| == |b|
  {
    if a != {} {
      var k :| k in a;
      ImageCardinality(a - {k}, b - {f[k]}, f);
    } else {
      assert forall v :: v !in b;
    }
  }

  /** If `p` orders positions as their keys do, counting smaller keys or smaller labels is the same. */
  lemma CountsAgree(keys: seq<seq<nat>>, p: seq<nat>, i: nat)
    requires |keys| == |p| && i < |p|
    requires forall j, k :: 0 <= j < |p| && 0 <= k < |p| ==>
      (p[j] == p[k] <==> keys[j] == keys[k]) && (p[j] < p[k] <==> LexLess(keys[j], keys[k]))
    ensures Rank(keys, keys[i]) == |SmallerLabels(p, p[i])|
  {
    var a, b := SmallerKeys(keys, keys[i]), SmallerLabels(p, p[i]);
    var f := map k | k in keys :: var j :| 0 <= j < |keys| && keys[j] == k; p[j];
    forall k | k in a
      ensures k in f && f[k] in b
    {
      var j :| 0 <= j < |keys| && keys[j] == k && f[k] == p[j];
    }
    forall k, l | k in a && l in a && f[k] == f[l]
      ensures k == l
    {
      var j :| 0 <= j < |keys| && keys[j] == k && f[k] == p[j];
      var j' :| 0 <= j' < |keys| && keys[j'] == l && f[l] == p[j'];
    }
    forall v | v in b
      ensures exists k :: k in a && f[k] == v
    {
      var j :| 0 <= j < |p| && p[j] == v;
      assert keys[j] in a && f[keys[j]] == v;
    }
    ImageCardinality(a, b, f);
  }

  lemma RanksDense(keys: seq<seq<nat>>)
    ensures Dense(Ranks(keys))
  {
    var p := Ranks(keys);
    forall j, k | 0 <= j < |p| && 0 <= k < |p|
      ensures (p[j] == p[k] <==> keys[j] == keys[k]) && (p[j] < p[k] <==> LexLess(keys[j], keys[k]))
    {
      RanksOrder(keys, j, k);
    }
    forall i | 0 <= i < |p|
      ensures p[i] == |SmallerLabels(p, p[i])|
    {
      CountsAgree(keys, p, i);
    }
  }

  lemma DenseBound(p: seq<nat>, i: nat)
    requires Dense(p) && i < |p|
    ensures p[i] < |p|
  {
    assert p[i] !in SmallerLabels(p, p[i]) && p[i] in Labels(p);
    SubsetCardinality(SmallerLabels(p, p[i]), Labels(p));
    LabelsBound(p);
  }

  lemma LabelsBound(p: seq<nat>)
    ensures |Labels(p)| <= |p|
  {
    if p != [] {
      assert Labels(p) == Labels(p[1..]) + {p[0]};
      LabelsBound(p[1..]);
    }
  }

  lemma {:induction false} LexFirst(a: seq<nat>, b: seq<nat>)
    requires |a| == |b|
    ensures LexLess(a, b) <==> FirstLess(a, b)
  {
    if a != [] {
      LexFirst(a[1..], b[1..]);
      if a[0] == b[0] && FirstLess(a[1..], b[1..]) {
        var y :| 0 <= y < |a[1..]| && a[1..][y] < b[1..][y] && a[1..][..y] == b[1..][..y];
        assert a[..y + 1] == [a[0]] + a[1..][..y] && b[..y + 1] == [b[0]] + b[1..][..y];
        assert a[y + 1] < b[y + 1];
      }
      if FirstLess(a, b) {
        var y :| 0 <= y < |a| && a[y] < b[y] && a[..y] == b[..y];
        assert y > 0 ==> a[..y][0] == b[..y][0];
        if a[0] == b[0] {
          assert a[1..][..y - 1] == a[..y][1..] && b[1..][..y - 1] == b[..y][1..];
          assert a[1..][y - 1] < b[1..][y - 1];
        }
      }
      if a[0] < b[0] {
        assert a[..0] == b[..0];
      }
    }
  }

  /** At the first place where they differ, `a` is smaller. */
  predicate FirstLess(a: seq<nat>, b: seq<nat>)
    requires |a| == |b|
  {
    exists y :: 0 <= y < |a| && a[y] < b[y] && a[..y] == b[..y]
  }

  // ------------------------------------------------------------ the order of states

  /** The smaller answer at the first symbol where the answers differ. */
  ghost predicate AnswersBefore(m: RuleAutomaton, s: nat, t: nat)
    requires m.Valid() && s < m.StateCount() && t < m.StateCount()
  {
    exists y :: 0 <= y < m.symbolCount && m.outputs[s][y] < m.outputs[t][y] && m.outputs[s][..y] == m.outputs[t][..y]
  }

  /**
   The order `minimize` puts states in, by behaviour alone. To depth 0 their answers decide; to
   greater depths, states still level are compared by where the first symbol leads that takes
   them to states not level.
   */
  ghost predicate Precedes(m: RuleAutomaton, k: nat, s: nat, t: nat)
    requires m.Valid() && s < m.StateCount() && t < m.StateCount()
    decreases k, 0
  {
    if k == 0 then AnswersBefore(m, s, t)
    else Precedes(m, k - 1, s, t) || (Level(m, k - 1, s, t) && SplitBefore(m, k - 1, s, t))
  }

  ghost predicate Level(m: RuleAutomaton, k: nat, s: nat, t: nat)
    requires m.Valid() && s < m.StateCount() && t < m.StateCount()
    decreases k, 1
  {
    !Precedes(m, k, s, t) && !Precedes(m, k, t, s)
  }

  /** Symbol `y` leads from `s` to a state before the one it leads to from `t`, smaller symbols to level states. */
  ghost predicate Splits(m: RuleAutomaton, k: nat, s: nat, t: nat, y: nat)
    requires m.Valid() && s < m.StateCount() && t < m.StateCount() && y < m.symbolCount
    decreases k, 2
  {
    && Precedes(m, k, m.transitions[s][y], m.transitions[t][y])
    && forall z :: 0 <= z < y ==> Level(m, k, m.transitions[s][z], m.transitions[t][z])
  }

  ghost predicate SplitBefore(m: RuleAutomaton, k: nat, s: nat, t: nat)
    requires m.Valid() && s < m.StateCount() && t < m.StateCount()
    decreases k, 3
  {
    exists y: nat :: y < m.symbolCount && Splits(m, k, s, t, y)
  }

  /** Labels order the states as they precede each other to depth `k`. */
  ghost predicate Sorted(m: RuleAutomaton, p: seq<nat>, k: nat)
    requires m.Valid() && |p| == m.StateCount()
  {
    forall s: nat, t: nat :: s < |p| && t < |p| ==> (p[s] < p[t] <==> Precedes(m, k, s, t))
  }

  lemma SortedByAnswers(m: RuleAutomaton)
    requires m.Valid()
    ensures |Ranks(m.outputs)| == m.StateCount() && Sorted(m, Ranks(m.outputs), 0)
  {
    forall s: nat, t: nat | s < m.StateCount() && t < m.StateCount()
      ensures Ranks(m.outputs)[s] < Ranks(m.outputs)[t] <==> Precedes(m, 0, s, t)
    {
      RanksOrder(m.outputs, s, t);
      AnswersFirst(m, s, t);
    }
  }

  lemma AnswersFirst(m: RuleAutomaton, s: nat, t: nat)
    requires m.Valid() && s < m.StateCount() && t < m.StateCount()
    ensures LexLess(m.outputs[s], m.outputs[t]) <==> Precedes(m, 0, s, t)
  {
    LexFirst(m.outputs[s], m.outputs[t]);
  }

  /** The labels of a state's successors. */
  function SuccessorLabels(m: RuleAutomaton, p: seq<nat>, s: nat): (r: seq<nat>)
    requires m.Valid() && |p| == m.StateCount() && s < |p|
    ensures |r| == m.symbolCount
  {
    seq(m.symbolCount, y requires 0 <= y < m.symbolCount => p[m.transitions[s][y]])
  }

  lemma SuccessorsFirst(m: RuleAutomaton, p: seq<nat>, s: nat, t: nat, k: nat)
    requires m.Valid() && |p| == m.StateCount() && s < |p| && t < |p| && Sorted(m, p, k)
    ensures LexLess(SuccessorLabels(m, p, s), SuccessorLabels(m, p, t)) <==> SplitBefore(m, k, s, t)
  {
    hide Precedes, LexLess;
    var a, b := SuccessorLabels(m, p, s), SuccessorLabels(m, p, t);
    LexFirst(a, b);
    forall y | 0 <= y < m.symbolCount
      ensures a[y] < b[y] <==> Precedes(m, k, m.transitions[s][y], m.transitions[t][y])
      ensures a[y] == b[y] <==> Level(m, k, m.transitions[s][y], m.transitions[t][y])
    {
    }
    if FirstLess(a, b) {
      var y: nat :| y < |a| && a[y] < b[y] && a[..y] == b[..y];
      forall z | 0 <= z < y
        ensures Level(m, k, m.transitions[s][z], m.transitions[t][z])
      {
        assert a[..y][z] == b[..y][z];
      }
      assert Splits(m, k, s, t, y);
    }
    if y: nat :| y < m.symbolCount && Splits(m, k, s, t, y) {
      assert a[..y] == b[..y];
    }
  }

  /** One refinement sorts one level deeper. */
  lemma SortedDeeper(m: RuleAutomaton, p: seq<nat>, k: nat)
    requires m.Valid() && |p| == m.StateCount() && Sorted(m, p, k)
    ensures Sorted(m, Ranks(Signatures(m, p)), k + 1)
  {
    hide LexLess, Ranks;
    var keys := Signatures(m, p);
    forall s: nat, t: nat | s < |p| && t < |p|
      ensures Ranks(keys)[s] < Ranks(keys)[t] <==> Precedes(m, k + 1, s, t)
    {
      RanksOrder(keys, s, t);
      SuccessorsFirst(m, p, s, t, k);
      SignatureLess(m, p, s, t);
      assert Level(m, k, s, t) <==> p[s] == p[t];
    }
  }

  lemma SignatureLess(m: RuleAutomaton, p: seq<nat>, s: nat, t: nat)
    requires m.Valid() && |p| == m.StateCount() && s < |p| && t < |p|
    ensures LexLess(Signatures(m, p)[s], Signatures(m, p)[t]) <==>
      p[s] < p[t] || (p[s] == p[t] && LexLess(SuccessorLabels(m, p, s), SuccessorLabels(m, p, t)))
  {
    assert Signatures(m, p)[s][1..] == SuccessorLabels(m, p, s);
    assert Signatures(m, p)[t][1..] == SuccessorLabels(m, p, t);
  }

  /** A simulation keeps the order of states. */
  lemma {:induction false} PrecedesSimulated(a: RuleAutomaton, b: RuleAutomaton, f: seq<nat>, k: nat, s: nat, t: nat)
    requires a.Valid() && b.Valid() && Simulates(a, b, f) && s < a.StateCount() && t < a.StateCount()
    ensures Precedes(a, k, s, t) <==> Precedes(b, k, f[s], f[t])
    decreases k, 0
  {
    if k == 0 {
      assert b.outputs[f[s]] == a.outputs[s] && b.outputs[f[t]] == a.outputs[t];
    } else {
      LevelSimulated(a, b, f, k - 1, s, t);
      SplitSimulated(a, b, f, k - 1, s, t);
    }
  }

  lemma {:induction false} LevelSimulated(a: RuleAutomaton, b: RuleAutomaton, f: seq<nat>, k: nat, s: nat, t: nat)
    requires a.Valid() && b.Valid() && Simulates(a, b, f) && s < a.StateCount() && t < a.StateCount()
    ensures Level(a, k, s, t) <==> Level(b, k, f[s], f[t])
    ensures Precedes(a, k, s, t) <==> Precedes(b, k, f[s], f[t])
    decreases k, 1
  {
    hide Precedes;
    PrecedesSimulated(a, b, f, k, s, t);
    PrecedesSimulated(a, b, f, k, t, s);
  }

  lemma {:induction false} SplitSimulated(a: RuleAutomaton, b: RuleAutomaton, f: seq<nat>, k: nat, s: nat, t: nat)
    requires a.Valid() && b.Valid() && Simulates(a, b, f) && s < a.StateCount() && t < a.StateCount()
    ensures SplitBefore(a, k, s, t) <==> SplitBefore(b, k, f[s], f[t])
    decreases k, 3
  {
    hide Splits;
    forall y: nat | y < a.symbolCount
      ensures Splits(a, k, s, t, y) <==> Splits(b, k, f[s], f[t], y)
    {
      SplitsSimulated(a, b, f, k, s, t, y);
    }
  }

  lemma {:induction false} SplitsSimulated(a: RuleAutomaton, b: RuleAutomaton, f: seq<nat>, k: nat, s: nat, t: nat,
      y: nat)
    requires a.Valid() && b.Valid() && Simulates(a, b, f) && s < a.StateCount() && t < a.StateCount()
    requires y < a.symbolCount
    ensures Splits(a, k, s, t, y) <==> Splits(b, k, f[s], f[t], y)
    decreases k, 2
  {
    hide Precedes, Level;
    PrecedesSimulated(a, b, f, k, a.transitions[s][y], a.transitions[t][y]);
    forall z | 0 <= z < y
      ensures Level(a, k, a.transitions[s][z], a.transitions[t][z]) <==>
        Level(b, k, b.transitions[f[s]][z], b.transitions[f[t]][z])
    {
      LevelSimulated(a, b, f, k, a.transitions[s][z], a.transitions[t][z]);
    }
  }

  /** After the start state, the states are in order, to some depth. */
  ghost predicate InStateOrder(m: RuleAutomaton)
    requires m.Valid()
  {
    exists k: nat :: OrderedTo(m, k)
  }

  ghost predicate OrderedTo(m: RuleAutomaton, k: nat)
    requires m.Valid()
  {
    forall s: nat, t: nat :: 1 <= s < t < m.StateCount() ==> Precedes(m, k, s, t)
  }

  // -------------------------------------------------------- partition refinement

  /** What refinement compares: a state's label, then the labels of its successors. */
  function Signatures(m: RuleAutomaton, p: seq<nat>): (keys: seq<seq<nat>>)
    requires m.Valid() && |p| == m.StateCount()
    ensures |keys| == |p|
  {
    seq(|p|, s requires 0 <= s < |p| =>
      [p[s]] + seq(m.symbolCount, y requires 0 <= y < m.symbolCount => p[m.transitions[s][y]]))
  }

  lemma SignaturesEqual(m: RuleAutomaton, p: seq<nat>, s: nat, t: nat)
    requires m.Valid() && |p| == m.StateCount() && s < |p| && t < |p|
    ensures Signatures(m, p)[s] == Signatures(m, p)[t] <==>
      p[s] == p[t] && forall y :: 0 <= y < m.symbolCount ==> p[m.transitions[s][y]] == p[m.transitions[t][y]]
  {
    var a, b := Signatures(m, p)[s], Signatures(m, p)[t];
    if a == b {
      forall y | 0 <= y < m.symbolCount
        ensures p[m.transitions[s][y]] == p[m.transitions[t][y]]
      {
        assert a[y + 1] == b[y + 1];
      }
      assert a[0] == b[0];
    }
  }

  /** States with the same label answer alike now. */
  predicate AnswersAlike(m: RuleAutomaton, p: seq<nat>)
    requires m.Valid() && |p| == m.StateCount()
  {
    forall s, t :: 0 <= s < |p| && 0 <= t < |p| && p[s] == p[t] ==> m.outputs[s] == m.outputs[t]
  }

  /** States with the same label move to states with the same label. */
  predicate MovesAlike(m: RuleAutomaton, p: seq<nat>)
    requires m.Valid() && |p| == m.StateCount()
  {
    forall s, t, y :: 0 <= s < |p| && 0 <= t < |p| && p[s] == p[t] && 0 <= y < m.symbolCount ==>
      p[m.transitions[s][y]] == p[m.transitions[t][y]]
  }

  ghost predicate SplitsOnlyDistinguishable(m: RuleAutomaton, p: seq<nat>)
    requires m.Valid() && |p| == m.StateCount()
  {
    forall s: nat, t: nat :: s < |p| && t < |p| && p[s] != p[t] ==> Distinguishable(m, s, t)
  }

  lemma DistinguishedAfterStep(m: RuleAutomaton, s: nat, t: nat, y: nat)
    requires m.Valid() && s < m.StateCount() && t < m.StateCount() && y < m.symbolCount
    requires Distinguishable(m, m.transitions[s][y], m.transitions[t][y])
    ensures Distinguishable(m, s, t)
  {
    var w: Word :| TellsApart(m, m.transitions[s][y], m.transitions[t][y], w);
    EmitAppend(m, s, [y], w);
    EmitAppend(m, t, [y], w);
    assert Reach(m, s, [y]) == m.transitions[s][y] && Reach(m, t, [y]) == m.transitions[t][y];
    assert TellsApart(m, s, t, [y] + w);
  }

  lemma DistinguishedNow(m: RuleAutomaton, s: nat, t: nat)
    requires m.Valid() && s < m.StateCount() && t < m.StateCount() && m.outputs[s] != m.outputs[t]
    ensures Distinguishable(m, s, t)
  {
    var y :| 0 <= y < m.symbolCount && m.outputs[s][y] != m.outputs[t][y];
    assert TellsApart(m, s, t, [y]);
  }

  /** One refinement keeps both halves of the invariant. */
  lemma RefineKeeps(m: RuleAutomaton, p: seq<nat>, refined: seq<nat>)
    requires m.Valid() && |p| == m.StateCount() && refined == Ranks(Signatures(m, p))
    requires AnswersAlike(m, p) && SplitsOnlyDistinguishable(m, p)
    ensures AnswersAlike(m, refined) && SplitsOnlyDistinguishable(m, refined)
  {
    var keys := Signatures(m, p);
    forall s: nat, t: nat | s < |p| && t < |p|
      ensures refined[s] == refined[t] ==> m.outputs[s] == m.outputs[t]
      ensures refined[s] != refined[t] ==> Distinguishable(m, s, t)
    {
      RanksOrder(keys, s, t);
      SignaturesEqual(m, p, s, t);
      if refined[s] != refined[t] && p[s] == p[t] {
        var y :| 0 <= y < m.symbolCount && p[m.transitions[s][y]] != p[m.transitions[t][y]];
        DistinguishedAfterStep(m, s, t, y);
      }
    }
  }

  lemma StableMovesAlike(m: RuleAutomaton, p: seq<nat>)
    requires m.Valid() && |p| == m.StateCount() && p == Ranks(Signatures(m, p))
    ensures MovesAlike(m, p)
  {
    forall s, t | 0 <= s < |p| && 0 <= t < |p| && p[s] == p[t]
      ensures forall y :: 0 <= y < m.symbolCount ==> p[m.transitions[s][y]] == p[m.transitions[t][y]]
    {
      RanksOrder(Signatures(m, p), s, t);
      SignaturesEqual(m, p, s, t);
    }
  }

  lemma SignatureOrder(m: RuleAutomaton, p: seq<nat>, s: nat, t: nat)
    requires m.Valid() && |p| == m.StateCount() && s < |p| && t < |p| && p[s] < p[t]
    ensures LexLess(Signatures(m, p)[s], Signatures(m, p)[t])
  {
  }

  /** Refinement that splits no class also renumbers none, so `refined == partition` is reached. */
  lemma UnsplitIsUnchanged(m: RuleAutomaton, p: seq<nat>)
    requires m.Valid() && |p| == m.StateCount() && Dense(p)
    requires forall s, t :: 0 <= s < |p| && 0 <= t < |p| && p[s] == p[t] ==>
      Ranks(Signatures(m, p))[s] == Ranks(Signatures(m, p))[t]
    ensures Ranks(Signatures(m, p)) == p
  {
    var keys := Signatures(m, p);
    forall j, k | 0 <= j < |p| && 0 <= k < |p|
      ensures (p[j] == p[k] <==> keys[j] == keys[k]) && (p[j] < p[k] <==> LexLess(keys[j], keys[k]))
    {
      RanksOrder(keys, j, k);
      SignaturesEqual(m, p, j, k);
      LexTotal(keys[j], keys[k]);
      if p[j] < p[k] {
        SignatureOrder(m, p, j, k);
      } else if p[k] < p[j] {
        SignatureOrder(m, p, k, j);
      }
    }
    forall i | 0 <= i < |p|
      ensures Ranks(keys)[i] == p[i]
    {
      CountsAgree(keys, p, i);
    }
  }

  /** A strictly finer labelling uses strictly more labels. */
  lemma FinerHasMoreLabels(p: seq<nat>, q: seq<nat>, s: nat, t: nat)
    requires |p| == |q| && s < |p| && t < |p|
    requires forall i, j :: 0 <= i < |p| && 0 <= j < |p| && q[i] == q[j] ==> p[i] == p[j]
    requires p[s] == p[t] && q[s] != q[t]
    ensures |Labels(p)| < |Labels(q)|
  {
    // Send each label of p to one label of q above it, avoiding the label of t.
    var f := map v | v in Labels(p) :: var i :| 0 <= i < |p| && p[i] == v && (v == p[s] ==> i == s); q[i];
    var image := set v | v in Labels(p) :: f[v];
    InjectiveImage(Labels(p), f, image) by {
      forall v, u | v in Labels(p) && u in Labels(p) && f[v] == f[u]
        ensures v == u
      {
        var i :| 0 <= i < |p| && p[i] == v && f[v] == q[i];
        var j :| 0 <= j < |p| && p[j] == u && f[u] == q[j];
      }
    }
    forall v | v in Labels(p)
      ensures f[v] in Labels(q) && f[v] != q[t]
    {
      var i :| 0 <= i < |p| && p[i] == v && (v == p[s] ==> i == s) && f[v] == q[i];
    }
    assert q[t] in Labels(q) && q[t] !in image && image <= Labels(q);
    SubsetCardinality(image, Labels(q));
  }

  lemma InjectiveImage(a: set<nat>, f: map<nat, nat>, image: set<nat>)
    requires forall v :: v in a ==> v in f
    requires forall v, u :: v in a && u in a && f[v] == f[u] ==> v == u
    requires image == set v | v in a :: f[v]
    ensures |image| == |a|
  {
    if a != {} {
      var v :| v in a;
      var rest := set u | u in a - {v} :: f[u];
      assert image == rest + {f[v]};
      InjectiveImage(a - {v}, f, rest);
    }
  }

  lemma SplitByAnswers(m: RuleAutomaton)
    requires m.Valid()
    ensures AnswersAlike(m, Ranks(m.outputs)) && SplitsOnlyDistinguishable(m, Ranks(m.outputs))
  {
    var p := Ranks(m.outputs);
    forall s: nat, t: nat | s < |p| && t < |p|
      ensures p[s] == p[t] ==> m.outputs[s] == m.outputs[t]
      ensures p[s] != p[t] ==> Distinguishable(m, s, t)
    {
      RanksOrder(m.outputs, s, t);
      if p[s] != p[t] {
        DistinguishedNow(m, s, t);
      }
    }
  }

  /** The refinement loop of `minimize`: split on successors until nothing splits. */
  method CoarsestPartition(m: RuleAutomaton) returns (p: seq<nat>, ghost depth: nat)
    requires m.Valid()
    ensures |p| == m.StateCount() && Dense(p)
    ensures AnswersAlike(m, p) && MovesAlike(m, p)
    ensures SplitsOnlyDistinguishable(m, p)
    ensures Sorted(m, p, depth)
  {
    hide Sorted, Dense, Ranks, AnswersAlike, MovesAlike, SplitsOnlyDistinguishable, RuleAutomaton.Valid;
    p, depth := Ranks(m.outputs), 0;
    SortedByAnswers(m);
    RanksDense(m.outputs);
    SplitByAnswers(m);
    LabelsBound(p);
    while true
      invariant |p| == m.StateCount() && Dense(p) && |Labels(p)| <= |p|
      invariant AnswersAlike(m, p) && SplitsOnlyDistinguishable(m, p) && Sorted(m, p, depth)
      decreases |p| - |Labels(p)|
    {
      var refined := Ranks(Signatures(m, p));
      if refined == p {
        StableMovesAlike(m, p);
        break;
      }
      RefineKeeps(m, p, refined);
      RanksDense(Signatures(m, p));
      LabelsBound(refined);
      assert |Labels(p)| < |Labels(refined)| by {
        RefinementGrows(m, p, refined);
      }
      SortedDeeper(m, p, depth);
      p, depth := refined, depth + 1;
    }
  }

  lemma RefinementGrows(m: RuleAutomaton, p: seq<nat>, refined: seq<nat>)
    requires m.Valid() && |p| == m.StateCount() && Dense(p)
    requires refined == Ranks(Signatures(m, p)) && refined != p
    ensures |Labels(p)| < |Labels(refined)|
  {
    if forall s, t :: 0 <= s < |p| && 0 <= t < |p| && p[s] == p[t] ==> refined[s] == refined[t] {
      UnsplitIsUnchanged(m, p);
      assert false;
    }
    var s, t :| 0 <= s < |p| && 0 <= t < |p| && p[s] == p[t] && refined[s] != refined[t];
    forall i, j | 0 <= i < |p| && 0 <= j < |p| && refined[i] == refined[j]
      ensures p[i] == p[j]
    {
      RanksOrder(Signatures(m, p), i, j);
      SignaturesEqual(m, p, i, j);
    }
    FinerHasMoreLabels(p, refined, s, t);
  }

  // -------------------------------------------------------------------- quotient

  /** One state per group, each read off the group's first member. */
  function Quotient(m: RuleAutomaton, p: seq<nat>, groups: seq<nat>): RuleAutomaton
    requires m.Valid() && |p| == m.StateCount()
    requires forall g :: g in groups <==> g in p
  {
    RuleAutomaton(
      m.symbolCount,
      seq(|groups|, k requires 0 <= k < |groups| =>
        seq(m.symbolCount, y requires 0 <= y < m.symbolCount =>
          Index(groups, p[m.transitions[Index(p, groups[k])][y]]))),
      seq(|groups|, k requires 0 <= k < |groups| => m.outputs[Index(p, groups[k])]),
      m.actionCount)
  }

  lemma QuotientSimulates(m: RuleAutomaton, p: seq<nat>, groups: seq<nat>, f: seq<nat>)
    requires m.Valid() && |p| == m.StateCount() && Distinct(groups)
    requires forall g :: g in groups <==> g in p
    requires AnswersAlike(m, p) && MovesAlike(m, p)
    requires |f| == |p| && forall s :: 0 <= s < |p| ==> f[s] == Index(groups, p[s])
    ensures Quotient(m, p, groups).Valid() && Simulates(m, Quotient(m, p, groups), f)
  {
    var q := Quotient(m, p, groups);
    assert p[0] in groups;
    assert q.Valid();
    forall s, y | 0 <= s < |f| && 0 <= y < m.symbolCount
      ensures q.outputs[f[s]][y] == m.outputs[s][y] && q.transitions[f[s]][y] == f[m.transitions[s][y]]
    {
      var first := Index(p, p[s]);
      assert p[first] == p[s] && groups[f[s]] == p[s];
    }
  }

  /** How the groups list and the state-to-position map `f` must line up with a stable partition. */
  ghost predicate Grouping(m: RuleAutomaton, p: seq<nat>, groups: seq<nat>, f: seq<nat>)
    requires m.Valid() && |p| == m.StateCount()
  {
    && Distinct(groups)
    && (forall g :: g in groups <==> g in p)
    && |f| == |p|
    && f[0] == 0
    && (forall s :: 0 <= s < |p| ==> p[s] in groups && f[s] == Index(groups, p[s]))
  }

  lemma GroupMember(m: RuleAutomaton, p: seq<nat>, groups: seq<nat>, f: seq<nat>, k: nat)
    requires m.Valid() && |p| == m.StateCount() && Grouping(m, p, groups, f) && k < |groups|
    ensures groups[k] in p && f[Index(p, groups[k])] == k
  {
  }

  lemma QuotientReachable(m: RuleAutomaton, q: RuleAutomaton, p: seq<nat>, groups: seq<nat>, f: seq<nat>, k: nat)
    requires m.Valid() && |p| == m.StateCount() && Grouping(m, p, groups, f)
    requires q.Valid() && Simulates(m, q, f) && k < |groups|
    requires forall s: nat :: s < m.StateCount() ==> Reachable(m, s)
    ensures Reachable(q, k)
  {
    GroupMember(m, p, groups, f, k);
    var w := Access(m, Index(p, groups[k]));
    SimulatesReach(m, q, f, 0, w);
    assert ReachedBy(q, k, w);
  }

  lemma QuotientDistinguishes(m: RuleAutomaton, q: RuleAutomaton, p: seq<nat>, groups: seq<nat>, f: seq<nat>, k: nat,
      l: nat)
    requires m.Valid() && |p| == m.StateCount() && Grouping(m, p, groups, f)
    requires q.Valid() && Simulates(m, q, f) && k < |groups| && l < |groups| && k != l
    requires q.StateCount() == |groups|
    requires SplitsOnlyDistinguishable(m, p)
    ensures Distinguishable(q, k, l)
  {
    GroupMember(m, p, groups, f, k);
    GroupMember(m, p, groups, f, l);
    var s, t := Index(p, groups[k]), Index(p, groups[l]);
    assert p[s] != p[t];
    SimulatesDistinguishable(m, q, f, s, t);
  }

  lemma QuotientReduced(m: RuleAutomaton, p: seq<nat>, groups: seq<nat>, f: seq<nat>)
    requires m.Valid() && |p| == m.StateCount() && Grouping(m, p, groups, f)
    requires AnswersAlike(m, p) && MovesAlike(m, p) && SplitsOnlyDistinguishable(m, p)
    requires forall s: nat :: s < m.StateCount() ==> Reachable(m, s)
    ensures Reduced(Quotient(m, p, groups)) && SameBehaviour(m, Quotient(m, p, groups))
  {
    var q := Quotient(m, p, groups);
    QuotientSimulates(m, p, groups, f);
    SimulatesBehaviour(m, q, f);
    forall k: nat | k < q.StateCount()
      ensures Reachable(q, k)
    {
      QuotientReachable(m, q, p, groups, f, k);
    }
    forall k: nat, l: nat | k < q.StateCount() && l < q.StateCount() && k != l
      ensures Distinguishable(q, k, l)
    {
      QuotientDistinguishes(m, q, p, groups, f, k, l);
    }
  }

  lemma QuotientOrdered(m: RuleAutomaton, p: seq<nat>, groups: seq<nat>, f: seq<nat>, k: nat)
    requires m.Valid() && |p| == m.StateCount() && Grouping(m, p, groups, f) && Sorted(m, p, k)
    requires AnswersAlike(m, p) && MovesAlike(m, p)
    requires forall i, j :: 1 <= i < j < |groups| ==> groups[i] < groups[j]
    ensures Quotient(m, p, groups).Valid() && InStateOrder(Quotient(m, p, groups))
  {
    hide Precedes;
    var q := Quotient(m, p, groups);
    QuotientSimulates(m, p, groups, f);
    forall i: nat, j: nat | 1 <= i < j < q.StateCount()
      ensures Precedes(q, k, i, j)
    {
      GroupMember(m, p, groups, f, i);
      GroupMember(m, p, groups, f, j);
      var s, t := Index(p, groups[i]), Index(p, groups[j]);
      assert p[s] < p[t];
      PrecedesSimulated(m, q, f, k, s, t);
    }
    assert OrderedTo(q, k);
  }

  lemma ReducedIsValid(m: RuleAutomaton)
    requires Reduced(m)
    ensures m.Valid()
  {
  }

  lemma SameBehaviourSymmetric(a: RuleAutomaton, b: RuleAutomaton)
    requires a.Valid() && b.Valid() && SameBehaviour(a, b)
    ensures SameBehaviour(b, a)
  {
    forall w: Word | InAlphabet(w, b.symbolCount) && |w| > 0
      ensures Emit(b, w) == Emit(a, w)
    {
      assert Emit(a, w) == Emit(b, w);
    }
  }

  lemma SameBehaviourTransitive(a: RuleAutomaton, b: RuleAutomaton, c: RuleAutomaton)
    requires a.Valid() && b.Valid() && c.Valid() && SameBehaviour(a, b) && SameBehaviour(b, c)
    ensures SameBehaviour(a, c)
  {
    forall w: Word | InAlphabet(w, a.symbolCount) && |w| > 0
      ensures Emit(a, w) == Emit(c, w)
    {
      assert Emit(a, w) == Emit(b, w);
    }
  }

  /** After the first, the groups ascend, and stay below `bound`. */
  predicate GroupsAscend(groups: seq<nat>, bound: nat) {
    && (forall i :: 1 <= i < |groups| ==> groups[i] < bound && groups[i] != groups[0])
    && forall i, j :: 1 <= i < j < |groups| ==> groups[i] < groups[j]
  }

  lemma GroupsDistinct(groups: seq<nat>, bound: nat)
    requires GroupsAscend(groups, bound)
    ensures Distinct(groups)
  {
  }

  lemma GroupsNext(groups: seq<nat>, bound: nat, g: nat)
    requires groups != [] && GroupsAscend(groups, bound) && bound <= g != groups[0]
    ensures GroupsAscend(groups + [g], g + 1)
  {
  }

  lemma DenseBelow(p: seq<nat>)
    requires Dense(p)
    ensures forall x :: x in p ==> x < |p|
  {
    forall x | x in p
      ensures x < |p|
    {
      var i :| 0 <= i < |p| && p[i] == x;
      DenseBound(p, i);
    }
  }

  /** The block of the start state first, the remaining blocks in increasing order. */
  method OrderGroups(p: seq<nat>) returns (groups: seq<nat>)
    requires |p| > 0 && Dense(p)
    ensures Distinct(groups) && |groups| > 0 && groups[0] == p[0]
    ensures forall g :: g in groups <==> g in p
    ensures forall i, j :: 1 <= i < j < |groups| ==> groups[i] < groups[j]
  {
    hide Dense, Distinct;
    groups := [p[0]];
    for g := 0 to |p|
      invariant |groups| > 0 && groups[0] == p[0] && GroupsAscend(groups, g)
      invariant forall x :: x in groups <==> x == p[0] || (x in p && x < g)
    {
      if g in p && g != p[0] {
        GroupsNext(groups, g, g);
        groups := groups + [g];
      }
    }
    DenseBelow(p);
    GroupsDistinct(groups, |p|);
  }

  /**
   `minimize`: raises exactly on an invalid machine; otherwise returns a machine
   with the same answers on every stream, with no unreachable state and no two
   states that could be merged, the start state first and the others in the order of
   their behaviour.
   */
  method Minimize(m: RuleAutomaton) returns (r: Result<RuleAutomaton>)
    ensures r.Success? <==> m.Valid()
    ensures r.Success? ==> Reduced(r.value) && SameBehaviour(m, r.value) && InStateOrder(r.value)
  {
    hide Sorted, InStateOrder;
    if !m.Valid() {
      return Failure("invalid rule automaton");
    }
    var reachable := ReachableStates(m);
    TrimCorrect(m, reachable);
    var trimmed := Trim(m, reachable);
    ghost var depth;
    var p;
    p, depth := CoarsestPartition(trimmed);
    var groups := OrderGroups(p);
    ghost var f := seq(|p|, s requires 0 <= s < |p| => Index(groups, p[s]));
    QuotientReduced(trimmed, p, groups, f);
    var merged := Quotient(trimmed, p, groups);
    SameBehaviourTransitive(m, trimmed, merged);
    QuotientOrdered(trimmed, p, groups, f, depth);
    return Success(merged);
  }

  // ---------------------------------------------------------- least state count

  ghost function Access(m: RuleAutomaton, s: nat): (w: Word)
    requires m.Valid() && s < m.StateCount() && Reachable(m, s)
    ensures ReachedBy(m, s, w)
  {
    var w: Word :| ReachedBy(m, s, w);
    w
  }

  /** Words that land `b` in one state leave an equivalent `a` in states no word tells apart. */
  lemma SameLanding(a: RuleAutomaton, b: RuleAutomaton, u: Word, v: Word, w: Word)
    requires a.Valid() && b.Valid() && SameBehaviour(a, b)
    requires InAlphabet(u, a.symbolCount) && InAlphabet(v, a.symbolCount) && InAlphabet(w, a.symbolCount) && |w| > 0
    requires Reach(b, 0, u) == Reach(b, 0, v)
    ensures EmitFrom(a, Reach(a, 0, u), w) == EmitFrom(a, Reach(a, 0, v), w)
  {
    EmitAppend(a, 0, u, w);
    EmitAppend(a, 0, v, w);
    EmitAppend(b, 0, u, w);
    EmitAppend(b, 0, v, w);
    assert Emit(a, u + w) == Emit(b, u + w) && Emit(a, v + w) == Emit(b, v + w);
  }

  /** No machine with the same behaviour has fewer states than a reduced one. */
  lemma ReducedIsSmallest(a: RuleAutomaton, b: RuleAutomaton)
    requires Reduced(a) && b.Valid() && SameBehaviour(a, b)
    ensures a.StateCount() <= b.StateCount()
  {
    if a.StateCount() > b.StateCount() {
      var landing := seq(a.StateCount(), s requires 0 <= s < a.StateCount() => Reach(b, 0, Access(a, s)));
      var s, t := Pigeonhole(landing, b.StateCount());
      assert Distinguishable(a, s, t);
      var w: Word :| TellsApart(a, s, t, w);
      assert landing[s] == landing[t];
      SameLanding(a, b, Access(a, s), Access(a, t), w);
    }
  }
}
