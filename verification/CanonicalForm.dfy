/**
 Canonical identity (rule_automata.py, `canonicalize`): minimise, then number the
 states breadth first from the start. Two machines have the same canonical form
 exactly when they have the same behaviour.
 */
module CanonicalForm {
  import opened Prelude
  import opened RuleAutomata
  import opened Minimization

  /** Cell (s, y) comes before cell (t, z) in row-major order. */
  predicate Earlier(s: nat, y: nat, t: nat, z: nat) {
    s < t || (s == t && y < z)
  }

  /** State `k` is first met as the successor in cell (s, y), and all earlier successors are smaller. */
  predicate DiscoveredAt(m: RuleAutomaton, k: nat, s: nat, y: nat)
    requires m.Valid()
  {
    && s < m.StateCount() && y < m.symbolCount
    && s < k
    && m.transitions[s][y] == k
    && forall t, z :: 0 <= t < m.StateCount() && 0 <= z < m.symbolCount && Earlier(t, z, s, y) ==>
      m.transitions[t][z] < k
  }

  ghost predicate Discovered(m: RuleAutomaton, k: nat)
    requires m.Valid()
  {
    exists s: nat, y: nat :: DiscoveredAt(m, k, s, y)
  }

  /** States are numbered in the order a breadth-first walk meets them. */
  ghost predicate BreadthFirst(m: RuleAutomaton)
    requires m.Valid()
  {
    forall k: nat :: 1 <= k < m.StateCount() ==> Discovered(m, k)
  }

  ghost predicate Canonical(m: RuleAutomaton) {
    Reduced(m) && BreadthFirst(m)
  }

  // ------------------------------------------------------------- the renumbering

  /** `order` lists all states; the machine renumbered by position in it. */
  function Renumber(m: RuleAutomaton, order: seq<nat>): RuleAutomaton
    requires m.Valid() && ClosedList(m, order)
  {
    Trim(m, order)
  }

  /** The prefix of cells scanned so far: every full row before `row`, and `col` cells of it. */
  ghost predicate Scanned(m: RuleAutomaton, order: seq<nat>, row: nat, col: nat)
    requires m.Valid() && AllBelow(order, m.StateCount())
  {
    && row <= |order| && col <= m.symbolCount
    && forall t, z :: 0 <= t < |order| && 0 <= z < m.symbolCount && Earlier(t, z, row, col) ==>
      m.transitions[order[t]][z] in order
  }

  /** Each later entry of `order` was appended at a cell before which every successor was already listed. */
  ghost predicate FoundAt(m: RuleAutomaton, order: seq<nat>, k: nat, s: nat, y: nat)
    requires m.Valid() && AllBelow(order, m.StateCount()) && k < |order|
  {
    && s < k && y < m.symbolCount
    && m.transitions[order[s]][y] == order[k]
    && forall t, z :: 0 <= t < |order| && 0 <= z < m.symbolCount && Earlier(t, z, s, y) ==>
      m.transitions[order[t]][z] in order[..k]
  }

  ghost predicate Found(m: RuleAutomaton, order: seq<nat>, k: nat)
    requires m.Valid() && AllBelow(order, m.StateCount()) && k < |order|
  {
    exists s: nat, y: nat :: FoundAt(m, order, k, s, y)
  }

  ghost predicate AllFound(m: RuleAutomaton, order: seq<nat>)
    requires m.Valid() && AllBelow(order, m.StateCount())
  {
    forall k: nat :: 1 <= k < |order| ==> Found(m, order, k)
  }

  lemma AppendFound(m: RuleAutomaton, order: seq<nat>, row: nat, col: nat)
    requires m.Valid() && AllBelow(order, m.StateCount()) && AllFound(m, order)
    requires row < |order| && col < m.symbolCount && Scanned(m, order, row, col)
    ensures AllBelow(order + [m.transitions[order[row]][col]], m.StateCount())
    ensures AllFound(m, order + [m.transitions[order[row]][col]])
  {
    var target := m.transitions[order[row]][col];
    var longer := order + [target];
    forall k: nat | 1 <= k < |longer|
      ensures Found(m, longer, k)
    {
      assert longer[..|order|] == order;
      if k == |order| {
        assert FoundAt(m, longer, k, row, col);
      } else {
        assert Found(m, order, k);
        var s: nat, y: nat :| FoundAt(m, order, k, s, y);
        assert longer[..k] == order[..k];
        assert FoundAt(m, longer, k, s, y);
      }
    }
  }

  /** The breadth-first listing of `canonicalize`. */
  method BreadthFirstOrder(m: RuleAutomaton) returns (order: seq<nat>)
    requires m.Valid()
    ensures Distinct(order) && |order| > 0 && order[0] == 0
    ensures ClosedList(m, order) && AllFound(m, order)
  {
    order := [0];
    var position := 0;
    while position < |order|
      invariant Distinct(order) && |order| > 0 && order[0] == 0
      invariant AllBelow(order, m.StateCount()) && |order| <= m.StateCount()
      invariant position <= |order|
      invariant Scanned(m, order, position, 0)
      invariant AllFound(m, order)
      decreases m.StateCount() - position
    {
      var state := order[position];
      for symbol := 0 to m.symbolCount
        invariant Distinct(order) && |order| > 0 && order[0] == 0
        invariant AllBelow(order, m.StateCount()) && |order| <= m.StateCount()
        invariant position < |order| && order[position] == state
        invariant Scanned(m, order, position, symbol)
        invariant AllFound(m, order)
      {
        var target := m.transitions[state][symbol];
        if target !in order {
          AppendFound(m, order, position, symbol);
          order := order + [target];
          DistinctLength(order, m.StateCount());
        }
      }
      position := position + 1;
    }
  }

  lemma FoundIsDiscovered(m: RuleAutomaton, order: seq<nat>, k: nat)
    requires m.Valid() && ClosedList(m, order) && AllFound(m, order)
    requires Distinct(order) && Trim(m, order).Valid()
    requires 1 <= k < |order|
    ensures Discovered(Trim(m, order), k)
  {
    var c := Trim(m, order);
    assert Found(m, order, k);
    var s: nat, y: nat :| FoundAt(m, order, k, s, y);
    forall t, z | 0 <= t < c.StateCount() && 0 <= z < c.symbolCount && Earlier(t, z, s, y)
      ensures c.transitions[t][z] < k
    {
      var target := m.transitions[order[t]][z];
      assert target in order[..k];
      assert c.transitions[t][z] == Index(order, target);
    }
    assert DiscoveredAt(c, k, s, y);
  }

  lemma RenumberedBreadthFirst(m: RuleAutomaton, order: seq<nat>)
    requires m.Valid() && ClosedList(m, order) && AllFound(m, order)
    requires Distinct(order) && Trim(m, order).Valid()
    ensures BreadthFirst(Trim(m, order))
  {
    forall k: nat | 1 <= k < Trim(m, order).StateCount()
      ensures Discovered(Trim(m, order), k)
    {
      FoundIsDiscovered(m, order, k);
    }
  }

  lemma TrimSimulates(m: RuleAutomaton, order: seq<nat>)
    requires Reduced(m) && ClosedList(m, order) && Distinct(order) && |order| > 0
    ensures Trim(m, order).Valid() && Simulates(Trim(m, order), m, order)
  {
  }

  lemma TrimReachable(m: RuleAutomaton, order: seq<nat>, i: nat)
    requires Reduced(m) && ClosedList(m, order) && Distinct(order) && |order| > 0 && order[0] == 0
    requires i < |order| && Trim(m, order).Valid() && Simulates(Trim(m, order), m, order)
    ensures Reachable(Trim(m, order), i)
  {
    var c := Trim(m, order);
    var w := Access(m, order[i]);
    SimulatesReach(c, m, order, 0, w);
    assert ReachedBy(c, i, w);
  }

  lemma TrimAllCorrect(m: RuleAutomaton, order: seq<nat>)
    requires Reduced(m) && ClosedList(m, order) && Distinct(order) && |order| > 0 && order[0] == 0
    ensures Trim(m, order).Valid() && Reduced(Trim(m, order)) && SameBehaviour(m, Trim(m, order))
  {
    var c := Trim(m, order);
    TrimSimulates(m, order);
    SimulatesBehaviour(c, m, order);
    SameBehaviourSymmetric(c, m);
    forall i: nat | i < c.StateCount()
      ensures Reachable(c, i)
    {
      TrimReachable(m, order, i);
    }
    forall i: nat, j: nat | i < c.StateCount() && j < c.StateCount() && i != j
      ensures Distinguishable(c, i, j)
    {
      assert order[i] != order[j];
      SimulatesIndistinguishable(c, m, order, i, j);
    }
  }

  /** `canonicalize`: minimise, relabel breadth first. */
  method Canonicalize(m: RuleAutomaton) returns (r: Result<RuleAutomaton>)
    ensures r.Success? <==> m.Valid()
    ensures r.Success? ==> Canonical(r.value) && SameBehaviour(m, r.value)
  {
    var minimized := Minimize(m);
    if minimized.Failure? {
      return minimized;
    }
    var reduced := minimized.value;
    var order := BreadthFirstOrder(reduced);
    TrimAllCorrect(reduced, order);
    var c := Renumber(reduced, order);
    RenumberedBreadthFirst(reduced, order);
    SameBehaviourTransitive(m, reduced, c);
    return Success(c);
  }

  // ------------------------------------------------------------------- uniqueness

  /** State `s` of `a` and state `t` of `b` answer every continuation alike. */
  ghost predicate Alike(a: RuleAutomaton, s: nat, b: RuleAutomaton, t: nat)
    requires a.Valid() && b.Valid() && a.symbolCount == b.symbolCount
    requires s < a.StateCount() && t < b.StateCount()
  {
    forall w: Word :: InAlphabet(w, a.symbolCount) && |w| > 0 ==> EmitFrom(a, s, w) == EmitFrom(b, t, w)
  }

  lemma AlikeStep(a: RuleAutomaton, s: nat, b: RuleAutomaton, t: nat, y: nat)
    requires a.Valid() && b.Valid() && a.symbolCount == b.symbolCount
    requires s < a.StateCount() && t < b.StateCount() && y < a.symbolCount
    requires Alike(a, s, b, t)
    ensures Alike(a, a.transitions[s][y], b, b.transitions[t][y])
    ensures a.outputs[s][y] == b.outputs[t][y]
  {
    assert EmitFrom(a, s, [y]) == EmitFrom(b, t, [y]);
    forall w: Word | InAlphabet(w, a.symbolCount) && |w| > 0
      ensures EmitFrom(a, a.transitions[s][y], w) == EmitFrom(b, b.transitions[t][y], w)
    {
      EmitAppend(a, s, [y], w);
      EmitAppend(b, t, [y], w);
      assert Reach(a, s, [y]) == a.transitions[s][y] && Reach(b, t, [y]) == b.transitions[t][y];
      assert EmitFrom(a, s, [y] + w) == EmitFrom(b, t, [y] + w);
    }
  }

  /** A reduced machine has at most one state alike to a given one. */
  lemma AlikeUnique(a: RuleAutomaton, s: nat, b: RuleAutomaton, t: nat, u: nat)
    requires Reduced(b) && a.Valid() && a.symbolCount == b.symbolCount
    requires s < a.StateCount() && t < b.StateCount() && u < b.StateCount()
    requires Alike(a, s, b, t) && Alike(a, s, b, u)
    ensures t == u
  {
    assert t != u ==> Distinguishable(b, t, u);
  }

  lemma AlikeSymmetric(a: RuleAutomaton, s: nat, b: RuleAutomaton, t: nat)
    requires a.Valid() && b.Valid() && a.symbolCount == b.symbolCount
    requires s < a.StateCount() && t < b.StateCount() && Alike(a, s, b, t)
    ensures Alike(b, t, a, s)
  {
  }

  ghost predicate AlikeBelow(a: RuleAutomaton, b: RuleAutomaton, k: nat)
    requires a.Valid() && b.Valid() && a.symbolCount == b.symbolCount
    requires k <= a.StateCount() && k <= b.StateCount()
  {
    forall j: nat :: j < k ==> Alike(a, j, b, j)
  }

  /** If state k of `a` is met at (s, y), the successor of `b` there is alike to k and not smaller than k. */
  lemma CounterpartNotEarlier(a: RuleAutomaton, b: RuleAutomaton, k: nat, s: nat, y: nat)
    requires Reduced(a) && Reduced(b) && a.symbolCount == b.symbolCount
    requires k < a.StateCount() && k < b.StateCount() && AlikeBelow(a, b, k)
    requires DiscoveredAt(a, k, s, y)
    ensures Alike(a, k, b, b.transitions[s][y])
    ensures b.transitions[s][y] >= k
  {
    assert Alike(a, s, b, s);
    AlikeStep(a, s, b, s, y);
    var t := b.transitions[s][y];
    if t < k {
      assert Alike(a, t, b, t);
      AlikeSymmetric(a, t, b, t);
      AlikeSymmetric(a, k, b, t);
      AlikeUnique(b, t, a, t, k);
    }
  }

  lemma StartAlike(a: RuleAutomaton, b: RuleAutomaton)
    requires a.Valid() && b.Valid() && SameBehaviour(a, b)
    ensures Alike(a, 0, b, 0)
  {
    forall w: Word | InAlphabet(w, a.symbolCount) && |w| > 0
      ensures EmitFrom(a, 0, w) == EmitFrom(b, 0, w)
    {
      assert Emit(a, w) == Emit(b, w);
    }
  }

  lemma CanonicalFacts(m: RuleAutomaton, k: nat)
    requires Canonical(m) && 1 <= k < m.StateCount()
    ensures m.Valid() && Reduced(m) && Discovered(m, k)
    ensures |m.transitions| == m.StateCount() && forall s :: 0 <= s < m.StateCount() ==>
      |m.transitions[s]| == m.symbolCount
  {
  }

  lemma NextAlike(a: RuleAutomaton, b: RuleAutomaton, k: nat)
    requires Canonical(a) && Canonical(b) && a.Valid() && b.Valid() && a.symbolCount == b.symbolCount
    requires 1 <= k < a.StateCount() && k < b.StateCount() && AlikeBelow(a, b, k)
    ensures Alike(a, k, b, k)
  {
    hide Alike, Reduced, BreadthFirst, Canonical, RuleAutomaton.Valid;
    CanonicalFacts(a, k);
    CanonicalFacts(b, k);
    var s: nat, y: nat :| DiscoveredAt(a, k, s, y);
    var t: nat, z: nat :| DiscoveredAt(b, k, t, z);
    CounterpartNotEarlier(a, b, k, s, y);
    forall j: nat | j < k
      ensures Alike(b, j, a, j)
    {
      AlikeSymmetric(a, j, b, j);
    }
    CounterpartNotEarlier(b, a, k, t, z);
    assert !Earlier(t, z, s, y) && !Earlier(s, y, t, z);
  }

  lemma {:induction false} CanonicalAlike(a: RuleAutomaton, b: RuleAutomaton, k: nat)
    requires Canonical(a) && Canonical(b) && SameBehaviour(a, b)
    requires k <= a.StateCount() && k <= b.StateCount()
    ensures AlikeBelow(a, b, k)
  {
    for j := 0 to k
      invariant AlikeBelow(a, b, j)
    {
      if j == 0 {
        StartAlike(a, b);
      } else {
        NextAlike(a, b, j);
      }
      AlikeExtend(a, b, j);
    }
  }

  lemma AlikeExtend(a: RuleAutomaton, b: RuleAutomaton, k: nat)
    requires a.Valid() && b.Valid() && a.symbolCount == b.symbolCount
    requires k < a.StateCount() && k < b.StateCount() && AlikeBelow(a, b, k) && Alike(a, k, b, k)
    ensures AlikeBelow(a, b, k + 1)
  {
  }

  lemma CanonicalRows(a: RuleAutomaton, b: RuleAutomaton, s: nat)
    requires Canonical(a) && Canonical(b) && SameBehaviour(a, b)
    requires a.StateCount() == b.StateCount() && s < a.StateCount()
    requires AlikeBelow(a, b, a.StateCount())
    ensures a.transitions[s] == b.transitions[s] && a.outputs[s] == b.outputs[s]
  {
    assert Alike(a, s, b, s);
    forall y | 0 <= y < a.symbolCount
      ensures a.transitions[s][y] == b.transitions[s][y] && a.outputs[s][y] == b.outputs[s][y]
    {
      AlikeStep(a, s, b, s, y);
      var t := a.transitions[s][y];
      assert Alike(a, t, b, t);
      AlikeUnique(a, t, b, t, b.transitions[s][y]);
    }
  }

  /** Canonical machines with the same behaviour are the same machine. */
  lemma CanonicalUnique(a: RuleAutomaton, b: RuleAutomaton)
    requires Canonical(a) && Canonical(b) && SameBehaviour(a, b)
    ensures a == b
  {
    ReducedIsSmallest(a, b);
    SameBehaviourSymmetric(a, b);
    ReducedIsSmallest(b, a);
    CanonicalAlike(a, b, a.StateCount());
    forall s: nat | s < a.StateCount()
      ensures a.transitions[s] == b.transitions[s] && a.outputs[s] == b.outputs[s]
    {
      CanonicalRows(a, b, s);
    }
    assert a.transitions == b.transitions && a.outputs == b.outputs;
  }

  /**
   Identity is canonical: whatever canonical machines `a` and `b` reduce to, those are
   equal exactly when `a` and `b` behave alike. Hence two rules share a digest
   payload exactly when they are the same rule.
   */
  lemma CanonicalIdentity(a: RuleAutomaton, b: RuleAutomaton, ca: RuleAutomaton, cb: RuleAutomaton)
    requires a.Valid() && b.Valid()
    requires Canonical(ca) && SameBehaviour(a, ca)
    requires Canonical(cb) && SameBehaviour(b, cb)
    ensures ca == cb <==> SameBehaviour(a, b)
  {
    SameBehaviourSymmetric(a, ca);
    SameBehaviourSymmetric(b, cb);
    if ca == cb {
      SameBehaviourTransitive(a, ca, b);
    }
    if SameBehaviour(a, b) {
      SameBehaviourTransitive(ca, a, b);
      SameBehaviourTransitive(ca, b, cb);
      CanonicalUnique(ca, cb);
    }
  }

  // ------------------------------------------------------- minimized machines are unique too

  lemma {:induction false} PrecedesDeeper(m: RuleAutomaton, k: nat, l: nat, s: nat, t: nat)
    requires m.Valid() && s < m.StateCount() && t < m.StateCount() && k <= l && Precedes(m, k, s, t)
    ensures Precedes(m, l, s, t)
    decreases l
  {
    if k < l {
      PrecedesDeeper(m, k, l - 1, s, t);
    }
  }

  lemma {:induction false} PrecedesOneWay(m: RuleAutomaton, k: nat, s: nat, t: nat)
    requires m.Valid() && s < m.StateCount() && t < m.StateCount()
    ensures !(Precedes(m, k, s, t) && Precedes(m, k, t, s))
    decreases k
  {
    if k == 0 {
      AnswersOneWay(m, s, t);
    } else {
      PrecedesOneWay(m, k - 1, s, t);
      if SplitBefore(m, k - 1, s, t) && SplitBefore(m, k - 1, t, s) {
        var y: nat :| y < m.symbolCount && Splits(m, k - 1, s, t, y);
        var z: nat :| z < m.symbolCount && Splits(m, k - 1, t, s, z);
        PrecedesOneWay(m, k - 1, m.transitions[s][y], m.transitions[t][y]);
        SplitOnce(m, k - 1, s, t, y, z);
      }
    }
  }

  lemma SplitOnce(m: RuleAutomaton, k: nat, s: nat, t: nat, y: nat, z: nat)
    requires m.Valid() && s < m.StateCount() && t < m.StateCount() && y < m.symbolCount && z < m.symbolCount
    requires Splits(m, k, s, t, y) && Splits(m, k, t, s, z)
    ensures y == z
  {
    hide Precedes;
  }

  lemma AnswersOneWay(m: RuleAutomaton, s: nat, t: nat)
    requires m.Valid() && s < m.StateCount() && t < m.StateCount()
    ensures !(AnswersBefore(m, s, t) && AnswersBefore(m, t, s))
  {
    hide LexLess, AnswersBefore;
    AnswersFirst(m, s, t);
    AnswersFirst(m, t, s);
    LexTotal(m.outputs[s], m.outputs[t]);
  }

  /** Each state of a reduced machine has its counterpart in an equivalent one. */
  lemma Counterparts(a: RuleAutomaton, b: RuleAutomaton) returns (f: seq<nat>)
    requires Reduced(a) && Reduced(b) && SameBehaviour(a, b)
    ensures Simulates(a, b, f) && f[0] == 0
    ensures forall s, t :: 0 <= s < t < |f| ==> f[s] != f[t]
  {
    f := seq(a.StateCount(), s requires 0 <= s < a.StateCount() => Reach(b, 0, Access(a, s)));
    forall s | 0 <= s < |f|
      ensures Alike(a, s, b, f[s])
    {
      LandsAlike(a, b, Access(a, s));
    }
    forall s, y | 0 <= s < |f| && 0 <= y < a.symbolCount
      ensures b.outputs[f[s]][y] == a.outputs[s][y] && b.transitions[f[s]][y] == f[a.transitions[s][y]]
    {
      AlikeStep(a, s, b, f[s], y);
      var t := a.transitions[s][y];
      AlikeUnique(a, t, b, f[t], b.transitions[f[s]][y]);
    }
    StartAlike(a, b);
    AlikeUnique(a, 0, b, f[0], 0);
    forall s, t | 0 <= s < t < |f|
      ensures f[s] != f[t]
    {
      SimulatesDistinguishable(a, b, f, s, t);
    }
  }

  lemma LandsAlike(a: RuleAutomaton, b: RuleAutomaton, u: Word)
    requires a.Valid() && b.Valid() && SameBehaviour(a, b) && InAlphabet(u, a.symbolCount)
    ensures Alike(a, Reach(a, 0, u), b, Reach(b, 0, u))
  {
    forall w: Word | InAlphabet(w, a.symbolCount) && |w| > 0
      ensures EmitFrom(a, Reach(a, 0, u), w) == EmitFrom(b, Reach(b, 0, u), w)
    {
      EmitAppend(a, 0, u, w);
      EmitAppend(b, 0, u, w);
      assert Emit(a, u + w) == Emit(b, u + w);
    }
  }

  /** The counterparts of ordered states are ordered. */
  lemma CounterpartsAscend(a: RuleAutomaton, b: RuleAutomaton, f: seq<nat>, s: nat, t: nat)
    requires a.Valid() && b.Valid() && Simulates(a, b, f) && f[0] == 0 && InStateOrder(a) && InStateOrder(b)
    requires forall i, j :: 0 <= i < j < |f| ==> f[i] != f[j]
    requires 1 <= s < t < |f|
    ensures f[s] < f[t]
  {
    hide Precedes;
    var k: nat :| OrderedTo(a, k);
    var l: nat :| OrderedTo(b, l);
    PrecedesSimulated(a, b, f, k, s, t);
    if f[t] < f[s] {
      assert f[0] != f[t];
      PrecedesDeeper(b, k, k + l, f[s], f[t]);
      PrecedesDeeper(b, l, k + l, f[t], f[s]);
      PrecedesOneWay(b, k + l, f[s], f[t]);
    } else {
      assert f[s] != f[t];
    }
  }

  lemma {:induction false} AscendingIsIdentity(f: seq<nat>, i: nat)
    requires i < |f| && f[0] == 0
    requires forall j :: 1 <= j < |f| ==> 1 <= f[j] < |f|
    requires forall j, k :: 1 <= j < k < |f| ==> f[j] < f[k]
    ensures f[i] == i
  {
    for j := 0 to i
      invariant f[j] >= j
    {
    }
    if i > 0 {
      var top := |f| - 1;
      while top > i
        invariant i <= top < |f| && f[top] <= top
      {
        top := top - 1;
      }
    }
  }

  /**
   What `minimize` returns is canonical already: reduced machines with their states in order
   and with the same behaviour are the same machine.
   */
  lemma MinimizedUnique(a: RuleAutomaton, b: RuleAutomaton)
    requires Reduced(a) && Reduced(b) && InStateOrder(a) && InStateOrder(b) && SameBehaviour(a, b)
    ensures a == b
  {
    hide Precedes, Reduced, InStateOrder;
    ReducedIsValid(a);
    ReducedIsValid(b);
    ReducedIsSmallest(a, b);
    SameBehaviourSymmetric(a, b);
    ReducedIsSmallest(b, a);
    var f := Counterparts(a, b);
    forall j | 1 <= j < |f|
      ensures 1 <= f[j] < |f|
    {
      assert f[0] != f[j];
    }
    forall j, k | 1 <= j < k < |f|
      ensures f[j] < f[k]
    {
      CounterpartsAscend(a, b, f, j, k);
    }
    forall s: nat | s < |f|
      ensures f[s] == s
    {
      AscendingIsIdentity(f, s);
    }
    forall s: nat | s < |f|
      ensures a.transitions[s] == b.transitions[s] && a.outputs[s] == b.outputs[s]
    {
      SameRow(a, b, f, s);
    }
    assert a.transitions == b.transitions && a.outputs == b.outputs;
  }

  /** So the minimized machines of two rules are equal exactly when the rules behave alike. */
  lemma MinimizedIdentity(a: RuleAutomaton, b: RuleAutomaton, ma: RuleAutomaton, mb: RuleAutomaton)
    requires a.Valid() && b.Valid()
    requires Reduced(ma) && InStateOrder(ma) && SameBehaviour(a, ma)
    requires Reduced(mb) && InStateOrder(mb) && SameBehaviour(b, mb)
    ensures ma == mb <==> SameBehaviour(a, b)
  {
    hide Reduced, InStateOrder, SameBehaviour;
    ReducedIsValid(ma);
    ReducedIsValid(mb);
    SameBehaviourSymmetric(a, ma);
    SameBehaviourSymmetric(b, mb);
    if ma == mb {
      SameBehaviourTransitive(a, ma, b);
    }
    if SameBehaviour(a, b) {
      SameBehaviourTransitive(ma, a, b);
      SameBehaviourTransitive(ma, b, mb);
      MinimizedUnique(ma, mb);
    }
  }

  lemma SameRow(a: RuleAutomaton, b: RuleAutomaton, f: seq<nat>, s: nat)
    requires a.Valid() && b.Valid() && Simulates(a, b, f) && s < |f| && forall t :: 0 <= t < |f| ==> f[t] == t
    requires |f| == b.StateCount()
    ensures a.transitions[s] == b.transitions[s] && a.outputs[s] == b.outputs[s]
  {
    forall y | 0 <= y < a.symbolCount
      ensures a.transitions[s][y] == b.transitions[s][y] && a.outputs[s][y] == b.outputs[s][y]
    {
      assert f[s] == s && f[a.transitions[s][y]] == a.transitions[s][y];
      assert b.transitions[f[s]][y] == f[a.transitions[s][y]];
    }
  }
}
