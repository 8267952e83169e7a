/**
 What the search order prefers (class_escalation.py, `induce_counter_machine`).

 Moves are tried in the order 0, +1, -1 so that a hypothesis ignoring the counter is
 preferred. Two pieces of evidence show how far that goes: a smaller machine that moves the
 counter is found before a larger one that does not, and at one size an earlier target is
 found before a later move. Exactly when the preference holds is a matter of the evidence:
 at the least size that has a fitting machine, one that ignores the counter must come
 first in the order moves and targets are tried.
 */
module CounterPreference {
  import opened Traces
  import opened CounterMachines
  import opened CounterSearch

  predicate CounterFree(m: CounterMachine) {
    m.Valid() && forall s, y :: 0 <= s < m.StateCount() && 0 <= y < m.symbolCount ==> m.increments[s][y] == 0
  }

  /** Along the evidence from step `i` the machine never moves its counter. */
  ghost predicate Still(p: Problem, m: CounterMachine, i: nat, c: Config)
    requires p.Valid() && m.Valid() && m.symbolCount == p.symbolCount && c.state < m.StateCount()
    decreases |p.steps| - i
  {
    i < |p.steps| ==>
      m.increments[c.state][p.Symbol(i)] == 0 && Still(p, m, i + 1, Enter(p, i, Next(m, c, p.Symbol(i))))
  }

  /** The machine with its counter switched off. */
  function SwitchedOff(m: CounterMachine): CounterMachine {
    m.(increments := seq(m.StateCount(), s => seq(m.symbolCount, y => 0)))
  }

  lemma SwitchedOffFree(m: CounterMachine)
    requires m.Valid()
    ensures CounterFree(SwitchedOff(m)) && SwitchedOff(m).symbolCount == m.symbolCount
      && SwitchedOff(m).transitions == m.transitions
  {
  }

  lemma {:induction false} StillFits(p: Problem, m: CounterMachine, i: nat, c: Config)
    requires p.Valid() && m.Valid() && m.symbolCount == p.symbolCount && c.state < m.StateCount()
    requires Still(p, m, i, c) && Fits(p, m, i, c)
    ensures CounterFree(SwitchedOff(m)) && Fits(p, SwitchedOff(m), i, c)
    decreases |p.steps| - i
  {
    SwitchedOffFree(m);
    if i < |p.steps| {
      StillFits(p, m, i + 1, Enter(p, i, Next(m, c, p.Symbol(i))));
    }
  }

  /**
   What is not after a machine that never moves the counter, with the same targets, does not
   move it either.
   */
  lemma {:induction false} NotAfterStill(p: Problem, r: CounterMachine, m: CounterMachine, i: nat, c: Config)
    requires p.Valid() && r.Valid() && m.Valid() && r.symbolCount == m.symbolCount == p.symbolCount
    requires c.state < r.StateCount() <= m.StateCount()
    requires forall s, y :: 0 <= s < r.StateCount() && 0 <= y < r.symbolCount ==>
      m.increments[s][y] == 0 && m.transitions[s][y] == r.transitions[s][y]
    requires NotAfter(p, r, m, i, c)
    ensures Still(p, r, i, c)
    decreases |p.steps| - i
  {
    if i < |p.steps| {
      NotAfterStill(p, r, m, i + 1, Enter(p, i, Next(r, c, p.Symbol(i))));
    }
  }

  /** A fitting machine with the transitions of `r` that has no use for the counter. */
  ghost predicate FreeAlternative(p: Problem, r: CounterMachine, m: CounterMachine)
    requires p.Valid()
  {
    CounterFree(m) && m.symbolCount == p.symbolCount && m.transitions == r.transitions && Fits(p, m, 0, Config(0, 0))
  }

  lemma AlternativeMeansStill(p: Problem, r: CounterMachine, m: CounterMachine)
    requires p.Valid() && FoundFirst(p, r) && r.StateCount() <= p.states
    requires FreeAlternative(p, r, m)
    ensures Still(p, r, 0, Config(0, 0))
  {
    hide Fits, NotAfter, Still;
    var large := Enlarge(p, m, p.states, 0, Config(0, 0));
    assert NotAfter(p, r, large, 0, Config(0, 0));
    forall s, y | 0 <= s < r.StateCount() && 0 <= y < r.symbolCount
      ensures large.increments[s][y] == 0 && large.transitions[s][y] == r.transitions[s][y]
    {
      assert large.increments[s] == m.increments[s] && large.transitions[s] == m.transitions[s];
    }
    NotAfterStill(p, r, large, 0, Config(0, 0));
  }

  /**
   What the search finds leaves the counter alone exactly when a counter-free machine with
   its transitions fits.
   */
  lemma PreferenceForTransitions(p: Problem, r: CounterMachine)
    requires p.Valid() && FoundFirst(p, r) && r.StateCount() <= p.states && Fits(p, r, 0, Config(0, 0))
    ensures Still(p, r, 0, Config(0, 0)) <==> exists m :: FreeAlternative(p, r, m)
  {
    if Still(p, r, 0, Config(0, 0)) {
      StillFits(p, r, 0, Config(0, 0));
      assert FreeAlternative(p, r, SwitchedOff(r));
    }
    if m :| FreeAlternative(p, r, m) {
      AlternativeMeansStill(p, r, m);
    }
  }

  // -------------------------------------------------------- exactly when it is preferred

  /** No fitting machine of the size tried chooses before `m`, which ignores the counter. */
  ghost predicate FreeComesFirst(p: Problem, m: CounterMachine)
    requires p.Valid()
  {
    CounterFree(m) && m.StateCount() == p.states && FoundFirst(p, m) && Fits(p, m, 0, Config(0, 0))
  }

  /** Moves and targets of `m` on the states of `r` are those of `r` with the counter switched off. */
  ghost predicate Silences(m: CounterMachine, r: CounterMachine) {
    && m.Valid() && r.Valid() && m.symbolCount == r.symbolCount && r.StateCount() <= m.StateCount()
    && forall s, y :: 0 <= s < r.StateCount() && 0 <= y < r.symbolCount ==>
      m.increments[s][y] == 0 && m.transitions[s][y] == r.transitions[s][y]
  }

  /** Where `r` does not move the counter anyway, switching it off changes no choice. */
  lemma {:induction false} SilencedNotAfter(p: Problem, r: CounterMachine, m: CounterMachine, n: CounterMachine, i: nat,
      c: Config)
    requires p.Valid() && Silences(m, r) && n.Valid() && r.symbolCount == n.symbolCount == p.symbolCount
    requires c.state < r.StateCount() && c.state < n.StateCount()
    requires Still(p, r, i, c) && NotAfter(p, r, n, i, c)
    ensures NotAfter(p, m, n, i, c)
    decreases |p.steps| - i
  {
    if i < |p.steps| {
      var s, y := c.state, p.Symbol(i);
      assert m.increments[s][y] == r.increments[s][y] == 0 && m.transitions[s][y] == r.transitions[s][y];
      if r.increments[s][y] == n.increments[s][y] && r.transitions[s][y] == n.transitions[s][y] {
        SilencedNotAfter(p, r, m, n, i + 1, Enter(p, i, Next(n, c, y)));
      }
    }
  }

  /** Two machines neither of which chooses after the other choose alike. */
  lemma {:induction false} MutualStill(p: Problem, r: CounterMachine, large: CounterMachine, m: CounterMachine, i: nat,
      c: Config)
    requires p.Valid() && r.Valid() && large.Valid() && CounterFree(m)
    requires r.symbolCount == large.symbolCount == m.symbolCount == p.symbolCount
    requires r.transitions <= large.transitions && r.increments <= large.increments
    requires c.state < r.StateCount() && c.state < m.StateCount()
    requires NotAfter(p, r, m, i, c) && NotAfter(p, m, large, i, c)
    ensures Still(p, r, i, c)
    decreases |p.steps| - i
  {
    if i < |p.steps| {
      var s, y := c.state, p.Symbol(i);
      assert large.increments[s] == r.increments[s] && large.transitions[s] == r.transitions[s];
      assert m.increments[s][y] == 0;
      MutualStill(p, r, large, m, i + 1, Enter(p, i, Next(r, c, y)));
    }
  }

  /** A found machine that is still on the evidence has no move at all. */
  lemma {:induction false} StillMeets(p: Problem, m: CounterMachine, i: nat, c: Config, k: (nat, nat))
    requires p.Valid() && m.Valid() && m.symbolCount == p.symbolCount && c.state < m.StateCount()
    requires Still(p, m, i, c) && Meets(p, m, i, c, k)
    ensures k.0 < m.StateCount() && k.1 < m.symbolCount && m.increments[k.0][k.1] == 0
    decreases |p.steps| - i
  {
    if k != (c.state, p.Symbol(i)) {
      StillMeets(p, m, i + 1, Enter(p, i, Next(m, c, p.Symbol(i))), k);
    }
  }

  lemma {:induction false} FreeIsStill(p: Problem, m: CounterMachine, i: nat, c: Config)
    requires p.Valid() && CounterFree(m) && m.symbolCount == p.symbolCount && c.state < m.StateCount()
    ensures Still(p, m, i, c)
    decreases |p.steps| - i
  {
    if i < |p.steps| {
      FreeIsStill(p, m, i + 1, Enter(p, i, Next(m, c, p.Symbol(i))));
    }
  }

  lemma StillIsFree(p: Problem, m: CounterMachine)
    requires p.Valid() && MovesSeen(p, m)
    ensures Still(p, m, 0, Config(0, 0)) <==> CounterFree(m)
  {
    hide Still, Meets;
    if CounterFree(m) {
      FreeIsStill(p, m, 0, Config(0, 0));
    }
    if Still(p, m, 0, Config(0, 0)) {
      forall s, y | 0 <= s < m.StateCount() && 0 <= y < m.symbolCount
        ensures m.increments[s][y] == 0
      {
        if m.increments[s][y] != 0 {
          StillMeets(p, m, 0, Config(0, 0), (s, y));
        }
      }
    }
  }

  lemma StillComesFirst(p: Problem, r: CounterMachine) returns (m: CounterMachine)
    requires p.Valid() && FoundFirst(p, r) && r.StateCount() <= p.states && Fits(p, r, 0, Config(0, 0))
    requires Still(p, r, 0, Config(0, 0))
    ensures FreeComesFirst(p, m)
  {
    hide Fits, Still, NotAfter;
    StillFits(p, r, 0, Config(0, 0));
    SwitchedOffFree(r);
    m := Enlarge(p, SwitchedOff(r), p.states, 0, Config(0, 0));
    EnlargedFree(r, m);
    forall n: CounterMachine | n.Valid() && n.StateCount() == p.states && n.symbolCount == p.symbolCount
      && Fits(p, n, 0, Config(0, 0))
      ensures NotAfter(p, m, n, 0, Config(0, 0))
    {
      SilencedNotAfter(p, r, m, n, 0, Config(0, 0));
    }
  }

  lemma EnlargedFree(r: CounterMachine, m: CounterMachine)
    requires r.Valid() && m.Valid() && m.symbolCount == r.symbolCount
    requires var off := SwitchedOff(r); off.transitions <= m.transitions && off.increments <= m.increments
    requires forall s, y :: r.StateCount() <= s < m.StateCount() && 0 <= y < m.symbolCount ==> m.increments[s][y] == 0
    ensures CounterFree(m) && Silences(m, r)
  {
    var off := SwitchedOff(r);
    forall s, y | 0 <= s < r.StateCount() && 0 <= y < r.symbolCount
      ensures m.increments[s][y] == 0 && m.transitions[s][y] == r.transitions[s][y]
    {
      assert m.increments[s] == off.increments[s] && m.transitions[s] == off.transitions[s];
    }
  }

  lemma FirstMeansStill(p: Problem, r: CounterMachine, m: CounterMachine)
    requires p.Valid() && FoundFirst(p, r) && r.StateCount() <= p.states && Fits(p, r, 0, Config(0, 0))
    requires FreeComesFirst(p, m)
    ensures Still(p, r, 0, Config(0, 0))
  {
    hide Fits, Still, NotAfter;
    var large := Enlarge(p, r, p.states, 0, Config(0, 0));
    assert NotAfter(p, r, m, 0, Config(0, 0));
    assert NotAfter(p, m, large, 0, Config(0, 0));
    MutualStill(p, r, large, m, 0, Config(0, 0));
  }

  /**
   Exactly when the counter is left alone: the machine found does not move it along the
   evidence if and only if, of all fitting machines of the size tried, one that ignores the
   counter comes first in the order moves and targets are tried.
   */
  lemma PreferenceOfSize(p: Problem, r: CounterMachine)
    requires p.Valid() && FoundFirst(p, r) && r.StateCount() <= p.states && Fits(p, r, 0, Config(0, 0))
    ensures Still(p, r, 0, Config(0, 0)) <==> exists m :: FreeComesFirst(p, m)
  {
    hide Fits, Still;
    if Still(p, r, 0, Config(0, 0)) {
      var m := StillComesFirst(p, r);
    }
    if m :| FreeComesFirst(p, m) {
      FirstMeansStill(p, r, m);
    }
  }

  /** The least number of states of a machine that reproduces the episodes. */
  ghost predicate LeastSize(traces: seq<Trace>, size: nat) {
    && NoneBelow(traces, Width(traces), size)
    && exists m: CounterMachine ::
      m.Valid() && m.symbolCount == Width(traces) && m.StateCount() == size && FitsTraces(m, traces)
  }

  /**
   The documented preference, exactly: a search that gave up on no size returns a machine
   without a counter move if and only if, at the least size that has a fitting machine, one
   that ignores the counter comes before every other fitting machine of that size.
   */
  lemma PreferenceOnEvidence(traces: seq<Trace>, size: nat, whole: CounterMachine)
    requires size >= 1 && Induced(traces, size, whole) && whole.StateCount() == size
    requires NoneBelow(traces, Width(traces), whole.StateCount())
    ensures LeastSize(traces, size) && ProblemOf(traces, size).Valid()
    ensures CounterFree(whole) <==> exists m :: FreeComesFirst(ProblemOf(traces, size), m)
    ensures forall least: nat :: LeastSize(traces, least) ==> least == size
  {
    hide Fits, Still, FoundFirst, MovesSeen, FitsTraces, FreeComesFirst, CounterFree, Width, ProblemOf;
    StillIsFree(ProblemOf(traces, size), whole);
    InducedSize(traces, size, whole);
    PreferenceOfSize(ProblemOf(traces, size), whole);
  }

  lemma InducedSize(traces: seq<Trace>, size: nat, whole: CounterMachine)
    requires Induced(traces, size, whole)
    ensures ProblemOf(traces, size).states == size
  {
  }

  /** With one state there is nothing but the counter to choose, and the documented preference holds. */
  lemma OneStatePreference(p: Problem, r: CounterMachine)
    requires p.Valid() && p.states == 1 && FoundFirst(p, r) && r.StateCount() == 1 && Fits(p, r, 0, Config(0, 0))
    ensures Still(p, r, 0, Config(0, 0)) <==> exists m ::
      CounterFree(m) && m.symbolCount == p.symbolCount && m.StateCount() == 1 && Fits(p, m, 0, Config(0, 0))
  {
    hide Fits, Still;
    PreferenceForTransitions(p, r);
    forall m | CounterFree(m) && m.symbolCount == p.symbolCount && m.StateCount() == 1
      ensures m.transitions == r.transitions
    {
      assert m.transitions[0] == r.transitions[0];
    }
    if m :| FreeAlternative(p, r, m) {
      assert CounterFree(m) && m.StateCount() == 1;
    }
    if m :| CounterFree(m) && m.symbolCount == p.symbolCount && m.StateCount() == 1 && Fits(p, m, 0, Config(0, 0)) {
      assert FreeAlternative(p, r, m);
    }
  }

  // ------------------------------------------------------------ a smaller machine wins

  /** `a b` with b scored 1, then `b` alone scored 0. */
  const SIZE_EVIDENCE: seq<Trace> := [TraceData([0, 1], [0, 1], [false, true], 2), TraceData([1], [0], [true], 2)]

  function OneStateMover(): CounterMachine {
    CounterMachine(2, [[0, 0]], [[1, 0]], [[[0, 0, 0], [0, 1, 0]]])
  }

  function TwoStateIdler(): CounterMachine {
    CounterMachine(2, [[1, 0], [1, 1]], [[0, 0], [0, 0]], [[[0, 0, 0], [0, 0, 0]], [[0, 0, 0], [1, 0, 0]]])
  }

  /**
   A two-state machine ignores the counter and fits, and yet every fitting machine of the
   least size moves it: the sizes are tried in order and one state suffices.
   */
  lemma SizeBeatsPreference(m: CounterMachine)
    requires m.Valid() && m.symbolCount == Width(SIZE_EVIDENCE) && FitsTraces(m, SIZE_EVIDENCE)
    requires NoneBelow(SIZE_EVIDENCE, Width(SIZE_EVIDENCE), m.StateCount())
    ensures CounterFree(TwoStateIdler()) && TwoStateIdler().symbolCount == 2
      && FitsTraces(TwoStateIdler(), SIZE_EVIDENCE)
    ensures m.StateCount() == 1 && m.increments[0][0] != 0
  {
    hide FitsTraces, SIZE_EVIDENCE, TwoStateIdler, OneStateMover, Width;
    SizeAlphabet();
    SizeFits();
    SizeEvidenceFits(m);
  }

  lemma SizeAlphabet()
    ensures Width(SIZE_EVIDENCE) == 2
  {
    assert MaxSymbolCount(SIZE_EVIDENCE) == 2;
    assert AllReadable(SIZE_EVIDENCE);
    WidthDeclared(SIZE_EVIDENCE);
  }

  lemma SizeFits()
    ensures OneStateMover().Valid() && OneStateMover().symbolCount == 2 && OneStateMover().StateCount() == 1
    ensures FitsTraces(OneStateMover(), SIZE_EVIDENCE)
    ensures CounterFree(TwoStateIdler()) && TwoStateIdler().symbolCount == 2 && TwoStateIdler().StateCount() == 2
    ensures FitsTraces(TwoStateIdler(), SIZE_EVIDENCE)
  {
    hide FitsTraces, SIZE_EVIDENCE;
    SizeEvidenceFits(OneStateMover());
    SizeEvidenceFits(TwoStateIdler());
  }

  /** Fitting the two episodes, spelled out. */
  lemma SizeEvidenceFits(m: CounterMachine)
    requires m.Valid() && m.symbolCount == 2
    ensures FitsTraces(m, SIZE_EVIDENCE) <==>
      && Output(m, Next(m, Config(0, 0), 0), 1) == 1
      && Output(m, Config(0, 0), 1) == 0
  {
    var e := SIZE_EVIDENCE;
    assert e[0].symbols[..2] == [0, 1] && [0, 1][..1] == [0] && [0][..0] == [];
    assert e[1].symbols[..1] == [1] && [1][..0] == [];
    assert ConfigAfter(m, []) == Config(0, 0) && ConfigAfter(m, [0]) == Next(m, Config(0, 0), 0);
    assert LabelMet(m, e[0], 1) <==> Output(m, Next(m, Config(0, 0), 0), 1) == 1;
    assert LabelMet(m, e[1], 0) <==> Output(m, Config(0, 0), 1) == 0;
  }

  // ----------------------------------------------------------- an earlier target wins

  /** `a b b a b` with the three b scored 1, 1, 0. */
  const ORDER_EVIDENCE: seq<Trace> := [TraceData([0, 1, 1, 0, 1], [0, 1, 1, 0, 0], [false, true, true, false, true], 2)]

  const ORDER_PROBLEM: Problem := Problem(ORDER_EVIDENCE, [(0, 0), (0, 1), (0, 2), (0, 3), (0, 4)], 2, 2)

  /** Stays in state 0 on a, and tells the last b from the first by the counter. */
  function EarlyMover(): CounterMachine {
    CounterMachine(2, [[0, 1], [1, 0]], [[0, 0], [0, 1]], [[[0, 0, 0], [1, 0, 0]], [[0, 0, 0], [0, 1, 0]]])
  }

  /** Switches state on a, and never moves the counter. */
  function Toggler(): CounterMachine {
    CounterMachine(2, [[1, 0], [0, 1]], [[0, 0], [0, 0]], [[[0, 0, 0], [0, 0, 0]], [[0, 0, 0], [1, 0, 0]]])
  }

  lemma OrderEvidenceFits(m: CounterMachine)
    requires m.Valid() && m.symbolCount == 2
    ensures ORDER_PROBLEM.Valid()
    ensures var one := Next(m, Config(0, 0), 0);
      var two := Next(m, one, 1);
      var three := Next(m, two, 1);
      var four := Next(m, three, 0);
      Fits(ORDER_PROBLEM, m, 0, Config(0, 0))
      <==> Output(m, one, 1) == 1 && Output(m, two, 1) == 1 && Output(m, four, 1) == 0
  {
    var p := ORDER_PROBLEM;
    var one := Next(m, Config(0, 0), 0);
    var two := Next(m, one, 1);
    var three := Next(m, two, 1);
    var four := Next(m, three, 0);
    assert Fits(p, m, 5, Next(m, four, 1));
    assert Fits(p, m, 4, four) <==> Output(m, four, 1) == 0;
    assert Fits(p, m, 3, three) <==> Fits(p, m, 4, four);
    assert Fits(p, m, 2, two) <==> Output(m, two, 1) == 1 && Fits(p, m, 3, three);
    assert Fits(p, m, 1, one) <==> Output(m, one, 1) == 1 && Fits(p, m, 2, two);
  }

  /** No one-state machine fits, so both kinds have two states at least. */
  lemma OneStateIsNotEnough(m: CounterMachine)
    requires m.Valid() && m.symbolCount == 2 && m.StateCount() == 1
    ensures ORDER_PROBLEM.Valid() && !Fits(ORDER_PROBLEM, m, 0, Config(0, 0))
  {
    OrderEvidenceFits(m);
  }

  /** A counter-free machine of two states that stays in state 0 on a cannot fit. */
  lemma StayingNeedsCounter(m: CounterMachine)
    requires CounterFree(m) && m.symbolCount == 2 && m.StateCount() <= 2 && m.transitions[0][0] == 0
    ensures ORDER_PROBLEM.Valid() && !Fits(ORDER_PROBLEM, m, 0, Config(0, 0))
  {
    hide Fits, ORDER_PROBLEM;
    OrderEvidenceFits(m);
    var second := m.transitions[0][1];
    var third := m.transitions[second][1];
    assert Next(m, Config(0, 0), 0) == Config(0, 0);
    assert Next(m, Config(0, 0), 1) == Config(second, 0);
  }

  lemma TogglerFits()
    ensures ORDER_PROBLEM.Valid() && CounterFree(Toggler()) && Toggler().symbolCount == 2
    ensures Fits(ORDER_PROBLEM, Toggler(), 0, Config(0, 0))
  {
    hide Fits, ORDER_PROBLEM, ORDER_EVIDENCE;
    var m := Toggler();
    OrderEvidenceFits(m);
    assert Next(m, Config(0, 0), 0) == Config(1, 0) && Next(m, Config(1, 0), 1) == Config(1, 0);
    assert Next(m, Config(1, 0), 0) == Config(0, 0);
    assert Output(m, Config(1, 0), 1) == 1 && Output(m, Config(0, 0), 1) == 0;
  }

  lemma EarlyMoverFits()
    ensures ORDER_PROBLEM.Valid() && EarlyMover().Valid() && EarlyMover().symbolCount == 2
    ensures Fits(ORDER_PROBLEM, EarlyMover(), 0, Config(0, 0))
  {
    hide Fits, ORDER_PROBLEM, ORDER_EVIDENCE;
    var m := EarlyMover();
    OrderEvidenceFits(m);
    assert Next(m, Config(0, 0), 0) == Config(0, 0) && Next(m, Config(0, 0), 1) == Config(1, 0);
    assert Next(m, Config(1, 0), 1) == Config(0, 1) && Next(m, Config(0, 1), 0) == Config(0, 1);
    assert Output(m, Config(0, 0), 1) == 1 && Output(m, Config(1, 0), 1) == 1 && Output(m, Config(0, 1), 1) == 0;
  }

  /** The search finds a machine that stays in state 0 on a, since one that does fits. */
  lemma StaysFirst(r: CounterMachine)
    requires ORDER_PROBLEM.Valid() && FoundFirst(ORDER_PROBLEM, r)
    ensures r.symbolCount == 2 && r.transitions[0][0] == 0
  {
    hide Fits;
    EarlyMoverFits();
    assert NotAfter(ORDER_PROBLEM, r, EarlyMover(), 0, Config(0, 0));
  }

  lemma OrderSteps()
    ensures ORDER_PROBLEM.steps == StepsOf(ORDER_EVIDENCE, |ORDER_EVIDENCE|)
  {
  }

  /**
   At one and the same size the preference fails too: a two-state machine ignores the
   counter and fits, one state is not enough, and what the search finds moves the counter.
   */
  lemma OrderBeatsPreference(r: CounterMachine)
    requires ORDER_PROBLEM.Valid() && FoundFirst(ORDER_PROBLEM, r) && r.StateCount() <= 2
      && Fits(ORDER_PROBLEM, r, 0, Config(0, 0))
    ensures ORDER_PROBLEM.steps == StepsOf(ORDER_EVIDENCE, |ORDER_EVIDENCE|)
    ensures CounterFree(Toggler()) && Toggler().symbolCount == 2 && Fits(ORDER_PROBLEM, Toggler(), 0, Config(0, 0))
    ensures forall m: CounterMachine :: m.Valid() && m.symbolCount == 2 && m.StateCount() == 1 ==>
      !Fits(ORDER_PROBLEM, m, 0, Config(0, 0))
    ensures !Still(ORDER_PROBLEM, r, 0, Config(0, 0))
  {
    hide Fits, Still, NotAfter, Problem.Valid, Toggler, SwitchedOff, CounterFree, ORDER_PROBLEM, ORDER_EVIDENCE,
      StepsOf;
    OrderSteps();
    TogglerFits();
    StaysFirst(r);
    forall m: CounterMachine | m.Valid() && m.symbolCount == 2 && m.StateCount() == 1
      ensures !Fits(ORDER_PROBLEM, m, 0, Config(0, 0))
    {
      OneStateIsNotEnough(m);
    }
    if Still(ORDER_PROBLEM, r, 0, Config(0, 0)) {
      StillFits(ORDER_PROBLEM, r, 0, Config(0, 0));
      SwitchedOffFree(r);
      StayingNeedsCounter(SwitchedOff(r));
    }
  }
}
